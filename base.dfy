/** Shared value types: optional values, results, and PHP's loose truth tests on strings. */
module Base {

  /** A value that may be absent: PHP's `null`, an unset array key, a SQL NULL. */
  datatype Option<+T> = None | Some(value: T) {
    /** PHP's `$x ?? $default`. */
    function GetOr(default: T): T {
      if Some? then value else default
    }
  }

  /** The outcome of an operation that can fail with an error of type E. */
  datatype Result<+T, +E> = Ok(value: T) | Err(error: E)

  /** PHP's boolean conversion of a string: only "" and "0" are false. */
  predicate Truthy(s: string) {
    s != "" && s != "0"
  }

  /** PHP's `empty($v)` on a value that is either unset/null or a string. */
  predicate IsEmpty(v: Option<string>) {
    v.None? || !Truthy(v.value)
  }

  /** `$a ?? $b`, both possibly null. */
  function OrElse<T>(a: Option<T>, b: Option<T>): (r: Option<T>)
    ensures r.Some? <==> a.Some? || b.Some?
    ensures a.Some? ==> r == a
    ensures a.None? ==> r == b
  {
    if a.Some? then a else b
  }

  /** PHP's `$a ?: $b` on strings: the first operand when it is truthy, else the second. */
  function Elvis(a: Option<string>, b: string): (r: string)
    ensures a.Some? && Truthy(a.value) ==> r == a.value
    ensures !(a.Some? && Truthy(a.value)) ==> r == b
  {
    if a.Some? && Truthy(a.value) then a.value else b
  }
}
