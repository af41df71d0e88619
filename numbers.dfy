/** Integer text as the pages read and write it: PHP's `intval` / `(int)` on strings,
    `is_numeric`, decimal rendering of non-negative integers, and `bin2hex`. */
module Numbers {

  /** A byte, as `random_bytes` produces them. */
  type Byte = x: int | 0 <= x < 256

  predicate IsDigit(c: char) {
    '0' <= c <= '9'
  }

  function DigitValue(c: char): nat
    requires IsDigit(c)
  {
    c as int - '0' as int
  }

  function DigitChar(d: nat): (c: char)
    requires d < 10
    ensures IsDigit(c) && DigitValue(c) == d
  {
    ('0' as int + d) as char
  }

  predicate AllDigits(s: string) {
    forall k :: 0 <= k < |s| ==> IsDigit(s[k])
  }

  /** The value of a string of decimal digits, most significant first. */
  function DigitsValue(s: string): nat
    requires AllDigits(s)
  {
    if s == [] then 0 else 10 * DigitsValue(s[..|s| - 1]) + DigitValue(s[|s| - 1])
  }

  /** The longest prefix of s made of digits. */
  function DigitPrefix(s: string): (r: string)
    ensures |r| <= |s| && r == s[..|r|] && AllDigits(r)
    ensures |r| < |s| ==> !IsDigit(s[|r|])
  {
    if s != [] && IsDigit(s[0]) then [s[0]] + DigitPrefix(s[1..]) else []
  }

  /** The whitespace PHP skips before a numeric string: " \t\n\r\v\f". */
  const NumericLeadingWs: set<char> := {' ', '\t', '\n', '\r', '\U{B}', '\U{C}'}

  function SkipLeadingWs(s: string): (r: string)
    ensures |r| <= |s| && r == s[|s| - |r|..]
    ensures r != [] ==> r[0] !in NumericLeadingWs
  {
    if s != [] && s[0] in NumericLeadingWs then SkipLeadingWs(s[1..]) else s
  }

  /** The integer-literal part of PHP's `intval($s)` (and `(int)$s`) on a string: leading
      whitespace, an optional sign, then as many digits as follow; no digits gives 0. PHP also
      reads a fraction or an exponent after the digits ("1e3" is 1000, "-1e-3" is 0) and caps
      the value at the 64-bit limits; this reading stops at the first non-digit and is
      unbounded. */
  function IntVal(s: string): int {
    var t := SkipLeadingWs(s);
    if t != [] && t[0] == '-' then 0 - DigitsValue(DigitPrefix(t[1..])) as int
    else if t != [] && t[0] == '+' then DigitsValue(DigitPrefix(t[1..]))
    else DigitsValue(DigitPrefix(t))
  }

  /** PHP's `is_numeric` restricted to integer literals: optional leading whitespace and sign,
      at least one digit, optional trailing whitespace. PHP also accepts a fraction and an
      exponent ("1.5", "1e2"), which this predicate rejects. */
  predicate IsNumericInt(s: string) {
    var t := SkipLeadingWs(s);
    var u := if t != [] && (t[0] == '-' || t[0] == '+') then t[1..] else t;
    var d := DigitPrefix(u);
    d != [] && forall k :: |d| <= k < |u| ==> u[k] in NumericLeadingWs
  }

  /** The decimal rendering of n, as PHP's string conversion and JavaScript's `String(n)` give it. */
  function NatToString(n: nat): (r: string)
    ensures r != [] && AllDigits(r)
    ensures r[0] == '0' ==> n == 0 && r == "0"
  {
    if n < 10 then [DigitChar(n)] else NatToString(n / 10) + [DigitChar(n % 10)]
  }

  lemma {:induction false} DigitsValueOfDecimal(n: nat)
    ensures DigitsValue(NatToString(n)) == n
  {
    if n >= 10 {
      var s := NatToString(n);
      assert s[..|s| - 1] == NatToString(n / 10);
      DigitsValueOfDecimal(n / 10);
    }
  }

  /** Round trip: reading back the decimal rendering of a non-negative integer gives it back. */
  lemma IntValOfDecimal(n: nat)
    ensures IntVal(NatToString(n)) == n
    ensures IsNumericInt(NatToString(n))
  {
    DigitsReadBack(NatToString(n));
    DigitsValueOfDecimal(n);
  }

  /** A non-empty string of digits is numeric and reads as its digits' value. */
  lemma DigitsReadBack(s: string)
    requires s != [] && AllDigits(s)
    ensures IntVal(s) == DigitsValue(s)
    ensures IsNumericInt(s)
  {
    assert s[0] != '-' && s[0] != '+' && s[0] !in NumericLeadingWs;
    assert SkipLeadingWs(s) == s;
    DigitPrefixOfDigits(s);
  }

  /** A string of digits is its own digit prefix. */
  lemma {:induction false} DigitPrefixOfDigits(s: string)
    requires AllDigits(s)
    ensures DigitPrefix(s) == s
  {
    if s != [] {
      assert IsDigit(s[0]);
      assert AllDigits(s[1..]) by {
        forall k | 0 <= k < |s| - 1 ensures IsDigit(s[1..][k]) {
          assert s[1..][k] == s[k + 1];
        }
      }
      DigitPrefixOfDigits(s[1..]);
    }
  }

  /** Round trip for negative numbers rendered with a leading minus sign. */
  lemma IntValOfNegative(n: nat)
    ensures IntVal("-" + NatToString(n)) == 0 - n as int
  {
    var d := NatToString(n);
    var s := "-" + d;
    assert s[0] == '-' && s[0] !in NumericLeadingWs;
    assert SkipLeadingWs(s) == s;
    assert s[1..] == d;
    var p := DigitPrefix(d);
    assert |p| == |d|;
    assert p == d;
    DigitsValueOfDecimal(n);
  }

  lemma NatToStringInjective(m: nat, n: nat)
    requires NatToString(m) == NatToString(n)
    ensures m == n
  {
    DigitsValueOfDecimal(m);
    DigitsValueOfDecimal(n);
  }

  function HexDigit(d: nat): (c: char)
    requires d < 16
  {
    if d < 10 then DigitChar(d) else ('a' as int + d - 10) as char
  }

  predicate IsLowerHex(c: char) {
    IsDigit(c) || 'a' <= c <= 'f'
  }

  /** PHP's `bin2hex`: two lower-case hexadecimal digits per byte, high nibble first. */
  function Bin2Hex(bytes: seq<Byte>): (r: string)
    ensures |r| == 2 * |bytes|
    ensures forall k :: 0 <= k < |r| ==> IsLowerHex(r[k])
  {
    if bytes == [] then []
    else [HexDigit(bytes[0] / 16), HexDigit(bytes[0] % 16)] + Bin2Hex(bytes[1..])
  }

  lemma HexDigitInjective(a: nat, b: nat)
    requires a < 16 && b < 16 && HexDigit(a) == HexDigit(b)
    ensures a == b
  {
  }

  /** Different bytes give different hexadecimal text. */
  lemma {:induction false} Bin2HexInjective(a: seq<Byte>, b: seq<Byte>)
    requires Bin2Hex(a) == Bin2Hex(b)
    ensures a == b
  {
    if a != [] {
      var ha, hb := Bin2Hex(a), Bin2Hex(b);
      assert ha[0] == hb[0] && ha[1] == hb[1];
      HexDigitInjective(a[0] / 16, b[0] / 16);
      HexDigitInjective(a[0] % 16, b[0] % 16);
      assert ha[2..] == Bin2Hex(a[1..]) && hb[2..] == Bin2Hex(b[1..]);
      Bin2HexInjective(a[1..], b[1..]);
      assert a == [a[0]] + a[1..] && b == [b[0]] + b[1..];
    }
  }
}
