/** Schema-tolerant column resolution: which of a priority list of candidate columns a table
    really has, and which candidate first holds a value in a fetched row. */
module Columns {
  import opened Base

  /** A fetched row: column name to value, with SQL NULL as None. */
  type Row = map<string, Option<string>>

  /** The position of the first candidate present in cols, or |cands| when none is. */
  function FirstPresentIndex(cands: seq<string>, cols: set<string>): (i: nat)
    ensures i <= |cands|
    ensures forall j :: 0 <= j < i ==> cands[j] !in cols
    ensures i < |cands| ==> cands[i] in cols
  {
    if cands == [] then 0
    else if cands[0] in cols then 0
    else 1 + FirstPresentIndex(cands[1..], cols)
  }

  /** The first candidate the schema has, if any. */
  function FirstPresent(cands: seq<string>, cols: set<string>): (r: Option<string>)
    ensures r.None? <==> forall j :: 0 <= j < |cands| ==> cands[j] !in cols
    ensures r.Some? ==> r.value in cols && exists i :: (0 <= i < |cands| && cands[i] == r.value
      && forall j :: 0 <= j < i ==> cands[j] !in cols)
  {
    var i := FirstPresentIndex(cands, cols);
    if i < |cands| then Some(cands[i]) else None
  }

  /** The column exists in the row and holds neither NULL nor the empty string. */
  predicate HasValue(row: Row, c: string) {
    c in row && row[c].Some? && row[c].value != ""
  }

  /** The position of the first candidate whose value in row is present, non-null and non-empty. */
  function FirstNonEmptyIndex(cands: seq<string>, row: Row): (i: nat)
    ensures i <= |cands|
    ensures forall j :: 0 <= j < i ==> !HasValue(row, cands[j])
    ensures i < |cands| ==> HasValue(row, cands[i])
  {
    if cands == [] then 0
    else if HasValue(row, cands[0]) then 0
    else 1 + FirstNonEmptyIndex(cands[1..], row)
  }

  /** The value of the first candidate that holds a non-empty value in row, if any. */
  function FirstNonEmpty(cands: seq<string>, row: Row): (r: Option<string>)
    ensures r.None? <==> forall j :: 0 <= j < |cands| ==> !HasValue(row, cands[j])
    ensures r.Some? ==> r.value != "" && exists i :: (0 <= i < |cands| && HasValue(row, cands[i])
      && row[cands[i]] == Some(r.value) && forall j :: 0 <= j < i ==> !HasValue(row, cands[j]))
  {
    var i := FirstNonEmptyIndex(cands, row);
    if i < |cands| then row[cands[i]] else None
  }

  /** PHP's `array_values(array_intersect($cands, $cols))`: the candidates the schema has,
      in candidate order. */
  function Intersect(cands: seq<string>, cols: set<string>): (r: seq<string>)
    ensures forall c :: c in r <==> c in cands && c in cols
    ensures |r| <= |cands|
    ensures r != [] ==> FirstPresentIndex(cands, cols) < |cands| && r[0] == cands[FirstPresentIndex(cands, cols)]
  {
    if cands == [] then []
    else if cands[0] in cols then [cands[0]] + Intersect(cands[1..], cols)
    else
      var rest := Intersect(cands[1..], cols);
      assert rest != [] ==> FirstPresentIndex(cands, cols) == 1 + FirstPresentIndex(cands[1..], cols);
      rest
  }

  /** `array_intersect` keeps candidate order: of two kept columns, the earlier one comes
      earlier in the candidate list. */
  lemma {:induction false} IntersectInOrder(cands: seq<string>, cols: set<string>, i: nat, j: nat)
    requires i < j < |Intersect(cands, cols)|
    ensures InOrder(cands, Intersect(cands, cols)[i], Intersect(cands, cols)[j])
  {
    var r := Intersect(cands, cols);
    var rest := Intersect(cands[1..], cols);
    IntersectCons(cands, cols);
    if cands[0] in cols {
      assert r[j] == rest[j - 1];
      if i == 0 {
        HeadBeforeTail(cands, rest[j - 1]);
      } else {
        assert r[i] == rest[i - 1];
        IntersectInOrder(cands[1..], cols, i - 1, j - 1);
        InOrderShift(cands, rest[i - 1], rest[j - 1]);
      }
    } else {
      assert r == rest;
      IntersectInOrder(cands[1..], cols, i, j);
      InOrderShift(cands, rest[i], rest[j]);
    }
  }

  /** x occurs in cands at a position before one where y occurs. */
  ghost predicate InOrder(cands: seq<string>, x: string, y: string) {
    exists a, b :: 0 <= a < b < |cands| && cands[a] == x && cands[b] == y
  }

  lemma InOrderShift(cands: seq<string>, x: string, y: string)
    requires cands != [] && InOrder(cands[1..], x, y)
    ensures InOrder(cands, x, y)
  {
    var a, b :| 0 <= a < b < |cands[1..]| && cands[1..][a] == x && cands[1..][b] == y;
    assert cands[a + 1] == x && cands[b + 1] == y;
  }

  lemma HeadBeforeTail(cands: seq<string>, y: string)
    requires cands != [] && y in cands[1..]
    ensures InOrder(cands, cands[0], y)
  {
    var b :| 0 <= b < |cands[1..]| && cands[1..][b] == y;
    assert cands[b + 1] == y;
  }

  /** One step of `Intersect`: the head is kept exactly when the table has it. */
  lemma IntersectCons(cands: seq<string>, cols: set<string>)
    requires cands != []
    ensures Intersect(cands, cols)
      == (if cands[0] in cols then [cands[0]] else []) + Intersect(cands[1..], cols)
  {
  }

  /** The `COALESCE` over the prefixed present candidates reads the first candidate that the
      table has and whose value in the row is not NULL: candidate order is the priority. */
  lemma {:induction false} CoalesceFirstCandidate(p: string, cands: seq<string>, cols: set<string>, row: Row, k: nat)
    requires k < |cands| && cands[k] in cols && IsSet(row, p + cands[k])
    requires forall j :: 0 <= j < k ==> cands[j] !in cols || !IsSet(row, p + cands[j])
    ensures CoalesceColumns(Prefixed(p, Intersect(cands, cols)), row) == row[p + cands[k]].value
  {
    var tail := cands[1..];
    var rest := Intersect(tail, cols);
    IntersectCons(cands, cols);
    if k > 0 {
      assert forall j :: 0 <= j < k - 1 ==> tail[j] !in cols || !IsSet(row, p + tail[j]) by {
        forall j | 0 <= j < k - 1 ensures tail[j] !in cols || !IsSet(row, p + tail[j]) {
          assert tail[j] == cands[j + 1];
        }
      }
      assert tail[k - 1] == cands[k];
      CoalesceFirstCandidate(p, tail, cols, row, k - 1);
    }
    if cands[0] in cols {
      var pr := Prefixed(p, [cands[0]] + rest);
      assert pr[1..] == Prefixed(p, rest);
      if k == 0 {
        CoalesceColumnsFirstNonNull(pr, row, 0);
      } else {
        CoalesceColumnsSkip(pr, row);
      }
    }
  }

  /** A leading column that is NULL or missing does not take part in the `COALESCE`. */
  lemma CoalesceColumnsSkip(cols: seq<string>, row: Row)
    requires cols != [] && !IsSet(row, cols[0])
    ensures CoalesceColumns(cols, row) == CoalesceColumns(cols[1..], row)
  {
    assert ValuesOf(cols, row)[1..] == ValuesOf(cols[1..], row);
  }

  /** SQL `COALESCE(v1, ..., vn, default)`: the first non-NULL value. */
  function Coalesce(vals: seq<Option<string>>, default: string): (r: string)
    ensures (forall k :: 0 <= k < |vals| ==> vals[k].None?) ==> r == default
    ensures forall k :: (0 <= k < |vals| && vals[k].Some? && (forall j :: 0 <= j < k ==> vals[j].None?)
      ==> r == vals[k].value)
  {
    if vals == [] then default
    else if vals[0].Some? then vals[0].value
    else Coalesce(vals[1..], default)
  }

  /** `IN_ARRAY` over a fetched column list, as a set. */
  function ColumnSet(cols: seq<string>): (s: set<string>)
    ensures forall c :: c in s <==> c in cols
  {
    set c | c in cols
  }

  /** The `foreach ... if (in_array($cand, $cols, true)) { $col = $cand; break; }` search. */
  method FindFirstPresent(cands: seq<string>, cols: seq<string>) returns (col: Option<string>)
    ensures col == FirstPresent(cands, ColumnSet(cols))
  {
    col := None;
    var i := 0;
    while i < |cands|
      invariant 0 <= i <= |cands|
      invariant forall j :: 0 <= j < i ==> cands[j] !in cols
      invariant col == None
    {
      if cands[i] in cols {
        col := Some(cands[i]);
        break;
      }
      i := i + 1;
    }
    FirstPresentAt(cands, ColumnSet(cols), i);
  }

  /** The search over a fetched row: the first candidate that exists, is not NULL and is not ''. */
  method FindFirstNonEmpty(cands: seq<string>, row: Row) returns (v: Option<string>)
    ensures v == FirstNonEmpty(cands, row)
  {
    v := None;
    var i := 0;
    while i < |cands|
      invariant 0 <= i <= |cands|
      invariant forall j :: 0 <= j < i ==> !HasValue(row, cands[j])
      invariant v == None
    {
      var c := cands[i];
      if c in row && row[c].Some? && row[c].value != "" {
        v := row[c];
        break;
      }
      i := i + 1;
    }
    FirstNonEmptyAt(cands, row, i);
  }

  /** The first-present index is the only index before which no candidate is present and at
      which one is (or the end is reached). */
  lemma {:induction false} FirstPresentAt(cands: seq<string>, cols: set<string>, i: nat)
    requires i <= |cands|
    requires forall j :: 0 <= j < i ==> cands[j] !in cols
    requires i < |cands| ==> cands[i] in cols
    ensures FirstPresentIndex(cands, cols) == i
  {
    if cands != [] && i > 0 {
      FirstPresentAt(cands[1..], cols, i - 1);
    }
  }

  lemma {:induction false} FirstNonEmptyAt(cands: seq<string>, row: Row, i: nat)
    requires i <= |cands|
    requires forall j :: 0 <= j < i ==> !HasValue(row, cands[j])
    requires i < |cands| ==> HasValue(row, cands[i])
    ensures FirstNonEmptyIndex(cands, row) == i
  {
    if cands != [] && i > 0 {
      FirstNonEmptyAt(cands[1..], row, i - 1);
    }
  }

  /** `isset($row[c])`: present and not NULL. */
  predicate IsSet(row: Row, c: string) {
    c in row && row[c].Some?
  }

  /** A fetched value as PHP reads `(string)($row[c] ?? '')` or concatenates it: NULL and a
      missing key give ''. */
  function Text(row: Row, c: string): (t: string)
    ensures IsSet(row, c) ==> t == row[c].value
    ensures !IsSet(row, c) ==> t == ""
  {
    if IsSet(row, c) then row[c].value else ""
  }

  /** Column names qualified with a table alias. */
  function Prefixed(p: string, cols: seq<string>): (r: seq<string>)
    ensures |r| == |cols| && forall k :: 0 <= k < |r| ==> r[k] == p + cols[k]
  {
    if cols == [] then [] else [p + cols[0]] + Prefixed(p, cols[1..])
  }

  /** The grade expressions of the student queries, in priority order: `a.grado`, `g.grado`,
      `g.semestre`, each only when its table has the column. */
  function GradoExpressions(alCols: set<string>, grCols: set<string>): (r: seq<string>)
    ensures "a.grado" in r <==> "grado" in alCols
    ensures "g.grado" in r <==> "grado" in grCols
    ensures "g.semestre" in r <==> "semestre" in grCols
    ensures |r| <= 3
    ensures r != [] && "grado" in alCols ==> r[0] == "a.grado"
  {
    (if "grado" in alCols then ["a.grado"] else [])
    + (if "grado" in grCols then ["g.grado"] else [])
    + (if "semestre" in grCols then ["g.semestre"] else [])
  }

  /** The values of the named columns in a joined row (an absent column reads as NULL). */
  function ValuesOf(cols: seq<string>, row: Row): (r: seq<Option<string>>)
    ensures |r| == |cols|
    ensures forall k :: 0 <= k < |cols| ==> r[k] == (if cols[k] in row then row[cols[k]] else None)
  {
    if cols == [] then [] else [if cols[0] in row then row[cols[0]] else None] + ValuesOf(cols[1..], row)
  }

  /** `COALESCE(<cols>, '')` over a joined row, or `'' AS ...` when there is no candidate. */
  function CoalesceColumns(cols: seq<string>, row: Row): string {
    Coalesce(ValuesOf(cols, row), "")
  }

  /** The coalesced value is that of the first candidate column that is not NULL ... */
  lemma CoalesceColumnsFirstNonNull(cols: seq<string>, row: Row, k: nat)
    requires k < |cols| && IsSet(row, cols[k])
    requires forall j :: 0 <= j < k ==> !IsSet(row, cols[j])
    ensures CoalesceColumns(cols, row) == row[cols[k]].value
  {
    var vals := ValuesOf(cols, row);
    assert vals[k] == row[cols[k]];
    assert forall j :: 0 <= j < k ==> vals[j].None?;
  }

  /** ... and '' when every candidate is NULL or missing. */
  lemma CoalesceColumnsAllNull(cols: seq<string>, row: Row)
    requires forall j :: 0 <= j < |cols| ==> !IsSet(row, cols[j])
    ensures CoalesceColumns(cols, row) == ""
  {
    var vals := ValuesOf(cols, row);
    assert forall j :: 0 <= j < |vals| ==> vals[j].None?;
  }
}
