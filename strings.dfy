/** String operations the pages rely on: PHP and JavaScript trimming, ASCII case folding,
    substring search, prefixes, and the code-point order that stands in for the collations. */
module Strings {

  /** The characters PHP's `trim()` strips by default: " \t\n\r\0\x0B". */
  const PhpTrimChars: set<char> := {' ', '\t', '\n', '\r', '\0', '\U{B}'}

  /** The characters JavaScript's `String.prototype.trim()` strips: WhiteSpace and LineTerminator. */
  const JsTrimChars: set<char> :=
    {'\t', '\U{B}', '\U{C}', ' ', '\U{A0}', '\U{FEFF}', '\n', '\r', '\U{2028}', '\U{2029}',
     '\U{1680}', '\U{2000}', '\U{2001}', '\U{2002}', '\U{2003}', '\U{2004}', '\U{2005}', '\U{2006}',
     '\U{2007}', '\U{2008}', '\U{2009}', '\U{200A}', '\U{202F}', '\U{205F}', '\U{3000}'}

  /** What PCRE's `\s` matches without the /u flag: space, \t, \n, \v, \f, \r. */
  const PcreSpaceChars: set<char> := {' ', '\t', '\n', '\U{B}', '\U{C}', '\r'}

  /** Drops the leading characters that belong to ws. */
  function TrimStart(s: string, ws: set<char>): (r: string)
    ensures |r| <= |s| && r == s[|s| - |r|..]
    ensures forall k :: 0 <= k < |s| - |r| ==> s[k] in ws
    ensures r != [] ==> r[0] !in ws
  {
    if s != [] && s[0] in ws then TrimStart(s[1..], ws) else s
  }

  /** Drops the trailing characters that belong to ws. */
  function TrimEnd(s: string, ws: set<char>): (r: string)
    ensures |r| <= |s| && r == s[..|r|]
    ensures forall k :: |r| <= k < |s| ==> s[k] in ws
    ensures r != [] ==> r[|r| - 1] !in ws
  {
    if s != [] && s[|s| - 1] in ws then TrimEnd(s[..|s| - 1], ws) else s
  }

  /** r is the slice of s that starts at i. */
  predicate SliceAt(s: string, i: int, r: string) {
    0 <= i && i + |r| <= |s| && r == s[i..i + |r|]
  }

  /** r is what is left of s once the i leading characters and everything after r, all of
      them in ws, are dropped, and r neither starts nor ends with a character of ws. */
  predicate Trimmed(s: string, ws: set<char>, i: int, r: string) {
    && SliceAt(s, i, r)
    && (forall k :: 0 <= k < i ==> s[k] in ws)
    && (forall k :: i + |r| <= k < |s| ==> s[k] in ws)
    && (r != [] ==> r[0] !in ws && r[|r| - 1] !in ws)
  }

  /** Strips ws from both ends: the result is the slice of s between the first and the
      last character outside ws. */
  function Trim(s: string, ws: set<char>): (r: string)
    ensures Trimmed(s, ws, |s| - |TrimStart(s, ws)|, r)
  {
    var t := TrimStart(s, ws);
    var r := TrimEnd(t, ws);
    TrimParts(s, t, r, ws);
    r
  }

  /** The two halves of Trim put together: what TrimEnd keeps of what TrimStart kept. */
  lemma TrimParts(s: string, t: string, r: string, ws: set<char>)
    requires |t| <= |s| && t == s[|s| - |t|..] && forall k :: 0 <= k < |s| - |t| ==> s[k] in ws
    requires t != [] ==> t[0] !in ws
    requires |r| <= |t| && r == t[..|r|] && forall k :: |r| <= k < |t| ==> t[k] in ws
    requires r != [] ==> r[|r| - 1] !in ws
    ensures Trimmed(s, ws, |s| - |t|, r)
  {
    var i := |s| - |t|;
    forall k | i + |r| <= k < |s| ensures s[k] in ws {
      assert s[k] == t[k - i];
    }
    if r != [] {
      assert r[0] == t[0];
    }
  }

  /** A trimmed string neither starts nor ends with a character of ws. */
  lemma TrimEnds(s: string, ws: set<char>)
    ensures var r := Trim(s, ws); r != [] ==> r[0] !in ws && r[|r| - 1] !in ws
  {
    var r := Trim(s, ws);
    assert Trimmed(s, ws, |s| - |TrimStart(s, ws)|, r);
  }

  /** A string with no character of ws at all trims to itself. */
  lemma TrimClean(s: string, ws: set<char>)
    requires forall k :: 0 <= k < |s| ==> s[k] !in ws
    ensures Trim(s, ws) == s
  {
    if s != [] {
      assert s[0] !in ws && s[|s| - 1] !in ws;
    }
    assert TrimStart(s, ws) == s;
    assert TrimEnd(s, ws) == s;
  }

  /** PHP's `trim($s)`. */
  function PhpTrim(s: string): string {
    Trim(s, PhpTrimChars)
  }

  /** JavaScript's `s.trim()`. */
  function JsTrim(s: string): string {
    Trim(s, JsTrimChars)
  }

  /** A string made only of ws trims to the empty string. */
  lemma TrimAllWs(s: string, ws: set<char>)
    requires forall k :: 0 <= k < |s| ==> s[k] in ws
    ensures Trim(s, ws) == ""
  {
    var t := TrimStart(s, ws);
    assert t == [];
  }

  /** Trimming twice is trimming once. */
  lemma {:induction false} TrimIdempotent(s: string, ws: set<char>)
    ensures Trim(Trim(s, ws), ws) == Trim(s, ws)
  {
    var r := Trim(s, ws);
    if r != [] {
      assert TrimStart(r, ws) == r;
      assert TrimEnd(r, ws) == r;
    }
  }

  /** One character folded to lower case, ASCII letters only (PHP 8 `strtolower`). */
  function LowerChar(c: char): char {
    if 'A' <= c <= 'Z' then (c as int + 32) as char else c
  }

  /** ASCII lower-casing of a whole string. */
  function Lower(s: string): (r: string)
    ensures |r| == |s|
    ensures forall k :: 0 <= k < |s| ==> r[k] == LowerChar(s[k])
  {
    if s == [] then [] else [LowerChar(s[0])] + Lower(s[1..])
  }

  /** One character as JavaScript's `toLowerCase` folds it, for the ASCII and Latin-1 capitals
      (A-Z and U+00C0-U+00DE except the multiplication sign: Á, É, Í, Ñ, Ó, Ú, Ü, ...); other
      characters are kept. */
  function JsLowerChar(c: char): char {
    if 'A' <= c <= 'Z' || ('\U{C0}' <= c <= '\U{DE}' && c != '\U{D7}') then (c as int + 32) as char else c
  }

  /** JavaScript `toLowerCase` on the ASCII and Latin-1 range, character by character. */
  function JsLower(s: string): (r: string)
    ensures |r| == |s|
    ensures forall k :: 0 <= k < |s| ==> r[k] == JsLowerChar(s[k])
  {
    if s == [] then [] else [JsLowerChar(s[0])] + JsLower(s[1..])
  }

  /** Lower-casing works character by character, so it distributes over concatenation. */
  lemma JsLowerAppend(a: string, b: string)
    ensures JsLower(a + b) == JsLower(a) + JsLower(b)
  {
    var l, r := JsLower(a + b), JsLower(a) + JsLower(b);
    assert forall k :: 0 <= k < |a| ==> (a + b)[k] == a[k];
    assert forall k :: |a| <= k < |a| + |b| ==> (a + b)[k] == b[k - |a|];
    assert forall k :: 0 <= k < |l| ==> l[k] == r[k];
  }

  /** Lower-casing twice is lower-casing once. */
  lemma JsLowerIdempotent(s: string)
    ensures JsLower(JsLower(s)) == JsLower(s)
  {
    assert forall k :: 0 <= k < |s| ==> JsLowerChar(JsLowerChar(s[k])) == JsLowerChar(s[k]);
  }

  /** True iff p is a prefix of s (JavaScript `startsWith`). */
  predicate StartsWith(s: string, p: string) {
    |p| <= |s| && s[..|p|] == p
  }

  /** True iff needle occurs in hay at position i. */
  predicate OccursAt(hay: string, needle: string, i: int) {
    0 <= i && i + |needle| <= |hay| && hay[i..i + |needle|] == needle
  }

  /** Substring search (JavaScript `includes`, PHP `indexOf(...) !== -1`). */
  function Contains(hay: string, needle: string): bool
    ensures Contains(hay, needle) ==> |needle| <= |hay|
    decreases |hay|
  {
    if StartsWith(hay, needle) then true
    else if hay == [] then false
    else Contains(hay[1..], needle)
  }

  /** The search finds an occurrence exactly when there is one. */
  lemma {:induction false} ContainsIff(hay: string, needle: string)
    ensures Contains(hay, needle) <==> exists i :: OccursAt(hay, needle, i)
    decreases |hay|
  {
    if StartsWith(hay, needle) {
      assert OccursAt(hay, needle, 0);
    } else if hay == [] {
      assert forall i :: !OccursAt(hay, needle, i);
    } else {
      OccursShift(hay, needle);
      ContainsIff(hay[1..], needle);
    }
  }

  /** Away from position 0, an occurrence in hay is an occurrence in its tail shifted by one. */
  lemma OccursShift(hay: string, needle: string)
    requires hay != [] && !OccursAt(hay, needle, 0)
    ensures (exists i :: OccursAt(hay, needle, i)) <==> (exists i :: OccursAt(hay[1..], needle, i))
  {
    forall i | OccursAt(hay[1..], needle, i) ensures OccursAt(hay, needle, i + 1) {
      assert hay[1..][i..i + |needle|] == hay[i + 1..i + 1 + |needle|];
    }
    forall i | OccursAt(hay, needle, i) ensures OccursAt(hay[1..], needle, i - 1) {
      assert i != 0;
      assert hay[1..][i - 1..i - 1 + |needle|] == hay[i..i + |needle|];
    }
  }

  /** Every string contains the empty string and itself. */
  lemma ContainsTrivial(s: string)
    ensures Contains(s, "") && Contains(s, s)
  {
    assert StartsWith(s, "") && StartsWith(s, s);
  }

  /** Code-point lexicographic order. After Lower it is `strcasecmp`; it also stands in for
      the MySQL collation and PHP's natural `sort`, which differ from it on accented letters
      and on runs of digits. */
  predicate LexLe(a: string, b: string)
    decreases |a|
  {
    if a == [] then true
    else if b == [] then false
    else if a[0] != b[0] then a[0] < b[0]
    else LexLe(a[1..], b[1..])
  }

  lemma {:induction false} LexLeTotal(a: string, b: string)
    ensures LexLe(a, b) || LexLe(b, a)
    decreases |a|
  {
    if a != [] && b != [] && a[0] == b[0] {
      LexLeTotal(a[1..], b[1..]);
    }
  }

  lemma {:induction false} LexLeTransitive(a: string, b: string, c: string)
    requires LexLe(a, b) && LexLe(b, c)
    ensures LexLe(a, c)
    decreases |a|
  {
    if a != [] && b != [] && c != [] && a[0] == b[0] && b[0] == c[0] {
      LexLeTransitive(a[1..], b[1..], c[1..]);
    }
  }

  lemma {:induction false} LexLeAntisymmetric(a: string, b: string)
    requires LexLe(a, b) && LexLe(b, a)
    ensures a == b
    decreases |a|
  {
    if a != [] && b != [] {
      LexLeAntisymmetric(a[1..], b[1..]);
      assert a == [a[0]] + a[1..] && b == [b[0]] + b[1..];
    }
  }
}
