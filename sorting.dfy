/** Orderings the pages ask for (SQL `ORDER BY`, PHP `sort` and `usort`), modelled as an
    insertion sort under a total preorder. */
module Sorting {
  import opened Strings

  /** le is total and transitive: a comparator PHP's `usort` or a SQL `ORDER BY` can use. */
  ghost predicate TotalPreorder<T(!new)>(le: (T, T) -> bool) {
    && (forall a, b :: le(a, b) || le(b, a))
    && (forall a, b, c :: le(a, b) && le(b, c) ==> le(a, c))
  }

  /** Every element is le-below every later one. */
  predicate SortedBy<T>(s: seq<T>, le: (T, T) -> bool) {
    forall i, j :: 0 <= i < j < |s| ==> le(s[i], s[j])
  }

  /** Inserts x before the first element it is le-below. */
  function Insert<T(!new)>(x: T, s: seq<T>, le: (T, T) -> bool): (r: seq<T>)
    requires TotalPreorder(le) && SortedBy(s, le)
    ensures SortedBy(r, le)
    ensures multiset(r) == multiset(s) + multiset{x}
  {
    if s == [] || le(x, s[0]) then
      ConsSorted(x, s, le);
      [x] + s
    else
      var tail := Insert(x, s[1..], le);
      HeadBelowInserted(x, s, tail, le);
      ConsSorted(s[0], tail, le);
      assert s == [s[0]] + s[1..];
      [s[0]] + tail
  }

  /** An element le-below every element of a sorted sequence can go in front of it. */
  lemma ConsSorted<T(!new)>(h: T, s: seq<T>, le: (T, T) -> bool)
    requires TotalPreorder(le) && SortedBy(s, le)
    requires s == [] || le(h, s[0])
    ensures SortedBy([h] + s, le)
  {
    var r := [h] + s;
    forall i, j | 0 <= i < j < |r| ensures le(r[i], r[j]) {
      if i == 0 && j > 1 {
        assert le(s[0], s[j - 1]);
      }
    }
  }

  /** Inserting x behind the head of s keeps the head le-below everything after it. */
  lemma HeadBelowInserted<T(!new)>(x: T, s: seq<T>, tail: seq<T>, le: (T, T) -> bool)
    requires TotalPreorder(le) && SortedBy(s, le) && s != [] && !le(x, s[0])
    requires multiset(tail) == multiset(s[1..]) + multiset{x}
    ensures tail == [] || le(s[0], tail[0])
  {
    if tail != [] {
      assert tail[0] in multiset(tail);
      if tail[0] != x {
        assert tail[0] in multiset(s[1..]);
        var k :| 0 <= k < |s[1..]| && s[1..][k] == tail[0];
        assert s[1..][k] == s[k + 1];
      }
    }
  }

  /** Orders s by le (insertion sort); the result is a sorted permutation of s. */
  function SortBy<T(!new)>(s: seq<T>, le: (T, T) -> bool): (r: seq<T>)
    requires TotalPreorder(le)
    ensures SortedBy(r, le)
    ensures multiset(r) == multiset(s)
    ensures |r| == |s|
  {
    if s == [] then []
    else
      assert s == [s[0]] + s[1..];
      Insert(s[0], SortBy(s[1..], le), le)
  }

  /** The elements of s that le ranks level with z, in the order s has them. */
  function Level<T>(s: seq<T>, le: (T, T) -> bool, z: T): (r: seq<T>)
    ensures |r| <= |s|
    ensures forall k :: 0 <= k < |r| ==> le(r[k], z) && le(z, r[k])
  {
    if s == [] then []
    else (if le(s[0], z) && le(z, s[0]) then [s[0]] else []) + Level(s[1..], le, z)
  }

  /** Insertion puts x in front of the elements level with it. */
  lemma {:induction false} InsertLevel<T(!new)>(x: T, s: seq<T>, le: (T, T) -> bool, z: T)
    requires TotalPreorder(le) && SortedBy(s, le)
    ensures Level(Insert(x, s, le), le, z)
      == (if le(x, z) && le(z, x) then [x] else []) + Level(s, le, z)
  {
    if s == [] || le(x, s[0]) {
      assert ([x] + s)[1..] == s;
    } else {
      var tail := Insert(x, s[1..], le);
      InsertLevel(x, s[1..], le, z);
      assert ([s[0]] + tail)[1..] == tail;
      if le(x, z) && le(z, x) {
        // s[0] is not level with z, or x would be le-below it
        assert !(le(s[0], z) && le(z, s[0]));
      }
    }
  }

  /** The sort is stable: elements le ranks level keep the order they came in. */
  lemma {:induction false} SortByStable<T(!new)>(s: seq<T>, le: (T, T) -> bool, z: T)
    requires TotalPreorder(le)
    ensures Level(SortBy(s, le), le, z) == Level(s, le, z)
  {
    if s != [] {
      SortByStable(s[1..], le, z);
      InsertLevel(s[0], SortBy(s[1..], le), le, z);
    }
  }

  /** The string order PHP's `sort` and the SQL collations stand for is a total preorder. */
  lemma LexLeIsTotalPreorder()
    ensures TotalPreorder(LexLe)
  {
    forall a, b ensures LexLe(a, b) || LexLe(b, a) {
      LexLeTotal(a, b);
    }
    forall a, b, c | LexLe(a, b) && LexLe(b, c) ensures LexLe(a, c) {
      LexLeTransitive(a, b, c);
    }
  }

  /** No element occurs twice. */
  predicate Distinct<T(==)>(s: seq<T>) {
    forall i, j :: 0 <= i < j < |s| ==> s[i] != s[j]
  }

  lemma {:induction false} DistinctCountsOnce<T>(s: seq<T>, x: T)
    requires Distinct(s)
    ensures multiset(s)[x] <= 1
  {
    if s != [] {
      assert s == [s[0]] + s[1..];
      assert Distinct(s[1..]) by {
        forall i, j | 0 <= i < j < |s[1..]| ensures s[1..][i] != s[1..][j] {
          assert s[1..][i] == s[i + 1] && s[1..][j] == s[j + 1];
        }
      }
      DistinctCountsOnce(s[1..], x);
      if x == s[0] {
        assert x !in s[1..] by {
          forall k | 0 <= k < |s[1..]| ensures s[1..][k] != x {
            assert s[1..][k] == s[k + 1];
          }
        }
      }
    }
  }

  /** A permutation of a sequence without repetitions has none either, so sorting keeps it. */
  lemma PermutationKeepsDistinct<T>(s: seq<T>, r: seq<T>)
    requires Distinct(s) && multiset(r) == multiset(s)
    ensures Distinct(r)
  {
    forall i, j | 0 <= i < j < |r| ensures r[i] != r[j] {
      if r[i] == r[j] {
        var x := r[i];
        assert r == r[..j] + r[j..];
        assert x in r[..j] && x in r[j..];
        assert multiset(r)[x] == multiset(r[..j])[x] + multiset(r[j..])[x];
        DistinctCountsOnce(s, x);
        assert false;
      }
    }
  }
}
