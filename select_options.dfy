/** The option lists of the grade and group selects: values collected as keys of a PHP array
    used as a set (`$options[$v] = true`), then `array_keys` and `sort`. */
module SelectOptions {
  import opened Strings
  import opened Sorting

  /** The keys of the array after the values so far: the distinct non-empty values in order
      of first appearance. */
  function FirstSeen(vals: seq<string>): (r: seq<string>)
    ensures Distinct(r)
    ensures forall v :: v in r <==> v != "" && v in vals
  {
    if vals == [] then []
    else
      var prev := FirstSeen(vals[..|vals| - 1]);
      var v := vals[|vals| - 1];
      assert vals == vals[..|vals| - 1] + [v];
      if v != "" && v !in prev then prev + [v] else prev
  }

  /** One more value: added at the end when it is new and non-empty, otherwise nothing changes. */
  lemma FirstSeenStep(vals: seq<string>, v: string)
    ensures FirstSeen(vals + [v]) == if v != "" && v !in FirstSeen(vals) then FirstSeen(vals) + [v] else FirstSeen(vals)
  {
    assert (vals + [v])[..|vals|] == vals;
  }

  /** The options offered in the select. */
  function OptionList(vals: seq<string>): seq<string> {
    LexLeIsTotalPreorder();
    SortBy(FirstSeen(vals), LexLe)
  }

  /** The options are exactly the distinct non-empty values, sorted. */
  lemma OptionListExact(vals: seq<string>)
    ensures SortedBy(OptionList(vals), LexLe)
    ensures Distinct(OptionList(vals))
    ensures forall v :: v in OptionList(vals) <==> v != "" && v in vals
  {
    LexLeIsTotalPreorder();
    var keys := FirstSeen(vals);
    var r := OptionList(vals);
    PermutationKeepsDistinct(keys, r);
    forall v ensures v in r <==> v in keys {
      assert v in r <==> v in multiset(r);
      assert v in keys <==> v in multiset(keys);
    }
  }

  /** Values that are all empty give no options. */
  lemma {:induction false} NoValuesNoOptions(vals: seq<string>)
    requires forall k :: 0 <= k < |vals| ==> vals[k] == ""
    ensures FirstSeen(vals) == [] && OptionList(vals) == []
  {
    if vals != [] {
      NoValuesNoOptions(vals[..|vals| - 1]);
    }
    LexLeIsTotalPreorder();
  }
}
