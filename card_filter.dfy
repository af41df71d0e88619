/** The client-side card filter shared by the student list and the counselling page: a card is
    shown when every non-empty filter matches it, and a counter reports how many are shown. */
module CardFilter {
  import opened Strings

  /** The data attributes of a student card. */
  datatype Card = Card(matricula: string, nombre: string, grado: string, grupo: string)

  /** A child of the list: a card, or the "No hay alumnos." placeholder the page renders
      instead of cards when there are none (it has no data attributes). */
  datatype Element = Article(card: Card) | Placeholder

  /** The raw values of the two text inputs and the two selects. */
  datatype Filters = Filters(matricula: string, nombre: string, grado: string, grupo: string)

  function Cleared(): Filters {
    Filters("", "", "", "")
  }

  /** The children of the list for the cards the page rendered. */
  function ListChildren(cards: seq<Card>): (r: seq<Element>)
    ensures cards == [] ==> r == [Placeholder]
    ensures cards != [] ==> |r| == |cards| && forall k :: 0 <= k < |r| ==> r[k] == Article(cards[k])
  {
    if cards == [] then [Placeholder] else seq(|cards|, k requires 0 <= k < |cards| => Article(cards[k]))
  }

  /** What the filter reads from an element's data set: missing attributes read as ''. */
  function DataOf(e: Element): Card {
    if e.Article? then e.card else Card("", "", "", "")
  }

  /** What the script compares against, computed once per run: the text filters trimmed
      and lower-cased, the selects as they are. */
  datatype Query = Query(matricula: string, nombre: string, grado: string, grupo: string)

  function QueryOf(f: Filters): (q: Query)
    ensures q.grado == f.grado && q.grupo == f.grupo
    ensures f.matricula == "" ==> q.matricula == ""
    ensures f.nombre == "" ==> q.nombre == ""
    ensures JsLower(q.matricula) == q.matricula && JsLower(q.nombre) == q.nombre
  {
    JsLowerIdempotent(JsTrim(f.matricula));
    JsLowerIdempotent(JsTrim(f.nombre));
    Query(JsLower(JsTrim(f.matricula)), JsLower(JsTrim(f.nombre)), f.grado, f.grupo)
  }

  /** The card matches: the text queries occur in the lower-cased matricula and name, and
      the selected grade and group are equal to the card's; an empty query matches all. */
  predicate Matches(c: Card, q: Query)
    ensures q == Query("", "", "", "") ==> Matches(c, q)
    ensures Matches(c, q) && q.nombre != "" ==> |q.nombre| <= |c.nombre|
    ensures Matches(c, q) && q.matricula != "" ==> |q.matricula| <= |c.matricula|
    ensures Matches(c, q) && q.grado != "" ==> c.grado == q.grado
    ensures Matches(c, q) && q.grupo != "" ==> c.grupo == q.grupo
  {
    && (q.matricula == "" || Contains(JsLower(c.matricula), q.matricula))
    && (q.nombre == "" || Contains(JsLower(c.nombre), q.nombre))
    && (q.grado == "" || c.grado == q.grado)
    && (q.grupo == "" || c.grupo == q.grupo)
  }

  /** The filters compose: a card matches exactly when it matches each filter on its own. */
  lemma FiltersCompose(c: Card, q: Query)
    ensures Matches(c, q) <==>
      (&& Matches(c, Query(q.matricula, "", "", ""))
       && Matches(c, Query("", q.nombre, "", ""))
       && Matches(c, Query("", "", q.grado, ""))
       && Matches(c, Query("", "", "", q.grupo)))
  {
  }

  /** Blanks around what was typed do not change the query. */
  lemma QueryIgnoresSurroundingBlanks(f: Filters)
    ensures QueryOf(f.(matricula := JsTrim(f.matricula), nombre := JsTrim(f.nombre))) == QueryOf(f)
  {
    TrimIdempotent(f.matricula, JsTrimChars);
    TrimIdempotent(f.nombre, JsTrimChars);
  }

  /** Accented capitals are folded too: "ÑUÑEZ PÉREZ" is found by "ñuñez". */
  lemma AccentedNameMatches()
    ensures Matches(Card("", "\U{D1}U\U{D1}EZ P\U{C9}REZ", "", ""), QueryOf(Filters("", "\U{F1}u\U{F1}ez", "", "")))
  {
    TypedNameQuery();
    FoldedName();
  }

  lemma TypedNameQuery()
    ensures QueryOf(Filters("", "\U{F1}u\U{F1}ez", "", "")).nombre == "\U{F1}u\U{F1}ez"
  {
    var typed := "\U{F1}u\U{F1}ez";
    assert forall k :: 0 <= k < |typed| ==> typed[k] !in JsTrimChars;
    TrimClean(typed, JsTrimChars);
    assert JsLower(typed) == typed;
  }

  lemma FoldedName()
    ensures StartsWith(JsLower("\U{D1}U\U{D1}EZ P\U{C9}REZ"), "\U{F1}u\U{F1}ez")
  {
    var head, tail := "\U{D1}U\U{D1}EZ", " P\U{C9}REZ";
    assert head + tail == "\U{D1}U\U{D1}EZ P\U{C9}REZ";
    JsLowerAppend(head, tail);
    var low := JsLower(head);
    assert low[0] == '\U{F1}' && low[1] == 'u' && low[2] == '\U{F1}' && low[3] == 'e' && low[4] == 'z';
    assert low == "\U{F1}u\U{F1}ez";
    assert (low + JsLower(tail))[..5] == low;
  }

  /** With every filter empty, every card is shown. */
  lemma ClearedMatchesAll(c: Card)
    ensures Matches(c, QueryOf(Cleared()))
  {
  }

  /** The number of children the filter shows, with the data set read as the script reads it. */
  function CountShown(children: seq<Element>, q: Query): (n: nat)
    ensures n <= |children|
  {
    if children == [] then 0
    else CountShown(children[..|children| - 1], q) + (if Matches(DataOf(children[|children| - 1]), q) then 1 else 0)
  }

  /** Every child is counted exactly when every one matches. */
  lemma {:induction false} CountShownAll(children: seq<Element>, q: Query)
    ensures CountShown(children, q) == |children| <==> forall k :: 0 <= k < |children| ==> Matches(DataOf(children[k]), q)
  {
    if children != [] {
      var n := |children| - 1;
      var init := children[..n];
      CountShownAll(init, q);
      assert forall k :: 0 <= k < n ==> init[k] == children[k];
    }
  }

  /** No child is counted exactly when none matches. */
  lemma {:induction false} CountShownNone(children: seq<Element>, q: Query)
    ensures CountShown(children, q) == 0 <==> forall k :: 0 <= k < |children| ==> !Matches(DataOf(children[k]), q)
  {
    if children != [] {
      var n := |children| - 1;
      var init := children[..n];
      CountShownNone(init, q);
      assert forall k :: 0 <= k < n ==> init[k] == children[k];
    }
  }

  /** The visibility the filter gives each child, in order. */
  function Visibility(children: seq<Element>, q: Query): (v: seq<bool>)
    ensures |v| == |children|
    ensures forall k :: 0 <= k < |children| ==> v[k] == Matches(DataOf(children[k]), q)
  {
    if children == [] then []
    else Visibility(children[..|children| - 1], q) + [Matches(DataOf(children[|children| - 1]), q)]
  }

  /** `filtrar`: sets each child's visibility and counts the visible ones, placeholder included. */
  method Filtrar(children: seq<Element>, f: Filters) returns (shown: seq<bool>, visibles: nat)
    ensures shown == Visibility(children, QueryOf(f))
    ensures visibles == CountShown(children, QueryOf(f))
  {
    var q := QueryOf(f);
    shown, visibles := ApplyQuery(children, q);
  }

  /** One more child: its visibility is appended and counted. */
  lemma FilterStep(children: seq<Element>, q: Query, i: nat)
    requires i < |children|
    ensures Visibility(children[..i + 1], q) == Visibility(children[..i], q) + [Matches(DataOf(children[i]), q)]
    ensures CountShown(children[..i + 1], q)
            == CountShown(children[..i], q) + (if Matches(DataOf(children[i]), q) then 1 else 0)
  {
    var next := children[..i + 1];
    assert next[..i] == children[..i] && next[i] == children[i];
  }

  /** The loop of `filtrar` over the children, once the query is read. */
  method ApplyQuery(children: seq<Element>, q: Query) returns (shown: seq<bool>, visibles: nat)
    ensures shown == Visibility(children, q)
    ensures visibles == CountShown(children, q)
  {
    shown := [];
    visibles := 0;
    var i := 0;
    while i < |children|
      invariant 0 <= i <= |children|
      invariant shown == Visibility(children[..i], q)
      invariant visibles == CountShown(children[..i], q)
    {
      var mostrar := Matches(DataOf(children[i]), q);
      FilterStep(children, q, i);
      shown := shown + [mostrar];
      if mostrar {
        visibles := visibles + 1;
      }
      i := i + 1;
    }
    assert children[..i] == children;
  }

  /** The counter on load: the number of `article` children. */
  function CountArticles(children: seq<Element>): (n: nat)
    ensures n <= |children|
    ensures n == |children| <==> forall k :: 0 <= k < |children| ==> children[k].Article?
  {
    if children == [] then 0
    else CountArticles(children[..|children| - 1]) + (if children[|children| - 1].Article? then 1 else 0)
  }

  /** On load the counter is the number of students: the placeholder is not an article. */
  lemma CountArticlesOfCards(cards: seq<Card>)
    ensures CountArticles(ListChildren(cards)) == |cards|
  {
    if cards == [] {
      assert [Placeholder][..0] == [];
    }
  }

  /** As written, clearing the filters on an empty list counts the placeholder: the counter
      reads 1 where the page loaded with 0. */
  lemma EmptyListCountsPlaceholder()
    ensures CountArticles(ListChildren([])) == 0
    ensures CountShown(ListChildren([]), QueryOf(Cleared())) == 1
  {
    var ch := ListChildren([]);
    assert ch[..0] == [];
    ClearedMatchesAll(DataOf(Placeholder));
  }

  /** The count the counter evidently means: the matching cards, placeholder excluded. */
  function CountMatchingCards(children: seq<Element>, q: Query): (n: nat)
    ensures n <= CountArticles(children)
  {
    if children == [] then 0
    else
      var last := children[|children| - 1];
      CountMatchingCards(children[..|children| - 1], q) + (if last.Article? && Matches(last.card, q) then 1 else 0)
  }

  /** Corrected, clearing the filters always brings the counter back to its value on load. */
  lemma {:induction false} ClearedCountsAllCards(children: seq<Element>)
    ensures CountMatchingCards(children, QueryOf(Cleared())) == CountArticles(children)
  {
    if children != [] {
      ClearedCountsAllCards(children[..|children| - 1]);
      var last := children[|children| - 1];
      if last.Article? {
        ClearedMatchesAll(last.card);
      }
    }
  }

  /** On a list of cards (no placeholder) the script's count and the corrected one agree. */
  lemma {:induction false} CountsAgreeOnCards(children: seq<Element>, q: Query)
    requires forall k :: 0 <= k < |children| ==> children[k].Article?
    ensures CountShown(children, q) == CountMatchingCards(children, q)
  {
    if children != [] {
      CountsAgreeOnCards(children[..|children| - 1], q);
    }
  }
}
