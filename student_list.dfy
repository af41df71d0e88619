/** The student list page: the group columns it detects, the grade and group filter options,
    the per-student count of active reports, the ranking by that count, the card classes and
    the recommended students. */
module StudentList {
  import opened Base
  import opened Strings
  import opened Columns
  import opened Sorting
  import opened Schema
  import opened SelectOptions

  const GroupNameCandidates: seq<string> := ["nombre", "grupo", "nombre_grupo", "grupo_nombre"]
  const GradoCandidates: seq<string> := ["grado", "semestre", "nivel"]

  /** The group-name and grade columns of `grupos`: the first present candidate of each list. */
  method DetectColumns(gcols: seq<string>) returns (groupNameCol: Option<string>, gradoCol: Option<string>)
    ensures groupNameCol == FirstPresent(GroupNameCandidates, ColumnSet(gcols))
    ensures gradoCol == FirstPresent(GradoCandidates, ColumnSet(gcols))
  {
    groupNameCol := FindFirstPresent(GroupNameCandidates, gcols);
    gradoCol := FindFirstPresent(GradoCandidates, gcols);
  }

  // ---------------------------------------------------------------------------------------
  // Filter options

  /** The value a group row gives for a detected column; '' when no column was detected. */
  function Cell(row: Row, col: Option<string>): string {
    if col.Some? then Text(row, col.value) else ""
  }

  /** The column's values, one per group row, in query order. */
  function Cells(groups: seq<Row>, col: Option<string>): (r: seq<string>)
    ensures |r| == |groups|
  {
    if groups == [] then [] else Cells(groups[..|groups| - 1], col) + [Cell(groups[|groups| - 1], col)]
  }

  lemma {:induction false} CellsAt(groups: seq<Row>, col: Option<string>, k: nat)
    requires k < |groups|
    ensures Cells(groups, col)[k] == Cell(groups[k], col)
  {
    var n := |groups| - 1;
    if k < n {
      assert groups[..n][k] == groups[k];
      CellsAt(groups[..n], col, k);
    }
  }

  lemma CellsStep(groups: seq<Row>, i: nat, col: Option<string>)
    requires i < |groups|
    ensures Cells(groups[..i + 1], col) == Cells(groups[..i], col) + [Cell(groups[i], col)]
  {
    assert groups[..i + 1][..i] == groups[..i];
  }

  /** The options of a select: the column's distinct non-empty values, sorted. */
  function Options(groups: seq<Row>, col: Option<string>): (r: seq<string>)
    ensures SortedBy(r, LexLe) && Distinct(r)
    ensures forall v :: v in r <==> v != "" && v in Cells(groups, col)
  {
    OptionListExact(Cells(groups, col));
    OptionList(Cells(groups, col))
  }

  /** The options are exactly the distinct non-empty values of the column, sorted. */
  lemma OptionsExact(groups: seq<Row>, col: Option<string>)
    ensures SortedBy(Options(groups, col), LexLe)
    ensures Distinct(Options(groups, col))
    ensures forall v :: v in Options(groups, col) <==>
      v != "" && exists k :: 0 <= k < |groups| && Cell(groups[k], col) == v
  {
    var vals := Cells(groups, col);
    OptionListExact(vals);
    forall k | 0 <= k < |groups| ensures vals[k] == Cell(groups[k], col) {
      CellsAt(groups, col, k);
    }
  }

  /** With no detected column there are no options. */
  lemma NoColumnNoOptions(groups: seq<Row>)
    ensures Options(groups, None) == []
  {
    var vals := Cells(groups, None);
    forall k | 0 <= k < |vals| ensures vals[k] == "" {
      CellsAt(groups, None, k);
    }
    NoValuesNoOptions(vals);
  }

  /** The loop over the group rows that fills both option sets. */
  method BuildOptions(groups: seq<Row>, gradoCol: Option<string>, groupNameCol: Option<string>)
    returns (gradoOptions: seq<string>, grupoOptions: seq<string>)
    ensures gradoOptions == Options(groups, gradoCol)
    ensures grupoOptions == Options(groups, groupNameCol)
  {
    var grados: seq<string> := [];
    var grupos: seq<string> := [];
    var i := 0;
    while i < |groups|
      invariant 0 <= i <= |groups|
      invariant grados == FirstSeen(Cells(groups[..i], gradoCol))
      invariant grupos == FirstSeen(Cells(groups[..i], groupNameCol))
    {
      var gNombre := Cell(groups[i], groupNameCol);
      var gGrado := Cell(groups[i], gradoCol);
      CellsStep(groups, i, groupNameCol);
      FirstSeenStep(Cells(groups[..i], groupNameCol), gNombre);
      if gNombre != "" && gNombre !in grupos {
        grupos := grupos + [gNombre];
      }
      assert grupos == FirstSeen(Cells(groups[..i + 1], groupNameCol));
      CellsStep(groups, i, gradoCol);
      FirstSeenStep(Cells(groups[..i], gradoCol), gGrado);
      if gGrado != "" && gGrado !in grados {
        grados := grados + [gGrado];
      }
      assert grados == FirstSeen(Cells(groups[..i + 1], gradoCol));
      i := i + 1;
    }
    assert groups[..i] == groups;
    LexLeIsTotalPreorder();
    gradoOptions := SortBy(grados, LexLe);
    grupoOptions := SortBy(grupos, LexLe);
  }

  // ---------------------------------------------------------------------------------------
  // Report counts

  /** A student card as the page's query returns it (NULL columns already read as ''). */
  datatype StudentRow = StudentRow(id: int, matricula: string, nombre: string, grado: string, grupo: string, foto: string)

  /** `activo = 1`: NULL does not count. */
  predicate CountedHere(r: Report) {
    r.activo == Some(1)
  }

  /** The number of reports of student aid that are active in this page's sense. */
  function ActiveCount(reportes: seq<Report>, aid: int): (n: nat)
    ensures n <= |reportes|
  {
    if reportes == [] then 0
    else
      var last := reportes[|reportes| - 1];
      ActiveCount(reportes[..|reportes| - 1], aid) + (if CountedHere(last) && last.alumnoId == Some(aid) then 1 else 0)
  }

  /** A student has no active report exactly when the count is 0. */
  lemma {:induction false} ActiveCountZero(reportes: seq<Report>, aid: int)
    ensures ActiveCount(reportes, aid) == 0 <==>
      forall k :: 0 <= k < |reportes| ==> !(CountedHere(reportes[k]) && reportes[k].alumnoId == Some(aid))
  {
    if reportes != [] {
      var init := reportes[..|reportes| - 1];
      ActiveCountZero(init, aid);
      assert forall k :: 0 <= k < |init| ==> init[k] == reportes[k];
    }
  }

  lemma ActiveCountStep(reportes: seq<Report>, i: nat, aid: int)
    requires i < |reportes|
    ensures ActiveCount(reportes[..i + 1], aid) ==
      ActiveCount(reportes[..i], aid) + (if CountedHere(reportes[i]) && reportes[i].alumnoId == Some(aid) then 1 else 0)
  {
    assert reportes[..i + 1][..i] == reportes[..i];
  }

  /** The ids the count query asks about: the positive ones. */
  function QueriedIds(alumnos: seq<StudentRow>): (ids: set<int>)
    ensures forall aid :: aid in ids <==> aid > 0 && exists k :: 0 <= k < |alumnos| && alumnos[k].id == aid
  {
    set k | 0 <= k < |alumnos| && alumnos[k].id > 0 :: alumnos[k].id
  }

  /** The `GROUP BY alumno_id` query copied into `$reportCounts`: one entry per queried
      student with at least one active report. */
  method BuildReportCounts(alumnos: seq<StudentRow>, reportes: seq<Report>) returns (counts: map<int, nat>)
    ensures forall aid :: aid in counts <==> aid in QueriedIds(alumnos) && ActiveCount(reportes, aid) > 0
    ensures forall aid :: aid in counts ==> counts[aid] == ActiveCount(reportes, aid)
  {
    var ids := QueriedIds(alumnos);
    counts := map[];
    var i := 0;
    while i < |reportes|
      invariant 0 <= i <= |reportes|
      invariant forall aid :: aid in counts <==> aid in ids && ActiveCount(reportes[..i], aid) > 0
      invariant forall aid :: aid in counts ==> counts[aid] == ActiveCount(reportes[..i], aid)
    {
      var r := reportes[i];
      if CountedHere(r) && r.alumnoId.Some? && r.alumnoId.value in ids {
        var aid := r.alumnoId.value;
        counts := counts[aid := (if aid in counts then counts[aid] else 0) + 1];
      }
      forall aid
        ensures aid in counts <==> aid in ids && ActiveCount(reportes[..i + 1], aid) > 0
        ensures aid in counts ==> counts[aid] == ActiveCount(reportes[..i + 1], aid)
      {
        ActiveCountStep(reportes, i, aid);
      }
      i := i + 1;
    }
    assert reportes[..i] == reportes;
  }

  /** `$reportCounts[$aid] ?? 0`. */
  function CountOf(counts: map<int, nat>, aid: int): nat {
    if aid in counts then counts[aid] else 0
  }

  /** Read through the default, the map gives every queried student its active count and
      every other id 0. */
  lemma CountOfBuilt(alumnos: seq<StudentRow>, reportes: seq<Report>, counts: map<int, nat>, aid: int)
    requires forall a :: a in counts <==> a in QueriedIds(alumnos) && ActiveCount(reportes, a) > 0
    requires forall a :: a in counts ==> counts[a] == ActiveCount(reportes, a)
    ensures CountOf(counts, aid) == if aid in QueriedIds(alumnos) then ActiveCount(reportes, aid) else 0
    ensures aid <= 0 ==> CountOf(counts, aid) == 0
  {
  }

  // ---------------------------------------------------------------------------------------
  // Ranking

  /** The `usort` comparator: more reports first, then names in case-insensitive order. */
  predicate StudentLe(counts: map<int, nat>, a: StudentRow, b: StudentRow)
    ensures CountOf(counts, a.id) > CountOf(counts, b.id) ==> StudentLe(counts, a, b)
    ensures StudentLe(counts, a, b) ==> CountOf(counts, a.id) >= CountOf(counts, b.id)
    ensures CountOf(counts, a.id) == CountOf(counts, b.id) ==>
      (StudentLe(counts, a, b) <==> LexLe(Lower(a.nombre), Lower(b.nombre)))
  {
    var ca, cb := CountOf(counts, a.id), CountOf(counts, b.id);
    ca > cb || (ca == cb && LexLe(Lower(a.nombre), Lower(b.nombre)))
  }

  lemma StudentLeIsTotalPreorder(counts: map<int, nat>)
    ensures TotalPreorder((a, b) => StudentLe(counts, a, b))
  {
    forall a: StudentRow, b: StudentRow
      ensures StudentLe(counts, a, b) || StudentLe(counts, b, a)
    {
      LexLeTotal(Lower(a.nombre), Lower(b.nombre));
    }
    forall a: StudentRow, b: StudentRow, c: StudentRow | StudentLe(counts, a, b) && StudentLe(counts, b, c)
      ensures StudentLe(counts, a, c)
    {
      if CountOf(counts, a.id) == CountOf(counts, b.id) == CountOf(counts, c.id) {
        LexLeTransitive(Lower(a.nombre), Lower(b.nombre), Lower(c.nombre));
      }
    }
  }

  /** The list after `usort`. */
  function Rank(alumnos: seq<StudentRow>, counts: map<int, nat>): (r: seq<StudentRow>)
    ensures |r| == |alumnos| && multiset(r) == multiset(alumnos)
  {
    StudentLeIsTotalPreorder(counts);
    SortBy(alumnos, (a, b) => StudentLe(counts, a, b))
  }

  /** The ranked list holds the same students, by count descending and, among equal counts,
      by case-insensitive name. */
  lemma RankOrdered(alumnos: seq<StudentRow>, counts: map<int, nat>)
    ensures multiset(Rank(alumnos, counts)) == multiset(alumnos)
    ensures var r := Rank(alumnos, counts);
      forall i, j :: 0 <= i < j < |r| ==>
        CountOf(counts, r[i].id) >= CountOf(counts, r[j].id)
        && (CountOf(counts, r[i].id) == CountOf(counts, r[j].id) ==> LexLe(Lower(r[i].nombre), Lower(r[j].nombre)))
  {
    StudentLeIsTotalPreorder(counts);
    var r := Rank(alumnos, counts);
    assert SortedBy(r, (a, b) => StudentLe(counts, a, b));
    forall i, j | 0 <= i < j < |r|
      ensures CountOf(counts, r[i].id) >= CountOf(counts, r[j].id)
      ensures CountOf(counts, r[i].id) == CountOf(counts, r[j].id) ==> LexLe(Lower(r[i].nombre), Lower(r[j].nombre))
    {
      assert StudentLe(counts, r[i], r[j]);
    }
  }

  /** `usort` is stable since PHP 8: students the comparator ranks level with z (same count,
      same case-folded name) keep the order the query gave them. */
  lemma RankStable(alumnos: seq<StudentRow>, counts: map<int, nat>, z: StudentRow)
    ensures var le := (a, b) => StudentLe(counts, a, b);
      Level(Rank(alumnos, counts), le, z) == Level(alumnos, le, z)
  {
    StudentLeIsTotalPreorder(counts);
    SortByStable(alumnos, (a, b) => StudentLe(counts, a, b), z);
  }

  // ---------------------------------------------------------------------------------------
  // Card class and recommendation

  /** The card class for a report count. */
  function ReportClass(cnt: int): (c: string)
    ensures cnt == 0 <==> c == ""
    ensures cnt == 1 <==> c == "reportes-bajo"
    ensures 2 <= cnt <= 4 <==> c == "reportes-medio"
    ensures (cnt >= 5 || cnt < 0) <==> c == "reportes-alto"
  {
    if cnt == 0 then ""
    else if cnt == 1 then "reportes-bajo"
    else if 2 <= cnt <= 4 then "reportes-medio"
    else "reportes-alto"
  }

  /** The severity a class stands for. */
  function Severity(c: string): nat {
    if c == "" then 0 else if c == "reportes-bajo" then 1 else if c == "reportes-medio" then 2 else 3
  }

  /** More reports never give a milder class. */
  lemma ReportClassMonotonic(a: nat, b: nat)
    requires a <= b
    ensures Severity(ReportClass(a)) <= Severity(ReportClass(b))
  {
  }

  const TopN: nat := 3

  /** `$idx < $topN`. */
  predicate Recommended(idx: nat) {
    idx < TopN
  }

  /** The students flagged as recommended: the first three of the ranked list (all of it
      when shorter). */
  function Recommendations(ranked: seq<StudentRow>): (top: seq<StudentRow>)
    ensures |top| == (if |ranked| < TopN then |ranked| else TopN)
    ensures top == ranked[..|top|]
    ensures forall i :: 0 <= i < |ranked| ==> (Recommended(i) <==> i < |top|)
  {
    if |ranked| < TopN then ranked else ranked[..TopN]
  }

  /** No student left out of the recommendations has more reports than a recommended one. */
  lemma RecommendedAreTop(alumnos: seq<StudentRow>, counts: map<int, nat>)
    ensures var r := Rank(alumnos, counts); var top := Recommendations(r);
      forall i, j :: 0 <= i < |top| <= j < |r| ==> CountOf(counts, top[i].id) >= CountOf(counts, r[j].id)
  {
    var r := Rank(alumnos, counts);
    var top := Recommendations(r);
    RankOrdered(alumnos, counts);
    forall i, j | 0 <= i < |top| <= j < |r| ensures CountOf(counts, top[i].id) >= CountOf(counts, r[j].id) {
      assert top[i] == r[i];
    }
  }
}
