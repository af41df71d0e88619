/** The counselling page: group columns detected from the first group row, the grade and group
    options and the id-to-labels map built from the groups, the per-student hour totals of
    the reports that are not deactivated, the ordering by total, and the card classes. */
module Orientation {
  import opened Base
  import opened Strings
  import opened Columns
  import opened Sorting
  import opened Schema
  import opened SelectOptions
  import opened CardFilter

  const GradoCandidates: seq<string> := ["grado", "semestre", "nivel"]
  const GrupoCandidates: seq<string> := ["nombre", "grupo", "grupo_nombre", "codigo", "nombre_grupo"]

  // ---------------------------------------------------------------------------------------
  // Column detection

  /** The first candidate that is a key of the row (`array_key_exists`: a NULL value counts). */
  method FindKey(cands: seq<string>, row: Row) returns (col: Option<string>)
    ensures col == FirstPresent(cands, row.Keys)
  {
    col := None;
    var i := 0;
    while i < |cands|
      invariant 0 <= i <= |cands|
      invariant forall j :: 0 <= j < i ==> cands[j] !in row
    {
      if cands[i] in row {
        col := Some(cands[i]);
        break;
      }
      i := i + 1;
    }
    FirstPresentAt(cands, row.Keys, i);
  }

  /** The column a candidate list resolves to: looked up in the first group row only; none
      when there are no groups. */
  function Detected(cands: seq<string>, groups: seq<Row>): Option<string> {
    if groups == [] then None else FirstPresent(cands, groups[0].Keys)
  }

  method DetectColumns(groups: seq<Row>) returns (gradoCol: Option<string>, grupoCol: Option<string>)
    ensures gradoCol == Detected(GradoCandidates, groups)
    ensures grupoCol == Detected(GrupoCandidates, groups)
  {
    gradoCol, grupoCol := None, None;
    if groups != [] {
      gradoCol := FindKey(GradoCandidates, groups[0]);
      grupoCol := FindKey(GrupoCandidates, groups[0]);
    }
  }

  /** A detected column is a key of the first group row and no earlier candidate is; with no
      group rows nothing is detected. */
  lemma DetectedIsFirstKey(cands: seq<string>, groups: seq<Row>)
    ensures groups == [] ==> Detected(cands, groups).None?
    ensures groups != [] && Detected(cands, groups).None? ==> forall j :: 0 <= j < |cands| ==> cands[j] !in groups[0]
    ensures Detected(cands, groups).Some? ==> groups != [] && exists i :: (0 <= i < |cands|
      && cands[i] == Detected(cands, groups).value && cands[i] in groups[0]
      && forall j :: 0 <= j < i ==> cands[j] !in groups[0])
  {
    if groups != [] {
      var i := FirstPresentIndex(cands, groups[0].Keys);
      if i < |cands| {
        assert FirstPresent(cands, groups[0].Keys) == Some(cands[i]);
      }
    }
  }

  // ---------------------------------------------------------------------------------------
  // Groups: options and the id map

  /** What a group row gives for a detected column: its value cast to text and trimmed, ''
      when no column was detected or the row lacks it. */
  function GroupValue(g: Row, col: Option<string>): string {
    if col.Some? && col.value in g then PhpTrim(Text(g, col.value)) else ""
  }

  /** The column's values, one per group row, in query order. */
  function GroupValues(groups: seq<Row>, col: Option<string>): (r: seq<string>)
    ensures |r| == |groups|
  {
    if groups == [] then [] else GroupValues(groups[..|groups| - 1], col) + [GroupValue(groups[|groups| - 1], col)]
  }

  lemma {:induction false} GroupValuesAt(groups: seq<Row>, col: Option<string>, k: nat)
    requires k < |groups|
    ensures GroupValues(groups, col)[k] == GroupValue(groups[k], col)
  {
    var n := |groups| - 1;
    if k < n {
      assert groups[..n][k] == groups[k];
      GroupValuesAt(groups[..n], col, k);
    }
  }

  lemma GroupValuesStep(groups: seq<Row>, i: nat, col: Option<string>)
    requires i < |groups|
    ensures GroupValues(groups[..i + 1], col) == GroupValues(groups[..i], col) + [GroupValue(groups[i], col)]
  {
    assert groups[..i + 1][..i] == groups[..i];
  }

  /** A non-empty group value carries no surrounding blanks. */
  lemma GroupValueTrimmed(g: Row, col: Option<string>)
    ensures var v := GroupValue(g, col); v != "" ==> v[0] !in PhpTrimChars && v[|v| - 1] !in PhpTrimChars
  {
    if col.Some? && col.value in g {
      TrimEnds(Text(g, col.value), PhpTrimChars);
    }
  }

  /** The options of a select: exactly the distinct non-empty trimmed values of the column,
      sorted, none with surrounding blanks. */
  lemma GroupOptionsExact(groups: seq<Row>, col: Option<string>)
    ensures SortedBy(OptionList(GroupValues(groups, col)), LexLe)
    ensures Distinct(OptionList(GroupValues(groups, col)))
    ensures forall v :: v in OptionList(GroupValues(groups, col)) <==>
      v != "" && exists k :: 0 <= k < |groups| && GroupValue(groups[k], col) == v
    ensures forall v :: v in OptionList(GroupValues(groups, col)) ==> v[0] !in PhpTrimChars && v[|v| - 1] !in PhpTrimChars
  {
    var vals := GroupValues(groups, col);
    OptionListExact(vals);
    forall v ensures v in vals <==> exists k :: 0 <= k < |groups| && GroupValue(groups[k], col) == v {
      GroupValuesHas(groups, col, v);
    }
    forall v | v in OptionList(vals) ensures v[0] !in PhpTrimChars && v[|v| - 1] !in PhpTrimChars {
      GroupValuesHas(groups, col, v);
      var k :| 0 <= k < |groups| && GroupValue(groups[k], col) == v;
      GroupValueTrimmed(groups[k], col);
    }
  }

  /** A value is in the column exactly when some group row has it. */
  lemma GroupValuesHas(groups: seq<Row>, col: Option<string>, v: string)
    ensures v in GroupValues(groups, col) <==> exists k :: 0 <= k < |groups| && GroupValue(groups[k], col) == v
  {
    var vals := GroupValues(groups, col);
    if v in vals {
      var k :| 0 <= k < |vals| && vals[k] == v;
      GroupValuesAt(groups, col, k);
    }
    if exists k :: 0 <= k < |groups| && GroupValue(groups[k], col) == v {
      var k :| 0 <= k < |groups| && GroupValue(groups[k], col) == v;
      GroupValuesAt(groups, col, k);
      assert vals[k] == v;
    }
  }

  /** `$g['id'] ?? null`. */
  function GroupId(g: Row): Option<string> {
    if IsSet(g, "id") then Some(g["id"].value) else None
  }

  /** The labels a group row contributes. */
  datatype GroupInfo = GroupInfo(grupo: string, grado: string)

  function InfoOf(g: Row, grupoCol: Option<string>, gradoCol: Option<string>): GroupInfo {
    GroupInfo(GroupValue(g, grupoCol), GroupValue(g, gradoCol))
  }

  /** `$groupsMap`: every group row with an id, a later row with the same id replacing an
      earlier one. */
  function GroupsMap(groups: seq<Row>, grupoCol: Option<string>, gradoCol: Option<string>): map<string, GroupInfo> {
    if groups == [] then map[]
    else
      var g := groups[|groups| - 1];
      var prev := GroupsMap(groups[..|groups| - 1], grupoCol, gradoCol);
      if GroupId(g).Some? then prev[GroupId(g).value := InfoOf(g, grupoCol, gradoCol)] else prev
  }

  /** The map has a key for exactly the ids some group row has. */
  lemma {:induction false} GroupsMapKeys(groups: seq<Row>, grupoCol: Option<string>, gradoCol: Option<string>)
    ensures forall id :: id in GroupsMap(groups, grupoCol, gradoCol) <==>
      exists k :: 0 <= k < |groups| && GroupId(groups[k]) == Some(id)
  {
    if groups != [] {
      var n := |groups| - 1;
      var init, g := groups[..n], groups[n];
      GroupsMapKeys(init, grupoCol, gradoCol);
      var m, prev := GroupsMap(groups, grupoCol, gradoCol), GroupsMap(init, grupoCol, gradoCol);
      assert m == if GroupId(g).Some? then prev[GroupId(g).value := InfoOf(g, grupoCol, gradoCol)] else prev;
      forall id ensures id in m <==> exists k :: 0 <= k < |groups| && GroupId(groups[k]) == Some(id) {
        if id in m {
          if GroupId(g) == Some(id) {
            assert GroupId(groups[n]) == Some(id);
          } else {
            assert id in prev;
            var k :| 0 <= k < |init| && GroupId(init[k]) == Some(id);
            assert groups[k] == init[k];
          }
        }
        if exists k :: 0 <= k < |groups| && GroupId(groups[k]) == Some(id) {
          var k :| 0 <= k < |groups| && GroupId(groups[k]) == Some(id);
          if k < n {
            assert init[k] == groups[k];
            assert id in prev;
          }
        }
      }
    }
  }

  lemma GroupsMapStep(groups: seq<Row>, i: nat, grupoCol: Option<string>, gradoCol: Option<string>)
    requires i < |groups|
    ensures var prev := GroupsMap(groups[..i], grupoCol, gradoCol);
      GroupsMap(groups[..i + 1], grupoCol, gradoCol) ==
        if GroupId(groups[i]).Some? then prev[GroupId(groups[i]).value := InfoOf(groups[i], grupoCol, gradoCol)] else prev
  {
    assert groups[..i + 1][..i] == groups[..i];
  }

  /** The id of group row k maps to that row's labels when no later row has the same id. */
  lemma {:induction false} GroupsMapLastWins(groups: seq<Row>, grupoCol: Option<string>, gradoCol: Option<string>, k: nat)
    requires k < |groups| && GroupId(groups[k]).Some?
    requires forall j :: k < j < |groups| ==> GroupId(groups[j]) != GroupId(groups[k])
    ensures GroupId(groups[k]).value in GroupsMap(groups, grupoCol, gradoCol)
    ensures GroupsMap(groups, grupoCol, gradoCol)[GroupId(groups[k]).value] == InfoOf(groups[k], grupoCol, gradoCol)
  {
    var n := |groups| - 1;
    if k < n {
      var init := groups[..n];
      assert init[k] == groups[k];
      assert forall j :: k < j < |init| ==> init[j] == groups[j];
      GroupsMapLastWins(init, grupoCol, gradoCol, k);
      assert GroupId(groups[n]) != GroupId(groups[k]);
    }
  }

  /** The loop over the group rows: both option sets and the id map. */
  method BuildGroups(groups: seq<Row>, gradoCol: Option<string>, grupoCol: Option<string>)
    returns (gradoOptions: seq<string>, grupoOptions: seq<string>, groupsMap: map<string, GroupInfo>)
    ensures gradoOptions == OptionList(GroupValues(groups, gradoCol))
    ensures grupoOptions == OptionList(GroupValues(groups, grupoCol))
    ensures groupsMap == GroupsMap(groups, grupoCol, gradoCol)
  {
    var grados: seq<string> := [];
    var grupos: seq<string> := [];
    groupsMap := map[];
    var i := 0;
    while i < |groups|
      invariant 0 <= i <= |groups|
      invariant grados == FirstSeen(GroupValues(groups[..i], gradoCol))
      invariant grupos == FirstSeen(GroupValues(groups[..i], grupoCol))
      invariant groupsMap == GroupsMap(groups[..i], grupoCol, gradoCol)
    {
      var g := groups[i];
      var gid := GroupId(g);
      var gval := GroupValue(g, grupoCol);
      var gdval := GroupValue(g, gradoCol);
      GroupValuesStep(groups, i, grupoCol);
      FirstSeenStep(GroupValues(groups[..i], grupoCol), gval);
      if gval != "" && gval !in grupos {
        grupos := grupos + [gval];
      }
      assert grupos == FirstSeen(GroupValues(groups[..i + 1], grupoCol));
      GroupValuesStep(groups, i, gradoCol);
      FirstSeenStep(GroupValues(groups[..i], gradoCol), gdval);
      if gdval != "" && gdval !in grados {
        grados := grados + [gdval];
      }
      assert grados == FirstSeen(GroupValues(groups[..i + 1], gradoCol));
      GroupsMapStep(groups, i, grupoCol, gradoCol);
      if gid.Some? {
        groupsMap := groupsMap[gid.value := InfoOf(g, grupoCol, gradoCol)];
      }
      assert groupsMap == GroupsMap(groups[..i + 1], grupoCol, gradoCol);
      i := i + 1;
    }
    assert groups[..i] == groups;
    LexLeIsTotalPreorder();
    gradoOptions := SortBy(grados, LexLe);
    grupoOptions := SortBy(grupos, LexLe);
  }

  // ---------------------------------------------------------------------------------------
  // Students and their hour totals

  /** `activo IS NULL OR activo = 1`: only an explicitly deactivated report is left out. */
  predicate Counted(r: Report)
    ensures r.activo == Some(1) ==> Counted(r)
    ensures r.activo.Some? && r.activo.value != 1 ==> !Counted(r)
  {
    r.activo.None? || r.activo == Some(1)
  }

  /** `COALESCE(SUM(r.horas), 0)` over the joined reports of student aid. */
  function TotalHoras(reportes: seq<Report>, aid: int): (h: int)
    ensures (forall k :: 0 <= k < |reportes| ==> reportes[k].horas >= 0) ==> h >= 0
  {
    if reportes == [] then 0
    else
      var last := reportes[|reportes| - 1];
      TotalHoras(reportes[..|reportes| - 1], aid) + (if Counted(last) && last.alumnoId == Some(aid) then last.horas else 0)
  }

  /** `COUNT(r.id)` over the joined reports of student aid. */
  function NumReportes(reportes: seq<Report>, aid: int): (n: nat)
    ensures n <= |reportes|
  {
    if reportes == [] then 0
    else
      var last := reportes[|reportes| - 1];
      NumReportes(reportes[..|reportes| - 1], aid) + (if Counted(last) && last.alumnoId == Some(aid) then 1 else 0)
  }

  /** Both aggregates add up over a split of the report table, so neither depends on the
      order of the reports. */
  lemma {:induction false} AggregatesSplit(r1: seq<Report>, r2: seq<Report>, aid: int)
    ensures TotalHoras(r1 + r2, aid) == TotalHoras(r1, aid) + TotalHoras(r2, aid)
    ensures NumReportes(r1 + r2, aid) == NumReportes(r1, aid) + NumReportes(r2, aid)
    decreases |r2|
  {
    if r2 == [] {
      assert r1 + r2 == r1;
    } else {
      var init := r2[..|r2| - 1];
      assert (r1 + r2)[..|r1 + r2| - 1] == r1 + init;
      AggregatesSplit(r1, init, aid);
    }
  }

  /** A student with no joined report gets 0 hours and 0 reports (the LEFT JOIN keeps them);
      a student whose joined reports all have non-negative hours gets a non-negative total. */
  lemma {:induction false} NoReportsNoHours(reportes: seq<Report>, aid: int)
    ensures NumReportes(reportes, aid) == 0 ==> TotalHoras(reportes, aid) == 0
    ensures (forall k :: 0 <= k < |reportes| ==> reportes[k].horas >= 0) ==> TotalHoras(reportes, aid) >= 0
  {
    if reportes != [] {
      NoReportsNoHours(reportes[..|reportes| - 1], aid);
    }
  }

  /** A report whose `activo` is NULL counts here, while the student list counts only
      `activo = 1`. */
  lemma NullActiveCountsHere(r: Report, aid: int)
    requires r.activo.None? && r.alumnoId == Some(aid)
    ensures TotalHoras([r], aid) == r.horas && NumReportes([r], aid) == 1
    ensures !(r.activo == Some(1))
  {
    assert [r][..0] == [];
  }

  /** A row of `alumnos` as the query reads it. */
  datatype AlumnoRow = AlumnoRow(id: int, matricula: Option<string>, nombre: Option<string>,
                                 foto: Option<string>, grupoId: Option<string>)

  /** A row of the query's result (the COALESCEs applied), with `sortNombre`, the raw
      `a.nombre` the ORDER BY reads, NULL included. */
  datatype QueryRow = QueryRow(alumnoId: int, matricula: string, nombre: string, foto: string,
                               grupoId: string, totalHoras: int, numReportes: nat,
                               sortNombre: Option<string>)

  function QueryRowOf(a: AlumnoRow, reportes: seq<Report>): (q: QueryRow)
    ensures q.alumnoId == a.id && q.matricula == a.matricula.GetOr("") && q.nombre == a.nombre.GetOr("")
    ensures q.foto == a.foto.GetOr("") && q.grupoId == a.grupoId.GetOr("")
    ensures q.totalHoras == TotalHoras(reportes, a.id) && q.numReportes == NumReportes(reportes, a.id)
    ensures q.sortNombre == a.nombre
  {
    QueryRow(a.id, a.matricula.GetOr(""), a.nombre.GetOr(""), a.foto.GetOr(""), a.grupoId.GetOr(""),
             TotalHoras(reportes, a.id), NumReportes(reportes, a.id), a.nombre)
  }

  /** `a.nombre ASC` with a case-insensitive collation: NULL sorts before every name. */
  predicate NameLe(a: Option<string>, b: Option<string>) {
    a.None? || (b.Some? && LexLe(Lower(a.value), Lower(b.value)))
  }

  /** `ORDER BY total_horas DESC, a.nombre COLLATE utf8mb4_general_ci ASC`. */
  predicate RowLe(a: QueryRow, b: QueryRow) {
    a.totalHoras > b.totalHoras || (a.totalHoras == b.totalHoras && NameLe(a.sortNombre, b.sortNombre))
  }

  lemma RowLeIsTotalPreorder()
    ensures TotalPreorder(RowLe)
  {
    forall a: QueryRow, b: QueryRow ensures RowLe(a, b) || RowLe(b, a) {
      if a.sortNombre.Some? && b.sortNombre.Some? {
        LexLeTotal(Lower(a.sortNombre.value), Lower(b.sortNombre.value));
      }
    }
    forall a: QueryRow, b: QueryRow, c: QueryRow | RowLe(a, b) && RowLe(b, c) ensures RowLe(a, c) {
      if a.totalHoras == b.totalHoras == c.totalHoras && a.sortNombre.Some? {
        LexLeTransitive(Lower(a.sortNombre.value), Lower(b.sortNombre.value), Lower(c.sortNombre.value));
      }
    }
  }

  /** One unordered result row per student. */
  function Grouped(alumnos: seq<AlumnoRow>, reportes: seq<Report>): (r: seq<QueryRow>)
    ensures |r| == |alumnos| && forall k :: 0 <= k < |alumnos| ==> r[k] == QueryRowOf(alumnos[k], reportes)
  {
    seq(|alumnos|, k requires 0 <= k < |alumnos| => QueryRowOf(alumnos[k], reportes))
  }

  /** The query's result. */
  function StudentQuery(alumnos: seq<AlumnoRow>, reportes: seq<Report>): (r: seq<QueryRow>)
    ensures |r| == |alumnos| && multiset(r) == multiset(Grouped(alumnos, reportes))
  {
    RowLeIsTotalPreorder();
    SortBy(Grouped(alumnos, reportes), RowLe)
  }

  /** Every student appears exactly once, and the rows come by total hours descending and,
      among equal totals, the NULL names first, then the names case-insensitively. */
  lemma StudentQueryOrdered(alumnos: seq<AlumnoRow>, reportes: seq<Report>)
    ensures multiset(StudentQuery(alumnos, reportes)) == multiset(Grouped(alumnos, reportes))
    ensures var r := StudentQuery(alumnos, reportes);
      forall i, j :: 0 <= i < j < |r| ==>
        r[i].totalHoras >= r[j].totalHoras
        && (r[i].totalHoras == r[j].totalHoras && r[j].sortNombre.None? ==> r[i].sortNombre.None?)
        && (r[i].totalHoras == r[j].totalHoras && r[i].sortNombre.Some? ==>
              r[j].sortNombre.Some? && LexLe(Lower(r[i].sortNombre.value), Lower(r[j].sortNombre.value)))
  {
    RowLeIsTotalPreorder();
    var r := StudentQuery(alumnos, reportes);
    forall i, j | 0 <= i < j < |r|
      ensures r[i].totalHoras >= r[j].totalHoras
      ensures r[i].totalHoras == r[j].totalHoras && r[j].sortNombre.None? ==> r[i].sortNombre.None?
      ensures r[i].totalHoras == r[j].totalHoras && r[i].sortNombre.Some? ==>
        r[j].sortNombre.Some? && LexLe(Lower(r[i].sortNombre.value), Lower(r[j].sortNombre.value))
    {
      assert RowLe(r[i], r[j]);
    }
  }

  /** With equal totals a student whose name is NULL comes before one named '', although
      both show the name ''. */
  lemma NullNameSortsFirst()
    ensures var r := StudentQuery([AlumnoRow(1, None, Some(""), None, None), AlumnoRow(2, None, None, None, None)], []);
      |r| == 2 && r[0].alumnoId == 2 && r[1].alumnoId == 1 && r[0].nombre == r[1].nombre == ""
  {
    var alumnos := [AlumnoRow(1, None, Some(""), None, None), AlumnoRow(2, None, None, None, None)];
    StudentQueryOrdered(alumnos, []);
    var g := Grouped(alumnos, []);
    var r := StudentQuery(alumnos, []);
    assert g[0].sortNombre == Some("") && g[1].sortNombre.None?;
    assert g[0].totalHoras == 0 && g[1].totalHoras == 0;
    assert multiset(g) == multiset{g[0], g[1]} by { assert g == [g[0], g[1]]; }
    assert multiset(r) == multiset{g[0], g[1]};
    assert r == [r[0], r[1]];
    assert r[0] in multiset(r) && r[1] in multiset(r);
    assert r[0].totalHoras == r[1].totalHoras == 0;
    assert r[1] == g[0];
    assert r[0] == g[1] by {
      assert multiset{r[0], r[1]} == multiset{g[0], g[1]};
    }
  }

  // ---------------------------------------------------------------------------------------
  // Labels and cards

  /** The labels of a student's group: those of the map entry for a non-empty `grupo_id`,
      '' otherwise. */
  function Labels(gid: string, groupsMap: map<string, GroupInfo>): (l: GroupInfo)
    ensures gid != "" && gid in groupsMap ==> l == groupsMap[gid]
    ensures (gid == "" || gid !in groupsMap) ==> l == GroupInfo("", "")
  {
    if gid != "" && gid in groupsMap then groupsMap[gid] else GroupInfo("", "")
  }

  /** A student as the page holds it: the query row and the two labels. */
  datatype Student = Student(row: QueryRow, grupoLabel: string, gradoLabel: string)

  function Labelled(q: QueryRow, groupsMap: map<string, GroupInfo>): Student {
    var l := Labels(q.grupoId, groupsMap);
    Student(q, l.grupo, l.grado)
  }

  /** The loop over the query's rows that attaches the labels. */
  method AttachLabels(rows: seq<QueryRow>, groupsMap: map<string, GroupInfo>) returns (alumnos: seq<Student>)
    ensures |alumnos| == |rows|
    ensures forall k :: 0 <= k < |rows| ==> alumnos[k] == Labelled(rows[k], groupsMap)
  {
    alumnos := [];
    var i := 0;
    while i < |rows|
      invariant 0 <= i <= |rows|
      invariant |alumnos| == i
      invariant forall k :: 0 <= k < i ==> alumnos[k] == Labelled(rows[k], groupsMap)
    {
      var gid := rows[i].grupoId;
      var grupoLabel, gradoLabel := "", "";
      if gid != "" && gid in groupsMap {
        grupoLabel := groupsMap[gid].grupo;
        gradoLabel := groupsMap[gid].grado;
      }
      alumnos := alumnos + [Student(rows[i], grupoLabel, gradoLabel)];
      i := i + 1;
    }
  }

  /** End to end: a student whose `grupo_id` is the id of group row k, no later group row
      having that id, shows that row's trimmed group and grade values. */
  lemma LabelsOfGroup(q: QueryRow, groups: seq<Row>, grupoCol: Option<string>, gradoCol: Option<string>, k: nat)
    requires k < |groups| && GroupId(groups[k]) == Some(q.grupoId) && q.grupoId != ""
    requires forall j :: k < j < |groups| ==> GroupId(groups[j]) != GroupId(groups[k])
    ensures Labelled(q, GroupsMap(groups, grupoCol, gradoCol)).grupoLabel == GroupValue(groups[k], grupoCol)
    ensures Labelled(q, GroupsMap(groups, grupoCol, gradoCol)).gradoLabel == GroupValue(groups[k], gradoCol)
  {
    GroupsMapLastWins(groups, grupoCol, gradoCol, k);
  }

  /** A student whose `grupo_id` matches no group id has empty labels. */
  lemma UnknownGroupNoLabels(q: QueryRow, groups: seq<Row>, grupoCol: Option<string>, gradoCol: Option<string>)
    requires forall j :: 0 <= j < |groups| ==> GroupId(groups[j]) != Some(q.grupoId)
    ensures Labelled(q, GroupsMap(groups, grupoCol, gradoCol)).grupoLabel == ""
    ensures Labelled(q, GroupsMap(groups, grupoCol, gradoCol)).gradoLabel == ""
  {
    GroupsMapKeys(groups, grupoCol, gradoCol);
  }

  /** `nivelClaseHoras`: the card class for a total. */
  function NivelClaseHoras(h: int): (c: string)
    ensures c == "adeuda-baja" <==> h <= 0
    ensures c == "adeuda-media" <==> 1 <= h <= 4
    ensures c == "adeuda-alta" <==> h >= 5
  {
    if h <= 0 then "adeuda-baja"
    else if 1 <= h <= 4 then "adeuda-media"
    else "adeuda-alta"
  }

  function Severity(c: string): nat {
    if c == "adeuda-alta" then 2 else if c == "adeuda-media" then 1 else 0
  }

  /** More hours never give a lighter class. */
  lemma NivelClaseMonotonic(a: int, b: int)
    requires a <= b
    ensures Severity(NivelClaseHoras(a)) <= Severity(NivelClaseHoras(b))
  {
  }

  /** The card's meta line: "Grado g · " when there is a grade label, then "Grupo x" when there
      is a group label. */
  function MetaLine(grado: string, grupo: string): (s: string)
    ensures grado == "" && grupo == "" ==> s == ""
    ensures grado != "" && grupo == "" ==> s == "Grado " + grado + " · "
    ensures grado == "" && grupo != "" ==> s == "Grupo " + grupo
    ensures grado != "" && grupo != "" ==> s == "Grado " + grado + " · Grupo " + grupo
    ensures grado != "" ==> StartsWith(s, "Grado " + grado + " · ")
  {
    var pre := if grado != "" then "Grado " + grado + " · " else "";
    var post := if grupo != "" then "Grupo " + grupo else "";
    assert (pre + post)[..|pre|] == pre;
    pre + post
  }

  /** The data attributes of a student's card, which the filter script reads. */
  function CardOf(s: Student): Card {
    Card(s.row.matricula, s.row.nombre, s.gradoLabel, s.grupoLabel)
  }

  /** The cards, in the order of the query. */
  function Cards(alumnos: seq<Student>): (r: seq<Card>)
    ensures |r| == |alumnos| && forall k :: 0 <= k < |alumnos| ==> r[k] == CardOf(alumnos[k])
  {
    seq(|alumnos|, k requires 0 <= k < |alumnos| => CardOf(alumnos[k]))
  }

  /** A click on a card (or Enter or Space on it) toggles it and deactivates every other card:
      at most one card is active, and a click on the active card leaves none. */
  function ToggleActive(active: Option<nat>, k: nat): (r: Option<nat>)
    ensures active == Some(k) ==> r.None?
    ensures active != Some(k) ==> r == Some(k)
  {
    if active == Some(k) then None else Some(k)
  }
}
