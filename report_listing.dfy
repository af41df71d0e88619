/** The GET side of the report page: which student is shown, how reports are linked to the
    student, the profile's group and grade columns, the order of the reports, and the split
    into the "adeudo" cards followed by the "completado" cards. */
module ReportListing {
  import opened Base
  import opened Strings
  import opened Columns
  import opened Sorting
  import opened Schema

  // ---------------------------------------------------------------------------------------
  // Profile columns

  const GroupNameCandidates: seq<string> := ["nombre", "grupo", "nombre_grupo", "grupo_nombre"]

  /** The group-name columns `grupos` has, in priority order; each is read as `g.<col>`. */
  function GroupColumns(grCols: set<string>): (r: seq<string>)
    ensures forall c :: c in r <==> c in GroupNameCandidates && c in grCols
  {
    Intersect(GroupNameCandidates, grCols)
  }

  /** The profile's group name: the first candidate group column that is not NULL, else ''. */
  function ProfileGrupo(grCols: set<string>, joined: Row): string {
    CoalesceColumns(Prefixed("g.", GroupColumns(grCols)), joined)
  }

  /** The profile's group name is that of the first candidate, in priority order, that
      `grupos` has and whose joined value is not NULL. */
  lemma ProfileGrupoPriority(grCols: set<string>, joined: Row, k: nat)
    requires k < |GroupNameCandidates| && GroupNameCandidates[k] in grCols
    requires IsSet(joined, "g." + GroupNameCandidates[k])
    requires forall j :: 0 <= j < k ==>
      GroupNameCandidates[j] !in grCols || !IsSet(joined, "g." + GroupNameCandidates[j])
    ensures ProfileGrupo(grCols, joined) == joined["g." + GroupNameCandidates[k]].value
  {
    CoalesceFirstCandidate("g.", GroupNameCandidates, grCols, joined, k);
  }

  /** Without `nombre`, a NULL `grupo` passes the name to `nombre_grupo`, ahead of
      `grupo_nombre`. */
  lemma ProfileGrupoSkipsNullColumn()
    ensures ProfileGrupo({"grupo", "nombre_grupo", "grupo_nombre"},
      map["g.grupo" := None, "g.nombre_grupo" := Some("A"), "g.grupo_nombre" := Some("B")]) == "A"
  {
    var joined := map["g.grupo" := None, "g.nombre_grupo" := Some("A"), "g.grupo_nombre" := Some("B")];
    assert "g." + GroupNameCandidates[1] == "g.grupo";
    assert "g." + GroupNameCandidates[2] == "g.nombre_grupo";
    ProfileGrupoPriority({"grupo", "nombre_grupo", "grupo_nombre"}, joined, 2);
  }

  /** The profile's grade: the first grade expression that is not NULL, else ''. */
  function ProfileGrado(alCols: set<string>, grCols: set<string>, joined: Row): string {
    CoalesceColumns(GradoExpressions(alCols, grCols), joined)
  }

  // ---------------------------------------------------------------------------------------
  // Which student, and how reports point at it

  /** The target matricula: the GET parameter when non-empty, else the session's
      `edu_matricula`, else its `matricula`, each trimmed; '' when none is set. */
  function TargetMatricula(get: Option<string>, s: Session): (r: string)
    ensures !IsEmpty(get) ==> r == PhpTrim(get.value)
    ensures IsEmpty(get) && !IsEmpty(SessionGet(s, "edu_matricula")) ==> r == PhpTrim(s["edu_matricula"])
    ensures IsEmpty(get) && IsEmpty(SessionGet(s, "edu_matricula")) && !IsEmpty(SessionGet(s, "matricula"))
      ==> r == PhpTrim(s["matricula"])
    ensures IsEmpty(get) && IsEmpty(SessionGet(s, "edu_matricula")) && IsEmpty(SessionGet(s, "matricula"))
      ==> r == ""
  {
    if !IsEmpty(get) then PhpTrim(get.value)
    else if !IsEmpty(SessionGet(s, "edu_matricula")) then PhpTrim(s["edu_matricula"])
    else if !IsEmpty(SessionGet(s, "matricula")) then PhpTrim(s["matricula"])
    else ""
  }

  /** A GET parameter of blanks wins over the session and then trims to '': the page answers
      400 even though the session holds a matricula. */
  lemma BlankQueryHidesSession(s: Session)
    requires !IsEmpty(SessionGet(s, "edu_matricula"))
    ensures TargetMatricula(Some("  "), s) == ""
  {
    assert PhpTrim("  ") == "" by {
      assert forall k :: 0 <= k < |"  "| ==> "  "[k] in PhpTrimChars;
      TrimAllWs("  ", PhpTrimChars);
    }
  }

  datatype Link = ByAlumnoId | ByMatricula

  /** `r.alumno_id = ?` when `reportes` has `alumno_id`, else `r.matricula = ?` when it has
      `matricula`, else no way to filter. */
  function LinkColumn(rCols: set<string>): (r: Option<Link>)
    ensures r == Some(ByAlumnoId) <==> "alumno_id" in rCols
    ensures r == Some(ByMatricula) <==> "alumno_id" !in rCols && "matricula" in rCols
    ensures r.None? <==> "alumno_id" !in rCols && "matricula" !in rCols
  {
    if "alumno_id" in rCols then Some(ByAlumnoId)
    else if "matricula" in rCols then Some(ByMatricula)
    else None
  }

  /** The report belongs to the student under the chosen link. */
  predicate Linked(link: Link, r: Report, a: Alumno) {
    match link
    case ByAlumnoId => r.alumnoId == Some(a.id)
    case ByMatricula => r.matricula == Some(a.matricula)
  }

  /** The reports of table linked to the student, in table order. */
  function LinkedReports(link: Link, a: Alumno, table: seq<Report>): (r: seq<Report>)
    ensures forall x :: x in r <==> x in table && Linked(link, x, a)
    ensures |r| <= |table|
  {
    if table == [] then []
    else (if Linked(link, table[0], a) then [table[0]] else []) + LinkedReports(link, a, table[1..])
  }

  const WantedReportCols: seq<string> :=
    ["id", "tipo", "descripcion", "horas", "created_at", "updated_at", "aplicado_por", "ultima_mod_por", "matricula", "alumno_id"]

  /** The wanted report columns the table has, in the wanted order. */
  function ReportSelectCols(rCols: set<string>): (r: seq<string>)
    ensures forall c :: c in r <==> c in WantedReportCols && c in rCols
  {
    Intersect(WantedReportCols, rCols)
  }

  /** Whether the page joins `usuarios` for the applicator's and the last editor's names. */
  function Joins(rCols: set<string>, uCols: set<string>): (r: (bool, bool))
    ensures r.0 <==> "aplicado_por" in rCols && "nombre" in uCols
    ensures r.1 <==> "ultima_mod_por" in rCols && "nombre" in uCols
  {
    ("aplicado_por" in rCols && "nombre" in uCols, "ultima_mod_por" in rCols && "nombre" in uCols)
  }

  // ---------------------------------------------------------------------------------------
  // Order and buckets

  /** `ORDER BY (r.horas > 0) DESC, r.horas DESC, r.created_at DESC`: a comes no later than b.
      The first key adds nothing: ordering by hours descending already puts owed reports first. */
  predicate ReportLe(a: Report, b: Report)
    ensures ReportLe(a, b) <==> a.horas > b.horas || (a.horas == b.horas && a.createdAt >= b.createdAt)
  {
    var pa, pb := a.horas > 0, b.horas > 0;
    (pa && !pb) || (pa == pb && (a.horas > b.horas || (a.horas == b.horas && a.createdAt >= b.createdAt)))
  }

  lemma ReportLeIsTotalPreorder()
    ensures TotalPreorder(ReportLe)
  {
  }

  /** `array_filter(..., horas > 0)`, keeping the order. */
  function Adeudos(rows: seq<Report>): (r: seq<Report>)
    ensures |r| <= |rows|
  {
    if rows == [] then []
    else (if rows[0].horas > 0 then [rows[0]] else []) + Adeudos(rows[1..])
  }

  /** `array_filter(..., horas === 0)`, keeping the order. */
  function Completados(rows: seq<Report>): (r: seq<Report>)
    ensures |r| <= |rows|
  {
    if rows == [] then []
    else (if rows[0].horas == 0 then [rows[0]] else []) + Completados(rows[1..])
  }

  /** The rows either bucket can hold, in their order. */
  function NonNegative(rows: seq<Report>): seq<Report>
  {
    if rows == [] then []
    else (if rows[0].horas >= 0 then [rows[0]] else []) + NonNegative(rows[1..])
  }

  /** Adeudos keeps exactly the owed reports: positive hours. */
  lemma {:induction false} AdeudosExact(rows: seq<Report>)
    ensures forall x :: x in Adeudos(rows) <==> x in rows && x.horas > 0
  {
    if rows != [] {
      AdeudosExact(rows[1..]);
      assert rows == [rows[0]] + rows[1..];
    }
  }

  /** Completados keeps exactly the settled reports: exactly zero hours. */
  lemma {:induction false} CompletadosExact(rows: seq<Report>)
    ensures forall x :: x in Completados(rows) <==> x in rows && x.horas == 0
  {
    if rows != [] {
      CompletadosExact(rows[1..]);
      assert rows == [rows[0]] + rows[1..];
    }
  }

  /** NonNegative keeps exactly the reports with hours of at least zero. */
  lemma {:induction false} NonNegativeExact(rows: seq<Report>)
    ensures forall x :: x in NonNegative(rows) <==> x in rows && x.horas >= 0
  {
    if rows != [] {
      NonNegativeExact(rows[1..]);
      assert rows == [rows[0]] + rows[1..];
    }
  }

  /** `array_merge(array_values($adeudos), array_values($completados))`. */
  function Display(rows: seq<Report>): seq<Report> {
    Adeudos(rows) + Completados(rows)
  }

  /** Each filter keeps order: filtering a concatenation is concatenating the filtered parts. */
  lemma {:induction false} AdeudosDistribute(a: seq<Report>, b: seq<Report>)
    ensures Adeudos(a + b) == Adeudos(a) + Adeudos(b)
  {
    if a == [] {
      assert a + b == b;
    } else {
      var x := a[0];
      assert (a + b)[0] == x && (a + b)[1..] == a[1..] + b;
      AdeudosDistribute(a[1..], b);
      var h := if x.horas > 0 then [x] else [];
      calc {
        Adeudos(a + b);
        h + Adeudos(a[1..] + b);
        h + (Adeudos(a[1..]) + Adeudos(b));
        (h + Adeudos(a[1..])) + Adeudos(b);
        Adeudos(a) + Adeudos(b);
      }
    }
  }

  lemma {:induction false} CompletadosDistribute(a: seq<Report>, b: seq<Report>)
    ensures Completados(a + b) == Completados(a) + Completados(b)
  {
    if a == [] {
      assert a + b == b;
    } else {
      var x := a[0];
      assert (a + b)[0] == x && (a + b)[1..] == a[1..] + b;
      CompletadosDistribute(a[1..], b);
      var h := if x.horas == 0 then [x] else [];
      calc {
        Completados(a + b);
        h + Completados(a[1..] + b);
        h + (Completados(a[1..]) + Completados(b));
        (h + Completados(a[1..])) + Completados(b);
        Completados(a) + Completados(b);
      }
    }
  }

  lemma {:induction false} NonNegativeDistribute(a: seq<Report>, b: seq<Report>)
    ensures NonNegative(a + b) == NonNegative(a) + NonNegative(b)
  {
    if a == [] {
      assert a + b == b;
    } else {
      var x := a[0];
      assert (a + b)[0] == x && (a + b)[1..] == a[1..] + b;
      NonNegativeDistribute(a[1..], b);
      var h := if x.horas >= 0 then [x] else [];
      calc {
        NonNegative(a + b);
        h + NonNegative(a[1..] + b);
        h + (NonNegative(a[1..]) + NonNegative(b));
        (h + NonNegative(a[1..])) + NonNegative(b);
        NonNegative(a) + NonNegative(b);
      }
    }
  }

  /** The cards shown are exactly the reports with non-negative hours, each once: reports with
      negative hours appear in neither bucket. */
  lemma {:induction false} DisplayIsPartition(rows: seq<Report>)
    ensures multiset(Display(rows)) == multiset(NonNegative(rows))
  {
    if rows != [] {
      DisplayIsPartition(rows[1..]);
    }
  }

  lemma {:induction false} NoPositives(rows: seq<Report>)
    requires forall k :: 0 <= k < |rows| ==> rows[k].horas <= 0
    ensures Adeudos(rows) == []
  {
    if rows != [] {
      NoPositives(rows[1..]);
    }
  }

  lemma {:induction false} AllNegative(rows: seq<Report>)
    requires forall k :: 0 <= k < |rows| ==> rows[k].horas < 0
    ensures Adeudos(rows) == [] && Completados(rows) == [] && NonNegative(rows) == []
  {
    if rows != [] {
      AllNegative(rows[1..]);
    }
  }

  /** On rows already in the SQL order, the split changes nothing but dropping the negative
      ones: the owed reports already come first. */
  lemma {:induction false} DisplayOfSorted(rows: seq<Report>)
    requires SortedBy(rows, ReportLe)
    ensures Display(rows) == NonNegative(rows)
  {
    if rows != [] {
      var x, rest := rows[0], rows[1..];
      assert SortedBy(rest, ReportLe) by {
        forall i, j | 0 <= i < j < |rest| ensures ReportLe(rest[i], rest[j]) {
          assert rest[i] == rows[i + 1] && rest[j] == rows[j + 1];
        }
      }
      assert Adeudos(rows) == (if x.horas > 0 then [x] else []) + Adeudos(rest);
      assert Completados(rows) == (if x.horas == 0 then [x] else []) + Completados(rest);
      assert NonNegative(rows) == (if x.horas >= 0 then [x] else []) + NonNegative(rest);
      if x.horas > 0 {
        DisplayOfSorted(rest);
        assert Display(rows) == [x] + (Adeudos(rest) + Completados(rest));
      } else {
        assert forall k :: 0 <= k < |rest| ==> rest[k].horas <= x.horas by {
          forall k | 0 <= k < |rest| ensures rest[k].horas <= x.horas {
            assert ReportLe(rows[0], rows[k + 1]);
          }
        }
        if x.horas == 0 {
          NoPositives(rest);
          DisplayOfSorted(rest);
          assert Display(rest) == Completados(rest);
        } else {
          AllNegative(rest);
        }
      }
    }
  }

  /** The cards are exactly the listed reports with non-negative hours, and owed cards come
      before settled ones whatever the order of the list. */
  lemma DisplayShape(rows: seq<Report>)
    ensures forall x :: x in Display(rows) <==> x in rows && x.horas >= 0
    ensures var r := Display(rows); forall i, j :: 0 <= i < j < |r| && r[i].horas == 0 ==> r[j].horas == 0
  {
    AdeudosExact(rows);
    CompletadosExact(rows);
    var r, a := Display(rows), Adeudos(rows);
    forall i, j | 0 <= i < j < |r| && r[i].horas == 0 ensures r[j].horas == 0 {
      assert !(r[i] in a);
      assert r[j] in Completados(rows);
    }
  }

  // ---------------------------------------------------------------------------------------
  // The page

  datatype PageError = NoMatricula | AlumnoNotFound | NoLinkColumn | NoReportColumns

  function PageStatus(e: PageError): (code: int)
    ensures code == 400 <==> e == NoMatricula
    ensures code == 404 <==> e == AlumnoNotFound
    ensures code == 400 || code == 404 || code == 500
  {
    match e
    case NoMatricula => 400
    case AlumnoNotFound => 404
    case _ => 500
  }

  /** The student, the reports in SQL order, and the cards in display order. */
  datatype Listing = Listing(alumno: Alumno, ordered: seq<Report>, cards: seq<Report>)

  function ListReports(get: Option<string>, s: Session, alumnos: seq<Alumno>, table: seq<Report>,
                       rCols: set<string>): (r: Result<Listing, PageError>)
    ensures !Truthy(TargetMatricula(get, s)) ==> r == Err(NoMatricula)
    ensures (Truthy(TargetMatricula(get, s)) && FindByMatricula(alumnos, TargetMatricula(get, s)).None?)
            ==> r == Err(AlumnoNotFound)
    ensures (Truthy(TargetMatricula(get, s)) && FindByMatricula(alumnos, TargetMatricula(get, s)).Some?
             && LinkColumn(rCols).None?) ==> r == Err(NoLinkColumn)
    ensures r.Ok? ==> (FindByMatricula(alumnos, TargetMatricula(get, s)) == Some(r.value.alumno)
      && LinkColumn(rCols).Some? && SortedBy(r.value.ordered, ReportLe)
      && multiset(r.value.ordered) == multiset(LinkedReports(LinkColumn(rCols).value, r.value.alumno, table))
      && r.value.cards == Display(r.value.ordered))
  {
    var m := TargetMatricula(get, s);
    if !Truthy(m) then Err(NoMatricula)
    else match FindByMatricula(alumnos, m)
      case None => Err(AlumnoNotFound)
      case Some(a) =>
        match LinkColumn(rCols)
        case None => Err(NoLinkColumn)
        case Some(link) =>
          if ReportSelectCols(rCols) == [] then Err(NoReportColumns)
          else
            ReportLeIsTotalPreorder();
            var ordered := SortBy(LinkedReports(link, a, table), ReportLe);
            Ok(Listing(a, ordered, Display(ordered)))
  }

  /** Once a link column exists the wanted-columns error cannot happen: both link columns are
      wanted columns. */
  lemma LinkImpliesColumns(rCols: set<string>)
    requires LinkColumn(rCols).Some?
    ensures ReportSelectCols(rCols) != []
  {
    var cols := ReportSelectCols(rCols);
    if "alumno_id" in rCols {
      assert "alumno_id" in WantedReportCols;
      assert "alumno_id" in cols;
    } else {
      assert "matricula" in WantedReportCols;
      assert "matricula" in cols;
    }
  }

  /** The page shows the student it was asked for, and its cards are exactly that student's
      reports with non-negative hours in SQL order: owed ones first, then settled ones. */
  lemma ListingCards(get: Option<string>, s: Session, alumnos: seq<Alumno>, table: seq<Report>, rCols: set<string>)
    requires ListReports(get, s, alumnos, table, rCols).Ok?
    ensures var l := ListReports(get, s, alumnos, table, rCols).value;
      && Truthy(TargetMatricula(get, s)) && l.alumno.matricula == TargetMatricula(get, s) && l.alumno in alumnos
      && SortedBy(l.ordered, ReportLe)
      && multiset(l.ordered) == multiset(LinkedReports(LinkColumn(rCols).value, l.alumno, table))
      && l.cards == NonNegative(l.ordered)
      && (forall k :: 0 <= k < |l.cards| ==> l.cards[k] in table && Linked(LinkColumn(rCols).value, l.cards[k], l.alumno))
      && (forall x :: x in table && Linked(LinkColumn(rCols).value, x, l.alumno) && x.horas >= 0 ==> x in l.cards)
  {
    var l := ListReports(get, s, alumnos, table, rCols).value;
    var link := LinkColumn(rCols).value;
    var linked := LinkedReports(link, l.alumno, table);
    ReportLeIsTotalPreorder();
    assert l.ordered == SortBy(linked, ReportLe) && l.cards == Display(l.ordered);
    SortedCards(l.ordered, table, link, l.alumno);
  }

  /** The cards of a sorted arrangement of a student's linked reports. */
  lemma SortedCards(ordered: seq<Report>, table: seq<Report>, link: Link, a: Alumno)
    requires SortedBy(ordered, ReportLe)
    requires multiset(ordered) == multiset(LinkedReports(link, a, table))
    ensures Display(ordered) == NonNegative(ordered)
    ensures forall k :: 0 <= k < |Display(ordered)| ==> Display(ordered)[k] in table && Linked(link, Display(ordered)[k], a)
    ensures forall x :: x in table && Linked(link, x, a) && x.horas >= 0 ==> x in Display(ordered)
  {
    var linked := LinkedReports(link, a, table);
    DisplayOfSorted(ordered);
    NonNegativeExact(ordered);
    forall x | x in ordered ensures x in linked {
      assert x in multiset(ordered);
    }
    forall x | x in linked ensures x in ordered {
      assert x in multiset(linked);
    }
    var cards := Display(ordered);
    forall k | 0 <= k < |cards| ensures cards[k] in table && Linked(link, cards[k], a) {
      assert cards[k] in ordered;
    }
  }
}
