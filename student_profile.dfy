/** The student profile page: which matricula it shows, the joined student and group row it
    looks up, the grade and group it displays, the photo, and the split of the full name into
    first name and surnames. */
module StudentProfile {
  import opened Base
  import opened Strings
  import opened Columns
  import opened Schema
  import Login

  // ---------------------------------------------------------------------------------------
  // Which matricula

  /** The query parameter when it is non-empty in PHP's sense, trimmed; otherwise, for a
      session whose role is exactly "alumno", `edu_matricula` or else `edu_user`, trimmed;
      otherwise ''. */
  function Matricula(get: Option<string>, s: Session): (m: string)
    ensures !IsEmpty(get) ==> m == PhpTrim(get.value)
    ensures IsEmpty(get) && !IsEmpty(SessionGet(s, "edu_rol")) && s["edu_rol"] == "alumno" ==>
      m == PhpTrim(if "edu_matricula" in s then s["edu_matricula"] else if "edu_user" in s then s["edu_user"] else "")
    ensures IsEmpty(get) && (IsEmpty(SessionGet(s, "edu_rol")) || s["edu_rol"] != "alumno") ==> m == ""
  {
    if !IsEmpty(get) then PhpTrim(get.value)
    else if !IsEmpty(SessionGet(s, "edu_rol")) && s["edu_rol"] == "alumno" then
      PhpTrim(if "edu_matricula" in s then s["edu_matricula"] else if "edu_user" in s then s["edu_user"] else "")
    else ""
  }

  /** A blank query parameter is not empty for PHP, so it takes precedence over the session
      and leaves no matricula. */
  lemma BlankQueryGivesNoMatricula(s: Session)
    ensures Matricula(Some(" "), s) == ""
  {
    assert forall k :: 0 <= k < |" "| ==> " "[k] in PhpTrimChars;
    TrimAllWs(" ", PhpTrimChars);
  }

  /** The login routes an account whose role is "Alumno" (any case) to this page. */
  lemma AlumnoRoleRoutesHere(u: Login.SessionWrite)
    requires u.rol == "Alumno"
    ensures Login.Route(u.rol, u.user, None).StudentPage?
  {
    LowerAlumno();
  }

  /** The login stores the role as the account has it, but this page requires exactly
      "alumno": for the account above, without a query parameter, the page finds no
      matricula. */
  lemma RoleSpellingMismatch(s: Session, u: Login.SessionWrite)
    requires u.rol == "Alumno" && "edu_matricula" !in s
    ensures Matricula(None, Login.WriteSession(s, u)) == ""
  {
    var s' := Login.WriteSession(s, u);
    assert s'["edu_rol"] == "Alumno";
    assert "Alumno"[0] != "alumno"[0];
  }

  lemma LowerAlumno()
    ensures Lower(PhpTrim("Alumno")) == "alumno"
  {
    TrimAlumno();
    var l := Lower("Alumno");
    assert LowerChar('A') == 'a';
    assert l[0] == 'a' && l[1] == 'l' && l[2] == 'u' && l[3] == 'm' && l[4] == 'n' && l[5] == 'o';
  }

  lemma TrimAlumno()
    ensures PhpTrim("Alumno") == "Alumno"
  {
    var a := "Alumno";
    assert a[0] !in PhpTrimChars && a[1] !in PhpTrimChars && a[2] !in PhpTrimChars;
    assert a[3] !in PhpTrimChars && a[4] !in PhpTrimChars && a[5] !in PhpTrimChars;
    assert forall k :: 0 <= k < |a| ==> a[k] !in PhpTrimChars;
    TrimClean(a, PhpTrimChars);
  }

  // ---------------------------------------------------------------------------------------
  // The lookup and its outcome

  /** The first joined row whose `a_matricula` is m (`WHERE a.matricula = ? LIMIT 1`). */
  function RowWith(rows: seq<Row>, m: string): (r: Option<Row>)
    ensures r.None? <==> forall k :: 0 <= k < |rows| ==> !(IsSet(rows[k], "a_matricula") && rows[k]["a_matricula"].value == m)
    ensures r.Some? ==> r.value in rows && IsSet(r.value, "a_matricula") && r.value["a_matricula"].value == m
  {
    if rows == [] then None
    else if IsSet(rows[0], "a_matricula") && rows[0]["a_matricula"].value == m then Some(rows[0])
    else
      assert forall k :: 1 <= k < |rows| ==> rows[1..][k - 1] == rows[k];
      RowWith(rows[1..], m)
  }

  datatype ProfileError = NoMatricula | QueryFailed | NotFound

  /** 400 without a matricula, 500 when the statement cannot be prepared, 404 when no row
      comes back (a failed execution is logged and also ends as 404). */
  function Status(e: ProfileError): (code: int)
    ensures code == 400 <==> e == NoMatricula
    ensures code == 500 <==> e == QueryFailed
    ensures code == 404 <==> e == NotFound
  {
    match e
    case NoMatricula => 400
    case QueryFailed => 500
    case NotFound => 404
  }

  // ---------------------------------------------------------------------------------------
  // Grade and group

  const GradoCols: seq<string> := ["grado", "semestre", "nivel"]
  const GrupoCols: seq<string> := ["nombre", "grupo", "grupo_nombre", "codigo"]

  /** A field exactly as the page computes it, with None for PHP's null: the first candidate
      column with a non-NULL, non-empty value; if there is none and the row has the bare
      column, that column's value as it is, NULL included; if the result is '', the
      `a_`-prefixed column or ''. */
  function FieldAsWritten(cands: seq<string>, bare: string, prefixed: string, row: Row): (r: Option<string>)
    ensures FirstNonEmpty(cands, row).Some? ==> r == FirstNonEmpty(cands, row)
    ensures FirstNonEmpty(cands, row).None? && bare in row && row[bare].None? ==> r.None?
    ensures r.None? ==> FirstNonEmpty(cands, row).None? && bare in row && row[bare].None?
    ensures r != Some("") <==>
      FirstNonEmpty(cands, row).Some? || (bare in row && row[bare] != Some("")) || Text(row, prefixed) != ""
  {
    var v: Option<string> := Some(FirstNonEmpty(cands, row).GetOr(""));
    var v := if v == Some("") && bare in row then row[bare] else v;
    if v == Some("") then Some(Text(row, prefixed)) else v
  }

  /** The loop with break over the candidates, then the two fallbacks. */
  method ResolveField(cands: seq<string>, bare: string, prefixed: string, row: Row) returns (v: Option<string>)
    ensures v == FieldAsWritten(cands, bare, prefixed, row)
  {
    var found := FindFirstNonEmpty(cands, row);
    v := Some(found.GetOr(""));
    if v == Some("") && bare in row {
      v := row[bare];
    }
    if v == Some("") {
      v := Some(Text(row, prefixed));
    }
  }

  /** The page prints the field's line when the value is not identical to ''. */
  predicate ShownAsWritten(v: Option<string>) {
    v != Some("")
  }

  /** As written, a student whose group row is missing (the LEFT JOIN gives NULL in every
      group column) still gets an empty "Grado" line: the bare-column fallback copies the
      NULL, which is not identical to '', so even a filled `a_grado` is never reached. */
  lemma MissingGroupShowsEmptyGrado(m: string, row: Row)
    requires "grado" in row && row["grado"].None?
    requires forall k :: 0 <= k < |GradoCols| ==> !HasValue(row, GradoCols[k])
    ensures ProfileOf(m, row).grado.None?
    ensures ShownAsWritten(ProfileOf(m, row).grado)
  {
    assert FirstNonEmpty(GradoCols, row).None?;
  }

  /** The field as evidently intended: the first non-empty candidate, else the `a_`-prefixed
      column, NULL read as ''. */
  function Field(cands: seq<string>, prefixed: string, row: Row): (v: string)
    ensures v == "" <==> FirstNonEmpty(cands, row).None? && Text(row, prefixed) == ""
  {
    match FirstNonEmpty(cands, row)
    case Some(x) => x
    case None => Text(row, prefixed)
  }

  /** The intended field is shown exactly when some candidate column, or the prefixed one,
      holds a non-empty value; it agrees with the code as written whenever the bare column is
      not NULL. */
  lemma FieldShownIff(cands: seq<string>, bare: string, prefixed: string, row: Row)
    requires bare in cands
    ensures Field(cands, prefixed, row) != "" <==>
      (exists k :: 0 <= k < |cands| && HasValue(row, cands[k])) || Text(row, prefixed) != ""
    ensures !(bare in row && row[bare].None?) ==> FieldAsWritten(cands, bare, prefixed, row) == Some(Field(cands, prefixed, row))
  {
    if FirstNonEmpty(cands, row).None? && bare in row {
      var k :| 0 <= k < |cands| && cands[k] == bare;
      assert !HasValue(row, cands[k]);
    }
  }

  // ---------------------------------------------------------------------------------------
  // Photo and name

  const Placeholder := "../assets/avatar-placeholder.png"

  /** The stored photo path when it is non-empty in PHP's sense, else the placeholder. */
  function Foto(row: Row): (f: string)
    ensures Truthy(Text(row, "a_foto")) ==> f == Text(row, "a_foto")
    ensures !Truthy(Text(row, "a_foto")) ==> f == Placeholder
  {
    if Truthy(Text(row, "a_foto")) then Text(row, "a_foto") else Placeholder
  }

  /** The index of the first character of s in ws, or |s|. */
  function FirstWs(s: string, ws: set<char>): (i: nat)
    ensures i <= |s| && (forall k :: 0 <= k < i ==> s[k] !in ws) && (i < |s| ==> s[i] in ws)
  {
    if s == [] then 0
    else if s[0] in ws then 0
    else
      var i := FirstWs(s[1..], ws);
      assert forall k :: 1 <= k < i + 1 ==> s[k] == s[1..][k - 1];
      i + 1
  }

  /** `preg_split('/\s+/', s)`: the pieces between maximal runs of ws, empty pieces kept at
      the ends. */
  function SplitWs(s: string, ws: set<char>): (r: seq<string>)
    ensures r != []
    decreases |s|
  {
    var i := FirstWs(s, ws);
    if i == |s| then [s] else [s[..i]] + SplitWs(TrimStart(s[i + 1..], ws), ws)
  }

  /** `implode(' ', ts)`. */
  function Join(ts: seq<string>): string {
    if ts == [] then "" else if |ts| == 1 then ts[0] else ts[0] + " " + Join(ts[1..])
  }

  predicate NoWs(t: string, ws: set<char>) {
    forall k :: 0 <= k < |t| ==> t[k] !in ws
  }

  /** No piece contains a character of ws. */
  lemma SplitPiecesHaveNoWs(s: string, ws: set<char>)
    ensures forall p :: p in SplitWs(s, ws) ==> NoWs(p, ws)
  {
    var r := SplitWs(s, ws);
    SplitPieceAtHasNoWs(s, ws);
    forall p | p in r ensures NoWs(p, ws) {
      var j :| 0 <= j < |r| && r[j] == p;
    }
  }

  predicate AllNoWs(ps: seq<string>, ws: set<char>) {
    forall j :: 0 <= j < |ps| ==> NoWs(ps[j], ws)
  }

  lemma AllNoWsCons(head: string, rest: seq<string>, ws: set<char>)
    requires NoWs(head, ws) && AllNoWs(rest, ws)
    ensures AllNoWs([head] + rest, ws)
  {
    forall j | 0 <= j < |[head] + rest| ensures NoWs(([head] + rest)[j], ws) {
      if j > 0 {
        assert ([head] + rest)[j] == rest[j - 1];
      }
    }
  }

  /** The same, piece by piece. */
  lemma {:induction false} SplitPieceAtHasNoWs(s: string, ws: set<char>)
    ensures AllNoWs(SplitWs(s, ws), ws)
    decreases |s|
  {
    var i := FirstWs(s, ws);
    if i == |s| {
      SplitWholeHasNoWs(s, ws);
    } else {
      var t := TrimStart(s[i + 1..], ws);
      SplitPieceAtHasNoWs(t, ws);
      SplitStepHasNoWs(s, ws);
    }
  }

  lemma SplitWholeHasNoWs(s: string, ws: set<char>)
    requires FirstWs(s, ws) == |s|
    ensures AllNoWs(SplitWs(s, ws), ws)
  {
    assert SplitWs(s, ws) == [s];
    assert NoWs(s, ws);
  }

  lemma SplitStepHasNoWs(s: string, ws: set<char>)
    requires FirstWs(s, ws) < |s|
    requires AllNoWs(SplitWs(TrimStart(s[FirstWs(s, ws) + 1..], ws), ws), ws)
    ensures AllNoWs(SplitWs(s, ws), ws)
  {
    var i := FirstWs(s, ws);
    SplitFirstPiece(s, ws);
    AllNoWsCons(s[..i], SplitWs(TrimStart(s[i + 1..], ws), ws), ws);
  }

  /** Before the first character of ws: the first piece, which has none. */
  lemma SplitFirstPiece(s: string, ws: set<char>)
    requires FirstWs(s, ws) < |s|
    ensures var i := FirstWs(s, ws);
      SplitWs(s, ws) == [s[..i]] + SplitWs(TrimStart(s[i + 1..], ws), ws) && NoWs(s[..i], ws)
  {
    SplitUnfold(s, ws);
    BeforeFirstWs(s, ws);
  }

  lemma SplitUnfold(s: string, ws: set<char>)
    requires FirstWs(s, ws) < |s|
    ensures var i := FirstWs(s, ws);
      SplitWs(s, ws) == [s[..i]] + SplitWs(TrimStart(s[i + 1..], ws), ws)
  {
  }

  lemma BeforeFirstWs(s: string, ws: set<char>)
    ensures NoWs(s[..FirstWs(s, ws)], ws)
  {
    var head := s[..FirstWs(s, ws)];
    forall k | 0 <= k < |head| ensures head[k] !in ws {
      assert head[k] == s[k];
    }
  }

  lemma JoinStartsWithFirst(ts: seq<string>)
    requires ts != [] && ts[0] != ""
    ensures Join(ts) != [] && Join(ts)[0] == ts[0][0]
  {
  }

  /** A word, a space and a text that starts outside ws split into the word and the pieces
      of that text. */
  lemma SplitAtSpace(t: string, rest: string, ws: set<char>)
    requires ' ' in ws && NoWs(t, ws) && rest != [] && rest[0] !in ws
    ensures SplitWs(t + " " + rest, ws) == [t] + SplitWs(rest, ws)
  {
    var s := t + " " + rest;
    assert s[|t|] == ' ';
    assert forall k :: 0 <= k < |t| ==> s[k] == t[k];
    assert FirstWs(s, ws) == |t|;
    assert s[..|t|] == t;
    assert s[|t| + 1..] == rest;
    assert TrimStart(rest, ws) == rest;
  }

  /** Splitting words joined by single spaces gives the words back. */
  lemma {:induction false} SplitJoin(ts: seq<string>, ws: set<char>)
    requires ' ' in ws && ts != []
    requires forall k :: 0 <= k < |ts| ==> ts[k] != "" && NoWs(ts[k], ws)
    ensures SplitWs(Join(ts), ws) == ts
  {
    if |ts| == 1 {
      assert FirstWs(ts[0], ws) == |ts[0]|;
      assert SplitWs(ts[0], ws) == [ts[0]];
    } else {
      var t, rest := ts[0], Join(ts[1..]);
      assert Join(ts) == t + " " + rest;
      JoinStartsWithFirst(ts[1..]);
      SplitAtSpace(t, rest, ws);
      SplitJoin(ts[1..], ws);
      assert ts == [t] + ts[1..];
    }
  }

  /** The displayed first name and surnames: the first piece (a piece PHP reads as false gives
      ''), and the other pieces joined by single spaces. */
  function NameParts(nombreCompleto: string): (r: (string, string))
    ensures NoWs(r.0, PcreSpaceChars) && !(r.0 != "" && !Truthy(r.0))
    ensures r.0 == "" || r.0 == SplitWs(nombreCompleto, PcreSpaceChars)[0]
    ensures |SplitWs(nombreCompleto, PcreSpaceChars)| == 1 ==> r.1 == ""
  {
    var partes := SplitWs(nombreCompleto, PcreSpaceChars);
    SplitPiecesHaveNoWs(nombreCompleto, PcreSpaceChars);
    assert partes[0] in partes;
    var nombre := if Truthy(partes[0]) then partes[0] else "";
    (nombre, if |partes| > 1 then Join(partes[1..]) else "")
  }

  /** A full name of words separated by single spaces splits into its first word and the rest. */
  lemma NamePartsOfWords(ws: seq<string>)
    requires ws != []
    requires forall k :: 0 <= k < |ws| ==> ws[k] != "" && NoWs(ws[k], PcreSpaceChars)
    ensures NameParts(Join(ws)).0 == (if Truthy(ws[0]) then ws[0] else "")
    ensures NameParts(Join(ws)).1 == Join(ws[1..])
  {
    SplitJoin(ws, PcreSpaceChars);
  }

  /** `trim` does not strip a form feed but `\s` matches it: a name that starts with one gets
      an empty first name and all of its words as surnames. */
  lemma FormFeedLeadingName(words: seq<string>)
    requires words != []
    requires forall k :: 0 <= k < |words| ==> words[k] != "" && NoWs(words[k], PcreSpaceChars)
    ensures NameParts(['\U{C}'] + Join(words)) == ("", Join(words))
  {
    FormFeedSplit(words);
    NamePartsOfEmptyFirst(['\U{C}'] + Join(words), words);
  }

  /** A form feed is a `\s` character that `trim` keeps. */
  lemma FormFeedSurvivesTrim()
    ensures '\U{C}' !in PhpTrimChars && '\U{C}' in PcreSpaceChars
  {
  }

  /** A split whose first piece is empty gives an empty first name and the rest as surnames. */
  lemma NamePartsOfEmptyFirst(n: string, rest: seq<string>)
    requires rest != [] && SplitWs(n, PcreSpaceChars) == [""] + rest
    ensures NameParts(n) == ("", Join(rest))
  {
    assert ([""] + rest)[1..] == rest;
  }

  /** The split of a form feed followed by the words. */
  lemma FormFeedSplit(words: seq<string>)
    requires words != []
    requires forall k :: 0 <= k < |words| ==> words[k] != "" && NoWs(words[k], PcreSpaceChars)
    ensures SplitWs(['\U{C}'] + Join(words), PcreSpaceChars) == [""] + words
  {
    var s := ['\U{C}'] + Join(words);
    SplitLeadingWs(s, PcreSpaceChars);
    assert s[1..] == Join(words);
    StartsOutside(words, PcreSpaceChars);
    SplitJoin(words, PcreSpaceChars);
  }

  /** A join of non-empty words without ws starts outside ws, so TrimStart keeps it. */
  lemma StartsOutside(words: seq<string>, ws: set<char>)
    requires words != [] && words[0] != "" && NoWs(words[0], ws)
    ensures TrimStart(Join(words), ws) == Join(words)
  {
    JoinStartsWithFirst(words);
    assert Join(words)[0] == words[0][0];
  }

  /** A leading character of ws gives an empty first piece. */
  lemma SplitLeadingWs(s: string, ws: set<char>)
    requires s != [] && s[0] in ws
    ensures SplitWs(s, ws) == [""] + SplitWs(TrimStart(s[1..], ws), ws)
  {
    assert FirstWs(s, ws) == 0;
    assert s[..0] == "";
  }

  // ---------------------------------------------------------------------------------------
  // The page

  /** What the page shows. The grade and the group are None where the page holds PHP's null;
      each line is printed unless its value is exactly ''. */
  datatype Profile = Profile(matricula: string, nombreCompleto: string, nombre: string, apellidos: string,
                             grado: Option<string>, grupo: Option<string>, foto: string)

  /** The profile exactly as the page computes it from the found row. */
  function ProfileOf(m: string, row: Row): (r: Profile)
    ensures r.matricula == m && r.foto == Foto(row) && NoWs(r.nombre, PcreSpaceChars)
    ensures r.grado == FieldAsWritten(GradoCols, "grado", "a_grado", row)
    ensures r.grupo == FieldAsWritten(GrupoCols, "grupo", "a_grupo", row)
    ensures ShownAsWritten(r.grado) <==>
      (FirstNonEmpty(GradoCols, row).Some? || ("grado" in row && row["grado"] != Some("")) || Text(row, "a_grado") != "")
    ensures ShownAsWritten(r.grupo) <==>
      (FirstNonEmpty(GrupoCols, row).Some? || ("grupo" in row && row["grupo"] != Some("")) || Text(row, "a_grupo") != "")
  {
    var full := PhpTrim(Text(row, "a_nombre"));
    var parts := NameParts(full);
    Profile(m, full, parts.0, parts.1, FieldAsWritten(GradoCols, "grado", "a_grado", row),
            FieldAsWritten(GrupoCols, "grupo", "a_grupo", row), Foto(row))
  }

  /** The profile as evidently intended: grade and group never NULL, each line shown exactly
      when some candidate or the prefixed column has a value. */
  function IntendedProfileOf(m: string, row: Row): (r: Profile)
    ensures r.grado.Some? && r.grupo.Some?
    ensures ShownAsWritten(r.grado) <==>
      (exists k :: 0 <= k < |GradoCols| && HasValue(row, GradoCols[k])) || Text(row, "a_grado") != ""
    ensures ShownAsWritten(r.grupo) <==>
      (exists k :: 0 <= k < |GrupoCols| && HasValue(row, GrupoCols[k])) || Text(row, "a_grupo") != ""
  {
    FieldShownIff(GradoCols, "grado", "a_grado", row);
    FieldShownIff(GrupoCols, "grupo", "a_grupo", row);
    ProfileOf(m, row).(grado := Some(Field(GradoCols, "a_grado", row)),
                       grupo := Some(Field(GrupoCols, "a_grupo", row)))
  }

  /** The page as written and the intended one differ only when a bare grade or group column
      holds NULL. */
  lemma IntendedAgreesUnlessNull(m: string, row: Row)
    requires !("grado" in row && row["grado"].None?) && !("grupo" in row && row["grupo"].None?)
    ensures ProfileOf(m, row) == IntendedProfileOf(m, row)
  {
    FieldShownIff(GradoCols, "grado", "a_grado", row);
    FieldShownIff(GrupoCols, "grupo", "a_grupo", row);
  }

  /** The page for a request: the query parameter, the session, whether the statement could be
      prepared and executed, and the joined rows. */
  function Page(get: Option<string>, s: Session, prepares: bool, executes: bool, rows: seq<Row>): (r: Result<Profile, ProfileError>)
    ensures r == Err(NoMatricula) <==> !Truthy(Matricula(get, s))
    ensures r == Err(QueryFailed) <==> Truthy(Matricula(get, s)) && !prepares
    ensures r == Err(NotFound) <==> (Truthy(Matricula(get, s)) && prepares
      && (!executes || RowWith(rows, Matricula(get, s)).None?))
    ensures r.Ok? ==> (r.value.matricula == Matricula(get, s)
      && r.value == ProfileOf(Matricula(get, s), RowWith(rows, Matricula(get, s)).value))
  {
    var m := Matricula(get, s);
    if !Truthy(m) then Err(NoMatricula)
    else if !prepares then Err(QueryFailed)
    else if !executes then Err(NotFound)
    else match RowWith(rows, m)
      case None => Err(NotFound)
      case Some(row) => Ok(ProfileOf(m, row))
  }
}
