/** The `action=update_report` endpoint of the report page: input checks, the editor taken
    from the session, the history note, and the whole transaction as a function of the tables
    before the call. */
module ReportUpdate {
  import opened Base
  import opened Strings
  import opened Numbers
  import opened Schema

  /** The POST fields; None means the field was not sent. */
  datatype UpdateRequest = UpdateRequest(
    id: Option<string>,
    horas: Option<string>,
    descripcion: Option<string>,
    nota: Option<string>)

  /** The store faults the handler reacts to: the SELECT cannot be prepared, the UPDATE cannot
      be prepared or executed, the history INSERT cannot be executed. A missing history table is
      not a fault: its INSERT is then never prepared and the update goes ahead without it. */
  datatype Faults = Faults(selectFails: bool, updateFails: bool, historyInsertFails: bool)

  function NoFaults(): Faults {
    Faults(false, false, false)
  }

  datatype UpdateError =
    | MissingId       // 'Falta id del reporte.'
    | InvalidHours    // 'Valor de horas no válido.'
    | SelectFailed    // 'Error prepare SELECT: ...'
    | NotFound        // 'Reporte no encontrado'
    | UpdateFailed    // 'Error prepare UPDATE: ...' or 'No se pudo actualizar: ...'
    | HistoryFailed   // 'No se pudo insertar historial: ...'

  /** The HTTP status the JSON error goes out with. */
  function HttpStatus(e: UpdateError): (code: int)
    ensures code == 400 <==> e == MissingId || e == InvalidHours
    ensures code == 400 || code == 500
  {
    if e == MissingId || e == InvalidHours then 400 else 500
  }

  /** `{ok: true, id, horas, horas_prev}`. */
  datatype UpdateOk = UpdateOk(id: string, horas: int, horasPrev: int)

  /** The request after its checks. */
  datatype Checked = Checked(id: string, horas: int, descripcion: Option<string>, nota: Option<string>)

  function TrimOpt(v: Option<string>): (r: Option<string>)
    ensures r.Some? <==> v.Some?
    ensures v.Some? ==> r.value == PhpTrim(v.value)
  {
    if v.Some? then Some(PhpTrim(v.value)) else None
  }

  /** The checks before the transaction: a non-empty trimmed id, then hours that were sent and
      read as a non-negative integer. */
  function Check(req: UpdateRequest): (r: Result<Checked, UpdateError>)
    ensures r == Err(MissingId) <==> PhpTrim(req.id.GetOr("")) == ""
    ensures r == Err(InvalidHours) <==>
      PhpTrim(req.id.GetOr("")) != "" && (req.horas.None? || IntVal(req.horas.value) < 0)
    ensures r.Err? ==> r.error == MissingId || r.error == InvalidHours
    ensures r.Ok? ==> (r.value.id != "" && r.value.id == PhpTrim(req.id.value)
      && req.horas.Some? && r.value.horas == IntVal(req.horas.value) && r.value.horas >= 0
      && r.value.descripcion == TrimOpt(req.descripcion) && r.value.nota == TrimOpt(req.nota))
  {
    var id := PhpTrim(req.id.GetOr(""));
    if id == "" then Err(MissingId)
    else if req.horas.None? then Err(InvalidHours)
    else
      var horas := IntVal(req.horas.value);
      if horas < 0 then Err(InvalidHours)
      else Ok(Checked(id, horas, TrimOpt(req.descripcion), TrimOpt(req.nota)))
  }

  /** A session value that is set, non-empty in PHP's sense, and numeric. */
  predicate NumericSessionValue(v: Option<string>) {
    !IsEmpty(v) && IsNumericInt(v.value)
  }

  /** The editor: `user_id` when it is a non-empty number, otherwise `usuario_id` when that one
      is, and also `usuario_id` when `user_id` read as 0. */
  function EditorId(s: Session): (r: Option<int>)
    ensures NumericSessionValue(SessionGet(s, "user_id")) && IntVal(s["user_id"]) != 0
      ==> r == Some(IntVal(s["user_id"]))
    ensures !NumericSessionValue(SessionGet(s, "user_id")) && NumericSessionValue(SessionGet(s, "usuario_id"))
      ==> r == Some(IntVal(s["usuario_id"]))
    ensures NumericSessionValue(SessionGet(s, "user_id")) && IntVal(s["user_id"]) == 0
      ==> r == (if NumericSessionValue(SessionGet(s, "usuario_id")) then Some(IntVal(s["usuario_id"])) else Some(0))
    ensures r.None? <==>
      !NumericSessionValue(SessionGet(s, "user_id")) && !NumericSessionValue(SessionGet(s, "usuario_id"))
  {
    var u := SessionGet(s, "user_id");
    var first := if NumericSessionValue(u) then Some(IntVal(u.value)) else None;
    var v := SessionGet(s, "usuario_id");
    if (first.None? || first.value == 0) && NumericSessionValue(v) then Some(IntVal(v.value))
    else first
  }

  /** The editor's label: `usuario`, else `edu_user`. */
  function EditorLabel(s: Session): Option<string> {
    OrElse(SessionGet(s, "usuario"), SessionGet(s, "edu_user"))
  }

  /** At most the first n characters of s (`substr($s, 0, $n)`). */
  function Prefix(s: string, n: nat): (r: string)
    ensures |r| <= n && |r| <= |s| && r == s[..|r|]
    ensures |s| <= n ==> r == s
    ensures |s| > n ==> |r| == n
  {
    if |s| <= n then s else s[..n]
  }

  const EditedBy: string := "editado por: "

  /** The history note: the submitted note when it is truthy; otherwise "editado por: " and the
      first 120 characters (all of it when shorter) of a truthy editor label; otherwise ''. */
  function HistoryNote(nota: Option<string>, who: Option<string>): (r: string)
    ensures nota.Some? && Truthy(nota.value) ==> r == nota.value
    ensures !(nota.Some? && Truthy(nota.value)) && who.Some? && Truthy(who.value) ==>
      StartsWith(r, EditedBy) && |r| - |EditedBy| <= 120 && |r| - |EditedBy| <= |who.value|
      && r[|EditedBy|..] == who.value[..|r| - |EditedBy|]
      && (|who.value| <= 120 ==> r == EditedBy + who.value)
      && (|who.value| > 120 ==> r == EditedBy + who.value[..120])
    ensures !(nota.Some? && Truthy(nota.value)) && !(who.Some? && Truthy(who.value)) ==> r == ""
  {
    var auto := if who.Some? && Truthy(who.value) then EditedBy + Prefix(who.value, 120) else "";
    Elvis(nota, auto)
  }

  /** What the handler returns and the tables it leaves behind. */
  datatype UpdateOutcome = UpdateOutcome(tables: Tables, response: Result<UpdateOk, UpdateError>)

  /** The row after the UPDATE: new hours, the description only when one was sent, the editor
      and the time. */
  function UpdatedRow(row: Report, c: Checked, editor: Option<int>, now: int): (r: Report)
    ensures r.horas == c.horas && r.updatedAt == now && r.ultimaModPor == editor
    ensures r.descripcion == (if c.descripcion.Some? then c.descripcion.value else row.descripcion)
    ensures r.(horas := row.horas, descripcion := row.descripcion, updatedAt := row.updatedAt,
               ultimaModPor := row.ultimaModPor) == row
  {
    row.(horas := c.horas,
         descripcion := if c.descripcion.Some? then c.descripcion.value else row.descripcion,
         updatedAt := now,
         ultimaModPor := editor)
  }

  /** The whole endpoint on the tables before the call: checks, then one transaction that
      commits the updated row and one history entry, or rolls back to the tables it started with. */
  function Update(t: Tables, hasHistoryTable: bool, req: UpdateRequest, s: Session, f: Faults, now: int): (o: UpdateOutcome)
    ensures Check(req).Err? ==> o == UpdateOutcome(t, Err(Check(req).error))
    ensures o.response.Err? ==> o.tables == t
    ensures o.response.Ok? ==> (Check(req).Ok? && o.response.value.id == Check(req).value.id
      && o.tables.reportes.Keys == t.reportes.Keys
      && |o.tables.historial| == |t.historial| + (if hasHistoryTable then 1 else 0))
  {
    match Check(req)
    case Err(e) => UpdateOutcome(t, Err(e))
    case Ok(c) => Transaction(t, hasHistoryTable, c, s, f, now)
  }

  /** The transaction, once the request has passed its checks. */
  function Transaction(t: Tables, hasHistoryTable: bool, c: Checked, s: Session, f: Faults, now: int): (o: UpdateOutcome)
    ensures o.response.Ok? <==> (!f.selectFails && c.id in t.reportes && !f.updateFails
      && !(hasHistoryTable && f.historyInsertFails))
    ensures o.response.Err? ==> o.tables == t
    ensures o.response.Ok? ==> (o.response.value == UpdateOk(c.id, c.horas, t.reportes[c.id].horas)
      && o.tables.reportes.Keys == t.reportes.Keys
      && o.tables.reportes[c.id].horas == c.horas
      && (forall k :: k in t.reportes && k != c.id ==> o.tables.reportes[k] == t.reportes[k])
      && |o.tables.historial| == |t.historial| + (if hasHistoryTable then 1 else 0)
      && o.tables.historial[..|t.historial|] == t.historial)
  {
      if f.selectFails then UpdateOutcome(t, Err(SelectFailed))
      else if c.id !in t.reportes then UpdateOutcome(t, Err(NotFound))
      else if f.updateFails then UpdateOutcome(t, Err(UpdateFailed))
      else if hasHistoryTable && f.historyInsertFails then UpdateOutcome(t, Err(HistoryFailed))
      else
        var row := t.reportes[c.id];
        var editor := EditorId(s);
        var entry := HistoryEntry(c.id, row.horas, c.horas, editor, HistoryNote(c.nota, EditorLabel(s)), now);
        UpdateOutcome(
          Tables(t.reportes[c.id := UpdatedRow(row, c, editor, now)],
                 t.historial + (if hasHistoryTable then [entry] else [])),
          Ok(UpdateOk(c.id, c.horas, row.horas)))
  }

  /** The tables a successful call commits, named once for the proofs below. */
  lemma Committed(t: Tables, h: bool, req: UpdateRequest, s: Session, f: Faults, now: int)
      returns (c: Checked, row': Report, entry: HistoryEntry)
    requires Update(t, h, req, s, f, now).response.Ok?
    ensures c == Check(req).value && c.id in t.reportes
    ensures row' == UpdatedRow(t.reportes[c.id], c, EditorId(s), now)
    ensures entry == HistoryEntry(c.id, t.reportes[c.id].horas, c.horas, EditorId(s), HistoryNote(c.nota, EditorLabel(s)), now)
    ensures Update(t, h, req, s, f, now).tables == Tables(t.reportes[c.id := row'], t.historial + (if h then [entry] else []))
    ensures Update(t, h, req, s, f, now).response.value == UpdateOk(c.id, c.horas, t.reportes[c.id].horas)
  {
    c := Check(req).value;
    row' := UpdatedRow(t.reportes[c.id], c, EditorId(s), now);
    entry := HistoryEntry(c.id, t.reportes[c.id].horas, c.horas, EditorId(s), HistoryNote(c.nota, EditorLabel(s)), now);
  }

  // ---------------------------------------------------------------------------------------
  // Properties of the endpoint

  /** A missing or blank id, or missing or negative hours, is rejected with status 400 and
      nothing changes. */
  lemma BadInputRejected(t: Tables, h: bool, req: UpdateRequest, s: Session, f: Faults, now: int)
    requires PhpTrim(req.id.GetOr("")) == "" || req.horas.None? || IntVal(req.horas.value) < 0
    ensures Update(t, h, req, s, f, now).tables == t
    ensures Update(t, h, req, s, f, now).response.Err?
    ensures HttpStatus(Update(t, h, req, s, f, now).response.error) == 400
  {
    var c := Check(req);
    assert c.Err?;
  }

  /** An id that is not in the table fails with NotFound; neither table changes. */
  lemma UnknownIdRejected(t: Tables, h: bool, req: UpdateRequest, s: Session, f: Faults, now: int)
    requires Check(req).Ok? && Check(req).value.id !in t.reportes && !f.selectFails
    ensures Update(t, h, req, s, f, now) == UpdateOutcome(t, Err(NotFound))
  {
  }

  /** Any failure leaves both tables exactly as they were (rollback). */
  lemma FailureChangesNothing(t: Tables, h: bool, req: UpdateRequest, s: Session, f: Faults, now: int)
    requires Update(t, h, req, s, f, now).response.Err?
    ensures Update(t, h, req, s, f, now).tables == t
  {
  }

  /** The update succeeds exactly when the input is good, the row exists and no step fails;
      a failing history insert alone makes it fail when the history table exists. */
  lemma SucceedsIff(t: Tables, h: bool, req: UpdateRequest, s: Session, f: Faults, now: int)
    ensures Update(t, h, req, s, f, now).response.Ok? <==>
      Check(req).Ok? && !f.selectFails && Check(req).value.id in t.reportes && !f.updateFails
      && !(h && f.historyInsertFails)
  {
  }

  /** On success: the row with that id has the new hours, the response carries the hours
      before the call, no other row changes, and the history grows by exactly one entry
      (prev, new, editor, note) when the history table exists. */
  lemma SuccessEffect(t: Tables, h: bool, req: UpdateRequest, s: Session, f: Faults, now: int)
    requires Update(t, h, req, s, f, now).response.Ok?
    ensures var o := Update(t, h, req, s, f, now); var id := o.response.value.id;
      && id == PhpTrim(req.id.value) && id in t.reportes
      && o.response.value.horas == IntVal(req.horas.value)
      && o.response.value.horasPrev == t.reportes[id].horas
      && o.tables.reportes.Keys == t.reportes.Keys
      && o.tables.reportes[id].horas == IntVal(req.horas.value)
      && (forall k :: k in t.reportes && k != id ==> o.tables.reportes[k] == t.reportes[k])
      && (req.descripcion.None? ==> o.tables.reportes[id].descripcion == t.reportes[id].descripcion)
      && (req.descripcion.Some? ==> o.tables.reportes[id].descripcion == PhpTrim(req.descripcion.value))
      && o.tables.historial[..|t.historial|] == t.historial
      && |o.tables.historial| == |t.historial| + (if h then 1 else 0)
      && (h ==> (o.tables.historial[|t.historial|] ==
            HistoryEntry(id, t.reportes[id].horas, IntVal(req.horas.value), EditorId(s),
                         HistoryNote(TrimOpt(req.nota), EditorLabel(s)), now)))
  {
    var c, row', entry := Committed(t, h, req, s, f, now);
    var o := Update(t, h, req, s, f, now);
    var hist := t.historial + (if h then [entry] else []);
    assert o.tables.reportes == t.reportes[c.id := row'];
    assert o.tables.historial == hist;
    assert hist[..|t.historial|] == t.historial;
  }

  /** Sending the same hours twice: the second call also succeeds, reports the hours it set
      as the previous ones, keeps them, and records a no-change history entry. */
  lemma SecondIdenticalUpdate(t: Tables, h: bool, req: UpdateRequest, s: Session, now1: int, now2: int)
    requires Update(t, h, req, s, NoFaults(), now1).response.Ok?
    ensures var t1 := Update(t, h, req, s, NoFaults(), now1).tables;
      var o2 := Update(t1, h, req, s, NoFaults(), now2);
      var id := o2.response.value.id;
      && o2.response.Ok?
      && o2.response.value.horasPrev == o2.response.value.horas
      && o2.tables.reportes[id].horas == t1.reportes[id].horas
      && (h ==> o2.tables.historial[|t1.historial|].horasPrev == o2.tables.historial[|t1.historial|].horasNew)
  {
  }

  /** The endpoint never stores negative hours: if every row is non-negative before, every
      row is non-negative after. */
  lemma UpdateKeepsHoursNonNegative(t: Tables, h: bool, req: UpdateRequest, s: Session, f: Faults, now: int)
    requires forall k :: k in t.reportes ==> t.reportes[k].horas >= 0
    ensures var t' := Update(t, h, req, s, f, now).tables;
      forall k :: k in t'.reportes ==> t'.reportes[k].horas >= 0
  {
    var o := Update(t, h, req, s, f, now);
    if o.response.Ok? {
      var c, row', entry := Committed(t, h, req, s, f, now);
      var m := o.tables.reportes;
      assert m == t.reportes[c.id := row'];
      forall k | k in m ensures m[k].horas >= 0 {
        if k != c.id {
          assert m[k] == t.reportes[k];
        }
      }
    } else {
      FailureChangesNothing(t, h, req, s, f, now);
    }
  }

  /** After an update, the report's bucket is read from its new hours. */
  lemma BucketFollowsNewHours(t: Tables, h: bool, req: UpdateRequest, s: Session, f: Faults, now: int)
    requires Update(t, h, req, s, f, now).response.Ok?
    ensures var o := Update(t, h, req, s, f, now); var id := o.response.value.id;
      (EstadoClase(o.tables.reportes[id].horas) == "adeuda") <==> o.response.value.horas > 0
  {
  }

  /** "-1" as the hours of an existing report is rejected and nothing changes. */
  lemma MinusOneRejected(t: Tables, h: bool, id: string, s: Session, f: Faults, now: int)
    requires PhpTrim(id) != ""
    ensures var req := UpdateRequest(Some(id), Some("-1"), None, None);
      Update(t, h, req, s, f, now) == UpdateOutcome(t, Err(InvalidHours))
  {
    var req := UpdateRequest(Some(id), Some("-1"), None, None);
    IntValMinusOne();
    assert Check(req) == Err(InvalidHours);
  }

  lemma IntValMinusOne()
    ensures IntVal("-1") == -1
  {
    IntValOfNegative(1);
    assert NatToString(1) == "1";
    assert "-" + "1" == "-1";
  }

  /** The endpoint keeps every row under its own id and every history entry pointing at a
      stored report. */
  lemma UpdatePreservesWellKeyed(t: Tables, h: bool, req: UpdateRequest, s: Session, f: Faults, now: int)
    requires WellKeyed(t)
    ensures WellKeyed(Update(t, h, req, s, f, now).tables)
  {
    if Update(t, h, req, s, f, now).response.Ok? {
      var c, row', entry := Committed(t, h, req, s, f, now);
      CommitKeepsWellKeyed(t, c.id, row', if h then [entry] else []);
    } else {
      FailureChangesNothing(t, h, req, s, f, now);
    }
  }

  /** Replacing a row by one with the same id and appending entries for it keeps the tables
      well keyed. */
  lemma CommitKeepsWellKeyed(t: Tables, id: string, row': Report, extra: seq<HistoryEntry>)
    requires WellKeyed(t) && id in t.reportes && row'.id == id
    requires forall i :: 0 <= i < |extra| ==> extra[i].reporteId == id
    ensures WellKeyed(Tables(t.reportes[id := row'], t.historial + extra))
  {
    var hist := t.historial + extra;
    forall i | 0 <= i < |hist| ensures hist[i].reporteId in t.reportes {
      if i < |t.historial| {
        assert hist[i] == t.historial[i];
      } else {
        assert hist[i] == extra[i - |t.historial|];
      }
    }
  }
}
