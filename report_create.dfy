/** The POST handler of the apply-report page: coercion of the submitted fields, the applicator
    taken from the session, the generated report id, the student lookup by matricula, and the
    INSERT, as a function of the tables before the call. */
module ReportCreate {
  import opened Base
  import opened Strings
  import opened Numbers
  import opened Schema

  /** The submitted fields (JSON body or form); None means the field was absent or null. */
  datatype CreateRequest = CreateRequest(
    matricula: Option<string>,
    alumnoId: Option<string>,
    tipo: Option<string>,
    horas: Option<string>,
    descripcion: Option<string>)

  /** The fields after coercion. */
  datatype Coerced = Coerced(matricula: string, alumnoId: Option<int>, tipo: string, horas: int, descripcion: string)

  /** Strings are trimmed, absent strings become ''; an absent student id stays null; absent
      hours become 0. Nothing is rejected: an empty type or negative hours go through. */
  function Coerce(req: CreateRequest): (c: Coerced)
    ensures c.matricula == PhpTrim(req.matricula.GetOr(""))
    ensures c.tipo == PhpTrim(req.tipo.GetOr("")) && c.descripcion == PhpTrim(req.descripcion.GetOr(""))
    ensures c.alumnoId.Some? <==> req.alumnoId.Some?
    ensures req.alumnoId.Some? ==> c.alumnoId.value == IntVal(req.alumnoId.value)
    ensures req.horas.None? ==> c.horas == 0
    ensures req.horas.Some? ==> c.horas == IntVal(req.horas.value)
  {
    Coerced(
      PhpTrim(req.matricula.GetOr("")),
      if req.alumnoId.Some? then Some(IntVal(req.alumnoId.value)) else None,
      PhpTrim(req.tipo.GetOr("")),
      if req.horas.Some? then IntVal(req.horas.value) else 0,
      PhpTrim(req.descripcion.GetOr("")))
  }

  /** The applicator: `usuario_id` when it is non-empty, else `user_id` when that is; an id
      that reads as 0 is stored as NULL. The same value goes into both `aplicado_por` and
      `ultima_mod_por`. */
  function AppliedBy(s: Session): (r: Option<int>)
    ensures r.Some? ==> r.value != 0
    ensures !IsEmpty(SessionGet(s, "usuario_id")) ==>
      r == (if IntVal(s["usuario_id"]) == 0 then None else Some(IntVal(s["usuario_id"])))
    ensures IsEmpty(SessionGet(s, "usuario_id")) && !IsEmpty(SessionGet(s, "user_id")) ==>
      r == (if IntVal(s["user_id"]) == 0 then None else Some(IntVal(s["user_id"])))
    ensures IsEmpty(SessionGet(s, "usuario_id")) && IsEmpty(SessionGet(s, "user_id")) ==> r.None?
  {
    var u := SessionGet(s, "user_id");
    var v := SessionGet(s, "usuario_id");
    var a := if !IsEmpty(v) then IntVal(v.value) else if !IsEmpty(u) then IntVal(u.value) else 0;
    if a != 0 then Some(a) else None
  }

  /** 'r', the twelve hexadecimal digits of six random bytes, then the Unix time in decimal. */
  function ReportId(bytes: seq<Byte>, now: nat): (id: string)
    requires |bytes| == 6
    ensures |id| > 13 && id[0] == 'r'
    ensures forall k :: 1 <= k < 13 ==> IsLowerHex(id[k])
    ensures id[1..13] == Bin2Hex(bytes) && id[13..] == NatToString(now)
  {
    var hex := Bin2Hex(bytes);
    "r" + hex[..12] + NatToString(now)
  }

  /** Two ids are equal only when both the bytes and the time are equal. */
  lemma ReportIdInjective(b1: seq<Byte>, t1: nat, b2: seq<Byte>, t2: nat)
    requires |b1| == 6 && |b2| == 6
    requires ReportId(b1, t1) == ReportId(b2, t2)
    ensures b1 == b2 && t1 == t2
  {
    var id := ReportId(b1, t1);
    assert Bin2Hex(b1) == id[1..13] == Bin2Hex(b2);
    Bin2HexInjective(b1, b2);
    assert NatToString(t1) == id[13..] == NatToString(t2);
    NatToStringInjective(t1, t2);
  }

  /** The student id that goes into the row: the given one unless it is null or 0 and the
      matricula is truthy, in which case the first student with that matricula, when the
      lookup can run and finds one. */
  function ResolveAlumnoId(c: Coerced, alumnos: seq<Alumno>, lookupOk: bool): (r: Option<int>)
    ensures (c.alumnoId.Some? && c.alumnoId.value != 0) || !Truthy(c.matricula) ==> r == c.alumnoId
    ensures (c.alumnoId.None? || c.alumnoId.value == 0) && Truthy(c.matricula) && lookupOk
      && FindByMatricula(alumnos, c.matricula).Some?
      ==> r == Some(FindByMatricula(alumnos, c.matricula).value.id)
    ensures (c.alumnoId.None? || c.alumnoId.value == 0) && Truthy(c.matricula)
      && (!lookupOk || FindByMatricula(alumnos, c.matricula).None?)
      ==> r == c.alumnoId
  {
    if (c.alumnoId.None? || c.alumnoId.value == 0) && Truthy(c.matricula) && lookupOk then
      match FindByMatricula(alumnos, c.matricula)
      case Some(a) => Some(a.id)
      case None => c.alumnoId
    else c.alumnoId
  }

  /** The row a successful INSERT adds: active, no matricula column, created and updated now. */
  function NewRow(id: string, c: Coerced, alumnoId: Option<int>, applier: Option<int>, now: int): (r: Report)
    ensures r.id == id && r.alumnoId == alumnoId && r.tipo == c.tipo && r.descripcion == c.descripcion
    ensures r.horas == c.horas && r.aplicadoPor == applier && r.ultimaModPor == applier
    ensures r.activo == Some(1) && r.matricula.None? && r.createdAt == now && r.updatedAt == now
  {
    Report(id, alumnoId, None, c.tipo, c.descripcion, c.horas, applier, applier, Some(1), now, now)
  }

  /** A failed prepare, a failed execute, or a duplicate primary key. */
  datatype CreateError = InsertFailed

  datatype CreateOutcome = CreateOutcome(tables: Tables, response: Result<string, CreateError>)

  /** The whole handler on the tables before the call. `bytes` and `now` stand for
      `random_bytes(6)` and `time()`; `insertFails` for a statement that cannot be prepared
      or executed. */
  function Create(t: Tables, alumnos: seq<Alumno>, req: CreateRequest, s: Session,
                  bytes: seq<Byte>, now: nat, lookupOk: bool, insertFails: bool): (o: CreateOutcome)
    requires |bytes| == 6
    ensures o.response.Ok? <==> !insertFails && ReportId(bytes, now) !in t.reportes
    ensures o.response.Err? ==> o.tables == t
    ensures o.response.Ok? ==> (o.response.value == ReportId(bytes, now) && o.tables.historial == t.historial
      && o.tables.reportes.Keys == t.reportes.Keys + {o.response.value}
      && (forall k :: k in t.reportes ==> o.tables.reportes[k] == t.reportes[k])
      && o.tables.reportes[o.response.value].horas == (if req.horas.Some? then IntVal(req.horas.value) else 0)
      && o.tables.reportes[o.response.value].tipo == PhpTrim(req.tipo.GetOr("")))
  {
    CreateFrom(t, alumnos, Coerce(req), s, bytes, now, lookupOk, insertFails)
  }

  /** The handler once the fields are coerced. */
  function CreateFrom(t: Tables, alumnos: seq<Alumno>, c: Coerced, s: Session,
                      bytes: seq<Byte>, now: nat, lookupOk: bool, insertFails: bool): (o: CreateOutcome)
    requires |bytes| == 6
    ensures o.response.Ok? <==> !insertFails && ReportId(bytes, now) !in t.reportes
    ensures o.response.Err? ==> o.tables == t
    ensures o.response.Ok? ==> (o.response.value == ReportId(bytes, now) && o.tables.historial == t.historial
      && o.tables.reportes.Keys == t.reportes.Keys + {o.response.value}
      && (forall k :: k in t.reportes ==> o.tables.reportes[k] == t.reportes[k])
      && o.tables.reportes[o.response.value]
         == NewRow(o.response.value, c, ResolveAlumnoId(c, alumnos, lookupOk), AppliedBy(s), now))
  {
    var id := ReportId(bytes, now);
    if insertFails || id in t.reportes then CreateOutcome(t, Err(InsertFailed))
    else
      var row := NewRow(id, c, ResolveAlumnoId(c, alumnos, lookupOk), AppliedBy(s), now);
      CreateOutcome(Tables(t.reportes[id := row], t.historial), Ok(id))
  }

  // ---------------------------------------------------------------------------------------
  // Properties of the handler

  /** The insert succeeds exactly when it can run and the generated id is new. */
  lemma CreateSucceedsIff(t: Tables, alumnos: seq<Alumno>, req: CreateRequest, s: Session,
                          bytes: seq<Byte>, now: nat, lookupOk: bool, insertFails: bool)
    requires |bytes| == 6
    ensures Create(t, alumnos, req, s, bytes, now, lookupOk, insertFails).response.Ok? <==>
      !insertFails && ReportId(bytes, now) !in t.reportes
  {
  }

  /** On success exactly one row is added, under the returned id, holding the coerced fields;
      every existing row and the history stay as they were. On failure nothing changes. */
  lemma CreateEffect(t: Tables, alumnos: seq<Alumno>, req: CreateRequest, s: Session,
                     bytes: seq<Byte>, now: nat, lookupOk: bool, insertFails: bool)
    requires |bytes| == 6
    ensures var o := Create(t, alumnos, req, s, bytes, now, lookupOk, insertFails);
      && (o.response.Err? ==> o.tables == t)
      && (o.response.Ok? ==> (
        var id := o.response.value;
        && id !in t.reportes
        && o.tables.reportes.Keys == t.reportes.Keys + {id}
        && (forall k :: k in t.reportes ==> o.tables.reportes[k] == t.reportes[k])
        && o.tables.historial == t.historial
        && o.tables.reportes[id].horas == (if req.horas.Some? then IntVal(req.horas.value) else 0)
        && o.tables.reportes[id].tipo == PhpTrim(req.tipo.GetOr(""))
        && o.tables.reportes[id].activo == Some(1)
        && o.tables.reportes[id].aplicadoPor == AppliedBy(s)
        && o.tables.reportes[id].ultimaModPor == AppliedBy(s)
        && o.tables.reportes[id]
           == NewRow(id, Coerce(req), ResolveAlumnoId(Coerce(req), alumnos, lookupOk), AppliedBy(s), now)))
  {
    var o := Create(t, alumnos, req, s, bytes, now, lookupOk, insertFails);
    var id := ReportId(bytes, now);
    if !insertFails && id !in t.reportes {
      var row := NewRow(id, Coerce(req), ResolveAlumnoId(Coerce(req), alumnos, lookupOk), AppliedBy(s), now);
      assert o.tables == Tables(t.reportes[id := row], t.historial);
      assert o.tables.reportes[id] == row;
    }
  }

  /** The handler keeps the tables well keyed. */
  lemma CreatePreservesWellKeyed(t: Tables, alumnos: seq<Alumno>, req: CreateRequest, s: Session,
                                 bytes: seq<Byte>, now: nat, lookupOk: bool, insertFails: bool)
    requires |bytes| == 6 && WellKeyed(t)
    ensures WellKeyed(Create(t, alumnos, req, s, bytes, now, lookupOk, insertFails).tables)
  {
    var id := ReportId(bytes, now);
    if !insertFails && id !in t.reportes {
      var row := NewRow(id, Coerce(req), ResolveAlumnoId(Coerce(req), alumnos, lookupOk), AppliedBy(s), now);
      assert Create(t, alumnos, req, s, bytes, now, lookupOk, insertFails).tables == Tables(t.reportes[id := row], t.historial);
      InsertKeepsWellKeyed(t, id, row);
    }
  }

  /** Adding a row under its own id keeps the tables well keyed. */
  lemma InsertKeepsWellKeyed(t: Tables, id: string, row: Report)
    requires WellKeyed(t) && row.id == id
    ensures WellKeyed(Tables(t.reportes[id := row], t.historial))
  {
  }

  /** The server does not check the hours: "-3" is stored as -3 hours. */
  lemma NegativeHoursStored(t: Tables, alumnos: seq<Alumno>, s: Session, bytes: seq<Byte>, now: nat)
    requires |bytes| == 6 && ReportId(bytes, now) !in t.reportes
    ensures var req := CreateRequest(Some("A1"), None, Some("uniforme"), Some("-3"), None);
      var o := Create(t, alumnos, req, s, bytes, now, true, false);
      o.response.Ok? && o.tables.reportes[o.response.value].horas == -3
  {
    var req := CreateRequest(Some("A1"), None, Some("uniforme"), Some("-3"), None);
    IntValOfNegative(3);
    assert NatToString(3) == "3";
    assert "-" + "3" == "-3";
    assert IntVal("-3") == -3;
    var c := Coerce(req);
    assert c.horas == -3;
    var o := Create(t, alumnos, req, s, bytes, now, true, false);
    var id := ReportId(bytes, now);
    assert o.response == Ok(id);
    assert o.tables.reportes[id].horas == c.horas;
  }

  /** When no usable student id was sent, the row gets the id of the first student whose
      matricula is the trimmed one sent. */
  lemma LookupByMatricula(t: Tables, alumnos: seq<Alumno>, req: CreateRequest, s: Session,
                          bytes: seq<Byte>, now: nat, a: Alumno)
    requires |bytes| == 6
    requires req.alumnoId.None? || IntVal(req.alumnoId.value) == 0
    requires Truthy(PhpTrim(req.matricula.GetOr("")))
    requires FindByMatricula(alumnos, PhpTrim(req.matricula.GetOr(""))) == Some(a)
    requires Create(t, alumnos, req, s, bytes, now, true, false).response.Ok?
    ensures var o := Create(t, alumnos, req, s, bytes, now, true, false);
      o.tables.reportes[o.response.value].alumnoId == Some(a.id)
  {
    var c := Coerce(req);
    assert ResolveAlumnoId(c, alumnos, true) == Some(a.id);
  }
}
