/** The two report tables as mutable state, and the two endpoints that change them, run step by
    step as the handlers do: read and check the input, open the transaction, change the rows,
    then commit or roll back. */
module ReportDb {
  import opened Base
  import opened Strings
  import opened Numbers
  import opened Schema
  import opened ReportUpdate
  import opened ReportCreate

  /** The student id for the row: the posted one, or the lookup by matricula when that one is
      missing or 0. */
  method LookUpStudent(c: Coerced, alumnos: seq<Alumno>, lookupOk: bool) returns (alumnoId: Option<int>)
    ensures alumnoId == ResolveAlumnoId(c, alumnos, lookupOk)
  {
    alumnoId := c.alumnoId;
    if (alumnoId.None? || alumnoId.value == 0) && Truthy(c.matricula) && lookupOk {
      var found := FindByMatricula(alumnos, c.matricula);
      if found.Some? {
        alumnoId := Some(found.value.id);
      }
    }
  }

  class ReportStore {
    /** `reportes`, keyed by its primary key. */
    var reportes: map<string, Report>
    /** `reportes_historial`, oldest entry first. */
    var historial: seq<HistoryEntry>
    /** Whether the database has the history table at all. */
    const hasHistoryTable: bool

    function Snapshot(): Tables
      reads this
    {
      Tables(reportes, historial)
    }

    predicate Valid()
      reads this
    {
      WellKeyed(Snapshot())
    }

    constructor (hasHistoryTable: bool)
      ensures Valid() && this.hasHistoryTable == hasHistoryTable
      ensures reportes == map[] && historial == []
    {
      this.hasHistoryTable := hasHistoryTable;
      reportes := map[];
      historial := [];
    }

    /** `action=update_report`. */
    method UpdateReport(req: UpdateRequest, s: Session, f: Faults, now: int)
      returns (resp: Result<UpdateOk, UpdateError>)
      requires Valid()
      modifies this
      ensures Valid()
      ensures Snapshot() == Update(old(Snapshot()), hasHistoryTable, req, s, f, now).tables
      ensures resp == Update(old(Snapshot()), hasHistoryTable, req, s, f, now).response
    {
      var id := PhpTrim(req.id.GetOr(""));
      if id == "" {
        resp := Err(MissingId);
        return;
      }
      if req.horas.None? || IntVal(req.horas.value) < 0 {
        resp := Err(InvalidHours);
        return;
      }
      var horas := IntVal(req.horas.value);
      var c := Checked(id, horas, TrimOpt(req.descripcion), TrimOpt(req.nota));
      assert Check(req) == Ok(c);
      resp := RunTransaction(c, s, f, now);
    }

    /** The transaction of `action=update_report`, once the input has passed its checks. */
    method RunTransaction(c: Checked, s: Session, f: Faults, now: int)
      returns (resp: Result<UpdateOk, UpdateError>)
      requires Valid() && c.horas >= 0
      modifies this
      ensures Valid()
      ensures Snapshot() == Transaction(old(Snapshot()), hasHistoryTable, c, s, f, now).tables
      ensures resp == Transaction(old(Snapshot()), hasHistoryTable, c, s, f, now).response
    {
      ghost var before := Snapshot();
      var id, horas := c.id, c.horas;
      var editorId := EditorId(s);
      var editorLabel := EditorLabel(s);

      // begin_transaction
      var savedReportes, savedHistorial := reportes, historial;
      if f.selectFails || id !in reportes {
        resp := Err(if f.selectFails then SelectFailed else NotFound);
        return;
      }
      var row := reportes[id];
      var horasPrev := row.horas;
      if f.updateFails {
        reportes, historial := savedReportes, savedHistorial;
        resp := Err(UpdateFailed);
        return;
      }
      var desc := if c.descripcion.Some? then c.descripcion.value else row.descripcion;
      var row' := row.(horas := horas, descripcion := desc, updatedAt := now, ultimaModPor := editorId);
      assert row' == UpdatedRow(row, c, editorId, now);
      reportes := reportes[id := row'];
      var entry := HistoryEntry(id, horasPrev, horas, editorId, HistoryNote(c.nota, editorLabel), now);
      if hasHistoryTable {
        if f.historyInsertFails {
          reportes, historial := savedReportes, savedHistorial;
          resp := Err(HistoryFailed);
          return;
        }
        historial := historial + [entry];
      }
      // commit
      resp := Ok(UpdateOk(id, horas, horasPrev));
      CommitKeepsWellKeyed(before, id, row', if hasHistoryTable then [entry] else []);
    }

    /** The POST handler of the apply-report page. `bytes` and `now` stand for
        `random_bytes(6)` and `time()`. */
    method CreateReport(alumnos: seq<Alumno>, req: CreateRequest, s: Session, bytes: seq<Byte>,
                        now: nat, lookupOk: bool, insertFails: bool)
      returns (resp: Result<string, CreateError>)
      requires Valid() && |bytes| == 6
      modifies this
      ensures Valid()
      ensures Snapshot() == Create(old(Snapshot()), alumnos, req, s, bytes, now, lookupOk, insertFails).tables
      ensures resp == Create(old(Snapshot()), alumnos, req, s, bytes, now, lookupOk, insertFails).response
    {
      var c := Coerce(req);
      resp := Insert(alumnos, c, s, bytes, now, lookupOk, insertFails);
    }

    /** The rest of the handler, once the fields are coerced: the student lookup, the new id
        and the INSERT. */
    method Insert(alumnos: seq<Alumno>, c: Coerced, s: Session, bytes: seq<Byte>,
                  now: nat, lookupOk: bool, insertFails: bool)
      returns (resp: Result<string, CreateError>)
      requires Valid() && |bytes| == 6
      modifies this
      ensures Valid()
      ensures Snapshot() == CreateFrom(old(Snapshot()), alumnos, c, s, bytes, now, lookupOk, insertFails).tables
      ensures resp == CreateFrom(old(Snapshot()), alumnos, c, s, bytes, now, lookupOk, insertFails).response
    {
      ghost var before := Snapshot();
      var applier := AppliedBy(s);
      var id := ReportId(bytes, now);
      var alumnoId := LookUpStudent(c, alumnos, lookupOk);
      if insertFails || id in reportes {
        resp := Err(InsertFailed);
        return;
      }
      var row := Report(id, alumnoId, None, c.tipo, c.descripcion, c.horas, applier, applier, Some(1), now, now);
      assert row == NewRow(id, c, alumnoId, applier, now);
      reportes := reportes[id := row];
      resp := Ok(id);
      InsertKeepsWellKeyed(before, id, row);
    }
  }
}
