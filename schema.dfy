/** The rows of the tables the pages read and write, the PHP session, and the two display
    buckets of a report. */
module Schema {
  import opened Base

  /** A row of `reportes`. Hours are the debt a student still owes; 0 means settled. */
  datatype Report = Report(
    id: string,
    alumnoId: Option<int>,
    matricula: Option<string>,
    tipo: string,
    descripcion: string,
    horas: int,
    aplicadoPor: Option<int>,
    ultimaModPor: Option<int>,
    activo: Option<int>,
    createdAt: int,
    updatedAt: int)

  /** A row of the append-only `reportes_historial`. */
  datatype HistoryEntry = HistoryEntry(
    reporteId: string,
    horasPrev: int,
    horasNew: int,
    usuarioId: Option<int>,
    nota: string,
    creadoAt: int)

  /** A row of `alumnos`. */
  datatype Alumno = Alumno(id: int, matricula: string, nombre: string, foto: Option<string>, grupoId: Option<int>)

  /** The two tables the report endpoints change, keyed by report id. */
  datatype Tables = Tables(reportes: map<string, Report>, historial: seq<HistoryEntry>)

  /** `$_SESSION`: the keys that are set, with their values. */
  type Session = map<string, string>

  function SessionGet(s: Session, key: string): Option<string> {
    if key in s then Some(s[key]) else None
  }

  /** `estadoClase`: the card class of a report with the given hours. */
  function EstadoClase(horas: int): (r: string)
    ensures r == "adeuda" || r == "pagado"
    ensures r == "adeuda" <==> horas > 0
  {
    if horas > 0 then "adeuda" else "pagado"
  }

  /** The "adeudo" bucket: hours still owed. */
  predicate IsAdeudo(r: Report) {
    r.horas > 0
  }

  /** The "completado" bucket: the debt is settled. */
  predicate IsCompletado(r: Report) {
    r.horas == 0
  }

  /** `SELECT ... FROM alumnos WHERE matricula = ? LIMIT 1`: the first row with that matricula. */
  function FindByMatricula(alumnos: seq<Alumno>, m: string): (r: Option<Alumno>)
    ensures r.None? <==> forall k :: 0 <= k < |alumnos| ==> alumnos[k].matricula != m
    ensures r.Some? ==> r.value in alumnos && r.value.matricula == m
  {
    if alumnos == [] then None
    else if alumnos[0].matricula == m then Some(alumnos[0])
    else FindByMatricula(alumnos[1..], m)
  }

  /** Every row of `reportes` is stored under its own id, and every history entry refers to a
      stored report. */
  predicate WellKeyed(t: Tables) {
    && (forall k :: k in t.reportes ==> t.reportes[k].id == k)
    && (forall i :: 0 <= i < |t.historial| ==> t.historial[i].reporteId in t.reportes)
  }
}
