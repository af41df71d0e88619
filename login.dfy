/** The login page: staff accounts are looked up by name before students by matricula; a staff
    account must be active and its password must verify against the stored hash or equal the
    stored string; a student's password is the matricula. A successful login writes the
    session and redirects by role. */
module Login {
  import opened Base
  import opened Strings
  import opened Numbers
  import opened Schema
  import ReportUpdate
  import ReportCreate

  /** A row of `usuarios` as the login query reads it, each value as its text. */
  datatype UserRow = UserRow(id: string, nombre: string, password: Option<string>, rol: Option<string>,
                             activo: Option<string>)

  /** A row of `alumnos` as the login query reads it. */
  datatype StudentRecord = StudentRecord(id: string, matricula: string, nombre: string)

  /** The two tables, and whether each lookup's statement could be prepared. */
  datatype Directory = Directory(usuarios: seq<UserRow>, alumnos: seq<StudentRecord>,
                                 usuariosPrepares: bool, alumnosPrepares: bool)

  /** What `buscarUsuario` returns when it finds someone, tagged by `tipo_origen`. */
  datatype Found = Staff(user: UserRow) | Student(student: StudentRecord)

  // ---------------------------------------------------------------------------------------
  // Lookup

  /** `... WHERE nombre = ? LIMIT 1` on `usuarios`. */
  function UserNamed(us: seq<UserRow>, v: string): (r: Option<UserRow>)
    ensures r.None? <==> forall k :: 0 <= k < |us| ==> us[k].nombre != v
    ensures r.Some? ==> r.value in us && r.value.nombre == v
  {
    if us == [] then None
    else if us[0].nombre == v then Some(us[0])
    else
      assert forall k :: 1 <= k < |us| ==> us[1..][k - 1] == us[k];
      UserNamed(us[1..], v)
  }

  /** `... WHERE matricula = ? LIMIT 1` on `alumnos`. */
  function StudentWith(als: seq<StudentRecord>, v: string): (r: Option<StudentRecord>)
    ensures r.None? <==> forall k :: 0 <= k < |als| ==> als[k].matricula != v
    ensures r.Some? ==> r.value in als && r.value.matricula == v
  {
    if als == [] then None
    else if als[0].matricula == v then Some(als[0])
    else
      assert forall k :: 1 <= k < |als| ==> als[1..][k - 1] == als[k];
      StudentWith(als[1..], v)
  }

  /** `buscarUsuario`: the trimmed value looked up as a staff name first, then as a matricula;
      a blank value, or no match, gives nothing. A lookup whose statement fails to prepare is
      skipped. */
  function BuscarUsuario(valor: string, db: Directory): (r: Option<Found>)
    ensures PhpTrim(valor) == "" ==> r.None?
    ensures PhpTrim(valor) != "" && db.usuariosPrepares && UserNamed(db.usuarios, PhpTrim(valor)).Some?
      ==> r == Some(Staff(UserNamed(db.usuarios, PhpTrim(valor)).value))
    ensures r.Some? && r.value.Staff? ==>
      db.usuariosPrepares && r.value.user in db.usuarios && r.value.user.nombre == PhpTrim(valor)
    ensures r.Some? && r.value.Student? ==>
      db.alumnosPrepares && r.value.student in db.alumnos && r.value.student.matricula == PhpTrim(valor)
      && (!db.usuariosPrepares || UserNamed(db.usuarios, PhpTrim(valor)).None?)
    ensures r.None? && PhpTrim(valor) != "" ==>
      (!db.usuariosPrepares || UserNamed(db.usuarios, PhpTrim(valor)).None?)
      && (!db.alumnosPrepares || StudentWith(db.alumnos, PhpTrim(valor)).None?)
  {
    var v := PhpTrim(valor);
    if v == "" then None
    else if db.usuariosPrepares && UserNamed(db.usuarios, v).Some? then Some(Staff(UserNamed(db.usuarios, v).value))
    else if db.alumnosPrepares && StudentWith(db.alumnos, v).Some? then Some(Student(StudentWith(db.alumnos, v).value))
    else None
  }

  /** A value that matches neither a reachable staff name nor a reachable matricula finds
      nothing. */
  lemma NoMatchFindsNothing(valor: string, db: Directory)
    requires !db.usuariosPrepares || UserNamed(db.usuarios, PhpTrim(valor)).None?
    requires !db.alumnosPrepares || StudentWith(db.alumnos, PhpTrim(valor)).None?
    ensures BuscarUsuario(valor, db).None?
  {
  }

  /** The lookup trims its input itself, so trimming first changes nothing. */
  lemma BuscarUsuarioTrims(valor: string, db: Directory)
    ensures BuscarUsuario(PhpTrim(valor), db) == BuscarUsuario(valor, db)
  {
    TrimIdempotent(valor, PhpTrimChars);
  }

  // ---------------------------------------------------------------------------------------
  // Decision

  const RequiredError := "Usuario/matrícula y contraseña son obligatorios."
  const BadCredentials := "Usuario o contraseña incorrectos."
  const InactiveAccount := "Cuenta inactiva."

  /** Where a successful login goes. */
  datatype Destination =
    | OrientacionPage
    | StudentPage(matricula: Option<string>)  // `public/alumno.php`, with `?matricula=` when known
    | PrefectosPage

  /** The three session keys a login writes. */
  datatype SessionWrite = SessionWrite(userId: string, user: string, rol: string)

  datatype LoginResult = Failed(error: string) | LoggedIn(write: SessionWrite, dest: Destination)

  /** The account is inactive: `activo` is held as the column's text, so the integer 0 and the
      string "0" are both "0"; a boolean false cannot come from the table. NULL reads as active. */
  predicate Inactive(u: UserRow)
    ensures u.activo.None? ==> !Inactive(u)
    ensures u.activo == Some("1") ==> !Inactive(u)
  {
    u.activo == Some("0")
  }

  /** The staff password check: against a non-empty stored value, `verify` (standing for
      `password_verify`) or plain equality; against an empty or NULL one, equality. */
  predicate PasswordOk(pass: string, hash: string, verify: (string, string) -> bool)
    ensures pass == hash ==> PasswordOk(pass, hash, verify)
    ensures hash == "" ==> (PasswordOk(pass, hash, verify) <==> pass == "")
    ensures hash != "" && pass != hash ==> (PasswordOk(pass, hash, verify) <==> verify(pass, hash))
  {
    if hash != "" then verify(pass, hash) || pass == hash else pass == hash
  }

  /** Where the first run of four or more ASCII digits starts, at or after i. */
  predicate FourDigitsAt(s: string, i: int) {
    0 <= i && i + 4 <= |s| && AllDigits(s[i..i + 4])
  }

  function FirstFourDigits(s: string, i: nat): (r: Option<nat>)
    requires i <= |s|
    ensures r.Some? ==> i <= r.value && FourDigitsAt(s, r.value)
    ensures r.Some? ==> forall j :: i <= j < r.value ==> !FourDigitsAt(s, j)
    ensures r.None? ==> forall j :: i <= j ==> !FourDigitsAt(s, j)
    decreases |s| - i
  {
    if i + 4 > |s| then None
    else if FourDigitsAt(s, i) then Some(i)
    else FirstFourDigits(s, i + 1)
  }

  /** The end of the run of digits that starts at i. */
  function DigitRunEnd(s: string, i: nat): (j: nat)
    requires i <= |s|
    ensures i <= j <= |s| && AllDigits(s[i..j])
    ensures j == |s| || !IsDigit(s[j])
    decreases |s| - i
  {
    if i < |s| && IsDigit(s[i]) then
      DigitRunEnd(s, i + 1)
    else i
  }

  /** `preg_match('/\d{4,}/', ...)`: the leftmost run of four or more digits, taken whole. */
  function DigitRun(s: string): (r: Option<string>)
    ensures r.None? <==> forall i :: !FourDigitsAt(s, i)
    ensures r.Some? ==> |r.value| >= 4 && AllDigits(r.value)
  {
    match FirstFourDigits(s, 0)
    case None => None
    case Some(i) =>
      var j := DigitRunEnd(s, i);
      assert j >= i + 4 by {
        assert forall k :: i <= k < i + 4 ==> s[k] == s[i..i + 4][k - i];
      }
      Some(s[i..j])
  }

  /** The match is a whole run of at least four digits, no earlier place has four digits in a
      row, and there is a match unless no place has. */
  lemma DigitRunSpec(s: string)
    ensures DigitRun(s).None? <==> forall i :: !FourDigitsAt(s, i)
    ensures DigitRun(s).Some? ==> exists i, j :: (0 <= i && i + 4 <= j <= |s| && DigitRun(s).value == s[i..j]
      && AllDigits(s[i..j]) && (i == 0 || !IsDigit(s[i - 1])) && (j == |s| || !IsDigit(s[j]))
      && forall k :: 0 <= k < i ==> !FourDigitsAt(s, k))
  {
    var f := FirstFourDigits(s, 0);
    if f.Some? {
      var i := f.value;
      var j := DigitRunEnd(s, i);
      assert s[i..i + 4][0] == s[i];
      assert forall k :: i <= k < i + 4 ==> IsDigit(s[k]) by {
        assert forall k :: i <= k < i + 4 ==> s[k] == s[i..i + 4][k - i];
      }
      assert j >= i + 4;
      if i > 0 {
        assert !FourDigitsAt(s, i - 1);
        var k :| 0 <= k < 4 && !IsDigit(s[i - 1..i + 3][k]);
        assert s[i - 1..i + 3][k] == s[i - 1 + k];
        assert k == 0;
      }
    }
  }

  /** The matricula a staff account with role "alumno" is sent with: the linked student's
      matricula when there is a non-empty one, else the first long digit run of the name. */
  function StudentMatricula(nombre: string, linked: Option<string>): (m: string)
    ensures linked.Some? && Truthy(linked.value) ==> m == linked.value
    ensures !(linked.Some? && Truthy(linked.value)) && DigitRun(nombre).Some? ==> m == DigitRun(nombre).value
    ensures !(linked.Some? && Truthy(linked.value)) && DigitRun(nombre).None? ==> m == ""
  {
    var mat := if linked.Some? && Truthy(linked.value) then linked.value else "";
    if !Truthy(mat) && DigitRun(nombre).Some? then DigitRun(nombre).value else mat
  }

  /** The role's destination: the role trimmed and ASCII lower-cased. */
  function Route(rol: string, nombre: string, linked: Option<string>): (d: Destination)
    ensures d == OrientacionPage <==> Lower(PhpTrim(rol)) in {"orientacion", "orientación"}
    ensures d.StudentPage? <==> Lower(PhpTrim(rol)) == "alumno"
    ensures d.StudentPage? ==> d.matricula == (var m := StudentMatricula(nombre, linked); if Truthy(m) then Some(m) else None)
  {
    var r := Lower(PhpTrim(rol));
    if r == "orientacion" || r == "orientación" then OrientacionPage
    else if r == "alumno" then
      var m := StudentMatricula(nombre, linked);
      StudentPage(if Truthy(m) then Some(m) else None)
    else PrefectosPage
  }

  /** The POST handler's decision. `linked` stands for the matricula the optional
      `usuarios.alumno_id` lookup returns (None when the column, the statements or the rows
      are missing). */
  function Decide(usuario: Option<string>, password: Option<string>, db: Directory,
                  verify: (string, string) -> bool, linked: Option<string>): (r: LoginResult)
    ensures (PhpTrim(usuario.GetOr("")) == "" || PhpTrim(password.GetOr("")) == "") <==> r == Failed(RequiredError)
    ensures r.Failed? ==> r.error in {RequiredError, BadCredentials, InactiveAccount}
    ensures r.LoggedIn? ==> BuscarUsuario(PhpTrim(usuario.GetOr("")), db).Some?
  {
    var v := PhpTrim(usuario.GetOr(""));
    var pass := PhpTrim(password.GetOr(""));
    if v == "" || pass == "" then Failed(RequiredError)
    else Authenticate(BuscarUsuario(v, db), pass, verify, linked)
  }

  /** The decision once both fields are filled in, from what the lookup found. */
  function Authenticate(found: Option<Found>, pass: string, verify: (string, string) -> bool,
                        linked: Option<string>): (r: LoginResult)
    ensures r.Failed? ==> r.error in {BadCredentials, InactiveAccount}
    ensures found.None? ==> r == Failed(BadCredentials)
  {
    match found
    case None => Failed(BadCredentials)
    case Some(Staff(u)) =>
      if Inactive(u) then Failed(InactiveAccount)
      else if PasswordOk(pass, u.password.GetOr(""), verify) then
        var rol := u.rol.GetOr("prefecto");
        LoggedIn(SessionWrite(u.id, u.nombre, rol), Route(rol, u.nombre, linked))
      else Failed(BadCredentials)
    case Some(Student(a)) =>
      if pass == a.matricula then LoggedIn(SessionWrite(a.id, a.nombre, "alumno"), StudentPage(Some(a.matricula)))
      else Failed(BadCredentials)
  }

  /** With both fields filled in, the decision is the one on what the trimmed name finds. */
  lemma DecideFilled(usuario: string, password: string, db: Directory,
                     verify: (string, string) -> bool, linked: Option<string>)
    requires PhpTrim(usuario) != "" && PhpTrim(password) != ""
    ensures Decide(Some(usuario), Some(password), db, verify, linked)
      == Authenticate(BuscarUsuario(usuario, db), PhpTrim(password), verify, linked)
  {
    BuscarUsuarioTrims(usuario, db);
  }

  /** An inactive staff account never logs in, whatever the password. */
  lemma InactiveNeverLogsIn(usuario: string, password: string, db: Directory,
                            verify: (string, string) -> bool, linked: Option<string>)
    requires PhpTrim(password) != ""
    requires BuscarUsuario(usuario, db).Some? && BuscarUsuario(usuario, db).value.Staff?
    requires Inactive(BuscarUsuario(usuario, db).value.user)
    ensures Decide(Some(usuario), Some(password), db, verify, linked) == Failed(InactiveAccount)
  {
    BuscarUsuarioTrims(usuario, db);
  }

  /** An active staff account logs in exactly when the password passes the check; then the
      session carries its id, name and role (default "prefecto"). */
  lemma StaffLoginIff(usuario: string, password: string, db: Directory,
                      verify: (string, string) -> bool, linked: Option<string>)
    requires PhpTrim(password) != ""
    requires BuscarUsuario(usuario, db).Some? && BuscarUsuario(usuario, db).value.Staff?
    requires !Inactive(BuscarUsuario(usuario, db).value.user)
    ensures var u := BuscarUsuario(usuario, db).value.user;
      var r := Decide(Some(usuario), Some(password), db, verify, linked);
      && (r.LoggedIn? <==> PasswordOk(PhpTrim(password), u.password.GetOr(""), verify))
      && (r.LoggedIn? ==> r.write == SessionWrite(u.id, u.nombre, u.rol.GetOr("prefecto")))
      && (!r.LoggedIn? ==> r == Failed(BadCredentials))
  {
    BuscarUsuarioTrims(usuario, db);
  }

  /** A staff account with an empty or NULL stored password cannot log in: the password is
      required, so it never equals ''. */
  lemma EmptyStoredPasswordNeverLogsIn(usuario: string, password: string, db: Directory,
                                       verify: (string, string) -> bool, linked: Option<string>)
    requires BuscarUsuario(usuario, db).Some? && BuscarUsuario(usuario, db).value.Staff?
    requires BuscarUsuario(usuario, db).value.user.password.GetOr("") == ""
    ensures Decide(Some(usuario), Some(password), db, verify, linked).Failed?
  {
    BuscarUsuarioTrims(usuario, db);
    var v, pass := PhpTrim(usuario), PhpTrim(password);
    assert BuscarUsuario(v, db) == BuscarUsuario(usuario, db);
    if v != "" && pass != "" {
      var u := BuscarUsuario(v, db).value.user;
      assert !PasswordOk(pass, u.password.GetOr(""), verify);
      if !Inactive(u) {
        assert Decide(Some(usuario), Some(password), db, verify, linked) == Failed(BadCredentials);
      }
    }
  }

  /** A student logs in exactly when the password is the matricula; the session role is then
      "alumno" and the profile page gets the matricula. */
  lemma StudentLoginIff(usuario: string, password: string, db: Directory,
                        verify: (string, string) -> bool, linked: Option<string>)
    requires PhpTrim(password) != ""
    requires BuscarUsuario(usuario, db).Some? && BuscarUsuario(usuario, db).value.Student?
    ensures var a := BuscarUsuario(usuario, db).value.student;
      var r := Decide(Some(usuario), Some(password), db, verify, linked);
      && (r.LoggedIn? <==> PhpTrim(password) == a.matricula)
      && (r.LoggedIn? ==> r.write == SessionWrite(a.id, a.nombre, "alumno") && r.dest == StudentPage(Some(a.matricula)))
  {
    DecideFilled(usuario, password, db, verify, linked);
  }

  /** A name that matches both a staff account and a student's matricula logs in as staff. */
  lemma StaffShadowsStudent(usuario: string, password: string, db: Directory,
                            verify: (string, string) -> bool, linked: Option<string>)
    requires PhpTrim(usuario) != "" && db.usuariosPrepares
    requires UserNamed(db.usuarios, PhpTrim(usuario)).Some?
    requires StudentWith(db.alumnos, PhpTrim(usuario)).Some?
    ensures BuscarUsuario(usuario, db) == Some(Staff(UserNamed(db.usuarios, PhpTrim(usuario)).value))
  {
  }

  // ---------------------------------------------------------------------------------------
  // Page state

  /** The session keys a login writes. */
  function WriteSession(s: Session, w: SessionWrite): (s': Session)
    ensures s'.Keys == s.Keys + {"edu_user_id", "edu_user", "edu_rol"}
    ensures s'["edu_user_id"] == w.userId && s'["edu_user"] == w.user && s'["edu_rol"] == w.rol
    ensures forall k :: k in s && k !in {"edu_user_id", "edu_user", "edu_rol"} ==> s'[k] == s[k]
  {
    s["edu_user_id" := w.userId]["edu_user" := w.user]["edu_rol" := w.rol]
  }

  /** The report endpoints read the acting user from `user_id` / `usuario_id`, which a login
      never writes: after logging in on a fresh session they see no acting user. */
  lemma LoginLeavesNoEditor(s: Session, w: SessionWrite)
    requires "user_id" !in s && "usuario_id" !in s
    ensures ReportUpdate.EditorId(WriteSession(s, w)).None?
    ensures ReportCreate.AppliedBy(WriteSession(s, w)).None?
  {
    var s' := WriteSession(s, w);
    assert "user_id" !in s' && "usuario_id" !in s';
  }

  class LoginPage {
    var session: Session
    /** `$error` and `$valor_usuario`, which the form shows again. */
    var error: string
    var valorUsuario: string

    constructor (session: Session)
      ensures this.session == session && error == "" && valorUsuario == ""
    {
      this.session := session;
      error := "";
      valorUsuario := "";
    }

    /** A POST of the login form: on success the session is written and the redirect
        returned; otherwise the error is set and the session is untouched. */
    method Post(usuario: Option<string>, password: Option<string>, db: Directory,
                verify: (string, string) -> bool, linked: Option<string>) returns (dest: Option<Destination>)
      modifies this
      ensures valorUsuario == PhpTrim(usuario.GetOr(""))
      ensures var r := Decide(usuario, password, db, verify, linked);
        && (r.Failed? ==> error == r.error && session == old(session) && dest.None?)
        && (r.LoggedIn? ==> session == WriteSession(old(session), r.write) && dest == Some(r.dest) && error == old(error))
    {
      valorUsuario := PhpTrim(usuario.GetOr(""));
      var r := Decide(usuario, password, db, verify, linked);
      dest := None;
      if r.Failed? {
        error := r.error;
      } else {
        session := WriteSession(session, r.write);
        dest := Some(r.dest);
      }
    }
  }
}
