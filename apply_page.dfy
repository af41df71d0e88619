/** The GET side and the script of the apply-report page: the student's "grado · grupo" text,
    the report-type picker and its Enviar button, the confirmation modal, and the JSON payload
    it posts to the create handler. */
module ApplyPage {
  import opened Base
  import opened Strings
  import opened Numbers
  import opened Columns
  import opened ReportCreate

  // ---------------------------------------------------------------------------------------
  // "grado · grupo"

  const Dot: string := " · "

  /** The group text for a student with `grupo_id` gid, given the columns of `grupos` and the
      group row the query returns (None when the statement fails or finds nothing). */
  function GrupoTexto(gid: Option<string>, cols: set<string>, row: Option<Row>): (r: string)
    ensures IsEmpty(gid) || row.None? ==> r == ""
    ensures !IsEmpty(gid) && row.Some? && "grado" in cols && "nombre" in cols ==>
      r == Text(row.value, "grado") + Dot + Text(row.value, "nombre")
    ensures !IsEmpty(gid) && row.Some? && "grado" in cols && "nombre" !in cols && "grupo" in cols ==>
      r == Text(row.value, "grado") + Dot + Text(row.value, "grupo")
    ensures !IsEmpty(gid) && row.Some? && "grado" !in cols && "semestre" in cols && "grupo" in cols ==>
      r == Text(row.value, "semestre") + Dot + Text(row.value, "grupo")
    ensures (!IsEmpty(gid) && row.Some? && !("grado" in cols && ("nombre" in cols || "grupo" in cols))
             && !("semestre" in cols && "grupo" in cols)) ==> r == FallbackTexto(row.value)
  {
    if IsEmpty(gid) || row.None? then ""
    else
      var g := row.value;
      var hasGrado, hasNombre, hasGrupo, hasSemestre := "grado" in cols, "nombre" in cols, "grupo" in cols, "semestre" in cols;
      if hasGrado && hasNombre then Text(g, "grado") + Dot + Text(g, "nombre")
      else if hasGrado && hasGrupo then Text(g, "grado") + Dot + Text(g, "grupo")
      else if hasSemestre && hasGrupo then Text(g, "semestre") + Dot + Text(g, "grupo")
      else FallbackTexto(g)
  }

  /** The `SELECT *` fallback: the grade and a space when the grade is set, then the name when
      set, else the group when set. */
  function FallbackTexto(g: Row): (r: string)
    ensures IsSet(g, "grado") && IsSet(g, "nombre") ==> r == g["grado"].value + " " + g["nombre"].value
    ensures IsSet(g, "grado") && !IsSet(g, "nombre") && IsSet(g, "grupo") ==> r == g["grado"].value + " " + g["grupo"].value
    ensures IsSet(g, "grado") && !IsSet(g, "nombre") && !IsSet(g, "grupo") ==> r == g["grado"].value + " "
    ensures !IsSet(g, "grado") && IsSet(g, "nombre") ==> r == g["nombre"].value
    ensures !IsSet(g, "grado") && !IsSet(g, "nombre") && IsSet(g, "grupo") ==> r == g["grupo"].value
    ensures !IsSet(g, "grado") && !IsSet(g, "nombre") && !IsSet(g, "grupo") ==> r == ""
  {
    var head := if IsSet(g, "grado") then g["grado"].value + " " else "";
    var tail := if IsSet(g, "nombre") then g["nombre"].value else if IsSet(g, "grupo") then g["grupo"].value else "";
    head + tail
  }

  // ---------------------------------------------------------------------------------------
  // The picker

  /** Enviar is enabled when a type is selected and, for a 'personalizado…' type, a subtype. */
  predicate EnviarEnabled(selected: Option<string>, subtype: Option<string>) {
    selected.Some? && selected.value != ""
    && !(StartsWith(selected.value, "personalizado") && (subtype.None? || subtype.value == ""))
  }

  const PlainTipos: seq<string> := ["corte-cabello", "uniforme", "credencial"]
  const OptionTipos: seq<string> := ["personalizado-grupal", "personalizado-individual"]

  /** `reporteSeleccionado`, `subtipoPersonalizado`, whether the options panel is open, and the
      Enviar button's `disabled`. */
  class Picker {
    var selected: Option<string>
    var subtype: Option<string>
    var open: bool
    var enviarDisabled: bool

    predicate Valid()
      reads this
    {
      && enviarDisabled == !EnviarEnabled(selected, subtype)
      && (subtype.Some? ==> selected == subtype)
    }

    constructor ()
      ensures Valid() && selected.None? && subtype.None? && !open && enviarDisabled
    {
      selected, subtype, open, enviarDisabled := None, None, false, true;
    }

    /** `actualizarEnviar`. */
    method UpdateEnviar()
      modifies this`enviarDisabled
      ensures enviarDisabled == !EnviarEnabled(selected, subtype)
    {
      if selected.None? || selected.value == "" {
        enviarDisabled := true;
        return;
      }
      if StartsWith(selected.value, "personalizado") && (subtype.None? || subtype.value == "") {
        enviarDisabled := true;
        return;
      }
      enviarDisabled := false;
    }

    /** A plain type button: selects its type, forgets the subtype, closes the panel. */
    method ClickTipo(tipo: string)
      requires Valid()
      modifies this
      ensures Valid()
      ensures tipo == "" ==> selected == old(selected) && subtype == old(subtype) && open == old(open)
      ensures tipo != "" ==> selected == Some(tipo) && subtype.None? && !open
      ensures tipo in PlainTipos ==> !enviarDisabled
    {
      if tipo == "" {
        return;
      }
      if tipo in PlainTipos {
        assert !StartsWith(tipo, "personalizado") by {
          assert tipo[0] != 'p';
        }
      }
      selected := Some(tipo);
      subtype := None;
      open := false;
      UpdateEnviar();
    }

    /** The 'personalizado' button: only opens or closes the options panel. */
    method ClickPersonalizado()
      requires Valid()
      modifies this`open
      ensures Valid() && open == !old(open)
    {
      open := !open;
    }

    /** An option 'personalizado-grupal' or 'personalizado-individual': it is both the type
        and the subtype; the panel closes. */
    method ClickOpcion(tipo: string)
      requires Valid()
      modifies this
      ensures Valid()
      ensures selected == Some(tipo) && subtype == Some(tipo) && !open
      ensures enviarDisabled <==> tipo == ""
    {
      selected := Some(tipo);
      subtype := Some(tipo);
      open := false;
      UpdateEnviar();
    }

    /** A click outside the personalizado block closes the panel. */
    method ClickOutside()
      requires Valid()
      modifies this`open
      ensures Valid() && !open
    {
      open := false;
    }
  }

  /** A selected 'personalizado…' type with no subtype keeps Enviar disabled, and any
      selected type with a subtype enables it. */
  lemma EnviarNeedsSubtype(t: string, sub: Option<string>)
    requires StartsWith(t, "personalizado")
    ensures EnviarEnabled(Some(t), sub) <==> sub.Some? && sub.value != ""
  {
  }

  // ---------------------------------------------------------------------------------------
  // Modal and payload

  /** The type text shown and posted: a 'personalizado…' type becomes 'personalizado (grupal)'
      when it mentions 'grupal', else 'personalizado (individual)'; any other type is itself. */
  function TipoLabel(t: string): (r: string)
    ensures !StartsWith(t, "personalizado") ==> r == t
    ensures StartsWith(t, "personalizado") && Contains(t, "grupal") ==> r == "personalizado (grupal)"
    ensures StartsWith(t, "personalizado") && !Contains(t, "grupal") ==> r == "personalizado (individual)"
  {
    if StartsWith(t, "personalizado") then
      if Contains(t, "grupal") then "personalizado (grupal)" else "personalizado (individual)"
    else t
  }

  /** `HORAS_POR_TIPO[t] || 0`. */
  function HorasPorTipo(t: string): (h: nat)
    ensures h > 0 <==> t in {"corte-cabello", "uniforme", "credencial"}
    ensures h <= 4
  {
    if t == "corte-cabello" then 2
    else if t == "uniforme" then 4
    else if t == "credencial" then 1
    else 0
  }

  /** `Math.max(0, Math.floor(Number(v) || 0))` on an integer input (None: not a number). */
  function ClampHoras(v: Option<int>): (h: nat)
    ensures v.Some? && v.value >= 0 ==> h == v.value
    ensures v.None? || v.value <= 0 ==> h == 0
  {
    if v.Some? && v.value > 0 then v.value else 0
  }

  /** The description textarea is only shown for personalizado labels. */
  predicate ShowsTextarea(tipoLabel: string) {
    Contains(Lower(tipoLabel), "personalizado")
  }

  /** The modal's description: the trimmed textarea text when the textarea is shown and
      filled, else ''. */
  function ModalDescripcion(tipoLabel: string, typed: string): (d: string)
    ensures !ShowsTextarea(tipoLabel) || typed == "" ==> d == ""
    ensures ShowsTextarea(tipoLabel) && typed != "" ==> d == JsTrim(typed)
  {
    if ShowsTextarea(tipoLabel) && typed != "" then JsTrim(typed) else ""
  }

  /** `textContent.replace(/\D/g, '')`: only the ASCII digits, in order. */
  function KeepDigits(s: string): (r: string)
    ensures AllDigits(r) && |r| <= |s|
    ensures AllDigits(s) ==> r == s
  {
    if s == [] then []
    else (if IsDigit(s[0]) then [s[0]] else []) + KeepDigits(s[1..])
  }

  lemma {:induction false} KeepDigitsAppend(a: string, b: string)
    ensures KeepDigits(a + b) == KeepDigits(a) + KeepDigits(b)
  {
    if a == [] {
      assert a + b == b;
    } else {
      assert (a + b)[0] == a[0] && (a + b)[1..] == a[1..] + b;
      KeepDigitsAppend(a[1..], b);
    }
  }

  const MatriculaCaption: string := "Matrícula: "

  /** The matricula span reads the caption then m; the payload keeps exactly the digits of m. */
  lemma PayloadMatricula(m: string)
    ensures KeepDigits(MatriculaCaption + m) == KeepDigits(m)
  {
    assert forall k :: 0 <= k < |MatriculaCaption| ==> !IsDigit(MatriculaCaption[k]);
    NoDigits(MatriculaCaption);
    KeepDigitsAppend(MatriculaCaption, m);
  }

  lemma {:induction false} NoDigits(s: string)
    requires forall k :: 0 <= k < |s| ==> !IsDigit(s[k])
    ensures KeepDigits(s) == ""
  {
    if s != [] {
      NoDigits(s[1..]);
    }
  }

  /** Enviar's click: nothing when no type is selected; otherwise the payload built from the
      modal's inputs (hours typed as an integer, the description typed) and the span text. */
  function Submit(selected: Option<string>, input: Option<int>, typed: string, matriculaText: string): (req: Option<CreateRequest>)
    ensures req.None? <==> selected.None? || selected.value == ""
    ensures req.Some? ==> (req.value.alumnoId.None? && req.value.horas.Some?
      && req.value.tipo == Some(TipoLabel(selected.value))
      && req.value.matricula == Some(KeepDigits(matriculaText))
      && req.value.descripcion == Some(ModalDescripcion(TipoLabel(selected.value), typed)))
  {
    if selected.None? || selected.value == "" then None
    else
      var tipoText := TipoLabel(selected.value);
      Some(CreateRequest(Some(KeepDigits(matriculaText)), None, Some(tipoText),
                         Some(NatToString(ClampHoras(input))), Some(ModalDescripcion(tipoText, typed))))
  }

  /** Whatever is typed, the server reads back exactly the clamped non-negative hours and the
      digits of the matricula, so the page itself never creates a negative-hours report. */
  lemma SubmittedHoursNonNegative(selected: Option<string>, input: Option<int>, typed: string, matriculaText: string)
    requires Submit(selected, input, typed, matriculaText).Some?
    ensures var c := Coerce(Submit(selected, input, typed, matriculaText).value);
      && c.horas == ClampHoras(input) && c.horas >= 0
      && c.matricula == KeepDigits(matriculaText)
      && c.alumnoId.None?
  {
    var req := Submit(selected, input, typed, matriculaText).value;
    var h := ClampHoras(input);
    IntValOfDecimal(h);
    DigitsTrimToThemselves(KeepDigits(matriculaText));
    var c := Coerce(req);
    assert c.horas == h;
    assert c.matricula == KeepDigits(matriculaText);
  }

  /** A string of digits has nothing for PHP's `trim` to strip. */
  lemma DigitsTrimToThemselves(d: string)
    requires AllDigits(d)
    ensures PhpTrim(d) == d
  {
    assert forall k :: 0 <= k < |d| ==> d[k] !in PhpTrimChars;
    TrimClean(d, PhpTrimChars);
  }
}
