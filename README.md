# EduControl report core, modelled in Dafny

EduControl is a school discipline web application. Staff log in, look up students, give
them *reportes* (disciplinary reports that carry a debt of service hours), and browse
students by group and grade. The pages are server-rendered PHP with small client
scripts. This project pulls out the logic beneath the SQL and proves things about it.
The database tables are in-memory values: `reportes` is a map keyed by report id,
`reportes_historial` an append-only sequence, and every other table a sequence of rows.

One module per page, plus shared ones:

- `Base`, `Strings`, `Numbers`, `Sorting` hold the PHP and JavaScript primitives the pages
  use: `trim`, PHP and JavaScript lower-casing, `includes`, `intval`, `is_numeric`,
  `bin2hex`, and the orderings.
- `Columns` holds the schema-tolerant column resolution that five pages write out
  separately: "first present candidate" and "first candidate with a non-empty value",
  each as a function with a loop method proved equal to it.
- `Schema` holds the rows, the session, and the adeudo/completado bucket of a report.
- `ReportUpdate` has the `update_report` endpoint as a function of the tables before the
  call. `ReportCreate` has the report-creation handler the same way. `ReportDb` holds the
  class `ReportStore`, whose fields are the two tables. Its methods run each handler step
  by step and are proved equal to those functions.
- `ReportListing` is the report page's GET side: the link column, the three-key order and
  the order-preserving split into owed and settled cards. `HoursStepper` is that page's
  card script, a class holding the active card, its temporary hours, each card's span and
  the saves still waiting for their answer.
- `ApplyPage` is the apply-report page: the "grado · grupo" text, the type picker (a
  class), the modal and the payload it posts.
- `StudentList` (alumnos-vista), `Orientation` (orientacion) and `CardFilter` (the
  filter script both pages share).
- `Login` (index.php) and `StudentProfile` (alumno.php).

Inputs the pages read from the outside are parameters: `random_bytes(6)` and `time()`,
`password_verify`, the outcome of each statement that can fail to prepare or execute,
and the column sets `SHOW COLUMNS` returns.

Where the prose design of the system and the code disagree, the model follows the code:

- Report creation does not require a type or clamp the hours. An empty `tipo` and
  negative hours are stored as sent (`ReportCreate.NegativeHoursStored`).
- An unknown report id in `update_report` answers 500 with "Reporte no encontrado". It is
  not a separate not-found status.
- The history insert is skipped whenever its statement does not prepare, that is, when
  `prepare` returns false, as it does in mysqli's silent error mode. The model names that
  case `hasHistoryTable`.
- Each page has its own candidate list for the group label. On alumnos-vista the group
  select reads the first present of `nombre, grupo, nombre_grupo, grupo_nombre`
  (`StudentList.DetectColumns`). The card's `data-grupo` is
  `COALESCE(g.nombre, g.grupo, g.nombre_grupo, '')`, with no `grupo_nombre`. ver-reporte
  uses `nombre, grupo, nombre_grupo, grupo_nombre` and orientacion
  `nombre, grupo, grupo_nombre, codigo, nombre_grupo`. alumno.php uses
  `nombre, grupo, grupo_nombre, codigo`. There is no single shared list.
- The two pages disagree on what counts as an active report. The student list counts
  `activo = 1`. The counselling page counts `activo IS NULL OR activo = 1`
  (`Orientation.NullActiveCountsHere`).

## Model

| member | source | states |
|---|---|---|
| Columns.FirstPresent | public/alumnos-vista.php:33-46 | the result is a present candidate with no present candidate before it; none exactly when no candidate is present |
| Columns.FindFirstPresent | public/alumnos-vista.php:33-38 | the foreach-with-break search returns the first present candidate |
| Columns.FirstNonEmpty | public/alumno.php:77-89 | the result is the value of the first candidate that exists, is not NULL and is not ''; none exactly when no candidate qualifies |
| Columns.FindFirstNonEmpty | public/alumno.php:77-82 | the loop with break returns the first non-empty candidate's value |
| Columns.Intersect | public/ver-reporte.php:130 | `array_intersect` keeps exactly the candidates the table has; its head is the first present candidate |
| Columns.IntersectInOrder | public/ver-reporte.php:130 | `array_intersect` keeps candidate order: of any two kept columns, the earlier one comes earlier among the candidates |
| Columns.CoalesceFirstCandidate | public/ver-reporte.php:130-139 | the COALESCE over the prefixed kept candidates reads the first candidate the table has whose value is not NULL, so candidate order is the COALESCE priority |
| Columns.GradoExpressions | public/ver-reporte.php:131-135 | `a.grado`, `g.grado`, `g.semestre` are each included exactly when their table has the column; `a.grado` comes first |
| Columns.CoalesceColumnsFirstNonNull | public/ver-reporte.php:137-140 | the COALESCE over the candidate columns yields the first non-NULL one |
| Columns.CoalesceColumnsAllNull | public/ver-reporte.php:137-140 | with every candidate NULL or missing the COALESCE yields '' |
| Columns.Coalesce | public/ver-reporte.php:137-140 | the result is the first non-NULL value, and the default when every value is NULL |
| Schema.EstadoClase | public/ver-reporte.php:270-273 | the card class is 'adeuda' exactly when hours are positive, else 'pagado' |
| Schema.FindByMatricula | public/aplicar-reporte.php:45-52 | the lookup finds a row with that matricula, and finds none only when no row has it |
| ReportUpdate.Check | public/ver-reporte.php:54-61 | a blank trimmed id gives the missing-id error, missing or negative `intval` hours give the invalid-hours error, otherwise the trimmed fields |
| ReportUpdate.HttpStatus | public/ver-reporte.php:21-26 | the two input errors go out as 400, every transaction error as 500 |
| ReportUpdate.EditorId | public/ver-reporte.php:64-66 | the editor is a non-empty numeric `user_id` unless that reads 0 (as "00" does); otherwise a non-empty numeric `usuario_id`; otherwise 0 when `user_id` was numeric and read 0, and none when neither is numeric |
| ReportUpdate.HistoryNote | public/ver-reporte.php:105 | a truthy note wins; else "editado por: " and the first 120 characters of a truthy editor label (all of it when shorter); else '' |
| ReportUpdate.UpdatedRow | public/ver-reporte.php:86-94 | the row gets the new hours, the editor and the time; the description only when one was sent; every other field is kept |
| ReportUpdate.Update | public/ver-reporte.php:51-120 | a request failing its checks leaves the tables and returns that error; every failure leaves the tables; a success keeps the set of report ids and adds one history entry exactly when the history table exists |
| ReportUpdate.Transaction | public/ver-reporte.php:69-119 | it succeeds exactly when the select runs, the row exists and neither the update nor the history insert fails; on failure the tables are as before; on success only that row changes, its hours become the new value, the response carries the old hours, and the history only grows at its end |
| ReportUpdate.BadInputRejected | public/ver-reporte.php:54-58 | a missing or blank id, or missing or negative hours, is rejected with 400 and both tables stay unchanged |
| ReportUpdate.UnknownIdRejected | public/ver-reporte.php:77-80 | an id not in `reportes` fails with NotFound and both tables stay unchanged |
| ReportUpdate.FailureChangesNothing | public/ver-reporte.php:116-118 | every failure rolls back: both tables are exactly as before |
| ReportUpdate.SucceedsIff | public/ver-reporte.php:69-119 | the update succeeds exactly when the input checks pass, the row exists and no statement fails; a failed history insert fails it when the history table exists |
| ReportUpdate.SuccessEffect | public/ver-reporte.php:82-115 | on success the row's hours are the new value, `horas_prev` is the old value, no other row changes, the description is replaced only when sent, and the history grows by exactly one entry (prev, new, editor, note) |
| ReportUpdate.SecondIdenticalUpdate | public/ver-reporte.php:82-115 | repeating the same update succeeds, reports previous hours equal to the new ones, and logs a no-change entry |
| ReportUpdate.UpdateKeepsHoursNonNegative | public/ver-reporte.php:57-58 | the endpoint never stores negative hours |
| ReportUpdate.BucketFollowsNewHours | public/ver-reporte.php:270-273 | after an update the report's bucket is read from its new hours |
| ReportUpdate.MinusOneRejected | public/ver-reporte.php:57-58 | hours "-1" are rejected as invalid and nothing changes |
| ReportUpdate.UpdatePreservesWellKeyed | public/ver-reporte.php:72-113 | every row stays under its own id and every history entry names a stored report |
| ReportDb.ReportStore.UpdateReport | public/ver-reporte.php:51-120 | the handler, run on the mutable tables, leaves exactly the tables and response of the endpoint function |
| ReportDb.ReportStore.RunTransaction | public/ver-reporte.php:69-119 | the transaction: read the hours, update the row, append the entry, commit; on any failure restore the saved tables |
| ReportDb.ReportStore.CreateReport | public/aplicar-reporte.php:18-90 | the POST handler, run on the mutable tables, leaves exactly the tables and response of the create function |
| ReportDb.ReportStore.Insert | public/aplicar-reporte.php:34-78 | once the fields are coerced: applicator, new id, student lookup and INSERT, as the create function says |
| ReportDb.LookUpStudent | public/aplicar-reporte.php:43-55 | the step-by-step reassignment of `$alumno_id` computes the resolved student id |
| ReportCreate.Coerce | public/aplicar-reporte.php:28-32 | matricula, tipo and descripcion are trimmed ('' when absent), `alumno_id` stays null when absent, hours default to 0 and are never clamped |
| ReportCreate.AppliedBy | public/aplicar-reporte.php:34-37 | the applicator is a non-empty `usuario_id`, else a non-empty `user_id`, else none; an id that reads 0 is stored as NULL |
| ReportCreate.ReportId | public/aplicar-reporte.php:40-41 | the id is 'r', the 12 hexadecimal digits of the six bytes, then the decimal time |
| ReportCreate.ReportIdInjective | public/aplicar-reporte.php:40-41 | two ids are equal only when both the bytes and the time are |
| ReportCreate.ResolveAlumnoId | public/aplicar-reporte.php:43-55 | the student id is looked up by matricula only when none (or 0) was sent and the matricula is truthy; otherwise it is left as sent |
| ReportCreate.NewRow | public/aplicar-reporte.php:61-69 | the inserted row carries the coerced fields, the applicator as both `aplicado_por` and `ultima_mod_por`, and `activo = 1` |
| ReportCreate.Create | public/aplicar-reporte.php:18-90 | the insert succeeds exactly when it can run and the generated id is new; on failure nothing changes; on success the returned id is the generated one, exactly that row is added with the `intval` hours (0 when absent) and the trimmed type, and the history is untouched |
| ReportCreate.CreateFrom | public/aplicar-reporte.php:34-83 | once the fields are coerced: the added row is the new row of those fields, the resolved student id and the applicator, and no existing row changes |
| ReportCreate.CreateSucceedsIff | public/aplicar-reporte.php:61-75 | the insert succeeds exactly when it can run and the generated id is new |
| ReportCreate.CreateEffect | public/aplicar-reporte.php:61-83 | on success exactly one row is added under the returned id, equal to the new row built from the coerced request, and nothing else changes; on failure nothing changes |
| ReportCreate.CreatePreservesWellKeyed | public/aplicar-reporte.php:61-71 | the handler keeps every row under its own id |
| ReportCreate.NegativeHoursStored | public/aplicar-reporte.php:31 | hours "-3" are stored as -3: the server does not clamp |
| ReportCreate.LookupByMatricula | public/aplicar-reporte.php:44-55 | with no usable id sent, the row gets the id of the first student with the trimmed matricula |
| ReportListing.GroupColumns | public/ver-reporte.php:130 | the group-name columns are exactly the candidates `grupos` has |
| ReportListing.ProfileGrupoPriority | public/ver-reporte.php:130-139 | the profile's group is the value of the first of `nombre`, `grupo`, `nombre_grupo`, `grupo_nombre` that `grupos` has and that is not NULL in the joined row |
| ReportListing.ProfileGrupoSkipsNullColumn | public/ver-reporte.php:130-139 | with no `nombre` column and a NULL `grupo`, the group is the `nombre_grupo` value, not the `grupo_nombre` one |
| ReportListing.TargetMatricula | public/ver-reporte.php:142-146 | the matricula is the non-empty GET value, else the session's `edu_matricula`, else its `matricula`, trimmed; '' otherwise |
| ReportListing.BlankQueryHidesSession | public/ver-reporte.php:144-152 | a blank GET value wins over the session and trims to '' |
| ReportListing.LinkColumn | public/ver-reporte.php:195-208 | reports link by `alumno_id` when that column exists, else by `matricula`, else there is no link (the 500 error) |
| ReportListing.LinkedReports | public/ver-reporte.php:195-202 | the query keeps exactly the student's reports under the chosen link |
| ReportListing.ReportSelectCols | public/ver-reporte.php:222-228 | the selected columns are exactly the wanted ones the table has |
| ReportListing.Joins | public/ver-reporte.php:213-220 | each user join is made exactly when its foreign-key column and `usuarios.nombre` exist |
| ReportListing.ReportLe | public/ver-reporte.php:243 | the three-key order is hours descending, then creation time descending: its first key adds nothing |
| ReportListing.AdeudosExact | public/ver-reporte.php:263-265 | the owed bucket holds exactly the reports with positive hours |
| ReportListing.CompletadosExact | public/ver-reporte.php:266-268 | the settled bucket holds exactly the reports with zero hours |
| ReportListing.Adeudos | public/ver-reporte.php:263-265 | the filter never grows the list |
| ReportListing.Completados | public/ver-reporte.php:266-268 | the filter never grows the list |
| ReportListing.AdeudosDistribute | public/ver-reporte.php:263-265 | the filter keeps relative order: filtering a concatenation concatenates the filtered parts |
| ReportListing.CompletadosDistribute | public/ver-reporte.php:266-268 | the same for the settled bucket |
| ReportListing.DisplayIsPartition | public/ver-reporte.php:317 | the cards shown are the reports with non-negative hours, each once; negative hours fall in neither bucket |
| ReportListing.DisplayOfSorted | public/ver-reporte.php:317 | on rows in SQL order, the split only drops negative rows: owed reports come before settled ones |
| ReportListing.DisplayShape | public/ver-reporte.php:263-268 | the cards are exactly the listed reports with non-negative hours, and owed cards come before settled ones whatever the order of the list |
| ReportListing.PageStatus | public/ver-reporte.php:148-151 | a missing matricula is 400, a missing student 404, the configuration errors 500 |
| ReportListing.LinkImpliesColumns | public/ver-reporte.php:225-233 | once a link column exists the missing-columns error cannot happen |
| ReportListing.ListReports | public/ver-reporte.php:142-268 | no truthy matricula gives the 400 error, an unknown one the 404, no link column the 500; a listing shows the student found by the matricula, its linked reports sorted by the three keys, and the owed-then-settled split of them as cards |
| ReportListing.ListingCards | public/ver-reporte.php:237-268 | the page shows the requested student, the reports sorted by the three keys, and as cards exactly that student's non-negative-hours reports in that order |
| HoursStepper.SaveRequest | public/ver-reporte.php:373-383 | the save posts the card's id, the count as decimal text that reads back as the count, and the trimmed description text |
| HoursStepper.SaveRequestAccepted | public/ver-reporte.php:54-58 | every count the script can send passes the server's hours check and is stored as is |
| HoursStepper.ShownDescription | public/ver-reporte.php:343-345 | the card shows the stored description only when it is truthy |
| HoursStepper.Stepper.Arrow | public/ver-reporte.php:412-421 | only the active card reacts; up adds one, down subtracts one but never goes below 0 |
| HoursStepper.Stepper.Click | public/ver-reporte.php:423-455 | the first click makes a card active and loads its stored hours into the count, leaving every span as it is; a click on the active card posts its count, records the save as pending and changes nothing on the page; a click on another card rewrites only the abandoned card's span, to its stored hours, and activates the new one |
| HoursStepper.Stepper.Activate | public/ver-reporte.php:425-453 | the new card is active and the count holds its stored hours; no span changes except the abandoned card's, which shows its stored hours again; a page that showed what the script holds still does |
| HoursStepper.Stepper.Save | public/ver-reporte.php:373-383 | the form carries the count as it is at the click, the save is appended to the pending ones, and the cards, the active card and the count are left as they were |
| HoursStepper.Stepper.Resolve | public/ver-reporte.php:385-441 | the answer removes that save from the pending ones; a failure changes nothing else; a success gives the saved card the sent count in its data, span and class, then ends the edit of whichever card is active |
| HoursStepper.Stepper.ResolveIntended | public/ver-reporte.php:432-441 | corrected, the edit ends only when the saved card is still the active one, so every card that is not being edited keeps showing what it stores |
| HoursStepper.StaleSpanAfterLateAnswer | public/ver-reporte.php:432-441 | as written, save card 0, switch to card 1, raise it, let save 0 succeed: card 1 is no longer active but shows 1 hour while it stores 0 |
| HoursStepper.StaleCardPostsStoredCount | public/ver-reporte.php:425-441 | as written, a card with no edit in progress that shows a count it does not store keeps showing it when clicked, and a second click posts the stored count, not the one on screen |
| HoursStepper.LateAnswerKeepsEdit | public/ver-reporte.php:432-441 | corrected, the same steps leave card 1 in edit with its raised count and every other card consistent |
| ApplyPage.GrupoTexto | public/aplicar-reporte.php:120-177 | '' without a group id or a group row; else grado·nombre when both columns exist, else grado·grupo, else semestre·grupo, and the fallback text when none of these pairs exists |
| ApplyPage.FallbackTexto | public/aplicar-reporte.php:162-176 | the fallback text in each of its six cases: grade, a space and the name; grade, a space and the group; the grade and a space; the name alone; the group alone; '' |
| ApplyPage.Picker.UpdateEnviar | public/aplicar-reporte.php:256-266 | Enviar is disabled exactly when no type is selected, or a 'personalizado' type has no subtype |
| ApplyPage.Picker.ClickTipo | public/aplicar-reporte.php:268-289 | a plain type button selects its type, clears the subtype and closes the panel; each of the page's three plain types leaves Enviar enabled |
| ApplyPage.Picker.ClickPersonalizado | public/aplicar-reporte.php:272-279 | the personalizado button only toggles the options panel |
| ApplyPage.Picker.ClickOpcion | public/aplicar-reporte.php:298-311 | an option is both the type and the subtype, closes the panel, and leaves Enviar enabled unless the option is empty |
| ApplyPage.Picker.ClickOutside | public/aplicar-reporte.php:320-327 | a click outside the personalizado block closes the panel |
| ApplyPage.EnviarNeedsSubtype | public/aplicar-reporte.php:261-264 | a 'personalizado' type enables Enviar exactly when a subtype is chosen |
| ApplyPage.TipoLabel | public/aplicar-reporte.php:454-457 | a 'personalizado' type becomes 'personalizado (grupal)' when it mentions 'grupal', else 'personalizado (individual)'; other types are kept |
| ApplyPage.HorasPorTipo | public/aplicar-reporte.php:439-445 | the default hours are positive exactly for corte-cabello, uniforme and credencial, never more than 4, and 0 for every other type |
| ApplyPage.ClampHoras | public/aplicar-reporte.php:422 | the modal's hours are the typed value when non-negative, else 0 |
| ApplyPage.ModalDescripcion | public/aplicar-reporte.php:423 | the description is the trimmed text only when the textarea is shown and filled |
| ApplyPage.KeepDigits | public/aplicar-reporte.php:473 | `replace(/\D/g, '')` keeps only digits, and leaves a digit string unchanged |
| ApplyPage.PayloadMatricula | public/aplicar-reporte.php:218 | the caption "Matrícula: " contributes no digits, so the payload keeps exactly the matricula's digits |
| ApplyPage.Submit | public/aplicar-reporte.php:447-480 | nothing is posted without a type; otherwise the payload carries the label, clamped hours, description and matricula digits |
| ApplyPage.SubmittedHoursNonNegative | public/aplicar-reporte.php:475-480 | the server reads back exactly the clamped hours, so the page never creates a negative-hours report |
| StudentList.DetectColumns | public/alumnos-vista.php:32-46 | the group-name column is the first present of nombre, grupo, nombre_grupo, grupo_nombre; the grade column the first of grado, semestre, nivel |
| StudentList.OptionsExact | public/alumnos-vista.php:50-68 | each option list holds exactly the distinct non-empty values of its column, sorted |
| StudentList.NoColumnNoOptions | public/alumnos-vista.php:53-54 | with no detected column the select has no options |
| StudentList.BuildOptions | public/alumnos-vista.php:50-68 | the loop filling both option sets yields those option lists |
| StudentList.Options | public/alumnos-vista.php:50-68 | the options are sorted, distinct, and exactly the non-empty values of the column |
| SelectOptions.FirstSeen | public/alumnos-vista.php:58-59 | the keys of the array used as a set are distinct and are exactly the non-empty values |
| SelectOptions.OptionListExact | public/alumnos-vista.php:65-68 | the sorted keys are exactly the distinct non-empty values |
| StudentList.QueriedIds | public/alumnos-vista.php:121-126 | the count query asks about exactly the positive student ids |
| StudentList.ActiveCount | public/alumnos-vista.php:127 | the count of a student's `activo = 1` reports never exceeds the number of reports |
| StudentList.ActiveCountZero | public/alumnos-vista.php:127 | the count is 0 exactly when the student has no `activo = 1` report |
| StudentList.BuildReportCounts | public/alumnos-vista.php:118-138 | the map has an entry exactly for each queried student with an `activo = 1` report, holding that count |
| StudentList.CountOfBuilt | public/alumnos-vista.php:146-147 | read with `?? 0`, every queried student gets its count and every other id 0 |
| StudentList.StudentLe | public/alumnos-vista.php:143-153 | a higher count always comes first, the comparator never puts a lower count first, and equal counts are ordered by `strcasecmp` on the names |
| StudentList.Rank | public/alumnos-vista.php:143-153 | the ranked list is a permutation of the students |
| StudentList.RankOrdered | public/alumnos-vista.php:143-153 | the ranked list is a permutation, by count descending, then case-insensitive name ascending |
| StudentList.RankStable | public/alumnos-vista.php:143-153 | students with the same count and the same case-folded name keep the order the query gave them, as PHP 8's stable `usort` does |
| Sorting.SortByStable | public/alumnos-vista.php:143-153 | the sort is stable: elements the order ranks level keep their input order |
| StudentList.ReportClass | public/alumnos-vista.php:233-241 | 0 gives '', 1 bajo, 2..4 medio, 5 or more alto |
| StudentList.ReportClassMonotonic | public/alumnos-vista.php:233-241 | more reports never give a milder class |
| StudentList.Recommendations | public/alumnos-vista.php:222-244 | exactly the first three ranked students are flagged `$esRecomendado`; the page computes that flag but never renders it |
| StudentList.RecommendedAreTop | public/alumnos-vista.php:143-244 | no student outside the recommendations has more reports than a recommended one |
| CardFilter.QueryOf | public/alumnos-vista.php:287-290 | the grade and group selects are kept as they are, an empty text filter stays empty so it filters nothing, and the text filters are already lower-case |
| CardFilter.QueryIgnoresSurroundingBlanks | public/alumnos-vista.php:287-288 | blanks around the typed text do not change the filter |
| CardFilter.Matches | public/alumnos-vista.php:295-305 | with every filter empty a card matches; a match on a picked grade or group means the card has it; a text match needs the card's field to be at least as long as the query |
| CardFilter.FiltersCompose | public/alumnos-vista.php:300-305 | a card matches exactly when it matches each of the four filters on its own |
| CardFilter.AccentedNameMatches | public/alumnos-vista.php:288-301 | lower-casing folds accented capitals too: the name "ÑUÑEZ PÉREZ" is found by "ñuñez" |
| Strings.JsLowerIdempotent | public/alumnos-vista.php:288 | lower-casing twice is lower-casing once |
| Strings.JsLowerAppend | public/alumnos-vista.php:295 | lower-casing distributes over concatenation |
| CardFilter.ClearedMatchesAll | public/alumnos-vista.php:317-323 | with every filter cleared every card matches |
| CardFilter.Filtrar | public/alumnos-vista.php:286-311 | each child's visibility and the counter are those the filter defines: visible exactly when its data matches, counted when visible |
| CardFilter.ApplyQuery | public/alumnos-vista.php:292-308 | the loop sets each child's visibility and counts the visible ones |
| CardFilter.Visibility | public/alumnos-vista.php:293-306 | one visibility per child, child k visible exactly when its data matches the filters |
| CardFilter.CountShown | public/alumnos-vista.php:292-310 | the counter never exceeds the number of children |
| CardFilter.CountShownAll | public/alumnos-vista.php:292-310 | the counter equals the number of children exactly when every child matches |
| CardFilter.CountShownNone | public/alumnos-vista.php:292-310 | the counter is 0 exactly when no child matches |
| CardFilter.CountArticles | public/alumnos-vista.php:326 | the load-time count never exceeds the number of children and equals it exactly when every child is an article |
| CardFilter.ListChildren | public/alumnos-vista.php:217-260 | the list holds one card per student, or only the placeholder when there are none |
| CardFilter.CountArticlesOfCards | public/alumnos-vista.php:325-328 | on load the counter equals the number of students, 0 included: the placeholder is not an article |
| CardFilter.EmptyListCountsPlaceholder | public/alumnos-vista.php:317-328 | as written, clearing the filters on an empty list counts 1 where the page loaded with 0 |
| CardFilter.ClearedCountsAllCards | public/alumnos-vista.php:317-328 | corrected, clearing the filters brings the counter back to its value on load |
| CardFilter.CountsAgreeOnCards | public/alumnos-vista.php:292-310 | on a list of cards the script's count and the corrected one agree |
| Orientation.FindKey | public/orientacion.php:30-35 | the loop returns the first candidate that is a key of the row |
| Orientation.DetectColumns | public/orientacion.php:28-42 | both columns are searched in the first group row only |
| Orientation.DetectedIsFirstKey | public/orientacion.php:28-42 | a detected column is a key of the first row with no earlier candidate a key; with no rows both are null |
| Orientation.GroupValueTrimmed | public/orientacion.php:53-54 | a non-empty group value has no surrounding blanks |
| Orientation.GroupOptionsExact | public/orientacion.php:49-66 | the options are exactly the distinct non-empty trimmed values, sorted |
| Orientation.GroupsMapKeys | public/orientacion.php:59 | `groupsMap` has a key exactly for each non-null group id |
| Orientation.GroupsMapLastWins | public/orientacion.php:59 | an id maps to the labels of the last row with that id |
| Orientation.BuildGroups | public/orientacion.php:49-66 | the loop builds both option lists and the map |
| Orientation.AggregatesSplit | public/orientacion.php:79-85 | the sum and count add up over any split of the reports, so they do not depend on row order |
| Orientation.Counted | public/orientacion.php:84 | a report with `activo = 1` counts and one with any other non-NULL value does not |
| Orientation.TotalHoras | public/orientacion.php:79-84 | a total over non-negative hours is non-negative |
| Orientation.NumReportes | public/orientacion.php:80-84 | the count never exceeds the number of reports |
| Orientation.NoReportsNoHours | public/orientacion.php:79-85 | a student with no active report has 0 hours; non-negative hours give a non-negative total |
| Orientation.NullActiveCountsHere | public/orientacion.php:84 | a report whose `activo` is NULL counts here, unlike on the student list |
| Orientation.QueryRowOf | public/orientacion.php:72-85 | each student's row carries the sum and count of its active reports, NULLs read as '' |
| Orientation.Grouped | public/orientacion.php:81-85 | every student appears exactly once |
| Orientation.StudentQuery | public/orientacion.php:72-87 | one row per student: the result is a permutation of the grouped rows |
| Orientation.StudentQueryOrdered | public/orientacion.php:72-87 | the rows are a permutation of the students, by total hours descending, then among equal totals the students whose name is NULL first, then case-insensitive name |
| Orientation.NullNameSortsFirst | public/orientacion.php:75-86 | a student whose name is NULL sorts before one named '' with the same total, although `COALESCE(a.nombre, '')` shows both as '' |
| Orientation.Labels | public/orientacion.php:92-98 | a non-empty mapped group id gives its labels; otherwise both labels are '' |
| Orientation.AttachLabels | public/orientacion.php:89-106 | the loop attaches those labels to every row, in order |
| Orientation.LabelsOfGroup | public/orientacion.php:49-100 | a student shows the trimmed values of its group's row |
| Orientation.UnknownGroupNoLabels | public/orientacion.php:93-100 | a student whose group id is unmapped gets empty labels |
| Orientation.NivelClaseHoras | public/orientacion.php:109-114 | h <= 0 gives baja, 1..4 media, 5 or more alta |
| Orientation.NivelClaseMonotonic | public/orientacion.php:109-114 | more hours never give a lighter class |
| Orientation.MetaLine | public/orientacion.php:189 | no labels give ''; a grade alone gives "Grado g · ", a group alone "Grupo x", both "Grado g · Grupo x" |
| Orientation.ToggleActive | public/orientacion.php:268-275 | a click on the active card deactivates it; any other click makes that card the only active one |
| Login.UserNamed | index.php:25-35 | the staff lookup finds a row with that name, and finds none only when no row has it |
| Login.StudentWith | index.php:39-53 | the student lookup finds a row with that matricula, and finds none only when no row has it |
| Login.BuscarUsuario | index.php:19-57 | a blank input finds nothing; a staff result is the row of an account named by the trimmed input, found only when the staff statement prepares; a student result needs the matricula and no staff match; no match gives nothing |
| Login.NoMatchFindsNothing | index.php:19-57 | when neither lookup can find a row the search finds nothing |
| Login.BuscarUsuarioTrims | index.php:21-22 | the lookup trims its input, so trimming first changes nothing |
| Login.StaffShadowsStudent | index.php:24-36 | a name that matches both a staff account and a matricula logs in as staff |
| Login.DigitRunSpec | index.php:127 | the fallback matricula is the leftmost whole run of four or more digits, none if there is no such run |
| Login.DigitRun | index.php:127 | there is a run exactly when four digits in a row occur somewhere, and the run found is at least four digits, all of them digits |
| Login.StudentMatricula | index.php:102-127 | the linked student's matricula when non-empty, else the digit run of the name, else '' |
| Login.Route | index.php:95-135 | the trimmed lower-cased role orientacion/orientación goes to orientacion.html, alumno to alumno.php (with the matricula only when non-empty), anything else to prefectos.html |
| Login.Decide | index.php:60-155 | an empty user or password gives exactly the required-fields error; any login needs a lookup match |
| Login.Authenticate | index.php:67-153 | the only other errors are bad credentials and inactive account, and a failed lookup is bad credentials |
| Login.DecideFilled | index.php:61-67 | with both fields filled in, the decision rests on what the trimmed name finds |
| Login.InactiveNeverLogsIn | index.php:75-78 | an inactive staff account fails with 'Cuenta inactiva.' whatever the password |
| Login.Inactive | index.php:75-77 | a NULL `activo` (which `isset` treats as missing) and the value 1 are active |
| Login.StaffLoginIff | index.php:80-93 | an active staff account logs in exactly when the password verifies against the hash or equals the stored string; the role defaults to 'prefecto' |
| Login.PasswordOk | index.php:80-87 | a password equal to the stored value always passes; against an empty stored value only the empty password passes; otherwise it passes exactly when `password_verify` accepts it |
| Login.EmptyStoredPasswordNeverLogsIn | index.php:74-87 | an empty or NULL stored password never logs in |
| Login.StudentLoginIff | index.php:140-152 | a student logs in exactly when the password equals the matricula; the session role is 'alumno' |
| Login.WriteSession | index.php:91-93 | a login writes the three session keys and keeps every other one |
| Login.LoginLeavesNoEditor | index.php:91-93 | a login never sets the keys the report endpoints read the acting user from |
| Login.LoginPage.Post | index.php:60-156 | a failure sets the error and leaves the session; a success writes the session and redirects |
| StudentProfile.Matricula | public/alumno.php:6-11 | the non-empty GET value trimmed; else for role exactly 'alumno' the session's `edu_matricula` or `edu_user`; else '' |
| StudentProfile.BlankQueryGivesNoMatricula | public/alumno.php:7-17 | a blank GET value wins over the session and leaves no matricula |
| StudentProfile.AlumnoRoleRoutesHere | index.php:95-101 | the role "Alumno" is routed to the profile page |
| StudentProfile.RoleSpellingMismatch | public/alumno.php:9 | the profile page requires exactly 'alumno', so the same account finds no matricula there |
| StudentProfile.RowWith | public/alumno.php:25-36 | the lookup finds a row with that matricula, and finds none only when no row has it |
| StudentProfile.Status | public/alumno.php:13-62 | no matricula is 400, a failed prepare 500, a missing row 404 |
| StudentProfile.ResolveField | public/alumno.php:77-97 | the loop then the two fallbacks compute the field exactly as written |
| StudentProfile.FieldAsWritten | public/alumno.php:77-96 | the first non-empty candidate wins; otherwise the field is NULL exactly when the bare column is present and NULL; it is shown (not '') exactly when a candidate, the bare column or the prefixed one has a value |
| StudentProfile.Field | public/alumno.php:77-96 | corrected, the field is '' exactly when no candidate has a value and the prefixed column is empty |
| StudentProfile.MissingGroupShowsEmptyGrado | public/alumno.php:77-96 | as written, a NULL `grado` from the left join survives both fallbacks, so the profile's grade is NULL and an empty Grado line is shown |
| StudentProfile.FieldShownIff | public/alumno.php:77-96 | corrected, the field is non-empty exactly when some candidate or the prefixed column has a value, and agrees with the code whenever the bare column is not NULL |
| StudentProfile.Foto | public/alumno.php:99 | a falsy photo is replaced by the placeholder |
| StudentProfile.SplitPiecesHaveNoWs | public/alumno.php:102 | no piece of the split contains whitespace |
| StudentProfile.NameParts | public/alumno.php:102-104 | the nombre has no whitespace and is never a falsy non-empty string; it is '' or the first piece of the split; a single piece leaves the apellidos empty |
| StudentProfile.NamePartsOfWords | public/alumno.php:102-104 | a name of words split by single spaces gives the first word as nombre (unless it is falsy, like "0") and the rest, joined by one space, as apellidos |
| StudentProfile.SplitJoin | public/alumno.php:102-104 | splitting words joined by single spaces gives the words back |
| StudentProfile.FormFeedLeadingName | public/alumno.php:102-104 | a name starting with a form feed, which `trim` keeps, gets an empty nombre |
| StudentProfile.ProfileOf | public/alumno.php:66-104 | the profile carries the matricula asked for, the photo or its placeholder, a nombre without whitespace, and the grade and group as the code computes them, each shown exactly when a column has a value |
| StudentProfile.IntendedProfileOf | public/alumno.php:77-96 | corrected, the grade and group are never NULL and are shown exactly when a candidate or the prefixed column has a value |
| StudentProfile.IntendedAgreesUnlessNull | public/alumno.php:92-93 | the code and the corrected profile agree whenever neither bare column is NULL |
| StudentProfile.Page | public/alumno.php:6-104 | no matricula gives 400; a failed prepare 500; a failed execute or a missing row 404; otherwise the profile, as the code computes it, of the row with that matricula |

Helpers without a row of their own are specified through the rows that use them:
`Orientation.RowLe` through `Orientation.StudentQuery` and `Orientation.StudentQueryOrdered`
(the order they sort by); `Orientation.Detected` through `Orientation.DetectColumns` and
`Orientation.DetectedIsFirstKey`; `Orientation.GroupValue` through
`Orientation.GroupValueTrimmed` and `Orientation.GroupOptionsExact`;
`ReportListing.ProfileGrupo` through `ReportListing.ProfileGrupoPriority`, and
`ReportListing.ProfileGrado` through `Columns.CoalesceColumnsFirstNonNull`,
`Columns.CoalesceColumnsAllNull` and `Columns.GradoExpressions`; `Sorting.Level` (the
elements ranked level with one) through `Sorting.SortByStable` and `StudentList.RankStable`; `ReportListing.SortedCards`
is the step of `ReportListing.ListingCards`; `StudentList.CountOf` through
`StudentList.CountOfBuilt`; `ApplyPage.EnviarEnabled` through
`ApplyPage.Picker.UpdateEnviar` and `ApplyPage.EnviarNeedsSubtype`; and
`ApplyPage.ShowsTextarea` through `ApplyPage.ModalDescripcion`.

## Left out

- All database access is replaced by in-memory tables and column sets: the connection,
  `SHOW COLUMNS`, prepared statements, transactions, isolation and concurrency. A rollback
  is modelled as "the tables are what they were before".
- `password_verify` is a function parameter, and `random_bytes(6)` and `time()` are
  parameters. `NOW()` is an integer time parameter. `date`/`strtotime` formatting is out.
- `strcasecmp` is modelled exactly: code-point order (UTF-8 byte order) after ASCII
  lower-casing (StudentList.StudentLe). Ties between equal keys keep the order they came
  in, as PHP 8's stable sort does (StudentList.RankStable).
- SelectOptions.OptionList, StudentList.Options, StudentList.OptionsExact,
  StudentList.BuildOptions, Orientation.GroupOptionsExact and Orientation.BuildGroups: the
  options are sorted by plain code points, with no lower-casing. `sort(..., SORT_NATURAL)`
  compares runs of digits as numbers, so it puts "2" before "10" where this order puts
  it after.
- Orientation.RowLe, Orientation.StudentQuery and Orientation.StudentQueryOrdered: the
  `ORDER BY a.nombre COLLATE utf8mb4_general_ci` tie-break is code-point order after ASCII
  lower-casing. It reads the raw `a.nombre`, so NULL names sort first, as MySQL puts NULL
  before every value in ascending order. The collation also folds accents ("É" sorts with "e") and ignores trailing
  spaces; this order does neither. MySQL's order among equal keys is left unspecified.
- Login.UserNamed, Login.StudentWith, StudentProfile.RowWith, Schema.FindByMatricula,
  ReportUpdate.Transaction and ReportDb.ReportStore.RunTransaction: the `WHERE col = ?`
  lookups, the report id of `update_report` among them, compare strings exactly. MySQL
  compares them under the column's collation, so "ANA" or "ana " would also find the
  account "Ana".
- ReportListing.LinkedReports and ReportListing.Linked: the `r.matricula = ?` link of the
  report query compares the matricula exactly. MySQL compares it under the column's
  collation, so a report stored under "a-12 " or "A-12" would also be listed for "a-12".
  The `r.alumno_id = ?` link is an integer comparison and is exact in both.
- ReportUpdate.Update, ReportUpdate.Transaction, ReportDb.ReportStore.RunTransaction,
  ReportDb.ReportStore.UpdateReport, Login.BuscarUsuario, Login.Decide, StudentProfile.Page,
  ReportDb.LookUpStudent and ReportCreate.ResolveAlumnoId: a statement that does not prepare
  is modelled as `prepare` returning false. That is mysqli's silent error mode (PHP before
  8.1, or `MYSQLI_REPORT_OFF`), and includes/conexion.php sets no mode. From PHP 8.1 the
  default mode throws instead. Then a missing `reportes_historial` makes `update_report`
  roll back and answer 500, where the model commits without history. The lookups of
  index.php:26 and :40, public/alumno.php:40 and public/aplicar-reporte.php:45 end the
  request with an uncaught exception. ReportCreate.CreateFrom is the same in both modes: its
  `catch (\Throwable)` turns the exception into the same failed insert.
- ReportUpdate.Check, ReportUpdate.EditorId, ReportCreate.Coerce and ReportCreate.AppliedBy:
  `intval` and `is_numeric` are read on integer literals only (an optional sign, then
  digits, after leading blanks). PHP also reads fractions and exponents ("1e3" is 1000,
  "1.9" is 1, "-1e-3" is 0 and numeric) and caps values at the 64-bit limits. Here "1e3"
  reads as 1, and "1.5" is not numeric. ReportDb.ReportStore.UpdateReport and
  ReportDb.ReportStore.CreateReport inherit this reading.
- ReportUpdate.HistoryNote: counts characters where `substr($editorLabel, 0, 120)` counts
  bytes. A label with accented letters is cut later here than in PHP, and PHP can cut a
  character in half.
- CardFilter.QueryOf and CardFilter.Matches: `toLowerCase` is modelled on ASCII and the
  Latin-1 capitals (À to Þ, without ×) only. Other scripts and special mappings (such as
  "İ") are left as they are.
- Browser `Number` parsing is left out, and hours are integers: `ClampHoras` takes the
  typed value already read as an integer or as not-a-number.
- HTML rendering, `htmlspecialchars`, DOM events, debouncing, focus, modal construction
  and `alert` are left out. In the card script a save's answer (the endpoint's verdict, a
  network error counting as a failure) is a parameter of Stepper.Resolve. The caller
  chooses which pending save answers next, so answers may arrive in any order.
- The student list's card query (public/alumnos-vista.php:71-110) is not modelled: the
  cards' `data-grado` and `data-grupo` are given to `CardFilter` as they are. So the model
  does not show how its labels differ from the select options of
  `StudentList.DetectColumns`:
  - The card's group is `COALESCE(g.nombre, g.grupo, g.nombre_grupo)` over whichever of
    these columns exist, with no `grupo_nombre`.
  - The card's grade is `COALESCE(a.grado, g.grado, g.semestre)`, with no `nivel`.
  - The selects read one column, the first of the candidates that is present.
  - On a `grupos` table whose only name column is `grupo_nombre`, the group select offers
    values that no card carries, so picking one hides every card. A grade held in `nivel`
    does the same.
- The create page's localStorage demo fallback (public/aplicar-reporte.php:497-548) is left
  out: it writes only to the browser.
- The `error_log` session debugging and crear-usuario.php are left out. So is the
  connection file: includes/conexion.php is not part of this model.
- On the apply-report page's GET side, the student lookup and its fallback to the first
  student (public/aplicar-reporte.php:96-117, 180-183) are not modelled. `GrupoTexto`
  takes the student's group id and the group row as given.
- ReportListing.ListReports: does not model the 500 answers when the student or report
  statement fails to prepare (public/ver-reporte.php:169-175, 245-251).
- The `horas` column is an integer that is never NULL. The `(int)($r['horas'] ?? 0)`
  readings are therefore the stored value.
- Login.Inactive: treats `activo` as its text, so the integer 0 and the string "0" are the
  same value. A boolean false cannot come from the table and is not represented.

## Findings

| source | as written | input that shows it | evidently intended | confidence | as-written member | corrected member |
|---|---|---|---|---|---|---|
| public/alumno.php:92 | when no grade candidate has a value, the bare `grado` column is copied even when it is NULL; a NULL is not `''`, so the `a_grado` fallback is skipped and the page prints its Grado line | a student whose `grupo_id` matches no group (the LEFT JOIN gives `grado` NULL) and no `a_grado` | no Grado line when there is no grade | medium, not executed | StudentProfile.MissingGroupShowsEmptyGrado | StudentProfile.IntendedProfileOf |
| public/alumnos-vista.php:317-328 | Limpiar runs `filtrar`, which counts every child of the list that has a data set, and the "No hay alumnos." placeholder does | an empty student list, then a click on Limpiar: the counter reads "1 resultados" where it loaded with 0 | the counter counts cards only | medium, not executed | CardFilter.EmptyListCountsPlaceholder | CardFilter.ClearedCountsAllCards |
| public/ver-reporte.php:432-439 | the `.then` of a save ends the edit of whichever card is active when the answer arrives, not of the card that was saved | click card A, click it again (the save is sent), click card B, press ArrowUp on B, and the save answers ok: B leaves edit mode while its span shows one hour more than it stores; clicking B twice more then posts the stored count while the span still shows the raised one (HoursStepper.StaleCardPostsStoredCount) | end the edit only when the saved card is still the active one | medium, not executed | HoursStepper.StaleSpanAfterLateAnswer | HoursStepper.Stepper.ResolveIntended |
