# Escala de substituições — a verified model

This project models the core of a school tool that finds substitute teachers.
A school records its teachers (`professores`), subjects (`disciplinas`), classes (`turmas`)
and teacher absences (`ausencias`). Each absence gets a substitution row (`substituicoes`),
which starts as `pendente`. For one week of one year, the assignment run (`POST /api/gerar-escala`)
looks at every absence. For each pending one it picks, among the other teachers of the absent
teacher's knowledge area whose workload would stay within 60 hours, one with the smallest
workload. It records that teacher on the substitution and adds the absence's duration to the
teacher's workload. When no teacher qualifies, it marks the substitution `sem_disponibilidade`.
The project also models the weekly view (`GET /api/escala-semanal`), the dashboard figures
(`GET /api/dashboard/stats`), the store behind both, and the record types with their defaults
and validation rules.

Modules:

- `Wrappers`: `Option` and `Result`.
- `Tables`: generic row operations on a table held as a sequence: `WHERE` filters, `find`, lookups
  through a JavaScript `Map` (the last row per key wins), deletions, and the primary-key invariant.
- `Sorting`: an insertion sort by an integer key, standing in for `Array.prototype.sort`.
- `Schema`: the five record types, their insert and partial-update shapes, column defaults, and the
  absence validator with its `HH:MM` time pattern.
- `Storage`: the class `Store`. Its five tables are sequence fields that its methods reassign.
  Its id counter stands in for `gen_random_uuid()`. `Pareadas` is the pairing invariant: every
  absence has exactly one substitution and every substitution belongs to an absence. `Coerentes`
  is the record invariant: a substitution names a substitute exactly when it is assigned.
- `Escala`: the assignment run. The pure function `Decidir` gives the decision for one absence
  from the snapshots the run reads at its start. `ProcessarAusencia` and `GerarEscala` are the
  imperative run against a `Store`. Both are proved equal to folding those decisions over the tables.
- `EscalaLemas`: what a run achieves, proved on the decisions. It covers final workloads, the
  60-hour limit, which substitutions change, the counters, and a second run doing nothing.
- `EscalaSemanal`: the weekly join, and how it relates to the lookups the run performs.
- `Dashboard`: the status counters, the five most-assigned teachers, and the per-week timeline.
  The loops are methods proved equal to fold functions, whose results are characterised by lemmas.

A behaviour of the source worth knowing, proved here rather than corrected:

- The run reads the teacher table once. It then writes each new workload as "snapshot workload
  plus duration". A teacher chosen for two absences in one run therefore ends with the snapshot
  workload plus the duration of the LAST of those absences only (`CargaFinalSomaSoAUltimaAusencia`).
  The 60-hour limit is still never exceeded (`CargaFinalDentroDoLimite`).
- The weekly view looks substitutions up through a `Map` keyed by absence, so it shows the LAST
  substitution of an absence. The run uses `find`, which takes the FIRST one. The two agree while
  the store keeps its pairing invariant (`VisaoConcordaComArmazem`) and can differ otherwise
  (`DuasSubstituicoesDivergem`).
- The timeline groups absences by week number alone, so equal week numbers of different years
  are counted together.

## Model

| member | source | states |
|---|---|---|
| Schema.NewProfessor | shared/schema.ts:7-17 | a new teacher keeps the given name and area, gets the given id and starts with workload 0 |
| Schema.PatchProfessor | server/storage.ts:76-83 | a partial update replaces exactly the fields it carries; id and workload are never changed by it |
| Schema.PatchDisciplina | server/storage.ts:109-116 | a partial update of a subject replaces exactly the fields it carries and keeps the id |
| Schema.PatchTurma | server/storage.ts:138-145 | a partial update of a class replaces the name when given and keeps the id |
| Schema.NewAusencia | shared/schema.ts:50-63 | a new absence carries exactly the inserted fields plus the given id |
| Schema.ValidateAusencia | shared/schema.ts:62-70 | the absence is accepted exactly when every constrained field is valid; a rejection lists exactly the invalid fields and is never empty |
| Schema.FormattedHorarioIsValid | shared/schema.ts:66 | every hour 0-23 and minute 0-59, written with or without a leading zero on the hour, matches the time pattern |
| Schema.ValidHorarioIsFormatted | shared/schema.ts:66 | every text matching the time pattern is such a time: its hour is in 0-23, its minute in 0-59, and it is their rendering |
| Schema.HorarioExamples | shared/schema.ts:66 | "7:05", "07:05", "23:59", "0:00" match; "24:00", "7:60", "12:5", "123:00" do not |
| Schema.NewSubstituicao | shared/schema.ts:76-86 | a new substitution keeps the given fields; a missing status defaults to pending |
| Schema.PatchSubstituicao | server/storage.ts:212-219 | a partial update of a substitution replaces exactly the fields it carries and keeps the id |
| Storage.SetCargaHoraria | server/storage.ts:90-92 | every row with the id gets the new workload, all its other fields and every other row are unchanged |
| Storage.PatchProfessores | server/storage.ts:76-83 | the rows with the id are patched, every other row is unchanged, the table keeps its length |
| Storage.PatchDisciplinas | server/storage.ts:109-116 | the rows with the id are patched, every other row is unchanged |
| Storage.PatchTurmas | server/storage.ts:138-145 | the rows with the id are patched, every other row is unchanged |
| Storage.PatchSubstituicoes | server/storage.ts:212-219 | the rows with the id are patched, every other row is unchanged |
| Storage.CreatePreservesPareadas | server/storage.ts:169-181 | adding an absence with a new id together with its substitution keeps every absence paired with exactly one substitution |
| Storage.DeletePreservesPareadas | server/storage.ts:183-187 | deleting an absence together with its substitutions keeps the pairing |
| Storage.DeleteAusenciaKeeps | server/storage.ts:183-187 | deleting an absence keeps both primary keys distinct and below the counter, finds the absence exactly when it exists, and keeps the pairing |
| Storage.PatchPreservesPareadas | server/storage.ts:212-219 | an update that does not move a substitution to another absence keeps the pairing |
| Storage.Store.constructor | server/storage.ts:227 | stands for a fresh, empty database: the store starts with five empty tables, which are trivially paired |
| Storage.Store.GetProfessor | server/storage.ts:66-69 | returns a teacher with that id from the table, and nothing exactly when no row has it |
| Storage.Store.CreateProfessor | server/storage.ts:71-74 | appends a teacher with a fresh id and workload 0; the other tables are unchanged |
| Storage.Store.UpdateProfessor | server/storage.ts:76-83 | patches the rows with the id and returns the first of them, or nothing exactly when the id is absent |
| Storage.Store.DeleteProfessor | server/storage.ts:85-88 | removes every row with the id and reports whether one existed |
| Storage.Store.UpdateCargaHoraria | server/storage.ts:90-92 | writes the new workload into the rows with the id |
| Storage.Store.GetDisciplina | server/storage.ts:99-102 | returns a subject with that id, nothing exactly when none exists |
| Storage.Store.CreateDisciplina | server/storage.ts:104-107 | appends a subject with a fresh id; the other tables are unchanged |
| Storage.Store.UpdateDisciplina | server/storage.ts:109-116 | patches the rows with the id and returns the first of them, nothing exactly when absent |
| Storage.Store.DeleteDisciplina | server/storage.ts:118-121 | removes every row with the id and reports whether one existed |
| Storage.Store.GetTurma | server/storage.ts:128-131 | returns a class with that id, nothing exactly when none exists |
| Storage.Store.CreateTurma | server/storage.ts:133-136 | appends a class with a fresh id; the other tables are unchanged |
| Storage.Store.UpdateTurma | server/storage.ts:138-145 | patches the rows with the id and returns the first of them, nothing exactly when absent |
| Storage.Store.DeleteTurma | server/storage.ts:147-150 | removes every row with the id and reports whether one existed |
| Storage.Store.GetAusenciasBySemana | server/storage.ts:157-162 | returns exactly the absences of that week and year |
| Storage.Store.GetAusencia | server/storage.ts:164-167 | returns an absence with that id, nothing exactly when none exists |
| Storage.Store.CreateAusencia | server/storage.ts:169-181 | appends the absence with a fresh id and a pending substitution for it with another fresh id, with no substitute and no message; keeps the pairing and the coherence of the substitutions |
| Storage.Store.DeleteAusencia | server/storage.ts:183-187 | removes the absence's substitutions and the absence, reports whether it existed, and keeps the pairing and the coherence of the substitutions |
| Storage.Store.GetSubstituicao | server/storage.ts:194-197 | returns a substitution with that id, nothing exactly when none exists |
| Storage.Store.GetSubstituicaoBySemana | server/storage.ts:199-205 | returns exactly the substitutions of the absences of that week; none when the week has no absence |
| Storage.Store.CreateSubstituicao | server/storage.ts:207-210 | appends the substitution with a fresh id, pending by default; the other tables are unchanged |
| Storage.Store.UpdateSubstituicao | server/storage.ts:212-219 | patches the rows with the id, returns the first of them or nothing exactly when absent, and keeps the pairing when the absence is not changed |
| Storage.Store.DeleteSubstituicao | server/storage.ts:221-224 | removes every row with the id and reports whether one existed |
| Sorting.SortBy | server/routes.ts:242 | the result is ordered by the key and is a permutation of the input |
| Sorting.TakeFirst | server/routes.ts:288-290 | a prefix of a sorted sequence is sorted, is part of it, and every element left out has a key at least that of every element kept |
| Sorting.DropFirst | server/routes.ts:299-306 | a suffix of a sorted sequence is sorted, is part of it, and every element left out has a key at most that of every element kept |
| Escala.Candidatos | server/routes.ts:223-230 | a teacher is a candidate exactly when it is in the table, is not the absent teacher, shares the absent teacher's area and stays within 60 hours with the absence added |
| Escala.MenorCarga | server/routes.ts:242-243 | the chosen candidate is one of the candidates and no candidate has a smaller workload |
| Escala.Decidir | server/routes.ts:207-259 | an absence is skipped exactly when it has no pending substitution or no absent teacher; it fails exactly when no teacher is eligible; otherwise the substitute is eligible, has minimum workload, and its new workload is its snapshot workload plus the duration, at most 60 |
| Escala.ProcessarAusencia | server/routes.ts:207-259 | one loop iteration performs the decision's writes to the substitution and the teacher tables, touches nothing else, and keeps the pairing |
| Escala.GerarEscala | server/routes.ts:193-263 | refuses a missing or zero week or year and changes nothing; otherwise returns the counts of assigned and failed absences and leaves the tables as the fold of the decisions over the week's absences |
| EscalaLemas.CargasFinais | server/routes.ts:253-256 | after a run every teacher's workload is the value written by the last decision that chose that teacher, or the old one if none did |
| EscalaLemas.DecisoesNoLimite | server/routes.ts:229-230 | every assignment of a run goes to a teacher of the snapshot and writes snapshot workload plus duration, at most 60 |
| EscalaLemas.CargaFinalSomaSoAUltimaAusencia | server/routes.ts:200-201 | a teacher chosen in a run ends with its snapshot workload plus the duration of the last absence it was chosen for only |
| EscalaLemas.CargaFinalDentroDoLimite | server/routes.ts:229-230 | if every workload was at most 60 before a run, every workload is at most 60 after it |
| EscalaLemas.SubstituicoesFinais | server/routes.ts:233-250 | after a run each substitution keeps its id and absence, and records the last decision about it, or is unchanged if none |
| EscalaLemas.DecisaoResolvePendente | server/routes.ts:208-213 | a decision that writes always writes to a substitution that was pending |
| EscalaLemas.SoPendentesSaoAlteradas | server/routes.ts:211-213 | a run leaves every substitution that was not pending unchanged |
| EscalaLemas.PendentesSaoResolvidas | server/routes.ts:233-250 | after a run the substitution found for every processed absence is assigned or has no availability |
| EscalaLemas.DecisoesEscrevemUmaVez | server/routes.ts:207-213 | with distinct absence and substitution ids, no two decisions of a run write to the same substitution |
| EscalaLemas.EscritasMantemCoerencia | server/routes.ts:233-250 | decisions that each write once to a substitution pending at the start keep every substitution coherent: an assigned row names its substitute, an unavailable row names none |
| EscalaLemas.ExecucaoMantemCoerencia | server/routes.ts:200-259 | a run over the week's absences keeps the substitutions coherent whenever the store's ids are distinct |
| EscalaLemas.DecisaoSeguinteIgnorada | server/routes.ts:208-213 | an absence decided in a run is skipped when decided again on the resulting tables |
| EscalaLemas.SegundaExecucaoNadaFaz | server/routes.ts:204-262 | a second run on the tables a run produced skips every absence and reports zero assigned and zero failed |
| EscalaLemas.ContadoresContamProcessaveis | server/routes.ts:204-205 | assigned plus failed equals the number of absences of the week that have a pending substitution and an existing teacher |
| EscalaLemas.EscolheMenorCarga | server/routes.ts:223-256 | with two eligible teachers at 10 and 30 hours and a 2-hour absence, the run picks the first, writes 12 hours and marks the substitution assigned with the standard message |
| EscalaLemas.SemCandidatoNaoAlteraCargas | server/routes.ts:233-239 | when every teacher would exceed 60 hours, the substitution is marked without availability and no workload changes |
| EscalaSemanal.ProfessorNoMapa | server/routes.ts:165 | the Map lookup finds a teacher with that id, and nothing exactly when none exists |
| EscalaSemanal.DisciplinaNoMapa | server/routes.ts:166 | the Map lookup finds a subject with that id, and nothing exactly when none exists |
| EscalaSemanal.TurmaNoMapa | server/routes.ts:167 | the Map lookup finds a class with that id, and nothing exactly when none exists |
| EscalaSemanal.SubstituicaoNoMapa | server/routes.ts:168 | the Map lookup finds the last substitution of the absence, and nothing exactly when none exists |
| EscalaSemanal.Completa | server/routes.ts:176-181 | the substitute is attached exactly when the substitution names one that exists |
| EscalaSemanal.Completar | server/routes.ts:170-183 | each reference of the absence is resolved exactly when the referenced row exists; the attached substitution is the last one of the absence, completed with its substitute when that teacher exists |
| EscalaSemanal.EscalaDaSemana | server/routes.ts:151-190 | refuses a missing or zero week or year; otherwise lists, in order, each absence of that week and year completed |
| EscalaSemanal.ProfessorNoMapaEhProfessorCom | server/routes.ts:165 | with distinct ids, the Map lookup and `find` give the same teacher |
| EscalaSemanal.SubstituicaoNoMapaEhSubstituicaoDa | server/routes.ts:168 | with at most one substitution per absence, the Map lookup and `find` give the same substitution |
| EscalaSemanal.VisaoConcordaComArmazem | server/routes.ts:170-183 | when the store keeps its invariants, every absence of the view has a substitution, the same one the run acts on, and the same absent teacher |
| EscalaSemanal.DuasSubstituicoesDivergem | server/routes.ts:168 | with two substitutions for one absence, the view shows the later one and the run uses the earlier one |
| Dashboard.StatusParticionam | server/routes.ts:271-274 | the assigned, unavailable and pending counts add up to the total |
| Dashboard.ContagemCorreta | server/routes.ts:277-286 | the count has one entry per existing teacher assigned at least once, with its name and its number of assigned substitutions |
| Dashboard.ContarEscalados | server/routes.ts:277-286 | the counting loop computes that count |
| Dashboard.MaisEscalados | server/routes.ts:288-290 | at most five entries, by non-increasing total, drawn from the count, and none left out has a larger total than one kept |
| Dashboard.MaisEscaladosContamAtribuidas | server/routes.ts:277-290 | each listed teacher exists, carries its name, and its total is its positive number of assigned substitutions; no teacher is listed twice |
| Dashboard.PorSemanaCorreta | server/routes.ts:293-297 | the per-week count has one point per week number that has absences, with the number of absences of that week |
| Dashboard.ContarPorSemana | server/routes.ts:293-297 | the grouping loop computes that count |
| Dashboard.Timeline | server/routes.ts:299-306 | at most eight points, by ascending week, drawn from the count, and none left out is later than one kept |
| Dashboard.TimelineContaAusencias | server/routes.ts:293-306 | each point of the timeline carries the positive number of absences of its week |
| Dashboard.GerarEstatisticas | server/routes.ts:266-316 | the handler's response: the status counts and their sum, the top five teachers and the timeline |

## Left out

- The `getAll*` reads of each table are the tables themselves (the fields of `Store`) and have no member of their own.
- HTTP routing, request parsing, JSON responses, status codes, `async`/`await` and concurrent requests are not modelled. Each handler runs alone against the store.
- The database is an in-memory store. Text ids from `gen_random_uuid()` are natural numbers from a counter. `returning()` yields the first matching row.
- The status column is free text. The model has the three values the code writes (`pendente`, `atribuida`, `sem_disponibilidade`).
- Numeric columns are integers. Non-integer numbers that the validation would accept are not modelled.
- Query parameters are given already parsed: a missing or non-numeric value is `None`, and `0` is refused like a missing value.
- The run's `semana` and `ano` come from the JSON body and are taken as integers or absent. In the source, a truthy non-integer body value such as `"abc"`, `1.5` or `true` passes the presence check and then fails inside the query, while the string `"5"` works as week 5; the model covers neither case.
- Row order: the tables keep insertion order, and an update keeps the row in place. The database returns rows of an unordered query in no guaranteed order, so the model's order is one admissible order. Three things depend on it: the order in which the run processes the week's absences (who gets a scarce teacher), which absence is "the last" in `CargaFinalSomaSoAUltimaAusencia`, and which of several candidates with equal workload the stable sort places first. Statements about the first or last row, or about processing order, hold for the order the model fixes, not for every order the database might return.
- Rows referenced with `!` in the weekly view but not present are an empty `Option`, not `undefined`.
- The timeline labels its points "Sem N". The model keys them by the number N, which is what the sort parses back.
- Store operations always succeed in the model. In the source the database can refuse a write, and the model does not capture these cases:
  - an update whose patch carries no field is refused by the query builder and answered with status 400;
  - a year beyond the 32-bit `integer` column passes the validator, which has no upper bound, and the insert then fails;
  - creating an absence and deleting one each make two separate writes, and a failure between them would leave an absence without its substitution, or its substitutions deleted while it stays.
- Storage.Store.UpdateProfessor: with an empty patch, returns the unchanged row where the source answers with an error.
- Storage.Store.UpdateDisciplina: with an empty patch, returns the unchanged row where the source answers with an error.
- Storage.Store.UpdateTurma: with an empty patch, returns the unchanged row where the source answers with an error.
- Storage.Store.UpdateSubstituicao: with an empty patch, returns the unchanged row where the source answers with an error.
- Storage.Store.CreateAusencia: stores any year the validator accepts, including one the 32-bit column cannot hold; its pairing guarantee relies on both of its writes succeeding.
- Storage.Store.DeleteAusencia: its pairing guarantee relies on both of its deletes succeeding.
- A substitution created or updated directly can break the coherence invariant, since the source accepts any status with any substitute there; coherence is proved only for absence creation and deletion and for the assignment run.
- Teachers, subjects and classes are deleted without touching the absences that refer to them, as in the source. Creating or deleting a substitution directly can break the pairing; the model states no pairing guarantee for those two operations.
- The client pages, the sidebar and the metric cards are not modelled.
- Escala.MenorCarga: states a candidate of minimum workload, not which one among equal workloads. The stable sort would pick the first in the order the rows were read.
- Dashboard.MaisEscalados: states the order by total and which entries are kept, not the order among equal totals, which the stable sort takes from first appearance.
- Dashboard.Timeline: states the order by week and which points are kept; equal weeks do not occur in it.
