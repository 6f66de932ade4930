# Escola roster — a Dafny model

This project models the core of a small school-roster application. The backend is a FastAPI/SQLAlchemy service that keeps two tables:

- `turmas`: classes, each with a name and a capacity;
- `alunos`: students, each with a name, a birth date, an optional e-mail, a status and an optional class.

The modelled core covers:

- the store operations: listing with filters, creating, updating, deleting and enrolling (`matricular`);
- the endpoint checks in front of them: the minimum-age rule and the required enrolment ids;
- the record shapes;
- the seed routine, which fills the database with three classes and twenty students;
- the frontend's pure helpers:
  - the query-string builder and the HTML escaper;
  - the list ordering and the indicator counts;
  - the CSV export;
  - the validation and request choice of the student form.

## How the model is built

- **Store.** The database is an immutable `Store`: two maps keyed by row id. The store operations and endpoints are pure functions. The listings return their answer. The writes return the new store, with the response where there is one, wrapped in a `Result` when the write can fail. The seed is a method that builds a `Store` of the same shape.
- **Errors.** A failure is a value: `Err(NotFound(..))`, `Err(Full)` or `Err(BadRequest(..))`. These carry the HTTP status and detail that the backend raises.
- **Table constraints.** `Records.Valid` collects the table constraints:
  - every row sits under its own primary key, and that key is positive;
  - unique class names;
  - unique e-mails.

  The tables declare only `primary_key=True` (backend/models.py:9,19). Positive keys are an assumption about how the database assigns ids. The database set-up is not part of this model; it is taken to be SQLite with its defaults, which number rows from 1 and do not enforce foreign keys.

  `Valid` leaves out the foreign key `alunos.turma_id -> turmas.id` (backend/models.py:24), which SQLite's defaults do not enforce. `RefsResolve` states it separately: every student's class exists. `WithinCapacity` states that no class holds more students than its capacity.
- **Dates.** Dates are day numbers (proleptic Gregorian ordinals, as Python's `date.toordinal`). `Seed.ToOrdinal` computes them.
- **Things the code cannot see become parameters:**
  - the current date (`today`);
  - the id the database assigns (`newId`);
  - the random draws of the seed (`picks`);
  - the browser's `encodeURIComponent` (`encode`) and its `toLocaleDateString` (`formatDate`).
- **Python truthiness.** A filter or id that is `None`, `""` or `0` counts as absent. This matches the source's `if search:` and `if not aluno_id`.

| file | module | what |
|---|---|---|
| wrappers.dfy | Wrappers | `Option`, `Result` |
| text.dfy | Text | lower-casing, substring search, trimming, decimal digits, join/split |
| records.dfy | Records | rows, request and response shapes, the store and its invariants |
| crud.dfy | Crud | the store operations |
| api.dfy | Api | the endpoint layer |
| seed.dfy | Seed | calendar, `random_date`, `run_seed` |
| js_utils.dfy | JsUtils | `qs`, `escapeHtml` |
| render.dfy | Render | list ordering, indicator counts |
| export.dfy | Export | `exportCSV` |
| save_form.dfy | SaveForm | `saveAluno`'s validation and request |

## Model

| member | source | states |
|---|---|---|
| Text.Contains | backend/crud.py:10 | True exactly when the pattern occurs at some position of the text. |
| Text.Trim | frontend/js/main.js:153-157 | The result is a slice of the input. Only whitespace lies outside it. A non-empty result has no whitespace at either end. The result is empty iff the input is all whitespace. |
| Records.ParseAlunoIn | backend/schemas.py:7-11 | Omitted `status` becomes "ativo" and omitted `turma_id` stays absent. Every given field is copied. |
| Records.AlunoOutHidesEmail | backend/schemas.py:22-26 | The student response carries id, status and class, and never the e-mail: two rows differing only in e-mail serialise alike. |
| Crud.GetAlunos | backend/crud.py:7-15 | A student is listed iff it is stored and passes every applied filter. The filters are: case-insensitive name substring, class equality and status equality. A filter applies only when truthy. Listed rows are the stored rows. |
| Crud.GetAlunosComposes | backend/crud.py:9-14 | The result with all three filters equals the intersection of the results with each filter alone. |
| Crud.GetAlunosIgnoresFalsyFilters | backend/crud.py:9-14 | Absent, empty or zero filters return the whole table. |
| Crud.GetTurmas | backend/api.py:45-47 | Every class is listed with its id and name. The `TurmaOut` response model drops the capacity that `get_turmas` (backend/crud.py:18-19) returns. |
| Crud.GetTurmasIgnoresCapacity | backend/schemas.py:30-42 | The class listing carries no capacity: changing a class's capacity leaves the listing unchanged. |
| Crud.CreateAluno | backend/crud.py:30-41 | Adds exactly one row under the fresh id, copying the four payload fields. Every other row and every class is unchanged. |
| Crud.CreateDefaultsToAtivo | backend/schemas.py:10 | A request without status stores "ativo". The table's own default, "inativo", is never reached through this path. |
| Crud.CreatePreservesValid | backend/models.py:6-24 | Creating keeps primary keys positive, class names unique and e-mails unique. |
| Crud.CreateRefsResolve | backend/models.py:24 | After a create, class references resolve iff the payload's class is absent or exists. |
| Crud.UpdateAluno | backend/crud.py:44-52 | Not found iff the id is absent; the error is 404 "Aluno não encontrado". On success the four payload fields overwrite the row. Id and e-mail are kept. No other row or class changes. |
| Crud.UpdatePreservesValid | backend/models.py:22 | An update keeps the table constraints, e-mail uniqueness included, because it never writes the e-mail. |
| Crud.DeleteAluno | backend/crud.py:55-61 | Not found iff the id is absent. Otherwise exactly that row is removed and everything else is unchanged. |
| Crud.DeleteTwiceNotFound | backend/crud.py:56-58 | Deleting the same id twice gives 404 the second time. |
| Crud.DeletePreservesInvariants | backend/crud.py:59 | Deleting keeps the table constraints, resolvable references and class capacities. |
| Crud.Matricular | backend/crud.py:64-81 | Checks run in order: missing student (404 "Aluno não encontrado"), then missing class (404 "Turma não encontrada"), then Full iff occupancy ≥ capacity (400 "Turma cheia"). The request succeeds iff the student and class exist and the class has room. On success the student gets the class and status "ativo", and nothing else changes. |
| Crud.MembersAfterMove | backend/crud.py:73 | Moving one student into a class adds it to that class's member set and removes it from every other class's set. |
| Crud.MatricularPreservesCapacity | backend/crud.py:72-78 | A successful enrolment keeps every class within its capacity. |
| Crud.MatricularPreservesValid | backend/crud.py:77-78 | Enrolment keeps the table constraints and resolvable references. |
| Crud.MatricularCountsSelf | backend/crud.py:73-75 | A student already in a full class is refused re-enrolment there, because it counts itself. |
| Crud.UpdateMayExceedCapacity | backend/crud.py:48-49 | Some valid store, within capacity, has an update that puts a class over capacity: update skips the capacity check. |
| Api.TooYoungThreshold | backend/api.py:28-29 | `days / 365.25 < 5` holds exactly for `days <= 1826`. |
| Api.ListAlunos | backend/api.py:19-21 | The endpoint lists exactly the rows the store query selects, each as a student response. |
| Api.PostAluno | backend/api.py:24-31 | Rejected with 400 "Aluno deve ter pelo menos 5 anos" iff the birth date is at most 1826 days before today. Otherwise the store becomes exactly the store `Crud.CreateAluno` produces, and the response is the new row under the fresh id. |
| Api.FutureBirthRejected | backend/api.py:28-30 | A birth date after today is always rejected. |
| Api.PutAluno | backend/api.py:34-36 | 404 "Aluno não encontrado" iff the id is absent. Otherwise the store becomes exactly the store `Crud.UpdateAluno` produces, and the response echoes the payload under the stored id. |
| Api.PutSkipsAgeRule | backend/api.py:34-36 | A birth date that creation rejects is accepted by update. |
| Api.DelAluno | backend/api.py:39-42 | 404 iff the id is absent. Otherwise `{"ok": true}`, and the store becomes exactly the store `Crud.DeleteAluno` produces: that row is gone and nothing else changes. |
| Api.Matricula | backend/api.py:55-61 | 400 "aluno_id e turma_id obrigatórios" iff either id is missing or zero. Otherwise the result is enrolment's result. Enrolment's error is passed through unchanged. On success, the store is enrolment's store and the response is the enrolled row without its e-mail. |
| Api.MatriculaRejectsZero | backend/api.py:58-60 | A zero or missing student id is rejected before any lookup. |
| Seed.YearLength | backend/seed.py:8-9 | Consecutive year starts differ by 366 days in leap years and 365 otherwise. |
| Seed.RandomDate | backend/seed.py:7-10 | Defined iff `1 <= start_year <= end_year <= 9999`, with the result between 1 January of the start year and 31 December of the end year. |
| Seed.RangeNonEmptyIff | backend/seed.py:8-10 | The ordinal range is non-empty iff the start year is not after the end year. |
| Seed.RandomDateCoversRange | backend/seed.py:10 | Every day of the range is drawn by some pick. |
| Seed.SeedDateBounds | backend/seed.py:7-10 | Seeded birth dates lie between 2005-01-01 (731947) and 2019-12-31 (737424). |
| Seed.TaggedInjective | backend/seed.py:43 | `name.i@domain` determines both the dot-free name and the index. |
| Seed.SeedEmailsDistinct | backend/seed.py:33-43 | The twenty seeded e-mails are pairwise distinct. |
| Seed.OccupancyGrows | backend/seed.py:48 | Adding a student never lowers any class's occupancy. |
| Seed.SeedRowFields | backend/seed.py:40-52 | Each seeded row:<br>• has name "<nome> Silva", e-mail "<nome>.<i>@escola.test" and the date `random_date` draws from its pick;<br>• is "ativo" with the drawn class iff that class had room;<br>• is otherwise "inativo" with no class. |
| Seed.AddRowCapacity | backend/seed.py:48-51 | Adding a row whose class had room keeps every class within capacity. |
| Seed.AddRowFirstCome | backend/seed.py:46-52 | Adding the next student keeps placement first come, first served for every student seeded so far, given the new one joined its drawn class only while that class had room. |
| Seed.AllSeededEmailsUnique | backend/models.py:22 | A store holding only seeded rows satisfies e-mail uniqueness. |
| Seed.RunSeed | backend/seed.py:13-56 | After seeding:<br>• exactly the three classes and twenty students (ids 1..20) exist, each row as above;<br>• each birth date is the one `random_date` draws from that student's pick;<br>• placement is first come, first served: a student has a class iff the students seeded before it left its drawn class room;<br>• every student without a class drew a class that was full;<br>• the store is valid, its references resolve and no class exceeds its capacity;<br>• none of this depends on the previous contents. |
| JsUtils.Kept | frontend/js/main.js:18 | An entry is kept iff its value is not exactly "". |
| JsUtils.KeptAppend | frontend/js/main.js:17-18 | Filtering keeps the `Object.entries` order of entries, which is insertion order for the non-numeric keys `getFilters` builds. |
| JsUtils.Qs | frontend/js/main.js:14-22 | The result starts with "?". With every value empty it is exactly "?". |
| JsUtils.QsSplits | frontend/js/main.js:19-20 | If encoding never emits "&", the text after "?" splits on "&" into exactly the kept `key=value` pieces, in order. |
| JsUtils.EscapeHtml | frontend/js/main.js:24-32 | The output:<br>• has no `<`, `>`, `"` or `'`;<br>• has every `&` starting one of the five entities;<br>• equals the input when the input has no special character;<br>• is never shorter than the input. |
| JsUtils.EscapeHtmlAppend | frontend/js/main.js:25 | Escaping distributes over concatenation, character by character. |
| JsUtils.UnescapeEscapeHtml | frontend/js/main.js:24-32 | Decoding the five entities recovers the original text: escaping is injective. |
| Render.NameLeTotal | frontend/js/main.js:105 | Any two names are comparable. |
| Render.SortLeTransitive | frontend/js/main.js:102-106 | The comparison in either sort mode is transitive. |
| Render.SortedView | frontend/js/main.js:102-106 | The view is ordered by birth date in mode "idade" and by name otherwise. It is a permutation of the list. |
| Render.CountAtivos | frontend/js/main.js:138 | Counts exactly the students whose status is "ativo". The rest make up the remainder. |
| Render.RenderIndicadores | frontend/js/main.js:135-146 | total is the list length, ativos the number with status "ativo", and inativos every other student, so `ativos + inativos == total`. |
| Export.CsvFields | frontend/js/main.js:244-250 | Five cells: name, formatted date, e-mail or "", status, class or "". |
| Export.CsvRows | frontend/js/main.js:243-251 | The header row, then one row per student in list order. |
| Export.HeaderLine | frontend/js/main.js:243 | The header line splits back into the five column names and holds no line break. |
| Export.ExportCsvLines | frontend/js/main.js:251 | If no cell holds a line break, the file splits into the header line plus one line per student, in order. |
| Export.CsvRowColumns | frontend/js/main.js:244-251 | If no cell holds ";", each line splits back into exactly its five cells. |
| Export.SemicolonInNameShiftsColumns | frontend/js/main.js:251 | A ";" inside a name yields six cells. The date lands in the third column. |
| SaveForm.SaveAluno | frontend/js/main.js:151-187 | Refused with "Preencha todos os campos obrigatórios" iff the trimmed name, the date or the status is empty. Otherwise the form sends:<br>• PUT to `/alunos/<id>` when an id is present;<br>• POST to `/alunos` when it is not.<br>The body carries the trimmed name, e-mail and class. |
| SaveForm.SaveIgnoresSurroundingSpace | frontend/js/main.js:153-157 | Pre-trimming the name, e-mail or class changes nothing. |
| SaveForm.SaveBranchesOnIdOnly | frontend/js/main.js:167-181 | The same form goes to POST without an id and to PUT with one, with the same body. |

## Left out

- backend/main.py (application setup, CORS, static files) is not part of this model. backend/database.py (engine and session set-up), the session lifecycle (`get_db`, `commit`, `refresh`, `close`) and SQL itself are not modelled.
- Crud.CreateAluno: the id the database assigns is a parameter. All that is known about it is that it is fresh and positive.
- Crud.CreateAluno: a `turma_id` naming no class is stored without failing. The database is assumed to run with SQLite's defaults, under which the foreign key of backend/models.py:24 is not enforced; with it enforced, such a create would fail with an integrity error (a 500), an error path the model does not have. `RefsResolve` tracks dangling references separately (see Crud.CreateRefsResolve).
- Crud.UpdateAluno: likewise, an update to a `turma_id` naming no class is stored without failing, under the same assumption about foreign keys.
- SQLite's defaults are also what the model assumes for row ids: numbered from 1, and reused after the seed's delete.
- Crud.CreateAluno: backend/crud.py:34 reads `aluno.email`, but `AlunoCreate` (backend/schemas.py:7-15) declares no such field. On a pydantic model that read raises `AttributeError`. As written, every `POST /alunos` that passes the age check therefore ends in a server error, and no row is added. The model follows the evident intent instead: the row is created, with no e-mail. The same applies to Api.PostAluno.
- `create_turma` / `POST /turmas` is not modelled: `crud.create_turma` reads `turma.capacidade`, which `TurmaCreate` does not declare.
- `GET /turmas` has no member of its own in `Api`. `get_turmas` (backend/crud.py:18-19) returns full rows, capacity included, and the endpoint's `TurmaOut` response model (backend/api.py:45-47) drops the capacity; `Crud.GetTurmas` models the two steps together.
- `MatriculaIn` and `AlunoUpdate` are declared but no endpoint uses them. `POST /matriculas` reads an untyped dict; the model takes its two entries as optional integers, so strings or booleans in the payload are not modelled.
- Text.Contains: the SQL `ilike` is modelled as a literal substring test after ASCII lower-casing. `%`/`_` wildcards in the search term and non-ASCII case folding are not modelled.
- Api.TooYoungThreshold: the age is computed with exact rational division instead of floating point. The two agree at the threshold (1826/365.25 < 5 < 1827/365.25).
- Api.PostAluno: `date.today()` is the parameter `today`.
- Seed.RunSeed:
  - the random draws are the parameter `picks`: `randint` is `start + pick % (end - start + 1)` and `random.choice` is `turmas[pick % 3]`;
  - the class ids 1..3 and student ids 1..20 assume the tables restart numbering after the delete;
  - the occupancy count assumes the session autoflushes the students added earlier in the same loop.
- Render.SortedView: `localeCompare` is modelled as code-point order on names.
- Render.SortedView: birth dates are day numbers rather than `Date` objects.
- Render.SortedView: does not state the stability of `Array.prototype.sort`; the order among equal keys is left open.
- Text.Trim: only ASCII whitespace is trimmed, not every Unicode space `String.prototype.trim` removes.
- `encodeURIComponent` and `toLocaleDateString` are parameters, not modelled.
- The DOM work, `fetch` and the network, toasts, modal handling, `debounceFn`, `localStorage`, the event wiring, `fetchAlunos`, `fetchTurmas`, `getFilters`, `openModal`, `deleteAluno` (a confirm dialog plus a request) and `exportJSON` are not modelled.
- The frontend sends `nome`/`turma` where the backend expects `search`/`turma_id`, and it sends a class name where the backend expects an id. The model keeps both sides as written and does not relate them.
- The frontend code keeps no local store, id counter or offline fallback; every list comes from the backend.
- The CSV export has five columns (frontend/js/main.js:243); there is no age column.
- The student form checks only for an empty name, date or status (frontend/js/main.js:159). It makes no client-side age, e-mail or name-length check.
