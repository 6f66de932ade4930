/**
 * The persistent record shapes of the roster backend (the `turmas` and
 * `alunos` tables), the request and response payloads built on them, and the
 * in-memory store that stands in for the database.
 *
 * Dates are proleptic-Gregorian day ordinals (day 1 is 0001-01-01), so the
 * difference of two dates is a whole number of days.
 */
module Records {
  import opened Wrappers

  const Ativo: string := "ativo"
  const Inativo: string := "inativo"

  /** Default `status` of an `alunos` row written without one. */
  const StorageDefaultStatus: string := Inativo
  /** Default `status` of a create/update payload that omits it. */
  const PayloadDefaultStatus: string := Ativo

  /** A row of `turmas`: every turma has a name and a (non-null) capacity. */
  datatype Turma = Turma(id: int, nome: string, capacidade: int)

  /** A row of `alunos`: `email` and `turmaId` are nullable, the rest is required. */
  datatype Aluno = Aluno(
    id: int,
    nome: string,
    dataNascimento: int,
    email: Option<string>,
    status: string,
    turmaId: Option<int>)

  /**
   * The body of a create or update request as received: `status` and
   * `turma_id` may be omitted. It declares no `id` and no `email`.
   */
  datatype AlunoRequest = AlunoRequest(
    nome: string,
    dataNascimento: int,
    status: Option<string>,
    turmaId: Option<int>)

  /**
   * A validated create/update payload (`AlunoCreate`, `AlunoUpdate`):
   * exactly the four declared fields, defaults applied.
   */
  datatype AlunoIn = AlunoIn(
    nome: string,
    dataNascimento: int,
    status: string,
    turmaId: Option<int>)

  /** The response shape of a student: the payload fields plus `id`, no `email`. */
  datatype AlunoOut = AlunoOut(
    id: int,
    nome: string,
    dataNascimento: int,
    status: string,
    turmaId: Option<int>)

  /** The response shape of a turma: `id` and `nome`, no capacity. */
  datatype TurmaOut = TurmaOut(id: int, nome: string)

  /** Payload validation: an omitted `status` becomes "ativo", an omitted `turma_id` stays null. */
  function ParseAlunoIn(b: AlunoRequest): (p: AlunoIn)
    ensures p.nome == b.nome && p.dataNascimento == b.dataNascimento
    ensures b.status.None? ==> p.status == Ativo
    ensures b.status.Some? ==> p.status == b.status.value
    ensures p.turmaId == b.turmaId
  {
    AlunoIn(b.nome, b.dataNascimento, b.status.GetOr(PayloadDefaultStatus), b.turmaId)
  }

  /** Serialises a stored student through the `AlunoOut` response model. */
  function ToAlunoOut(a: Aluno): AlunoOut {
    AlunoOut(a.id, a.nome, a.dataNascimento, a.status, a.turmaId)
  }

  /** The response never reveals a student's email: rows differing only there serialise alike. */
  lemma AlunoOutHidesEmail(a: Aluno, email: Option<string>)
    ensures ToAlunoOut(a.(email := email)) == ToAlunoOut(a)
    ensures ToAlunoOut(a).id == a.id && ToAlunoOut(a).status == a.status && ToAlunoOut(a).turmaId == a.turmaId
  {
  }

  /** Serialises a stored turma through the `TurmaOut` response model. */
  function ToTurmaOut(t: Turma): TurmaOut {
    TurmaOut(t.id, t.nome)
  }

  /** The database: both tables, keyed by primary key. */
  datatype Store = Store(alunos: map<int, Aluno>, turmas: map<int, Turma>)

  /** Every row sits under its own primary key, and keys are positive. */
  ghost predicate KeysAreIds(s: Store) {
    && (forall id :: id in s.alunos ==> id > 0 && s.alunos[id].id == id)
    && (forall id :: id in s.turmas ==> id > 0 && s.turmas[id].id == id)
  }

  /** The `unique=True` constraint on `turmas.nome`. */
  ghost predicate TurmaNamesUnique(s: Store) {
    forall t1, t2 :: t1 in s.turmas && t2 in s.turmas && t1 != t2 ==>
      s.turmas[t1].nome != s.turmas[t2].nome
  }

  /** The `unique=True` constraint on `alunos.email`; any number of rows may have no email. */
  ghost predicate EmailsUnique(s: Store) {
    forall a1, a2 :: a1 in s.alunos && a2 in s.alunos && a1 != a2 && s.alunos[a1].email.Some? ==>
      s.alunos[a1].email != s.alunos[a2].email
  }

  /**
   * The key and uniqueness constraints the schema declares. The foreign key on
   * `turma_id` is not among them: the database is taken to run with SQLite's
   * defaults, which do not enforce foreign keys, so it is tracked separately
   * by `RefsResolve`.
   */
  ghost predicate Valid(s: Store) {
    KeysAreIds(s) && TurmaNamesUnique(s) && EmailsUnique(s)
  }

  /** The foreign key `alunos.turma_id -> turmas.id`: a non-null turma reference resolves. */
  ghost predicate RefsResolve(s: Store) {
    forall id :: id in s.alunos && s.alunos[id].turmaId.Some? ==> s.alunos[id].turmaId.value in s.turmas
  }

  /** The ids of the students whose `turma_id` is `turmaId`. */
  function Members(s: Store, turmaId: int): set<int> {
    set id | id in s.alunos && s.alunos[id].turmaId == Some(turmaId)
  }

  /** The number of students whose `turma_id` is `turmaId` (the backend's `ocupacao`). */
  function Occupancy(s: Store, turmaId: int): nat {
    |Members(s, turmaId)|
  }

  /** No turma holds more students than its capacity. */
  ghost predicate WithinCapacity(s: Store) {
    forall t :: t in s.turmas ==> Occupancy(s, t) <= s.turmas[t].capacidade
  }
}
