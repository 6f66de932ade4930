/**
 * The HTTP endpoints of the roster backend: what each validates before it
 * reaches the data layer, and the response shape it returns. The current
 * date is a parameter (`today`, a day ordinal) instead of a clock read.
 */
module Api {
  import opened Wrappers
  import opened Records
  import opened Crud

  const IdadeMinima: string := "Aluno deve ter pelo menos 5 anos"
  const CamposObrigatorios: string := "aluno_id e turma_id obrigatórios"

  /** The confirmation body `{"ok": true}` of a delete. */
  datatype Confirmation = Confirmation(ok: bool)

  /** The body of `POST /matriculas`; a key that is absent or null reads as `None`. */
  datatype MatriculaPayload = MatriculaPayload(alunoId: Option<int>, turmaId: Option<int>)

  /** The create-time age rule as the source computes it: age in years is days / 365.25. */
  predicate TooYoung(days: int) {
    (days as real) / 365.25 < 5.0
  }

  /** The age rule on whole days: under five years means at most 1826 days old. */
  lemma TooYoungThreshold(days: int)
    ensures TooYoung(days) <==> days <= 1826
    ensures TooYoung(days) <==> 4 * days < 7305
  {
  }

  /** `GET /alunos`: the filters reach the data layer unchanged; rows are serialised without email. */
  function ListAlunos(s: Store, search: Option<string>, turmaId: Option<int>, status: Option<string>)
    : (r: map<int, AlunoOut>)
    ensures r.Keys == GetAlunos(s, search, turmaId, status).Keys
    ensures forall id :: id in r ==> id in s.alunos && r[id] == ToAlunoOut(s.alunos[id])
  {
    var rows := GetAlunos(s, search, turmaId, status);
    map id | id in rows :: ToAlunoOut(rows[id])
  }

  /** `POST /alunos`: rejects a student younger than five years, otherwise creates it. */
  function PostAluno(s: Store, p: AlunoIn, today: int, newId: int): (r: Result<(Store, AlunoOut), Failure>)
    requires newId > 0 && newId !in s.alunos
    ensures r.Err? <==> today - p.dataNascimento <= 1826
    ensures r.Err? ==> r.error == BadRequest(IdadeMinima) && r.error.StatusCode() == 400
    ensures r.Ok? ==>
      && r.value.0 == CreateAluno(s, p, newId).0
      && r.value.0.alunos.Keys == s.alunos.Keys + {newId}
      && r.value.1 == AlunoOut(newId, p.nome, p.dataNascimento, p.status, p.turmaId)
  {
    TooYoungThreshold(today - p.dataNascimento);
    if TooYoung(today - p.dataNascimento) then Err(BadRequest(IdadeMinima))
    else
      var (s', a) := CreateAluno(s, p, newId);
      Ok((s', ToAlunoOut(a)))
  }

  /** A birth date in the future is always rejected at creation. */
  lemma FutureBirthRejected(s: Store, p: AlunoIn, today: int, newId: int)
    requires newId > 0 && newId !in s.alunos
    requires p.dataNascimento > today
    ensures PostAluno(s, p, today, newId) == Err(BadRequest(IdadeMinima))
  {
  }

  /** `PUT /alunos/{id}`: straight to the update, with no age check. */
  function PutAluno(s: Store, id: int, p: AlunoIn): (r: Result<(Store, AlunoOut), Failure>)
    ensures r.Err? <==> id !in s.alunos
    ensures r.Err? ==> r.error == NotFound(AlunoNaoEncontrado)
    ensures r.Ok? ==> r.value.0 == UpdateAluno(s, id, p).value.0
    ensures r.Ok? ==> r.value.1 == AlunoOut(s.alunos[id].id, p.nome, p.dataNascimento, p.status, p.turmaId)
  {
    match UpdateAluno(s, id, p)
    case Err(e) => Err(e)
    case Ok((s', a)) => Ok((s', ToAlunoOut(a)))
  }

  /** A payload the create endpoint refuses as too young is accepted by the update endpoint. */
  lemma PutSkipsAgeRule(s: Store, id: int, p: AlunoIn, today: int, newId: int)
    requires Valid(s) && id in s.alunos
    requires newId > 0 && newId !in s.alunos
    requires today - p.dataNascimento <= 1826
    ensures PostAluno(s, p, today, newId).Err?
    ensures PutAluno(s, id, p).Ok?
  {
  }

  /** `DELETE /alunos/{id}`: confirms only after the row is gone; not-found propagates. */
  function DelAluno(s: Store, id: int): (r: Result<(Store, Confirmation), Failure>)
    ensures r.Err? <==> id !in s.alunos
    ensures r.Err? ==> r.error == NotFound(AlunoNaoEncontrado)
    ensures r.Ok? ==> r.value.1.ok && r.value.0 == DeleteAluno(s, id).value
    ensures r.Ok? ==> r.value.0.alunos.Keys == s.alunos.Keys - {id}
  {
    match DeleteAluno(s, id)
    case Err(e) => Err(e)
    case Ok(s') => Ok((s', Confirmation(true)))
  }

  /**
   * `POST /matriculas`: both ids must be present and non-zero before any
   * lookup; then the enrolment rules apply.
   */
  function Matricula(s: Store, payload: MatriculaPayload): (r: Result<(Store, AlunoOut), Failure>)
    ensures r == Err(BadRequest(CamposObrigatorios)) <==>
      !TruthyInt(payload.alunoId) || !TruthyInt(payload.turmaId)
    ensures r.Ok? ==>
      && TruthyInt(payload.alunoId) && TruthyInt(payload.turmaId)
      && Matricular(s, payload.alunoId.value, payload.turmaId.value).Ok?
      && r.value.0 == Matricular(s, payload.alunoId.value, payload.turmaId.value).value.0
      && r.value.1.turmaId == payload.turmaId && r.value.1.status == Ativo
    ensures TruthyInt(payload.alunoId) && TruthyInt(payload.turmaId) ==>
      var m := Matricular(s, payload.alunoId.value, payload.turmaId.value);
      && (r.Err? <==> m.Err?)
      && (r.Err? ==> r.error == m.error)
      && (r.Ok? ==> r.value.0 == m.value.0 && r.value.1 == ToAlunoOut(m.value.1))
  {
    if !TruthyInt(payload.alunoId) || !TruthyInt(payload.turmaId) then
      Err(BadRequest(CamposObrigatorios))
    else
      match Matricular(s, payload.alunoId.value, payload.turmaId.value)
      case Err(e) => Err(e)
      case Ok((s', a)) => Ok((s', ToAlunoOut(a)))
  }

  /** Zero ids are rejected like missing ones, even when a row with id 0 exists. */
  lemma MatriculaRejectsZero(s: Store, turmaId: Option<int>)
    ensures Matricula(s, MatriculaPayload(Some(0), turmaId)) == Err(BadRequest(CamposObrigatorios))
    ensures Matricula(s, MatriculaPayload(None, turmaId)) == Err(BadRequest(CamposObrigatorios))
  {
  }
}
