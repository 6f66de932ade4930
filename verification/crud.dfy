/**
 * The roster operations of the backend's data layer, over the in-memory
 * `Store`: filtered listing, create, update, delete and enrolment with a
 * capacity check. Each failing operation leaves the store as it was.
 */
module Crud {
  import opened Wrappers
  import opened Text
  import opened Records

  /** The HTTP errors the data layer raises. */
  datatype Failure =
    | NotFound(detail: string)
    | Full
    | BadRequest(detail: string)
  {
    function StatusCode(): int {
      if NotFound? then 404 else 400
    }

    function Detail(): string {
      match this
      case NotFound(d) => d
      case Full => "Turma cheia"
      case BadRequest(d) => d
    }
  }

  const AlunoNaoEncontrado: string := "Aluno não encontrado"
  const TurmaNaoEncontrada: string := "Turma não encontrada"

  // ---------------------------------------------------------------------------
  // Listing
  // ---------------------------------------------------------------------------

  /** Python truthiness of an optional string: present and non-empty. */
  predicate TruthyStr(o: Option<string>) {
    o.Some? && o.value != ""
  }

  /** Python truthiness of an optional integer: present and non-zero. */
  predicate TruthyInt(o: Option<int>) {
    o.Some? && o.value != 0
  }

  /** The `search` filter: case-insensitive substring of `nome`, applied only when truthy. */
  predicate NameFilter(a: Aluno, search: Option<string>) {
    TruthyStr(search) ==> ContainsIgnoringCase(a.nome, search.value)
  }

  /** The `turma_id` filter, applied only when truthy; a null `turma_id` never equals it. */
  predicate TurmaFilter(a: Aluno, turmaId: Option<int>) {
    TruthyInt(turmaId) ==> a.turmaId == Some(turmaId.value)
  }

  /** The `status` filter: exact equality, applied only when truthy. */
  predicate StatusFilter(a: Aluno, status: Option<string>) {
    TruthyStr(status) ==> a.status == status.value
  }

  /** The students `get_alunos` returns, keyed by id. */
  function GetAlunos(s: Store, search: Option<string>, turmaId: Option<int>, status: Option<string>)
    : (r: map<int, Aluno>)
    ensures forall id :: id in r ==> id in s.alunos && r[id] == s.alunos[id]
    ensures forall id :: id in r <==>
      (id in s.alunos && NameFilter(s.alunos[id], search)
                      && TurmaFilter(s.alunos[id], turmaId)
                      && StatusFilter(s.alunos[id], status))
  {
    map id | id in s.alunos
               && NameFilter(s.alunos[id], search)
               && TurmaFilter(s.alunos[id], turmaId)
               && StatusFilter(s.alunos[id], status)
      :: s.alunos[id]
  }

  /** Filtering by all three criteria is the intersection of filtering by each alone. */
  lemma GetAlunosComposes(s: Store, search: Option<string>, turmaId: Option<int>, status: Option<string>)
    ensures GetAlunos(s, search, turmaId, status).Keys ==
      GetAlunos(s, search, None, None).Keys
      * GetAlunos(s, None, turmaId, None).Keys
      * GetAlunos(s, None, None, status).Keys
  {
  }

  /** An empty `search`, a null or zero `turma_id` and an empty `status` filter nothing out. */
  lemma GetAlunosIgnoresFalsyFilters(s: Store, search: Option<string>, turmaId: Option<int>, status: Option<string>)
    requires search == None || search == Some("")
    requires turmaId == None || turmaId == Some(0)
    requires status == None || status == Some("")
    ensures GetAlunos(s, search, turmaId, status) == s.alunos
  {
  }

  // ---------------------------------------------------------------------------
  // Turmas
  // ---------------------------------------------------------------------------

  /** `get_turmas` as serialised through `TurmaOut`: every turma, without its capacity. */
  function GetTurmas(s: Store): (r: map<int, TurmaOut>)
    ensures r.Keys == s.turmas.Keys
    ensures forall id :: id in r ==> r[id].id == s.turmas[id].id && r[id].nome == s.turmas[id].nome
  {
    map id | id in s.turmas :: ToTurmaOut(s.turmas[id])
  }

  /** The listing never reveals capacities: changing one turma's capacity leaves it unchanged. */
  lemma GetTurmasIgnoresCapacity(s: Store, id: int, capacidade: int)
    requires id in s.turmas
    ensures GetTurmas(s.(turmas := s.turmas[id := s.turmas[id].(capacidade := capacidade)])) == GetTurmas(s)
  {
    var s' := s.(turmas := s.turmas[id := s.turmas[id].(capacidade := capacidade)]);
    assert forall k :: k in s'.turmas ==> ToTurmaOut(s'.turmas[k]) == ToTurmaOut(s.turmas[k]);
  }

  // ---------------------------------------------------------------------------
  // Create, update, delete
  // ---------------------------------------------------------------------------

  /**
   * A new `alunos` row; a status that is not given takes the storage default.
   * `create_aluno` always passes the payload's status, so that default never
   * applies there.
   */
  function NewRow(id: int, nome: string, dataNascimento: int, email: Option<string>,
                  status: Option<string>, turmaId: Option<int>): Aluno
  {
    Aluno(id, nome, dataNascimento, email, status.GetOr(StorageDefaultStatus), turmaId)
  }

  /**
   * `create_aluno`. The database picks `newId`, a key not yet in use.
   * `create_aluno` copies `aluno.email` (backend/crud.py:34), but the
   * `AlunoCreate` payload declares no email; the row is modelled with the
   * email the payload can carry: none.
   */
  function CreateAluno(s: Store, p: AlunoIn, newId: int): (r: (Store, Aluno))
    requires newId > 0 && newId !in s.alunos
    ensures r.1.id == newId && r.1.email == None
    ensures r.1.nome == p.nome && r.1.dataNascimento == p.dataNascimento
    ensures r.1.status == p.status && r.1.turmaId == p.turmaId
    ensures r.0.turmas == s.turmas
    ensures r.0.alunos.Keys == s.alunos.Keys + {newId}
    ensures forall id :: id in s.alunos ==> r.0.alunos[id] == s.alunos[id]
    ensures r.0.alunos[newId] == r.1
  {
    var a := NewRow(newId, p.nome, p.dataNascimento, None, Some(p.status), p.turmaId);
    (s.(alunos := s.alunos[newId := a]), a)
  }

  /** A student created from a request that omits `status` is stored "ativo", not "inativo". */
  lemma CreateDefaultsToAtivo(s: Store, b: AlunoRequest, newId: int)
    requires newId > 0 && newId !in s.alunos
    requires b.status.None?
    ensures CreateAluno(s, ParseAlunoIn(b), newId).1.status == Ativo
    ensures NewRow(newId, b.nome, b.dataNascimento, None, None, b.turmaId).status == Inativo
  {
  }

  /** Creating keeps the table constraints. */
  lemma CreatePreservesValid(s: Store, p: AlunoIn, newId: int)
    requires Valid(s)
    requires newId > 0 && newId !in s.alunos
    ensures Valid(CreateAluno(s, p, newId).0)
  {
  }

  /** Creating keeps references resolvable exactly when the new row's turma exists (or is null). */
  lemma CreateRefsResolve(s: Store, p: AlunoIn, newId: int)
    requires RefsResolve(s)
    requires newId > 0 && newId !in s.alunos
    ensures RefsResolve(CreateAluno(s, p, newId).0) <==> (p.turmaId.None? || p.turmaId.value in s.turmas)
  {
    var s' := CreateAluno(s, p, newId).0;
    assert s'.alunos[newId].turmaId == p.turmaId;
  }

  /** `update_aluno`: overwrites the four payload fields of an existing student. */
  function UpdateAluno(s: Store, id: int, p: AlunoIn): (r: Result<(Store, Aluno), Failure>)
    ensures id !in s.alunos <==> r.Err?
    ensures r.Err? ==> r.error == NotFound(AlunoNaoEncontrado)
    ensures r.Ok? ==>
      var (s', a) := r.value;
      && a.id == s.alunos[id].id && a.email == s.alunos[id].email
      && a.nome == p.nome && a.dataNascimento == p.dataNascimento
      && a.status == p.status && a.turmaId == p.turmaId
      && s'.alunos.Keys == s.alunos.Keys
      && s'.alunos[id] == a
      && (forall other :: other in s.alunos && other != id ==> s'.alunos[other] == s.alunos[other])
      && s'.turmas == s.turmas
  {
    if id !in s.alunos then Err(NotFound(AlunoNaoEncontrado))
    else
      var a := s.alunos[id].(nome := p.nome, dataNascimento := p.dataNascimento,
                             status := p.status, turmaId := p.turmaId);
      Ok((s.(alunos := s.alunos[id := a]), a))
  }

  /** Updating keeps the table constraints. */
  lemma UpdatePreservesValid(s: Store, id: int, p: AlunoIn)
    requires Valid(s)
    requires UpdateAluno(s, id, p).Ok?
    ensures Valid(UpdateAluno(s, id, p).value.0)
  {
    var s' := UpdateAluno(s, id, p).value.0;
    assert forall k :: k in s'.alunos ==> s'.alunos[k].email == s.alunos[k].email;
  }

  /** `delete_aluno`: removes exactly the row with that id. */
  function DeleteAluno(s: Store, id: int): (r: Result<Store, Failure>)
    ensures id !in s.alunos <==> r.Err?
    ensures r.Err? ==> r.error == NotFound(AlunoNaoEncontrado)
    ensures r.Ok? ==>
      && r.value.alunos.Keys == s.alunos.Keys - {id}
      && (forall other :: other in r.value.alunos ==> r.value.alunos[other] == s.alunos[other])
      && r.value.turmas == s.turmas
  {
    if id !in s.alunos then Err(NotFound(AlunoNaoEncontrado))
    else Ok(s.(alunos := s.alunos - {id}))
  }

  /** Deleting the same id twice: the second delete reports not found. */
  lemma DeleteTwiceNotFound(s: Store, id: int)
    requires DeleteAluno(s, id).Ok?
    ensures DeleteAluno(DeleteAluno(s, id).value, id) == Err(NotFound(AlunoNaoEncontrado))
  {
  }

  /** Deleting keeps the table constraints, resolvable references and every capacity bound. */
  lemma DeletePreservesInvariants(s: Store, id: int)
    requires Valid(s) && RefsResolve(s) && WithinCapacity(s)
    requires DeleteAluno(s, id).Ok?
    ensures var s' := DeleteAluno(s, id).value;
      Valid(s') && RefsResolve(s') && WithinCapacity(s')
  {
    var s' := DeleteAluno(s, id).value;
    forall t | t in s'.turmas
      ensures Occupancy(s', t) <= s'.turmas[t].capacidade
    {
      assert Members(s', t) <= Members(s, t);
      SubsetCardinality(Members(s', t), Members(s, t));
    }
  }

  lemma SubsetCardinality(a: set<int>, b: set<int>)
    requires a <= b
    ensures |a| <= |b|
  {
    assert b == a + (b - a);
  }

  // ---------------------------------------------------------------------------
  // Enrolment
  // ---------------------------------------------------------------------------

  /**
   * `matricular`: looks up the student, then the turma, then rejects when the
   * turma already holds `capacidade` students (the student itself included, if
   * already enrolled there); otherwise moves the student into the turma and
   * marks it active.
   */
  function Matricular(s: Store, alunoId: int, turmaId: int): (r: Result<(Store, Aluno), Failure>)
    ensures alunoId !in s.alunos ==> r == Err(NotFound(AlunoNaoEncontrado))
    ensures alunoId in s.alunos && turmaId !in s.turmas ==> r == Err(NotFound(TurmaNaoEncontrada))
    ensures alunoId in s.alunos && turmaId in s.turmas ==>
      (r == Err(Full) <==> Occupancy(s, turmaId) >= s.turmas[turmaId].capacidade)
    ensures r.Ok? <==>
      alunoId in s.alunos && turmaId in s.turmas && Occupancy(s, turmaId) < s.turmas[turmaId].capacidade
    ensures r == Err(Full) ==> r.error.StatusCode() == 400 && r.error.Detail() == "Turma cheia"
    ensures r.Ok? ==>
      var (s', a) := r.value;
      && alunoId in s.alunos && turmaId in s.turmas
      && Occupancy(s, turmaId) < s.turmas[turmaId].capacidade
      && a == s.alunos[alunoId].(turmaId := Some(turmaId), status := Ativo)
      && s'.alunos.Keys == s.alunos.Keys
      && s'.alunos[alunoId] == a
      && (forall other :: other in s.alunos && other != alunoId ==> s'.alunos[other] == s.alunos[other])
      && s'.turmas == s.turmas
  {
    if alunoId !in s.alunos then Err(NotFound(AlunoNaoEncontrado))
    else if turmaId !in s.turmas then Err(NotFound(TurmaNaoEncontrada))
    else if Occupancy(s, turmaId) >= s.turmas[turmaId].capacidade then Err(Full)
    else
      var a := s.alunos[alunoId].(turmaId := Some(turmaId), status := Ativo);
      Ok((s.(alunos := s.alunos[alunoId := a]), a))
  }

  /** The members of turma `t` after student `a` is moved into turma `target`. */
  lemma MembersAfterMove(s: Store, s': Store, a: int, target: int, t: int)
    requires a in s.alunos
    requires s'.alunos.Keys == s.alunos.Keys
    requires s'.alunos[a].turmaId == Some(target)
    requires forall other :: other in s.alunos && other != a ==> s'.alunos[other] == s.alunos[other]
    ensures t == target ==> Members(s', t) == Members(s, t) + {a}
    ensures t != target ==> Members(s', t) == Members(s, t) - {a}
  {
    forall id | id in s.alunos && id != a
      ensures id in Members(s', t) <==> id in Members(s, t)
    {
      assert s'.alunos[id] == s.alunos[id];
    }
    if t == target {
      assert Members(s', t) == Members(s, t) + {a};
    } else {
      assert Members(s', t) == Members(s, t) - {a};
    }
  }

  /** Enrolment never lets a turma exceed its capacity. */
  lemma {:induction false} MatricularPreservesCapacity(s: Store, alunoId: int, turmaId: int)
    requires WithinCapacity(s)
    requires Matricular(s, alunoId, turmaId).Ok?
    ensures WithinCapacity(Matricular(s, alunoId, turmaId).value.0)
  {
    var s' := Matricular(s, alunoId, turmaId).value.0;
    forall t | t in s'.turmas
      ensures Occupancy(s', t) <= s'.turmas[t].capacidade
    {
      MembersAfterMove(s, s', alunoId, turmaId, t);
      if t == turmaId {
        assert |Members(s, t) + {alunoId}| <= |Members(s, t)| + 1;
      } else {
        SubsetCardinality(Members(s', t), Members(s, t));
      }
    }
  }

  /** Enrolment keeps the table constraints and resolvable references. */
  lemma MatricularPreservesValid(s: Store, alunoId: int, turmaId: int)
    requires Valid(s) && RefsResolve(s)
    requires Matricular(s, alunoId, turmaId).Ok?
    ensures Valid(Matricular(s, alunoId, turmaId).value.0)
    ensures RefsResolve(Matricular(s, alunoId, turmaId).value.0)
  {
    var s' := Matricular(s, alunoId, turmaId).value.0;
    assert forall k :: k in s'.alunos ==> s'.alunos[k].email == s.alunos[k].email;
  }

  /** A student already counted in a full turma is refused re-enrolment there. */
  lemma MatricularCountsSelf(s: Store, alunoId: int, turmaId: int)
    requires alunoId in s.alunos && turmaId in s.turmas
    requires s.alunos[alunoId].turmaId == Some(turmaId)
    requires Occupancy(s, turmaId) == s.turmas[turmaId].capacidade
    ensures Matricular(s, alunoId, turmaId) == Err(Full)
  {
  }

  /** Unlike enrolment, an update may push a turma over its capacity. */
  lemma UpdateMayExceedCapacity()
    ensures exists s: Store, id: int, p: AlunoIn ::
      && Valid(s) && RefsResolve(s) && WithinCapacity(s)
      && UpdateAluno(s, id, p).Ok?
      && !WithinCapacity(UpdateAluno(s, id, p).value.0)
  {
    var t := Turma(1, "1A", 0);
    var a := Aluno(1, "Ana", 0, None, Inativo, None);
    var s := Store(map[1 := a], map[1 := t]);
    var p := AlunoIn("Ana", 0, Ativo, Some(1));
    assert Members(s, 1) == {};
    var s' := UpdateAluno(s, 1, p).value.0;
    assert 1 in Members(s', 1);
    assert Occupancy(s', 1) > 0;
    assert Valid(s) && RefsResolve(s) && WithinCapacity(s);
    assert !WithinCapacity(s');
  }
}
