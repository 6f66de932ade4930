/**
 * The frontend's save action: read the form, refuse it when a required field
 * is empty, otherwise send the student with PUT when the form edits an
 * existing id and with POST when it creates one.
 */
module SaveForm {
  import opened Text

  /** The raw form values; `id` is "" for a new student. */
  datatype Form = Form(
    id: string,
    nome: string,
    dataNascimento: string,
    email: string,
    status: string,
    turma: string)

  /** The JSON body sent; the turma travels by name. */
  datatype Body = Body(nome: string, dataNascimento: string, email: string, status: string, turma: string)

  datatype Request =
    | Put(path: string, body: Body)
    | Post(path: string, body: Body)

  datatype SaveOutcome =
    | MissingFields(message: string)
    | Send(request: Request)

  const Obrigatorios: string := "Preencha todos os campos obrigatórios"

  /** The body built from the form: name, email and turma trimmed; date and status as entered. */
  function BodyOf(f: Form): Body {
    Body(Trim(f.nome), f.dataNascimento, Trim(f.email), f.status, Trim(f.turma))
  }

  /** `saveAluno`. */
  function SaveAluno(f: Form): (r: SaveOutcome)
    ensures r.MissingFields? <==>
      (forall k :: 0 <= k < |f.nome| ==> IsSpace(f.nome[k])) || f.dataNascimento == "" || f.status == ""
    ensures r.MissingFields? ==> r.message == Obrigatorios
    ensures r.Send? ==> (r.request.Put? <==> f.id != "")
    ensures r.Send? && r.request.Put? ==> r.request.path == "/alunos/" + f.id
    ensures r.Send? && r.request.Post? ==> r.request.path == "/alunos"
    ensures r.Send? ==>
      var b := r.request.body;
      && |b.nome| > 0 && !IsSpace(b.nome[0]) && !IsSpace(b.nome[|b.nome| - 1])
      && b.dataNascimento == f.dataNascimento && b.status == f.status
      && b.nome == Trim(f.nome) && b.email == Trim(f.email) && b.turma == Trim(f.turma)
  {
    var body := BodyOf(f);
    if body.nome == "" || f.dataNascimento == "" || f.status == "" then MissingFields(Obrigatorios)
    else if f.id != "" then Send(Put("/alunos/" + f.id, body))
    else Send(Post("/alunos", body))
  }

  /** Whitespace around the name, email and turma makes no difference to what is sent. */
  lemma SaveIgnoresSurroundingSpace(f: Form)
    ensures SaveAluno(f.(nome := Trim(f.nome), email := Trim(f.email), turma := Trim(f.turma))) == SaveAluno(f)
  {
    TrimIdempotent(f.nome);
    TrimIdempotent(f.email);
    TrimIdempotent(f.turma);
  }

  /** The same form saved as new and as an edit sends the same body, only by different methods. */
  lemma SaveBranchesOnIdOnly(f: Form, id: string)
    requires f.id == "" && id != ""
    requires SaveAluno(f).Send?
    ensures SaveAluno(f).request == Post("/alunos", BodyOf(f))
    ensures SaveAluno(f.(id := id)).request == Put("/alunos/" + id, BodyOf(f))
  {
  }
}
