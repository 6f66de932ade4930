/**
 * The frontend's CSV export: a fixed header row, then one row per student
 * in list order, cells joined by ";" and rows by a line break. Date
 * formatting is a parameter (`formatDate`), standing for the browser's
 * locale date formatting.
 */
module Export {
  import opened Wrappers
  import opened Text
  import opened Render

  const Header: seq<string> := ["Nome", "Data Nascimento", "Email", "Status", "Turma"]

  /** The five cells of one student; a missing email or turma becomes "". */
  function CsvFields(a: AlunoView, formatDate: int -> string): (r: seq<string>)
    ensures |r| == |Header|
    ensures r[0] == a.nome && r[1] == formatDate(a.dataNascimento) && r[3] == a.status
    ensures r[2] == (if a.email.Some? then a.email.value else "")
    ensures r[4] == (if a.turma.Some? then a.turma.value else "")
  {
    [a.nome, formatDate(a.dataNascimento), a.email.GetOr(""), a.status, a.turma.GetOr("")]
  }

  /** The header followed by each student's cells, in the order of `alunos`. */
  function CsvRows(alunos: seq<AlunoView>, formatDate: int -> string): (r: seq<seq<string>>)
    ensures |r| == |alunos| + 1
    ensures r[0] == Header
    ensures forall i :: 0 <= i < |alunos| ==> r[i + 1] == CsvFields(alunos[i], formatDate)
  {
    [Header] + seq(|alunos|, i requires 0 <= i < |alunos| => CsvFields(alunos[i], formatDate))
  }

  /** Each row's cells joined by ";". */
  function CsvLines(rows: seq<seq<string>>): (r: seq<string>)
    ensures |r| == |rows|
    ensures forall i :: 0 <= i < |rows| ==> r[i] == Join(rows[i], ';')
  {
    seq(|rows|, i requires 0 <= i < |rows| => Join(rows[i], ';'))
  }

  /** `exportCSV`'s file content. */
  function ExportCsv(alunos: seq<AlunoView>, formatDate: int -> string): string {
    Join(CsvLines(CsvRows(alunos, formatDate)), '\n')
  }

  /** No cell of any row contains `c`. */
  predicate CellsFree(alunos: seq<AlunoView>, formatDate: int -> string, c: char) {
    forall i, k :: 0 <= i < |alunos| && 0 <= k < |Header| ==> c !in CsvFields(alunos[i], formatDate)[k]
  }

  /** A joined row contains a character only if one of its cells does. */
  lemma {:induction false} JoinFree(parts: seq<string>, sep: char, c: char)
    requires c != sep
    requires forall k :: 0 <= k < |parts| ==> c !in parts[k]
    ensures c !in Join(parts, sep)
  {
    if |parts| > 1 {
      JoinFree(parts[1..], sep, c);
    }
  }

  /** The header line splits back into the five column names. */
  lemma HeaderLine()
    ensures Split(Join(Header, ';'), ';') == Header
    ensures '\n' !in Join(Header, ';')
  {
    assert forall k :: 0 <= k < |Header| ==> ';' !in Header[k] && '\n' !in Header[k];
    SplitJoin(Header, ';');
    JoinFree(Header, ';', '\n');
  }

  /**
   * When no cell contains a line break, the file splits into exactly the
   * header line and one line per student, in list order.
   */
  lemma ExportCsvLines(alunos: seq<AlunoView>, formatDate: int -> string)
    requires CellsFree(alunos, formatDate, '\n')
    ensures var lines := Split(ExportCsv(alunos, formatDate), '\n');
      && |lines| == |alunos| + 1
      && lines[0] == Join(Header, ';')
      && forall i :: 0 <= i < |alunos| ==> lines[i + 1] == Join(CsvFields(alunos[i], formatDate), ';')
  {
    var rows := CsvRows(alunos, formatDate);
    var lines := CsvLines(rows);
    HeaderLine();
    forall i | 0 <= i < |lines|
      ensures '\n' !in lines[i]
    {
      if i == 0 {
        HeaderLine();
      } else {
        JoinFree(rows[i], ';', '\n');
      }
    }
    SplitJoin(lines, '\n');
  }

  /** When no cell contains ";", each student's line splits back into its five cells. */
  lemma CsvRowColumns(a: AlunoView, formatDate: int -> string)
    requires forall k :: 0 <= k < |Header| ==> ';' !in CsvFields(a, formatDate)[k]
    ensures Split(Join(CsvFields(a, formatDate), ';'), ';') == CsvFields(a, formatDate)
    ensures |Split(Join(CsvFields(a, formatDate), ';'), ';')| == 5
  {
    SplitJoin(CsvFields(a, formatDate), ';');
  }

  /** A separator in front of `x` opens an empty first piece. */
  lemma SplitAtSeparator(x: string, sep: char)
    ensures Split([sep] + x, sep) == [""] + Split(x, sep)
  {
    assert ([sep] + x)[1..] == x;
  }

  /**
   * Cells are not quoted: a name holding ";" shifts the row to six columns,
   * so its date lands under "Email".
   */
  lemma SemicolonInNameShiftsColumns(formatDate: int -> string)
    requires ';' !in formatDate(0)
    ensures var a := AlunoView(1, "A;B", 0, None, "ativo", None);
      var cells := Split(Join(CsvFields(a, formatDate), ';'), ';');
      |cells| == 6 && cells[2] == formatDate(0)
  {
    var a := AlunoView(1, "A;B", 0, None, "ativo", None);
    var f := CsvFields(a, formatDate);
    var rest := [f[1], f[2], f[3], f[4]];
    assert f[1..] == rest;
    var j := Join(rest, ';');
    SplitJoin(rest, ';');
    assert Join(f, ';') == "A;B" + ";" + j;
    assert "A;B" + ";" + j == "A" + ([';'] + ("B" + ([';'] + j)));
    SplitAtSeparator(j, ';');
    SplitPrefix("B", [';'] + j, ';');
    SplitAtSeparator("B" + ([';'] + j), ';');
    SplitPrefix("A", [';'] + ("B" + ([';'] + j)), ';');
  }
}
