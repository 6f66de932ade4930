/**
 * The frontend's view of the student list: the record it receives, the
 * ordering `renderAlunos` displays and the indicator counts.
 */
module Render {
  import opened Wrappers

  /**
   * A student as the frontend reads it. `dataNascimento` is the parsed birth
   * date as a number (earlier dates are smaller); `email` and `turma` may be
   * missing.
   */
  datatype AlunoView = AlunoView(
    id: int,
    nome: string,
    dataNascimento: int,
    email: Option<string>,
    status: string,
    turma: Option<string>)

  const SortByAge: string := "idade"

  // ---------------------------------------------------------------------------
  // Ordering
  // ---------------------------------------------------------------------------

  /** Lexicographic order on code points, standing for `localeCompare(...) <= 0`. */
  predicate NameLe(a: string, b: string)
    decreases |a|
  {
    |a| == 0 || (|b| > 0 && (a[0] < b[0] || (a[0] == b[0] && NameLe(a[1..], b[1..]))))
  }

  lemma {:induction false} NameLeTotal(a: string, b: string)
    ensures NameLe(a, b) || NameLe(b, a)
    decreases |a|
  {
    if |a| > 0 && |b| > 0 && a[0] == b[0] {
      NameLeTotal(a[1..], b[1..]);
    }
  }

  lemma {:induction false} NameLeTransitive(a: string, b: string, c: string)
    requires NameLe(a, b) && NameLe(b, c)
    ensures NameLe(a, c)
    decreases |a|
  {
    if |a| > 0 && a[0] == b[0] && b[0] == c[0] {
      NameLeTransitive(a[1..], b[1..], c[1..]);
    }
  }

  /** The comparison `renderAlunos` sorts by: birth date when `sort` is "idade", otherwise name. */
  predicate SortLe(sort: string, x: AlunoView, y: AlunoView) {
    if sort == SortByAge then x.dataNascimento <= y.dataNascimento else NameLe(x.nome, y.nome)
  }

  lemma SortLeTotal(sort: string, x: AlunoView, y: AlunoView)
    ensures SortLe(sort, x, y) || SortLe(sort, y, x)
  {
    if sort != SortByAge { NameLeTotal(x.nome, y.nome); }
  }

  lemma SortLeTransitive(sort: string, x: AlunoView, y: AlunoView, z: AlunoView)
    requires SortLe(sort, x, y) && SortLe(sort, y, z)
    ensures SortLe(sort, x, z)
  {
    if sort != SortByAge { NameLeTransitive(x.nome, y.nome, z.nome); }
  }

  /** Every earlier student compares at most equal to every later one. */
  ghost predicate Sorted(sort: string, xs: seq<AlunoView>) {
    forall i, j :: 0 <= i < j < |xs| ==> SortLe(sort, xs[i], xs[j])
  }

  /** A student that compares at most equal to every element may be put in front. */
  lemma SortedPrepend(sort: string, h: AlunoView, t: seq<AlunoView>)
    requires Sorted(sort, t)
    requires forall k :: 0 <= k < |t| ==> SortLe(sort, h, t[k])
    ensures Sorted(sort, [h] + t)
  {
  }

  /** Whatever is at most the first element of a sorted list is at most all of it. */
  lemma BelowFirst(sort: string, x: AlunoView, ys: seq<AlunoView>)
    requires Sorted(sort, ys) && |ys| > 0
    requires SortLe(sort, x, ys[0])
    ensures forall k :: 0 <= k < |ys| ==> SortLe(sort, x, ys[k])
  {
    forall k | 0 < k < |ys| ensures SortLe(sort, x, ys[k]) {
      SortLeTransitive(sort, x, ys[0], ys[k]);
    }
  }

  /** A lower bound of every element of `t` and of `x` bounds every element of a permutation of them. */
  lemma BoundsPermutation(sort: string, h: AlunoView, x: AlunoView, t: seq<AlunoView>, r: seq<AlunoView>)
    requires forall k :: 0 <= k < |t| ==> SortLe(sort, h, t[k])
    requires SortLe(sort, h, x)
    requires multiset(r) == multiset(t) + multiset{x}
    ensures forall k :: 0 <= k < |r| ==> SortLe(sort, h, r[k])
  {
    forall k | 0 <= k < |r| ensures SortLe(sort, h, r[k]) {
      assert r[k] in multiset(r);
      if r[k] != x {
        assert r[k] in multiset(t);
        var j :| 0 <= j < |t| && t[j] == r[k];
      }
    }
  }

  /** Places `x` after every student that does not compare greater than it. */
  function Insert(sort: string, x: AlunoView, ys: seq<AlunoView>): (r: seq<AlunoView>)
    requires Sorted(sort, ys)
    ensures Sorted(sort, r)
    ensures multiset(r) == multiset(ys) + multiset{x}
  {
    if |ys| == 0 then [x]
    else if !SortLe(sort, ys[0], x) then
      SortLeTotal(sort, ys[0], x);
      BelowFirst(sort, x, ys);
      SortedPrepend(sort, x, ys);
      [x] + ys
    else
      var rest := Insert(sort, x, ys[1..]);
      assert forall k :: 0 <= k < |ys[1..]| ==> SortLe(sort, ys[0], ys[1..][k]) by {
        forall k | 0 <= k < |ys[1..]| ensures SortLe(sort, ys[0], ys[1..][k]) {
          assert ys[1..][k] == ys[k + 1];
        }
      }
      BoundsPermutation(sort, ys[0], x, ys[1..], rest);
      SortedPrepend(sort, ys[0], rest);
      assert ys == [ys[0]] + ys[1..];
      [ys[0]] + rest
  }

  /** The order `renderAlunos` displays: a sorted copy of the list, which itself is left as is. */
  function SortedView(alunos: seq<AlunoView>, sort: string): (r: seq<AlunoView>)
    ensures Sorted(sort, r)
    ensures multiset(r) == multiset(alunos)
  {
    if |alunos| == 0 then []
    else
      var last := |alunos| - 1;
      assert alunos == alunos[..last] + [alunos[last]];
      Insert(sort, alunos[last], SortedView(alunos[..last], sort))
  }

  // ---------------------------------------------------------------------------
  // Indicators
  // ---------------------------------------------------------------------------

  /** The counts `renderIndicadores` shows. */
  datatype Indicadores = Indicadores(total: nat, ativos: nat, inativos: int)

  /** Positions of the students whose status is exactly "ativo". */
  ghost function AtivoIndices(xs: seq<AlunoView>): set<int> {
    set i | 0 <= i < |xs| && xs[i].status == "ativo"
  }

  /** Positions of every other student, whatever its status. */
  ghost function OtherIndices(xs: seq<AlunoView>): set<int> {
    set i | 0 <= i < |xs| && xs[i].status != "ativo"
  }

  /** Dropping the last student removes at most its own position from either set. */
  lemma IndicesSnoc(xs: seq<AlunoView>)
    requires |xs| > 0
    ensures var last := |xs| - 1;
      && AtivoIndices(xs) == AtivoIndices(xs[..last]) + (if xs[last].status == "ativo" then {last} else {})
      && OtherIndices(xs) == OtherIndices(xs[..last]) + (if xs[last].status == "ativo" then {} else {last})
      && last !in AtivoIndices(xs[..last]) && last !in OtherIndices(xs[..last])
  {
  }

  /** The number of active students, counted one student at a time. */
  function CountAtivos(xs: seq<AlunoView>): (n: nat)
    ensures n == |AtivoIndices(xs)|
    ensures |xs| - n == |OtherIndices(xs)|
  {
    if |xs| == 0 then
      assert AtivoIndices(xs) == {} && OtherIndices(xs) == {};
      0
    else
      var n := CountAtivos(xs[..|xs| - 1]);
      IndicesSnoc(xs);
      if xs[|xs| - 1].status == "ativo" then n + 1 else n
  }

  /** `renderIndicadores`: total, active and the rest. */
  function RenderIndicadores(alunos: seq<AlunoView>): (r: Indicadores)
    ensures r.total == |alunos|
    ensures r.ativos + r.inativos == r.total
    ensures r.ativos == |AtivoIndices(alunos)|
    ensures r.inativos == |OtherIndices(alunos)|
  {
    var ativos := CountAtivos(alunos);
    Indicadores(|alunos|, ativos, |alunos| - ativos)
  }
}
