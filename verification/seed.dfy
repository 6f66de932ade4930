/**
 * The database seeding script: clears both tables, creates three turmas and
 * twenty students, and places each student in a randomly chosen turma while
 * that turma is under capacity. The random draws are an input: one `Pick`
 * per student.
 */
module Seed {
  import opened Wrappers
  import opened Text
  import opened Records

  // ---------------------------------------------------------------------------
  // Calendar dates as day ordinals (Python's `date.toordinal`)
  // ---------------------------------------------------------------------------

  predicate IsLeap(y: int) {
    y % 4 == 0 && (y % 100 != 0 || y % 400 == 0)
  }

  /** Days in all years before `y`, counted from 0001-01-01. */
  function DaysBeforeYear(y: int): int
    requires y >= 1
  {
    var p := y - 1;
    365 * p + p / 4 - p / 100 + p / 400
  }

  /** Days in the months of year `y` before month `m`. */
  function DaysBeforeMonth(y: int, m: int): int
    requires 1 <= m <= 12
  {
    var table := [0, 31, 59, 90, 120, 151, 181, 212, 243, 273, 304, 334];
    table[m - 1] + (if m > 2 && IsLeap(y) then 1 else 0)
  }

  /** The ordinal of a calendar date: 0001-01-01 is day 1. */
  function ToOrdinal(y: int, m: int, d: int): int
    requires y >= 1 && 1 <= m <= 12
  {
    DaysBeforeYear(y) + DaysBeforeMonth(y, m) + d
  }

  /** Stepping over one more multiple of `d` raises `p / d` by one, otherwise by nothing. */
  lemma DivStep(p: int, d: int)
    requires d == 4 || d == 100 || d == 400
    ensures (p + 1) / d - p / d == (if (p + 1) % d == 0 then 1 else 0)
  {
  }

  lemma DivisibilityChain(y: int)
    ensures y % 400 == 0 ==> y % 100 == 0
    ensures y % 100 == 0 ==> y % 4 == 0
  {
  }

  /** Each year holds 365 or 366 days, 366 exactly in leap years. */
  lemma YearLength(y: int)
    requires y >= 1
    ensures DaysBeforeYear(y + 1) - DaysBeforeYear(y) == (if IsLeap(y) then 366 else 365)
  {
    var p := y - 1;
    DivStep(p, 4);
    DivStep(p, 100);
    DivStep(p, 400);
    DivisibilityChain(y);
    var d4, d100, d400 := (p + 1) / 4 - p / 4, (p + 1) / 100 - p / 100, (p + 1) / 400 - p / 400;
    assert DaysBeforeYear(y + 1) - DaysBeforeYear(y) == 365 + d4 - d100 + d400;
  }

  /** January 1st of a year never comes after December 31st of the same or a later year. */
  lemma {:induction false} YearSpanOrdered(startYear: int, endYear: int)
    requires 1 <= startYear <= endYear
    ensures ToOrdinal(startYear, 1, 1) <= ToOrdinal(endYear, 12, 31)
    decreases endYear - startYear
  {
    if startYear < endYear {
      YearSpanOrdered(startYear, endYear - 1);
      YearLength(endYear - 1);
    }
  }

  /**
   * `random_date(start_year, end_year)`: `randint` over the ordinals of
   * January 1st of the first year to December 31st of the last, both
   * inclusive. `pick` is the random draw. An empty range (`randint` raises) or
   * a year outside 1..9999 (`date` raises) yields `None`.
   */
  function RandomDate(startYear: int, endYear: int, pick: nat): (d: Option<int>)
    ensures d.Some? <==> 1 <= startYear <= endYear <= 9999
    ensures d.Some? ==> ToOrdinal(startYear, 1, 1) <= d.value <= ToOrdinal(endYear, 12, 31)
  {
    if !(1 <= startYear <= 9999 && 1 <= endYear <= 9999) then None
    else
      var lo := ToOrdinal(startYear, 1, 1);
      var hi := ToOrdinal(endYear, 12, 31);
      RangeNonEmptyIff(startYear, endYear);
      if lo > hi then None else Some(lo + pick % (hi - lo + 1))
  }

  /** The day range of a span of years is non-empty exactly when the years are in order. */
  lemma RangeNonEmptyIff(startYear: int, endYear: int)
    requires 1 <= startYear && 1 <= endYear
    ensures ToOrdinal(startYear, 1, 1) <= ToOrdinal(endYear, 12, 31) <==> startYear <= endYear
  {
    if startYear <= endYear {
      YearSpanOrdered(startYear, endYear);
    } else {
      YearLength(endYear);
      YearSpanLower(endYear + 1, startYear);
    }
  }

  /** The ordinals of January 1st grow with the year. */
  lemma {:induction false} YearSpanLower(a: int, b: int)
    requires 1 <= a <= b
    ensures DaysBeforeYear(a) <= DaysBeforeYear(b)
    decreases b - a
  {
    if a < b {
      YearSpanLower(a, b - 1);
      YearLength(b - 1);
    }
  }

  /** Every day of the range is drawn by some pick. */
  lemma RandomDateCoversRange(startYear: int, endYear: int, d: int)
    requires 1 <= startYear <= endYear <= 9999
    requires ToOrdinal(startYear, 1, 1) <= d <= ToOrdinal(endYear, 12, 31)
    ensures RandomDate(startYear, endYear, d - ToOrdinal(startYear, 1, 1)) == Some(d)
  {
    var lo, hi := ToOrdinal(startYear, 1, 1), ToOrdinal(endYear, 12, 31);
    RangeNonEmptyIff(startYear, endYear);
    ModSmall(d - lo, hi - lo + 1);
  }

  lemma ModSmall(x: int, m: int)
    requires 0 <= x < m
    ensures x % m == x
  {
  }

  const SeedStartYear: int := 2005
  const SeedEndYear: int := 2019

  /** The seed's birth dates lie between 2005-01-01 (ordinal 731947) and 2019-12-31 (ordinal 737424). */
  lemma SeedDateBounds(pick: nat)
    ensures RandomDate(SeedStartYear, SeedEndYear, pick).Some?
    ensures 731947 <= RandomDate(SeedStartYear, SeedEndYear, pick).value <= 737424
  {
    assert ToOrdinal(2005, 1, 1) == 731947;
    assert ToOrdinal(2019, 12, 31) == 737424;
  }

  // ---------------------------------------------------------------------------
  // The seed data
  // ---------------------------------------------------------------------------

  /** The random draws for one student: the birth date and the turma. */
  datatype Pick = Pick(date: nat, turma: nat)

  /** The three turmas, in creation (and therefore query) order. */
  const SeedTurmas: seq<Turma> := [
    Turma(1, "1A - Manhã", 10),
    Turma(2, "2B - Tarde", 8),
    Turma(3, "3C - Noite", 12)
  ]

  const SeedTurmaMap: map<int, Turma> := map[1 := SeedTurmas[0], 2 := SeedTurmas[1], 3 := SeedTurmas[2]]

  const Nomes: seq<string> := [
    "Ana", "Bruno", "Carla", "Diego", "Eduarda", "Felipe", "Gabriela", "Heitor",
    "Isabela", "João", "Karla", "Lucas", "Marina", "Neto", "Olivia", "Paulo",
    "Quésia", "Rafael", "Sofia", "Tiago"
  ]

  const EmailDomain: string := "@escola.test"

  /** The `i`-th student's name: the first name followed by " Silva". */
  function SeedNome(i: nat): string
    requires i < |Nomes|
  {
    Nomes[i] + " Silva"
  }

  /** The `i`-th student's e-mail: lower-cased first name, ".", the index, then the domain. */
  function SeedEmail(i: nat): string
    requires i < |Nomes|
  {
    Lower(Nomes[i]) + "." + NatToString(i) + EmailDomain
  }

  /** The turma `random.choice` draws for a pick. */
  function Chosen(p: Pick): (t: Turma)
    ensures t.id in SeedTurmaMap && SeedTurmaMap[t.id] == t
  {
    var k := p.turma % |SeedTurmas|;
    if k == 0 then SeedTurmas[0] else if k == 1 then SeedTurmas[1] else SeedTurmas[2]
  }

  /** Two tagged strings `name.n<suffix>` are equal only for equal names and numbers, when names have no dot. */
  lemma {:induction false} TaggedInjective(a: string, b: string, i: nat, j: nat, suffix: string)
    requires '.' !in a && '.' !in b
    requires a + "." + NatToString(i) + suffix == b + "." + NatToString(j) + suffix
    ensures a == b && i == j
  {
    var e := a + "." + NatToString(i) + suffix;
    var f := b + "." + NatToString(j) + suffix;
    assert e[|a|] == '.' && f[|b|] == '.';
    assert a == e[..|a|] == f[..|b|] == b;
    var ni, nj := NatToString(i), NatToString(j);
    assert e[|a| + 1..] == ni + suffix;
    assert f[|b| + 1..] == nj + suffix;
    assert |ni| == |nj|;
    assert ni == (ni + suffix)[..|ni|] == (nj + suffix)[..|nj|] == nj;
    NatToStringInjective(i, j);
  }

  /** The seed e-mails are pairwise distinct. */
  lemma SeedEmailsDistinct(i: nat, j: nat)
    requires i < |Nomes| && j < |Nomes| && i != j
    ensures SeedEmail(i) != SeedEmail(j)
  {
    assert forall k :: 0 <= k < |Nomes| ==> '.' !in Nomes[k];
    assert '.' !in Lower(Nomes[i]) && '.' !in Lower(Nomes[j]);
    if SeedEmail(i) == SeedEmail(j) {
      TaggedInjective(Lower(Nomes[i]), Lower(Nomes[j]), i, j, EmailDomain);
    }
  }

  /** The row seeding writes for the `k`-th name, given the store it is added to. */
  function SeedRow(s: Store, k: nat, p: Pick): (a: Aluno)
    requires k < |Nomes|
  {
    var data := RandomDate(SeedStartYear, SeedEndYear, p.date).GetOr(0);
    var t := Chosen(p);
    if Occupancy(s, t.id) < t.capacidade then
      Aluno(k + 1, SeedNome(k), data, Some(SeedEmail(k)), Ativo, Some(t.id))
    else
      Aluno(k + 1, SeedNome(k), data, Some(SeedEmail(k)), Inativo, None)
  }

  /** What every seeded row holds, whatever its placement. */
  ghost predicate SeededFields(a: Aluno, k: nat, p: Pick)
    requires k < |Nomes|
  {
    && a.id == k + 1
    && a.nome == SeedNome(k)
    && a.email == Some(SeedEmail(k))
    && RandomDate(SeedStartYear, SeedEndYear, p.date).Some?
    && a.dataNascimento == RandomDate(SeedStartYear, SeedEndYear, p.date).value
    && ToOrdinal(SeedStartYear, 1, 1) <= a.dataNascimento <= ToOrdinal(SeedEndYear, 12, 31)
    && (a.status == Ativo <==> a.turmaId.Some?)
    && (a.status == Ativo || a.status == Inativo)
    && (a.turmaId.Some? ==> a.turmaId.value == Chosen(p).id)
  }

  /** Adding a row never lowers any turma's occupancy. */
  lemma OccupancyGrows(s: Store, id: int, a: Aluno, t: int)
    requires id !in s.alunos
    ensures Occupancy(s, t) <= Occupancy(s.(alunos := s.alunos[id := a]), t)
  {
    var s' := s.(alunos := s.alunos[id := a]);
    assert Members(s', t) == Members(s, t) + (Members(s', t) - Members(s, t));
  }

  /** The ids 1 to `n`, the keys the first `n` seeded students receive. */
  function SeedIds(n: nat): (r: set<int>)
    ensures forall k :: k in r <==> 1 <= k <= n
  {
    if n == 0 then {} else SeedIds(n - 1) + {n}
  }

  /** Every row is the seeded row of its name. */
  ghost predicate AllSeeded(s: Store, picks: seq<Pick>)
    requires |picks| == |Nomes|
  {
    forall id :: id in s.alunos ==> 1 <= id <= |Nomes| && SeededFields(s.alunos[id], id - 1, picks[id - 1])
  }

  /** Every student left without a turma drew a turma that is full. */
  ghost predicate RefusedFull(s: Store, picks: seq<Pick>)
    requires |picks| == |Nomes|
  {
    forall id :: id in s.alunos && 1 <= id <= |Nomes| && s.alunos[id].turmaId.None? ==>
      Occupancy(s, Chosen(picks[id - 1]).id) >= Chosen(picks[id - 1]).capacidade
  }

  /** The students with an id below `id` enrolled in turma `t`: those seeded before student `id`. */
  ghost function DrawnBefore(s: Store, id: int, t: int): set<int> {
    set j | j in s.alunos && j < id && s.alunos[j].turmaId == Some(t)
  }

  /**
   * Student `id` joined its drawn turma exactly when the students seeded
   * before it left that turma room.
   */
  ghost predicate PlacedFirstCome(s: Store, picks: seq<Pick>, id: int)
    requires |picks| == |Nomes| && id in s.alunos && 1 <= id <= |Nomes|
  {
    s.alunos[id].turmaId.Some? <==>
      |DrawnBefore(s, id, Chosen(picks[id - 1]).id)| < Chosen(picks[id - 1]).capacidade
  }

  /** Placement is first come, first served, for every student. */
  ghost predicate FirstCome(s: Store, picks: seq<Pick>)
    requires |picks| == |Nomes|
  {
    forall id {:trigger PlacedFirstCome(s, picks, id)} ::
      id in s.alunos && 1 <= id <= |Nomes| ==> PlacedFirstCome(s, picks, id)
  }

  /** Seen from the next id, the students seeded before it are the turma's current members. */
  lemma DrawnBeforeNext(s: Store, i: nat, a: Aluno, t: int)
    requires s.alunos.Keys == SeedIds(i)
    ensures DrawnBefore(s.(alunos := s.alunos[i + 1 := a]), i + 1, t) == Members(s, t)
  {
    var s' := s.(alunos := s.alunos[i + 1 := a]);
    forall j | j in DrawnBefore(s', i + 1, t)
      ensures j in Members(s, t)
    {
      assert j in s.alunos && s'.alunos[j] == s.alunos[j];
    }
    forall j | j in Members(s, t)
      ensures j in DrawnBefore(s', i + 1, t)
    {
      assert j <= i && s'.alunos[j] == s.alunos[j];
    }
  }

  /** Adding a row with a larger id leaves every earlier student's predecessors alone. */
  lemma DrawnBeforeKept(s: Store, i: nat, a: Aluno, id: int, t: int)
    requires s.alunos.Keys == SeedIds(i) && id in s.alunos
    ensures DrawnBefore(s.(alunos := s.alunos[i + 1 := a]), id, t) == DrawnBefore(s, id, t)
  {
    var s' := s.(alunos := s.alunos[i + 1 := a]);
    forall j | j in DrawnBefore(s', id, t)
      ensures j in DrawnBefore(s, id, t)
    {
      assert j != i + 1 && s'.alunos[j] == s.alunos[j];
    }
    forall j | j in DrawnBefore(s, id, t)
      ensures j in DrawnBefore(s', id, t)
    {
      assert s'.alunos[j] == s.alunos[j];
    }
  }

  /** One student's placement rule survives adding the row with the next id. */
  lemma AddRowFirstComeAt(s: Store, i: nat, a: Aluno, id: int, t: int, cap: int)
    requires s.alunos.Keys == SeedIds(i)
    requires id == i + 1 ==> (a.turmaId.Some? <==> Occupancy(s, t) < cap)
    requires id in s.alunos ==> (s.alunos[id].turmaId.Some? <==> |DrawnBefore(s, id, t)| < cap)
    requires id in s.alunos || id == i + 1
    ensures var s' := s.(alunos := s.alunos[i + 1 := a]);
      s'.alunos[id].turmaId.Some? <==> |DrawnBefore(s', id, t)| < cap
  {
    if id == i + 1 {
      DrawnBeforeNext(s, i, a, t);
    } else {
      DrawnBeforeKept(s, i, a, id, t);
    }
  }

  /** One student's placement rule, once the row with the next id is added. */
  lemma AddRowPlaced(s: Store, i: nat, a: Aluno, picks: seq<Pick>, id: int)
    requires i < |Nomes| == |picks|
    requires s.alunos.Keys == SeedIds(i)
    requires a.turmaId.Some? <==> Occupancy(s, Chosen(picks[i]).id) < Chosen(picks[i]).capacidade
    requires 1 <= id <= i + 1
    requires id <= i ==> PlacedFirstCome(s, picks, id)
    ensures PlacedFirstCome(s.(alunos := s.alunos[i + 1 := a]), picks, id)
  {
    var c := Chosen(picks[id - 1]);
    AddRowFirstComeAt(s, i, a, id, c.id, c.capacidade);
  }

  /** Adding the row with the next id keeps placement first-come, given it joined only while there was room. */
  lemma {:induction false} AddRowFirstCome(s: Store, i: nat, a: Aluno, picks: seq<Pick>)
    requires i < |Nomes| == |picks|
    requires s.alunos.Keys == SeedIds(i)
    requires FirstCome(s, picks)
    requires a.turmaId.Some? <==> Occupancy(s, Chosen(picks[i]).id) < Chosen(picks[i]).capacidade
    ensures FirstCome(s.(alunos := s.alunos[i + 1 := a]), picks)
  {
    var s' := s.(alunos := s.alunos[i + 1 := a]);
    forall id | id in s'.alunos && 1 <= id <= |Nomes|
      ensures PlacedFirstCome(s', picks, id)
    {
      assert id <= i + 1;
      if id <= i {
        assert PlacedFirstCome(s, picks, id);
      }
      AddRowPlaced(s, i, a, picks, id);
    }
  }

  /** Adding a row that joins a turma only while it is under capacity keeps every turma within capacity. */
  lemma {:induction false} AddRowCapacity(s: Store, id: int, a: Aluno)
    requires WithinCapacity(s)
    requires id !in s.alunos
    requires a.turmaId.Some? ==>
      (a.turmaId.value in s.turmas && Occupancy(s, a.turmaId.value) < s.turmas[a.turmaId.value].capacidade)
    ensures WithinCapacity(s.(alunos := s.alunos[id := a]))
  {
    var s' := s.(alunos := s.alunos[id := a]);
    forall u | u in s'.turmas
      ensures Occupancy(s', u) <= s'.turmas[u].capacidade
    {
      if a.turmaId == Some(u) {
        assert Members(s', u) == Members(s, u) + {id};
      } else {
        assert Members(s', u) == Members(s, u);
      }
    }
  }

  /** Adding a refused row whose drawn turma is full keeps every refused student's turma full. */
  lemma {:induction false} AddRowRefused(s: Store, id: int, a: Aluno, picks: seq<Pick>)
    requires |picks| == |Nomes|
    requires RefusedFull(s, picks)
    requires id !in s.alunos
    requires a.turmaId.None? && 1 <= id <= |Nomes| ==>
      Occupancy(s, Chosen(picks[id - 1]).id) >= Chosen(picks[id - 1]).capacidade
    ensures RefusedFull(s.(alunos := s.alunos[id := a]), picks)
  {
    var s' := s.(alunos := s.alunos[id := a]);
    forall k | k in s'.alunos && 1 <= k <= |Nomes| && s'.alunos[k].turmaId.None?
      ensures Occupancy(s', Chosen(picks[k - 1]).id) >= Chosen(picks[k - 1]).capacidade
    {
      OccupancyGrows(s, id, a, Chosen(picks[k - 1]).id);
    }
  }

  /** The row for the `k`-th name carries the seeded fields and joins its turma only while it has room. */
  lemma SeedRowFields(s: Store, k: nat, p: Pick)
    requires k < |Nomes|
    requires s.turmas == SeedTurmaMap
    ensures SeededFields(SeedRow(s, k, p), k, p)
    ensures var a := SeedRow(s, k, p);
      a.turmaId.Some? ==>
        (a.turmaId.value in s.turmas && Occupancy(s, a.turmaId.value) < s.turmas[a.turmaId.value].capacidade)
    ensures SeedRow(s, k, p).turmaId.None? ==> Occupancy(s, Chosen(p).id) >= Chosen(p).capacidade
  {
    SeedDateBounds(p.date);
  }

  /** Adding the `i`-th name's row keeps every row a seeded row. */
  lemma AddRowSeeded(s: Store, i: nat, picks: seq<Pick>, a: Aluno)
    requires i < |Nomes| == |picks|
    requires s.alunos.Keys == SeedIds(i)
    requires AllSeeded(s, picks)
    requires SeededFields(a, i, picks[i])
    ensures AllSeeded(s.(alunos := s.alunos[i + 1 := a]), picks)
  {
  }

  /** The e-mail of a seeded row is the one its name produces. */
  lemma SeededEmail(s: Store, picks: seq<Pick>, id: int)
    requires |picks| == |Nomes|
    requires AllSeeded(s, picks) && id in s.alunos
    ensures 1 <= id <= |Nomes| && s.alunos[id].email == Some(SeedEmail(id - 1))
  {
  }

  /** Seeded rows have pairwise distinct e-mails. */
  lemma AllSeededEmailsUnique(s: Store, picks: seq<Pick>)
    requires |picks| == |Nomes|
    requires AllSeeded(s, picks)
    ensures EmailsUnique(s)
  {
    forall a1, a2 | a1 in s.alunos && a2 in s.alunos && a1 != a2 && s.alunos[a1].email.Some?
      ensures s.alunos[a1].email != s.alunos[a2].email
    {
      SeededEmail(s, picks, a1);
      SeededEmail(s, picks, a2);
      SeedEmailsDistinct(a1 - 1, a2 - 1);
    }
  }

  /** The state after seeding the first `i` names. */
  ghost predicate SeedInv(s: Store, i: nat, picks: seq<Pick>)
    requires i <= |Nomes| == |picks|
  {
    && s.turmas == SeedTurmaMap
    && s.alunos.Keys == SeedIds(i)
    && |s.alunos| == i
    && AllSeeded(s, picks)
    && RefusedFull(s, picks)
    && FirstCome(s, picks)
    && KeysAreIds(s) && TurmaNamesUnique(s) && RefsResolve(s) && WithinCapacity(s)
  }

  /** Adding the row with id `i + 1` to the first `i` ids extends the key range by one. */
  lemma AddRowKeys(s: Store, i: nat, a: Aluno)
    requires s.alunos.Keys == SeedIds(i) && |s.alunos| == i
    ensures s.(alunos := s.alunos[i + 1 := a]).alunos.Keys == SeedIds(i + 1)
    ensures |s.(alunos := s.alunos[i + 1 := a]).alunos| == i + 1
  {
  }

  /** Adding a row under its own id, with a resolvable turma, keeps keys, names and references sound. */
  lemma AddRowSound(s: Store, i: nat, a: Aluno)
    requires KeysAreIds(s) && TurmaNamesUnique(s) && RefsResolve(s)
    requires a.id == i + 1
    requires a.turmaId.Some? ==> a.turmaId.value in s.turmas
    ensures var s' := s.(alunos := s.alunos[i + 1 := a]);
      KeysAreIds(s') && TurmaNamesUnique(s') && RefsResolve(s')
  {
  }

  /**
   * Adding the `i`-th name's row keeps the seeding invariant, given that the
   * row carries the seeded fields and joins a turma only while it has room.
   */
  lemma {:induction false} SeedStep(s: Store, i: nat, picks: seq<Pick>, a: Aluno)
    requires i < |Nomes| == |picks|
    requires SeedInv(s, i, picks)
    requires SeededFields(a, i, picks[i])
    requires a.turmaId.Some? ==>
      (a.turmaId.value in s.turmas && Occupancy(s, a.turmaId.value) < s.turmas[a.turmaId.value].capacidade)
    requires a.turmaId.None? ==> Occupancy(s, Chosen(picks[i]).id) >= Chosen(picks[i]).capacidade
    ensures SeedInv(s.(alunos := s.alunos[i + 1 := a]), i + 1, picks)
  {
    AddRowKeys(s, i, a);
    AddRowSeeded(s, i, picks, a);
    AddRowSound(s, i, a);
    AddRowCapacity(s, i + 1, a);
    AddRowRefused(s, i + 1, a, picks);
    AddRowFirstCome(s, i, a, picks);
  }

  /**
   * `run_seed`, starting from any previous contents, which it discards. The
   * occupancy count sees the students added earlier in the same run (the
   * session flushes pending rows before each count).
   */
  method RunSeed(previous: Store, picks: seq<Pick>) returns (s: Store)
    requires |picks| == |Nomes|
    ensures s.turmas == SeedTurmaMap
    ensures |s.alunos| == |Nomes|
    ensures s.alunos.Keys == SeedIds(|Nomes|)
    ensures forall id :: id in s.alunos ==> SeededFields(s.alunos[id], id - 1, picks[id - 1])
    ensures forall id :: id in s.alunos ==>
      s.alunos[id].dataNascimento == RandomDate(SeedStartYear, SeedEndYear, picks[id - 1].date).value
    ensures forall id :: id in s.alunos ==>
      (s.alunos[id].turmaId.Some? <==>
        |DrawnBefore(s, id, Chosen(picks[id - 1]).id)| < Chosen(picks[id - 1]).capacidade)
    ensures forall id :: id in s.alunos && s.alunos[id].turmaId.None? ==>
      Occupancy(s, Chosen(picks[id - 1]).id) >= Chosen(picks[id - 1]).capacidade
    ensures Valid(s) && RefsResolve(s) && WithinCapacity(s)
  {
    s := Store(map[], SeedTurmaMap);
    var i := 0;
    while i < |Nomes|
      invariant 0 <= i <= |Nomes|
      invariant SeedInv(s, i, picks)
    {
      var a := SeedRow(s, i, picks[i]);
      SeedRowFields(s, i, picks[i]);
      SeedStep(s, i, picks, a);
      s := s.(alunos := s.alunos[i + 1 := a]);
      i := i + 1;
    }
    AllSeededEmailsUnique(s, picks);
    forall id | id in s.alunos
      ensures s.alunos[id].turmaId.Some? <==>
        |DrawnBefore(s, id, Chosen(picks[id - 1]).id)| < Chosen(picks[id - 1]).capacidade
    {
      assert PlacedFirstCome(s, picks, id);
    }
  }
}
