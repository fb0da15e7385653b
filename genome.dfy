/**
 * The per-cell genome of cell.py: two rule vectors over the neighbour counts
 * MIN_ALIVE .. MAX_ALIVE-1 (a birth rule and a survival rule) and an age.
 * A cell is a value here; the source's in-place `age += 1` on survivors is
 * modelled in the grid module by storing an aged copy.
 */
module Genome {
  import opened Wrappers

  const MAX_ALIVE: int := 5
  const MIN_ALIVE: int := 2
  /** Lifespan before the per-bit penalty. */
  const EXPECT: int := 100
  /** Generations of lifespan lost per set rule bit. */
  const PENALTY_MULT: int := 20
  /** Number of buckets in each rule vector, MAX_ALIVE - MIN_ALIVE. */
  const SIZE: nat := MAX_ALIVE - MIN_ALIVE

  /** A genome: `birth[i]` / `live[i]` is the rule for neighbour count `i + MIN_ALIVE`. */
  datatype Cell = Cell(birth: seq<int>, live: seq<int>, age: nat)

  /** The two age-death rules: cell.py penalises set bits, main.py does not. */
  datatype Lifespan = Penalised | Unpenalised

  /** Which of the two rule vectors a draw fills. */
  datatype Strand = Birth | Live

  /** The outcome of one bucket's random draws: `choice(cells)` and `random() < k`. */
  datatype Draw = Draw(pick: nat, flip: bool)

  /** One draw per birth bucket and one per survival bucket. */
  datatype Draws = Draws(birth: seq<Draw>, live: seq<Draw>)

  predicate IsBits(s: seq<int>) {
    forall i :: 0 <= i < |s| ==> s[i] == 0 || s[i] == 1
  }

  /** The shape every genome the simulation builds has. */
  predicate Valid(c: Cell) {
    |c.birth| == SIZE && |c.live| == SIZE && IsBits(c.birth) && IsBits(c.live)
  }

  predicate DrawsOk(d: Draws) {
    |d.birth| == SIZE && |d.live| == SIZE
  }

  function Genes(c: Cell, s: Strand): (g: seq<int>)
    ensures Valid(c) ==> |g| == SIZE && IsBits(g)
  {
    match s
    case Birth => c.birth
    case Live => c.live
  }

  // ---------------------------------------------------------------------
  // Construction from lists of neighbour counts

  /** The rule vector that has a 1 exactly at the buckets of the listed counts. */
  function Encode(counts: seq<int>): (bits: seq<int>)
    ensures |bits| == SIZE && IsBits(bits)
  {
    seq(SIZE, i => if i + MIN_ALIVE in counts then 1 else 0)
  }

  /** The constructor's fill loop: start from all zeros, set the bucket of each count below MAX_ALIVE. */
  method FillBits(counts: seq<int>) returns (bits: seq<int>)
    requires forall k :: k in counts ==> MIN_ALIVE <= k
    ensures bits == Encode(counts)
  {
    bits := seq(SIZE, _ => 0);
    var j := 0;
    while j < |counts|
      invariant 0 <= j <= |counts|
      invariant bits == Encode(counts[..j])
    {
      assert counts[j] in counts;
      var index := counts[j] - MIN_ALIVE;
      if index < |bits| {
        bits := bits[index := 1];
      }
      assert counts[..j + 1] == counts[..j] + [counts[j]];
      j := j + 1;
    }
    assert counts[..j] == counts;
  }

  /** The non-raw constructor `Cell(birth, live)`. */
  method NewCell(birth: seq<int>, live: seq<int>) returns (c: Cell)
    requires forall k :: k in birth ==> MIN_ALIVE <= k
    requires forall k :: k in live ==> MIN_ALIVE <= k
    ensures Valid(c) && c.age == 0
    ensures c.birth == Encode(birth) && c.live == Encode(live)
  {
    var b := FillBits(birth);
    var l := FillBits(live);
    c := Cell(b, l, 0);
  }

  // ---------------------------------------------------------------------
  // Rule predicates

  /** The class-level `_is_birth` over a bare birth vector. */
  function IsBirthBits(bits: seq<int>, value: int): (fires: bool)
    requires |bits| == SIZE
    ensures fires ==> MIN_ALIVE <= value < MAX_ALIVE
  {
    if value < MIN_ALIVE || value >= MAX_ALIVE then false
    else bits[value - MIN_ALIVE] == 1
  }

  /** `is_birth`: the cell's birth vector fires at this neighbour count. */
  function IsBirth(c: Cell, value: int): (fires: bool)
    requires |c.birth| == SIZE
    ensures fires ==> MIN_ALIVE <= value < MAX_ALIVE
  {
    IsBirthBits(c.birth, value)
  }

  /** `is_alive`: the cell's survival vector fires at this neighbour count. */
  function IsAlive(c: Cell, value: int): (fires: bool)
    requires |c.live| == SIZE
    ensures fires ==> MIN_ALIVE <= value < MAX_ALIVE
  {
    if value < MIN_ALIVE || value >= MAX_ALIVE then false
    else c.live[value - MIN_ALIVE] == 1
  }

  /** Counts outside `[MIN_ALIVE, MAX_ALIVE)` never fire; inside, each predicate reads its own bucket. */
  lemma RuleGuards(c: Cell, value: int)
    requires |c.birth| == SIZE && |c.live| == SIZE
    ensures value < MIN_ALIVE || value >= MAX_ALIVE ==> !IsBirth(c, value) && !IsAlive(c, value)
    ensures MIN_ALIVE <= value < MAX_ALIVE ==>
              (IsBirth(c, value) <==> c.birth[value - MIN_ALIVE] == 1)
              && (IsAlive(c, value) <==> c.live[value - MIN_ALIVE] == 1)
  {
  }

  // ---------------------------------------------------------------------
  // Age death

  function Sum(s: seq<int>): int {
    if s == [] then 0 else s[0] + Sum(s[1..])
  }

  /** The largest age at which the genome is still alive. */
  function Threshold(c: Cell, rule: Lifespan): int {
    match rule
    case Penalised => EXPECT - PENALTY_MULT * (Sum(c.birth) + Sum(c.live))
    case Unpenalised => EXPECT
  }

  /** `is_dead`: the genome is older than its age limit. */
  function IsDead(c: Cell, rule: Lifespan): bool {
    c.age > Threshold(c, rule)
  }

  lemma {:induction false} SumUpdate(s: seq<int>, i: nat, v: int)
    requires i < |s|
    ensures Sum(s[i := v]) == Sum(s) - s[i] + v
  {
    if i == 0 {
      assert s[i := v][1..] == s[1..];
    } else {
      assert s[i := v][1..] == s[1..][i - 1 := v];
      SumUpdate(s[1..], i - 1, v);
    }
  }

  lemma {:induction false} SumOfBits(s: seq<int>)
    requires IsBits(s)
    ensures 0 <= Sum(s) <= |s|
  {
    if s != [] {
      SumOfBits(s[1..]);
    }
  }

  /** Setting one more rule bit takes exactly PENALTY_MULT generations off the penalised lifespan. */
  lemma SetBitShortensLife(c: Cell, s: Strand, i: nat)
    requires i < |Genes(c, s)| && Genes(c, s)[i] == 0
    ensures var c' := match s
                      case Birth => c.(birth := c.birth[i := 1])
                      case Live => c.(live := c.live[i := 1]);
            Threshold(c', Penalised) == Threshold(c, Penalised) - PENALTY_MULT
            && (IsDead(c, Penalised) ==> IsDead(c', Penalised))
  {
    SumUpdate(Genes(c, s), i, 1);
  }

  /** A well-formed genome's penalised lifespan lies between that of the all-ones and the all-zeros genome. */
  lemma ThresholdRange(c: Cell)
    requires Valid(c)
    ensures EXPECT - PENALTY_MULT * 2 * SIZE <= Threshold(c, Penalised) <= EXPECT
    ensures Threshold(c, Penalised) == EXPECT <==> Sum(c.birth) + Sum(c.live) == 0
  {
    SumOfBits(c.birth);
    SumOfBits(c.live);
  }

  /** All bits set gives a strictly shorter lifespan than no bits set, and one already negative. */
  lemma AllBitsVersusNone(age: nat)
    ensures Threshold(Cell([1, 1, 1], [1, 1, 1], age), Penalised) == -20
    ensures Threshold(Cell([0, 0, 0], [0, 0, 0], age), Penalised) == EXPECT
  {
  }

  /** Once expired, a genome stays expired as its age rises. */
  lemma ExpiryPersists(c: Cell, rule: Lifespan)
    requires IsDead(c, rule)
    ensures IsDead(c.(age := c.age + 1), rule)
  {
  }

  // ---------------------------------------------------------------------
  // Offspring

  /** The parent that `choice(cells)` returns for a given draw. */
  function Pick(parents: seq<Cell>, d: Draw): (p: Cell)
    requires |parents| > 0
    ensures p in parents
  {
    parents[d.pick % |parents|]
  }

  /** `n = 1 - n` when the mutation draw fires. */
  function Mutate(bit: int, flip: bool): (m: int)
    ensures 0 <= bit <= 1 ==> 0 <= m <= 1 && (m == bit <==> !flip)
  {
    if flip then 1 - bit else bit
  }

  /** Per-bucket recombination: each bucket copies its chosen parent's bit, mutated by its own draw. */
  function Recombine(parents: seq<Cell>, s: Strand, draws: seq<Draw>): (bits: seq<int>)
    requires |parents| > 0 && (forall p :: p in parents ==> Valid(p)) && |draws| == SIZE
    ensures |bits| == SIZE && IsBits(bits)
    ensures forall b :: 0 <= b < SIZE ==>
              (bits[b] == Genes(Pick(parents, draws[b]), s)[b] <==> !draws[b].flip)
  {
    seq(SIZE, b requires 0 <= b < SIZE => Mutate(Genes(Pick(parents, draws[b]), s)[b], draws[b].flip))
  }

  /** What `generate_new` returns for a parent pool, a neighbour count and the draws. */
  function Offspring(parents: seq<Cell>, neightCount: int, d: Draws): (child: Option<Cell>)
    requires forall p :: p in parents ==> Valid(p)
    requires DrawsOk(d)
    ensures |parents| == 0 ==> child.None?
    ensures neightCount < MIN_ALIVE || neightCount >= MAX_ALIVE ==> child.None?
    ensures child.Some? ==> Valid(child.value) && child.value.age == 0 && IsBirth(child.value, neightCount)
    ensures child.Some? ==> (child.value.birth == Recombine(parents, Birth, d.birth)
                             && child.value.live == Recombine(parents, Live, d.live))
    ensures |parents| > 0 && IsBirthBits(Recombine(parents, Birth, d.birth), neightCount) ==> child.Some?
  {
    if |parents| == 0 then None
    else
      var birth := Recombine(parents, Birth, d.birth);
      if !IsBirthBits(birth, neightCount) then None
      else Some(Cell(birth, Recombine(parents, Live, d.live), 0))
  }

  /** One of the two draw loops of `generate_new`. */
  method DrawBits(parents: seq<Cell>, s: Strand, draws: seq<Draw>) returns (bits: seq<int>)
    requires |parents| > 0 && (forall p :: p in parents ==> Valid(p)) && |draws| == SIZE
    ensures bits == Recombine(parents, s, draws)
  {
    bits := [];
    var b := 0;
    while b < SIZE
      invariant 0 <= b <= SIZE && |bits| == b
      invariant forall i :: 0 <= i < b ==> bits[i] == Mutate(Genes(Pick(parents, draws[i]), s)[i], draws[i].flip)
    {
      var n := Genes(Pick(parents, draws[b]), s)[b];
      if draws[b].flip {
        n := 1 - n;
      }
      bits := bits + [n];
      b := b + 1;
    }
  }

  /** `generate_new`: the birth vector is drawn and checked before any survival bit is drawn. */
  method GenerateNew(cells: seq<Cell>, neightCount: int, d: Draws) returns (child: Option<Cell>)
    requires forall p :: p in cells ==> Valid(p)
    requires DrawsOk(d)
    ensures child == Offspring(cells, neightCount, d)
  {
    if |cells| == 0 {
      return None;
    }
    var birth := DrawBits(cells, Birth, d.birth);
    if !IsBirthBits(birth, neightCount) {
      return None;
    }
    var live := DrawBits(cells, Live, d.live);
    child := Some(Cell(birth, live, 0));
  }

  /** Whether a child is born, and its birth vector, do not depend on the survival draws. */
  lemma BirthDecidedBeforeLiveDraws(parents: seq<Cell>, neightCount: int, d1: Draws, d2: Draws)
    requires forall p :: p in parents ==> Valid(p)
    requires DrawsOk(d1) && DrawsOk(d2) && d1.birth == d2.birth
    ensures Offspring(parents, neightCount, d1).Some? == Offspring(parents, neightCount, d2).Some?
    ensures Offspring(parents, neightCount, d1).Some? ==>
              Offspring(parents, neightCount, d1).value.birth == Offspring(parents, neightCount, d2).value.birth
  {
  }

  /** Without mutation, a pool of one genotype reproduces that genotype exactly (when its own birth rule fires). */
  lemma CloneWithoutMutation(parents: seq<Cell>, neightCount: int, d: Draws)
    requires |parents| > 0 && Valid(parents[0]) && forall p :: p in parents ==> Valid(p)
    requires forall p :: p in parents ==> p.birth == parents[0].birth && p.live == parents[0].live
    requires DrawsOk(d)
    requires forall b :: 0 <= b < SIZE ==> !d.birth[b].flip && !d.live[b].flip
    ensures Offspring(parents, neightCount, d) ==
              if IsBirth(parents[0], neightCount) then Some(Cell(parents[0].birth, parents[0].live, 0)) else None
  {
    var birth := Recombine(parents, Birth, d.birth);
    var live := Recombine(parents, Live, d.live);
    assert parents[0] in parents;
    forall b | 0 <= b < SIZE
      ensures birth[b] == parents[0].birth[b] && live[b] == parents[0].live[b]
    {
      assert Pick(parents, d.birth[b]) in parents;
      assert Pick(parents, d.live[b]) in parents;
    }
    assert birth == parents[0].birth;
    assert live == parents[0].live;
  }

  // ---------------------------------------------------------------------
  // Back to count lists, and the string form

  /** `_gen_list`: the counts whose bucket is non-zero, in bucket order. */
  function Decode(bits: seq<int>): (counts: seq<int>)
    ensures forall j :: 0 <= j < |counts| ==> MIN_ALIVE <= counts[j] < MIN_ALIVE + |bits|
    ensures forall i :: 0 <= i < |bits| ==> (i + MIN_ALIVE in counts <==> bits[i] != 0)
    ensures forall i, j :: 0 <= i < j < |counts| ==> counts[i] < counts[j]
  {
    if bits == [] then []
    else
      var n := |bits| - 1;
      var prefix := bits[..n];
      var rest := Decode(prefix);
      assert forall i :: 0 <= i < n ==> prefix[i] == bits[i];
      assert n + MIN_ALIVE !in rest;
      rest + if bits[n] != 0 then [n + MIN_ALIVE] else []
  }

  /** `birth_list`: exactly the counts at which `is_birth` holds, ascending. */
  function BirthList(c: Cell): (counts: seq<int>)
    ensures |c.birth| == SIZE && IsBits(c.birth) ==> forall n :: n in counts <==> IsBirth(c, n)
    ensures forall i, j :: 0 <= i < j < |counts| ==> counts[i] < counts[j]
  {
    Decode(c.birth)
  }

  /** `live_list`: exactly the counts at which `is_alive` holds, ascending. */
  function LiveList(c: Cell): (counts: seq<int>)
    ensures |c.live| == SIZE && IsBits(c.live) ==> forall n :: n in counts <==> IsAlive(c, n)
    ensures forall i, j :: 0 <= i < j < |counts| ==> counts[i] < counts[j]
  {
    Decode(c.live)
  }

  /** Building a genome from count lists and listing it back keeps the in-range counts, sorted and without repeats. */
  lemma CountListRoundTrip(birth: seq<int>, live: seq<int>)
    requires forall k :: k in birth ==> MIN_ALIVE <= k
    requires forall k :: k in live ==> MIN_ALIVE <= k
    ensures forall k :: k in BirthList(Cell(Encode(birth), Encode(live), 0)) <==> k in birth && k < MAX_ALIVE
    ensures forall k :: k in LiveList(Cell(Encode(birth), Encode(live), 0)) <==> k in live && k < MAX_ALIVE
  {
    var c := Cell(Encode(birth), Encode(live), 0);
    forall k | k in birth && k < MAX_ALIVE ensures k in BirthList(c) {
      assert c.birth[k - MIN_ALIVE] == 1;
    }
    forall k | k in live && k < MAX_ALIVE ensures k in LiveList(c) {
      assert c.live[k - MIN_ALIVE] == 1;
    }
  }

  /** Rebuilding a genome from its own count lists gives back its rule vectors. */
  lemma RebuildFromLists(c: Cell)
    requires Valid(c)
    ensures Encode(BirthList(c)) == c.birth && Encode(LiveList(c)) == c.live
  {
    forall i | 0 <= i < SIZE ensures Encode(BirthList(c))[i] == c.birth[i] {
      assert i + MIN_ALIVE in BirthList(c) <==> c.birth[i] != 0;
    }
    forall i | 0 <= i < SIZE ensures Encode(LiveList(c))[i] == c.live[i] {
      assert i + MIN_ALIVE in LiveList(c) <==> c.live[i] != 0;
    }
  }

  /** `"".join(map(str, bits))` for a 0/1 vector. */
  function Digits(bits: seq<int>): (s: string)
    requires IsBits(bits)
    ensures |s| == |bits|
    ensures forall i :: 0 <= i < |bits| ==> (s[i] == '1' <==> bits[i] == 1) && (s[i] == '0' <==> bits[i] == 0)
  {
    seq(|bits|, i requires 0 <= i < |bits| => if bits[i] == 1 then '1' else '0')
  }

  /** `__str__`: the birth digits, a newline, the survival digits, a newline, seven dashes. */
  function Render(c: Cell): (s: string)
    requires Valid(c)
    ensures |s| == 2 * SIZE + 9
    ensures s[..SIZE] == Digits(c.birth) && s[SIZE + 1..2 * SIZE + 1] == Digits(c.live)
    ensures s[SIZE] == '\n' && s[2 * SIZE + 1] == '\n' && s[2 * SIZE + 2..] == "-------"
  {
    Digits(c.birth) + "\n" + Digits(c.live) + "\n" + "-------"
  }

  /** Two genomes render alike exactly when they have the same rule vectors (age is not shown). */
  lemma RenderShowsGenotype(c1: Cell, c2: Cell)
    requires Valid(c1) && Valid(c2)
    ensures Render(c1) == Render(c2) <==> c1.birth == c2.birth && c1.live == c2.live
  {
    if Render(c1) == Render(c2) {
      assert Digits(c1.birth) == Render(c1)[..SIZE] == Render(c2)[..SIZE] == Digits(c2.birth);
      assert Digits(c1.live) == Render(c1)[SIZE + 1..2 * SIZE + 1] == Render(c2)[SIZE + 1..2 * SIZE + 1] == Digits(c2.live);
      forall i | 0 <= i < SIZE ensures c1.birth[i] == c2.birth[i] && c1.live[i] == c2.live[i] {
        assert Digits(c1.birth)[i] == Digits(c2.birth)[i];
        assert Digits(c1.live)[i] == Digits(c2.live)[i];
      }
    }
  }

  /** `conway()`: born at three neighbours, survives at two or three. */
  method Conway() returns (c: Cell)
    ensures Valid(c) && c.age == 0
    ensures c.birth == [0, 1, 0] && c.live == [1, 1, 0]
    ensures forall n :: IsBirth(c, n) <==> n == 3
    ensures forall n :: IsAlive(c, n) <==> n == 2 || n == 3
  {
    c := NewCell([3], [2, 3]);
    assert c.birth[0] == 0 && c.birth[1] == 1 && c.birth[2] == 0;
    assert c.live[0] == 1 && c.live[1] == 1 && c.live[2] == 0;
  }

  /** Conway's genome has three set bits, so under the penalised rule it expires once older than 40. */
  lemma ConwayLifespan(c: Cell)
    requires c.birth == [0, 1, 0] && c.live == [1, 1, 0]
    ensures IsDead(c, Penalised) <==> c.age > 40
  {
    assert Sum(c.birth[3..]) == 0 && Sum(c.live[3..]) == 0;
    assert c.birth[2..][1..] == c.birth[3..] && c.live[2..][1..] == c.live[3..];
    assert Sum(c.birth[2..]) == 0 && Sum(c.live[2..]) == 0;
    assert c.birth[1..][1..] == c.birth[2..] && c.live[1..][1..] == c.live[2..];
    assert Sum(c.birth[1..]) == 1 && Sum(c.live[1..]) == 1;
  }
}
