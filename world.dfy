/**
 * The toroidal world of world.py: an h x w grid of optional genomes,
 * Moore-neighbour counting with each axis wrapped modulo its dimension,
 * the generation step, and the per-genotype census.
 */
module WorldGrid {
  import opened Wrappers
  import opened Genome

  /** `cells[y][x]`: row y, column x. */
  type Grid = seq<seq<Option<Cell>>>
  /** What row-major iteration yields: `(x, y, cells[y][x])`. */
  type Triple = (nat, nat, Option<Cell>)
  /** The census key `(tuple(birth), tuple(live))`; age is not part of it. */
  type Genotype = (seq<int>, seq<int>)

  /** The eight Moore offsets `(dx, dy)` in the order the world visits them. */
  const NEIGHT: seq<(int, int)> :=
    [(-1, -1), (-1, 0), (-1, 1), (0, -1), (0, 1), (1, -1), (1, 0), (1, 1)]

  predicate IsGrid(g: Grid, w: nat, h: nat) {
    |g| == h && forall y :: 0 <= y < h ==> |g[y]| == w
  }

  /** The world's invariant: the grid has its dimensions and every occupant is a well-formed genome. */
  predicate GridOk(g: Grid, w: nat, h: nat) {
    IsGrid(g, w, h) && forall y, x :: 0 <= y < h && 0 <= x < w && g[y][x].Some? ==> Valid(g[y][x].value)
  }

  /** One `Draws` per slot, in the grid's shape. */
  predicate DrawGridOk(draws: seq<seq<Draws>>, w: nat, h: nat) {
    |draws| == h && forall y :: 0 <= y < h ==> |draws[y]| == w && forall x :: 0 <= x < w ==> DrawsOk(draws[y][x])
  }

  /** `_new_world`: h rows of w empty slots. */
  function EmptyGrid(w: nat, h: nat): (g: Grid)
    ensures GridOk(g, w, h)
    ensures forall y, x :: 0 <= y < h && 0 <= x < w ==> g[y][x] == None
  {
    seq(h, _ => seq(w, _ => None))
  }

  // ---------------------------------------------------------------------
  // Neighbours on the torus

  /** A coordinate taken back into `[0, n)`; Python's `%` with a positive divisor is Dafny's. */
  function Wrap(v: int, n: nat): (r: int)
    requires n > 0
    ensures 0 <= r < n && r == v % n
    ensures 0 <= v < n ==> r == v
  {
    if 0 <= v < n then v else v % n
  }

  /** The slot that offset number `k` reaches from `(cx, cy)`. */
  function Slot(g: Grid, w: nat, h: nat, cx: int, cy: int, k: nat): Option<Cell>
    requires IsGrid(g, w, h) && w > 0 && h > 0 && k < |NEIGHT|
  {
    g[Wrap(cy + NEIGHT[k].1, h)][Wrap(cx + NEIGHT[k].0, w)]
  }

  /** `_neight` over the first `k` offsets: the occupants of the wrapped neighbour slots, in offset order. */
  function NeighbourCells(g: Grid, w: nat, h: nat, cx: int, cy: int, k: nat): (ns: seq<Cell>)
    requires IsGrid(g, w, h) && w > 0 && h > 0 && k <= |NEIGHT|
    ensures |ns| <= k
    ensures GridOk(g, w, h) ==> forall c :: c in ns ==> Valid(c)
  {
    if k == 0 then []
    else
      match Slot(g, w, h, cx, cy, k - 1)
      case None => NeighbourCells(g, w, h, cx, cy, k - 1)
      case Some(c) => NeighbourCells(g, w, h, cx, cy, k - 1) + [c]
  }

  /** The offsets among the first `k` whose wrapped slot is occupied. */
  ghost function OccupiedOffsets(g: Grid, w: nat, h: nat, cx: int, cy: int, k: nat): set<nat>
    requires IsGrid(g, w, h) && w > 0 && h > 0 && k <= |NEIGHT|
  {
    set i: nat | i < k && Slot(g, w, h, cx, cy, i).Some?
  }

  /** Going from `k - 1` offsets to `k` adds offset `k - 1` exactly when its slot is occupied. */
  lemma OccupiedOffsetsStep(g: Grid, w: nat, h: nat, cx: int, cy: int, k: nat)
    requires IsGrid(g, w, h) && w > 0 && h > 0 && 0 < k <= |NEIGHT|
    ensures k - 1 !in OccupiedOffsets(g, w, h, cx, cy, k - 1)
    ensures OccupiedOffsets(g, w, h, cx, cy, k) ==
      OccupiedOffsets(g, w, h, cx, cy, k - 1) + if Slot(g, w, h, cx, cy, k - 1).Some? then {k - 1} else {}
  {
  }

  /** The neighbour count is the number of offsets whose wrapped slot is occupied. */
  lemma {:induction false} CountIsOccupiedOffsets(g: Grid, w: nat, h: nat, cx: int, cy: int, k: nat)
    requires IsGrid(g, w, h) && w > 0 && h > 0 && k <= |NEIGHT|
    ensures |NeighbourCells(g, w, h, cx, cy, k)| == |OccupiedOffsets(g, w, h, cx, cy, k)|
  {
    if k == 0 {
      assert OccupiedOffsets(g, w, h, cx, cy, k) == {};
    } else {
      CountIsOccupiedOffsets(g, w, h, cx, cy, k - 1);
      OccupiedOffsetsStep(g, w, h, cx, cy, k);
    }
  }

  /** The occupant of any offset's wrapped slot is in the neighbour list. */
  lemma {:induction false} SlotIsNeighbour(g: Grid, w: nat, h: nat, cx: int, cy: int, i: nat, k: nat)
    requires IsGrid(g, w, h) && w > 0 && h > 0 && i < k <= |NEIGHT|
    requires Slot(g, w, h, cx, cy, i).Some?
    ensures Slot(g, w, h, cx, cy, i).value in NeighbourCells(g, w, h, cx, cy, k)
  {
    if i < k - 1 {
      SlotIsNeighbour(g, w, h, cx, cy, i, k - 1);
    }
  }

  /** A cell at (0, 0) is a neighbour of (w-1, h-1), (w-1, 0) and (0, h-1). */
  lemma TorusCorner(g: Grid, w: nat, h: nat)
    requires IsGrid(g, w, h) && w > 0 && h > 0 && g[0][0].Some?
    ensures g[0][0].value in NeighbourCells(g, w, h, w - 1, h - 1, |NEIGHT|)
    ensures g[0][0].value in NeighbourCells(g, w, h, w - 1, 0, |NEIGHT|)
    ensures g[0][0].value in NeighbourCells(g, w, h, 0, h - 1, |NEIGHT|)
  {
    assert Slot(g, w, h, w - 1, h - 1, 7) == g[0][0];
    SlotIsNeighbour(g, w, h, w - 1, h - 1, 7, |NEIGHT|);
    assert Slot(g, w, h, w - 1, 0, 6) == g[0][0];
    SlotIsNeighbour(g, w, h, w - 1, 0, 6, |NEIGHT|);
    assert Slot(g, w, h, 0, h - 1, 4) == g[0][0];
    SlotIsNeighbour(g, w, h, 0, h - 1, 4, |NEIGHT|);
  }

  // ---------------------------------------------------------------------
  // Row-major iteration

  /** `_iter_by` over the first `rows` rows: y outer, x inner. */
  function RowMajor(g: Grid, w: nat, rows: nat): (ts: seq<Triple>)
    requires rows <= |g| && forall y :: 0 <= y < rows ==> |g[y]| == w
    ensures |ts| == rows * w
    ensures forall i :: 0 <= i < |ts| ==> ts[i].1 < rows && ts[i].0 < w && ts[i].2 == g[ts[i].1][ts[i].0]
  {
    if rows == 0 then []
    else
      var prev := RowMajor(g, w, rows - 1);
      assert |prev| + w == rows * w by {
        MulSucc(rows - 1, w);
      }
      prev + seq(w, x requires 0 <= x < w => (x, rows - 1, g[rows - 1][x]))
  }

  lemma MulSucc(a: nat, w: nat)
    ensures a * w + w == (a + 1) * w
  {
  }

  lemma MulMono(a: nat, b: nat, w: nat)
    requires a <= b
    ensures a * w <= b * w
  {
  }

  /** Row-major order: slot (x, y) is triple number `y * w + x`. */
  lemma {:induction false} RowMajorAt(g: Grid, w: nat, rows: nat, y: nat, x: nat)
    requires rows <= |g| && forall j :: 0 <= j < rows ==> |g[j]| == w
    requires y < rows && x < w
    ensures y * w + x < |RowMajor(g, w, rows)|
    ensures RowMajor(g, w, rows)[y * w + x] == (x, y, g[y][x])
  {
    var prev := RowMajor(g, w, rows - 1);
    MulSucc(rows - 1, w);
    if y < rows - 1 {
      RowMajorAt(g, w, rows - 1, y, x);
      MulSucc(y, w);
      MulMono(y + 1, rows - 1, w);
    } else {
      assert y * w + x == |prev| + x;
    }
  }

  /** Number of occupied slots among the triples. */
  function Occupancy(ts: seq<Triple>): nat {
    if ts == [] then 0
    else Occupancy(ts[..|ts| - 1]) + if ts[|ts| - 1].2.Some? then 1 else 0
  }

  /** The census key `(tuple(cell.birth), tuple(cell.live))`. */
  function Key(c: Cell): Genotype {
    (c.birth, c.live)
  }

  /** Genomes that differ only in age fall under the same census key. */
  lemma KeyIgnoresAge(c: Cell, age: nat)
    ensures Key(c.(age := age)) == Key(c)
    ensures forall c' :: Key(c') == Key(c) <==> c'.birth == c.birth && c'.live == c.live
  {
  }

  /** Number of occupied slots among the triples whose genome has the given genotype. */
  function Census(ts: seq<Triple>, k: Genotype): nat {
    if ts == [] then 0
    else
      var t := ts[|ts| - 1];
      Census(ts[..|ts| - 1], k) + if t.2.Some? && Key(t.2.value) == k then 1 else 0
  }

  /** Appending one triple adds one to its genotype's count and to the occupancy, if it is occupied. */
  lemma CensusExtend(s: seq<Triple>, t: Triple)
    ensures Occupancy(s + [t]) == Occupancy(s) + if t.2.Some? then 1 else 0
    ensures forall k :: Census(s + [t], k) == Census(s, k) + if t.2.Some? && Key(t.2.value) == k then 1 else 0
  {
    assert (s + [t])[..|s|] == s;
  }

  lemma {:induction false} NoneOccupied(ts: seq<Triple>)
    requires forall i :: 0 <= i < |ts| ==> ts[i].2 == None
    ensures Occupancy(ts) == 0
  {
    if ts != [] {
      NoneOccupied(ts[..|ts| - 1]);
    }
  }

  /** After `clean`, iteration still visits every slot but finds none occupied. */
  lemma CleanLeavesNothing(w: nat, h: nat)
    ensures |RowMajor(EmptyGrid(w, h), w, h)| == w * h
    ensures forall i :: 0 <= i < w * h ==> RowMajor(EmptyGrid(w, h), w, h)[i].2 == None
    ensures Occupancy(RowMajor(EmptyGrid(w, h), w, h)) == 0
  {
    NoneOccupied(RowMajor(EmptyGrid(w, h), w, h));
  }

  // ---------------------------------------------------------------------
  // The census map

  function Count(m: map<Genotype, nat>, k: Genotype): nat {
    if k in m then m[k] else 0
  }

  ghost function PickKey(m: map<Genotype, nat>): (k: Genotype)
    requires m != map[]
    ensures k in m
  {
    var k :| k in m; k
  }

  /** The sum of a map's counts. */
  ghost function MapSum(m: map<Genotype, nat>): nat
    decreases |m|
  {
    if m == map[] then 0
    else
      var k := PickKey(m);
      m[k] + MapSum(m - {k})
  }

  lemma {:induction false} MapSumRemove(m: map<Genotype, nat>, k: Genotype)
    requires k in m
    ensures MapSum(m) == m[k] + MapSum(m - {k})
    decreases |m|
  {
    var j := PickKey(m);
    if j != k {
      MapSumRemove(m - {j}, k);
      MapSumRemove(m - {k}, j);
      assert m - {j} - {k} == m - {k} - {j};
    }
  }

  lemma MapSumUpdate(m: map<Genotype, nat>, k: Genotype, v: nat)
    ensures MapSum(m[k := v]) == MapSum(m) - Count(m, k) + v
  {
    MapSumRemove(m[k := v], k);
    assert m[k := v] - {k} == m - {k};
    if k in m {
      MapSumRemove(m, k);
    } else {
      assert m - {k} == m;
    }
  }

  /** `m` is the census of the triples `s`: positive counts, one per genotype present, summing to the occupancy. */
  ghost predicate Tallies(m: map<Genotype, nat>, s: seq<Triple>) {
    && (forall k :: k in m ==> m[k] > 0)
    && (forall k :: Count(m, k) == Census(s, k))
    && MapSum(m) == Occupancy(s)
  }

  /** One more triple: an occupied one bumps its genotype's count, an empty one changes nothing. */
  lemma TallyExtend(m: map<Genotype, nat>, s: seq<Triple>, t: Triple)
    requires Tallies(m, s)
    ensures t.2.None? ==> Tallies(m, s + [t])
    ensures t.2.Some? ==> Tallies(m[Key(t.2.value) := Count(m, Key(t.2.value)) + 1], s + [t])
  {
    CensusExtend(s, t);
    if t.2.Some? {
      var key := Key(t.2.value);
      var m' := m[key := Count(m, key) + 1];
      MapSumUpdate(m, key, Count(m, key) + 1);
      forall k ensures Count(m', k) == Census(s + [t], k) {
        if k != key {
          assert Count(m', k) == Count(m, k);
        }
      }
    }
  }

  // ---------------------------------------------------------------------
  // One generation

  /** A placed genome's `age += 1`. */
  function Aged(slot: Option<Cell>): (r: Option<Cell>)
    ensures r.Some? <==> slot.Some?
    ensures slot.Some? ==> Key(r.value) == Key(slot.value) && r.value.age == slot.value.age + 1
  {
    match slot
    case None => None
    case Some(c) => Some(c.(age := c.age + 1))
  }

  /** What `step` puts at (x, y): judged on the old grid only. */
  function NextSlot(g: Grid, w: nat, h: nat, rule: Lifespan, x: nat, y: nat, d: Draws): (slot: Option<Cell>)
    requires GridOk(g, w, h) && x < w && y < h && DrawsOk(d)
    ensures slot.Some? ==> Valid(slot.value) && slot.value.age >= 1
  {
    var parents := NeighbourCells(g, w, h, x, y, |NEIGHT|);
    var n := |parents|;
    var placed :=
      match g[y][x]
      case None =>
        var child := Offspring(parents, n, d);
        if child.Some? && !IsBirth(child.value, n) then None else child
      case Some(c) =>
        if !IsAlive(c, n) || IsDead(c, rule) then None else Some(c);
    Aged(placed)
  }

  /** The grid `step` leaves behind. */
  function StepGrid(g: Grid, w: nat, h: nat, rule: Lifespan, draws: seq<seq<Draws>>): (next: Grid)
    requires GridOk(g, w, h) && DrawGridOk(draws, w, h)
    ensures GridOk(next, w, h)
  {
    seq(h, y requires 0 <= y < h =>
      seq(w, x requires 0 <= x < w => NextSlot(g, w, h, rule, x, y, draws[y][x])))
  }

  /** An occupant survives iff its survival rule fires and it has not expired; a survivor keeps its rules and ages by one. */
  lemma SurvivalRule(g: Grid, w: nat, h: nat, rule: Lifespan, x: nat, y: nat, d: Draws)
    requires GridOk(g, w, h) && x < w && y < h && DrawsOk(d) && g[y][x].Some?
    ensures var c := g[y][x].value;
            var n := |NeighbourCells(g, w, h, x, y, |NEIGHT|)|;
            (NextSlot(g, w, h, rule, x, y, d).Some? <==> IsAlive(c, n) && !IsDead(c, rule))
            && (NextSlot(g, w, h, rule, x, y, d).Some? ==> NextSlot(g, w, h, rule, x, y, d).value == c.(age := c.age + 1))
  {
  }

  /** An empty slot is filled only by an offspring whose own birth rule fires; the newborn leaves the step aged 1,
      and the re-check in `step` never discards an offspring. */
  lemma BirthRule(g: Grid, w: nat, h: nat, rule: Lifespan, x: nat, y: nat, d: Draws)
    requires GridOk(g, w, h) && x < w && y < h && DrawsOk(d) && g[y][x].None?
    ensures var parents := NeighbourCells(g, w, h, x, y, |NEIGHT|);
            var n := |parents|;
            NextSlot(g, w, h, rule, x, y, d) == Aged(Offspring(parents, n, d))
            && (NextSlot(g, w, h, rule, x, y, d).Some? ==>
                  IsBirth(NextSlot(g, w, h, rule, x, y, d).value, n) && NextSlot(g, w, h, rule, x, y, d).value.age == 1)
            && (n == 0 ==> NextSlot(g, w, h, rule, x, y, d).None?)
  {
  }

  // ---------------------------------------------------------------------
  // The world object

  /** The loop of `stats`: `setdefault(key, 0)` then `+= 1` for every occupied triple. */
  method Tally(ts: seq<Triple>) returns (types: map<Genotype, nat>)
    ensures Tallies(types, ts)
  {
    types := map[];
    var i := 0;
    while i < |ts|
      invariant 0 <= i <= |ts|
      invariant Tallies(types, ts[..i])
    {
      assert ts[..i + 1] == ts[..i] + [ts[i]];
      ghost var before := types;
      var cell := ts[i].2;
      if cell.Some? {
        var key := Key(cell.value);
        if key !in types {
          types := types[key := 0];
        }
        assert types[key] == Count(before, key);
        types := types[key := types[key] + 1];
        assert types == before[key := Count(before, key) + 1] by {
          assert types.Keys == before.Keys + {key};
        }
      }
      TallyExtend(before, ts[..i], ts[i]);
      i := i + 1;
    }
    assert ts[..i] == ts;
  }

  class World {
    const w: nat
    const h: nat
    /** Which genome class the world runs: cell.py's (Penalised) or main.py's (Unpenalised). */
    const lifespan: Lifespan
    var cells: Grid

    ghost predicate Valid()
      reads this
    {
      GridOk(cells, w, h)
    }

    constructor (width: nat, height: nat, lifespan: Lifespan)
      ensures Valid() && w == width && h == height && this.lifespan == lifespan
      ensures cells == EmptyGrid(width, height)
    {
      w := width;
      h := height;
      this.lifespan := lifespan;
      cells := EmptyGrid(width, height);
    }

    /** `add_cell`: writes slot [y][x] and nothing else. */
    method AddCell(x: nat, y: nat, cell: Cell)
      requires Valid() && x < w && y < h && Genome.Valid(cell)
      modifies this
      ensures Valid()
      ensures cells[y][x] == Some(cell)
      ensures forall j, i :: 0 <= j < h && 0 <= i < w && (j != y || i != x) ==> cells[j][i] == old(cells[j][i])
    {
      cells := cells[y := cells[y][x := Some(cell)]];
    }

    /** `__getitem__((x, y))` reads row y, column x. */
    function Get(x: nat, y: nat): (slot: Option<Cell>)
      reads this
      requires Valid() && x < w && y < h
      ensures slot == cells[y][x]
      ensures slot.Some? ==> Genome.Valid(slot.value)
    {
      cells[y][x]
    }

    /** `clean`: a fresh empty grid of the same dimensions. */
    method Clean()
      requires Valid()
      modifies this
      ensures Valid() && cells == EmptyGrid(w, h)
    {
      cells := EmptyGrid(w, h);
    }

    /** `_iter_by`: every slot of `g` as `(x, y, slot)`, y outer and x inner. */
    method IterBy(g: Grid) returns (ts: seq<Triple>)
      requires IsGrid(g, w, h)
      ensures ts == RowMajor(g, w, h)
    {
      ts := [];
      var y := 0;
      while y < h
        invariant 0 <= y <= h
        invariant ts == RowMajor(g, w, y)
      {
        var x := 0;
        while x < w
          invariant 0 <= x <= w
          invariant ts == RowMajor(g, w, y) + seq(x, i requires 0 <= i < x => (i, y, g[y][i]))
        {
          ts := ts + [(x, y, g[y][x])];
          x := x + 1;
        }
        y := y + 1;
      }
    }

    /** `__iter__`: the current grid in row-major order, exactly w * h triples. */
    method Iter() returns (ts: seq<Triple>)
      requires Valid()
      ensures ts == RowMajor(cells, w, h) && |ts| == w * h
    {
      ts := IterBy(cells);
    }

    /** `_neight`: the occupants of the eight wrapped neighbour slots of (cx, cy). */
    method Neighbours(cx: int, cy: int) returns (ns: seq<Cell>)
      requires Valid() && w > 0 && h > 0
      ensures ns == NeighbourCells(cells, w, h, cx, cy, |NEIGHT|)
    {
      ns := [];
      var k := 0;
      while k < |NEIGHT|
        invariant 0 <= k <= |NEIGHT|
        invariant ns == NeighbourCells(cells, w, h, cx, cy, k)
      {
        var (dx, dy) := NEIGHT[k];
        var x := cx + dx;
        var y := cy + dy;
        if !(0 <= x < w) {
          x := x % w;
        }
        if !(0 <= y < h) {
          y := y % h;
        }
        assert cells[y][x] == Slot(cells, w, h, cx, cy, k);
        assert NeighbourCells(cells, w, h, cx, cy, k + 1) ==
          ns + if cells[y][x].Some? then [cells[y][x].value] else [];
        if cells[y][x].Some? {
          ns := ns + [cells[y][x].value];
        }
        k := k + 1;
      }
    }

    /** `_neight_count`: how many of the eight offsets reach an occupied slot. */
    method NeighbourCount(cx: int, cy: int) returns (n: nat)
      requires Valid() && w > 0 && h > 0
      ensures n == |NeighbourCells(cells, w, h, cx, cy, |NEIGHT|)| && n <= 8
    {
      var ns := Neighbours(cx, cy);
      n := |ns|;
    }

    /** The body of `step` for one slot, before the age increment: survival for an occupant, gated birth for an empty slot. */
    method Judge(x: nat, y: nat, d: Draws) returns (cell: Option<Cell>)
      requires Valid() && x < w && y < h && DrawsOk(d)
      ensures Aged(cell) == NextSlot(cells, w, h, lifespan, x, y, d)
    {
      var neight := NeighbourCount(x, y);
      cell := cells[y][x];
      if cell.None? {
        var parents := Neighbours(x, y);
        cell := GenerateNew(parents, neight, d);
        if cell.Some? && !IsBirth(cell.value, neight) {
          cell := None;
        }
      } else {
        if !IsAlive(cell.value, neight) || IsDead(cell.value, lifespan) {
          cell := None;
        }
      }
    }

    /** `step`: every new slot is computed from the old grid into a fresh one, which then replaces it. */
    method Step(draws: seq<seq<Draws>>)
      requires Valid() && DrawGridOk(draws, w, h)
      modifies this
      ensures Valid()
      ensures cells == StepGrid(old(cells), w, h, lifespan, draws)
    {
      ghost var next := StepGrid(cells, w, h, lifespan, draws);
      var newCells := EmptyGrid(w, h);
      var y := 0;
      while y < h
        invariant 0 <= y <= h
        invariant cells == old(cells) && Valid()
        invariant IsGrid(newCells, w, h)
        invariant forall j :: 0 <= j < y ==> newCells[j] == next[j]
      {
        var x := 0;
        while x < w
          invariant 0 <= x <= w
          invariant cells == old(cells) && Valid()
          invariant IsGrid(newCells, w, h)
          invariant forall j :: 0 <= j < y ==> newCells[j] == next[j]
          invariant forall i :: 0 <= i < x ==> newCells[y][i] == next[y][i]
        {
          var cell := Judge(x, y, draws[y][x]);
          newCells := newCells[y := newCells[y][x := cell]];
          if cell.Some? {
            newCells := newCells[y := newCells[y][x := Some(cell.value.(age := cell.value.age + 1))]];
          }
          x := x + 1;
        }
        assert newCells[y] == next[y];
        y := y + 1;
      }
      assert newCells == next;
      cells := newCells;
    }

    /** `stats`: for each genotype present, how many occupied slots carry it. */
    method Stats() returns (types: map<Genotype, nat>)
      requires Valid()
      ensures forall k :: k in types ==> types[k] > 0
      ensures forall k :: Count(types, k) == Census(RowMajor(cells, w, h), k)
      ensures MapSum(types) == Occupancy(RowMajor(cells, w, h))
    {
      var ts := Iter();
      types := Tally(ts);
    }
  }
}
