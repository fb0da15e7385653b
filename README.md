# evo_life simulation engine in Dafny

A model of the simulation core of evo_life, a Game of Life variant in which
every living cell carries its own rule. A cell's genome is two 3-entry 0/1
vectors over the neighbour counts 2, 3 and 4 (`MIN_ALIVE = 2`,
`MAX_ALIVE = 5`). The `birth` vector says at which counts an empty slot is
born. The `live` vector says at which counts a cell survives. A cell also has
an age. Cells die of old age past `EXPECT = 100` generations. In `cell.py`
that limit drops by `PENALTY_MULT = 20` per set rule bit.

The world is an `h x w` torus of optional cells. One `step` visits every slot
in row-major order and judges it on the old grid only:

- an occupied slot survives if its survival rule fires at its Moore-neighbour
  count and it has not expired;
- an empty slot gets an offspring of its occupied neighbours if the
  offspring's own birth rule fires at that count.

Every placed cell then ages by one, and the new grid replaces the old one.
`stats` counts the live cells of each genotype `(birth, live)`.

Files:

- `wrappers.dfy`: `Option`, used for empty slots and for "no offspring".
- `genome.dfy` (module `Genome`, from `cell.py`):
  - the `Cell` value and the constructor's fill loops;
  - the rule predicates and the age death rule;
  - offspring by per-bucket recombination and mutation;
  - the count lists, the string form and the Conway seed.
- `world.dfy` (module `WorldGrid`, from `world.py`):
  - toroidal neighbours and row-major iteration;
  - the step, as a specification function `StepGrid` and as the `World`
    class's `Step` method;
  - the census.
- `prototype.dfy` (module `Prototype`, from `main.py`):
  - `main.py` lines 15-203 repeat `cell.py` and `world.py` line for line,
    except `is_dead` (main.py:54-55), which has no per-bit penalty;
  - the shared members model both copies, and `Lifespan` selects the
    death rule (`Penalised` for `cell.py`, `Unpenalised` for `main.py`);
  - a `World` built with `Unpenalised` runs `main.py`'s genome;
  - the module states what the different rule changes.

Line correspondences for `main.py`:

| main.py | cell.py / world.py |
|---|---|
| 20-38 | cell.py:11-29 |
| 40-52 | cell.py:31-43 |
| 57-103 | cell.py:50-96 |
| 106-186 | world.py:6-86 |
| 199-203 | world.py:99-103 |

Randomness is an explicit input. `generate_new` draws once per bucket. Each
draw is a `Draw(pick, flip)`:

- `choice(cells)` is `cells[pick % |cells|]`, so every supplied index is
  usable and every parent can be chosen;
- `random() < k` is the boolean `flip`.

`Step` takes one `Draws` per slot (an `h x w` grid of them). The step is then
a function of the old grid and the draws.

## Model

| member | source | states |
|---|---|---|
| `Genome.Encode` | cell.py:18-28 | the vector the non-raw constructor builds has exactly `MAX_ALIVE - MIN_ALIVE` (3) entries, each 0 or 1 |
| `Genome.FillBits` | cell.py:18-22 | the constructor's loop (zeros, then a 1 at bucket `count - MIN_ALIVE` for each count that fits) yields `Encode(counts)`: a 1 exactly at the listed counts below `MAX_ALIVE` |
| `Genome.NewCell` | cell.py:11-29 | `Cell(birth, live)` gives well-formed 3-entry 0/1 vectors, the encodings of both count lists, and age 0 |
| `Genome.IsBirthBits` | cell.py:31-35 | `_is_birth` over a bare vector fires only for counts in `[MIN_ALIVE, MAX_ALIVE)`; its body is the definition and `RuleGuards` states which bucket it reads |
| `Genome.IsBirth` | cell.py:37-38 | `is_birth` fires only for counts in `[MIN_ALIVE, MAX_ALIVE)`; `RuleGuards` states that inside the range it is bucket `n - MIN_ALIVE` of the birth vector |
| `Genome.IsAlive` | cell.py:40-43 | `is_alive` fires only for counts in `[MIN_ALIVE, MAX_ALIVE)`; `RuleGuards` states that inside the range it is bucket `n - MIN_ALIVE` of the survival vector |
| `Genome.RuleGuards` | cell.py:31-43 | `is_birth`/`is_alive` are false for counts below `MIN_ALIVE` or at least `MAX_ALIVE`; inside the range each reads bucket `n - MIN_ALIVE` |
| `Genome.Threshold` | cell.py:45-48 | the age limit: `EXPECT - PENALTY_MULT * (sum(birth) + sum(live))` under `cell.py`'s rule, `EXPECT` under `main.py`'s (main.py:54-55); no contract, the body is the definition, and `ThresholdRange`, `SetBitShortensLife` and `Prototype.UnpenalisedExpiry` state its properties |
| `Genome.IsDead` | cell.py:45-48 | `is_dead`: the age exceeds the limit; no contract, the body is the definition, and `ExpiryPersists`, `ConwayLifespan` and `Prototype.PenaltyOnlyShortensLife` state its properties |
| `Genome.SetBitShortensLife` | cell.py:45-48 | setting one more birth or survival bit lowers the penalised age limit by exactly `PENALTY_MULT`, so a genome already expired stays expired |
| `Genome.ThresholdRange` | cell.py:45-48 | a well-formed genome's penalised age limit lies between -20 (all six bits set) and 100, and it is 100 exactly when no bit is set |
| `Genome.AllBitsVersusNone` | cell.py:45-48 | the all-ones genome's limit is -20, below that of the all-zeros genome (100), so it expires from its first step |
| `Genome.ExpiryPersists` | cell.py:45-48 | once `is_dead` holds it keeps holding as the age rises |
| `Genome.ConwayLifespan` | cell.py:45-48 | Conway's genome has three set bits and expires exactly when older than 40 |
| `Genome.Pick` | cell.py:60 | the parent `choice(cells)` returns is a member of the pool |
| `Genome.Mutate` | cell.py:61-62 | `n = 1 - n` on a draw that fires: a 0/1 bit stays 0/1 and keeps its value exactly when the draw does not fire |
| `Genome.Recombine` | cell.py:58-73 | each child bucket equals its chosen parent's bit exactly when that bucket's mutation draw does not fire; the vector has 3 entries, each 0 or 1 |
| `Genome.Offspring` | cell.py:50-75 | no offspring for an empty pool or a count outside `[MIN_ALIVE, MAX_ALIVE)`; otherwise an offspring exists iff the recombined birth vector fires at the count; it is well formed, has age 0, satisfies `is_birth(count)` and carries the recombined vectors |
| `Genome.DrawBits` | cell.py:58-63 | one draw loop of `generate_new` builds exactly the recombined vector |
| `Genome.GenerateNew` | cell.py:50-75 | the method (birth loop, check, then survival loop) returns exactly `Offspring` |
| `Genome.BirthDecidedBeforeLiveDraws` | cell.py:65-73 | whether a child is born, and its birth vector, do not depend on the survival draws |
| `Genome.CloneWithoutMutation` | cell.py:58-75 | with no flips and a pool of one genotype, the child has that genotype and age 0 if its birth rule fires at the count, and there is no child otherwise |
| `Genome.Decode` | cell.py:77-80 | `_gen_list` yields exactly the counts `i + MIN_ALIVE` whose bucket `i` is non-zero, strictly ascending |
| `Genome.BirthList` | cell.py:82-83 | `birth_list` is strictly ascending and, for a 0/1 vector, holds exactly the counts at which `is_birth` holds |
| `Genome.LiveList` | cell.py:85-86 | `live_list` is strictly ascending and, for a 0/1 vector, holds exactly the counts at which `is_alive` holds |
| `Genome.CountListRoundTrip` | cell.py:77-86 | listing a genome built from count lists gives back exactly the listed counts below `MAX_ALIVE` (ascending, without repeats) |
| `Genome.RebuildFromLists` | cell.py:77-86 | encoding a genome's own count lists gives back its rule vectors |
| `Genome.Digits` | cell.py:89-90 | `"".join(map(str, bits))` has one character per bucket, '1' for 1 and '0' for 0 |
| `Genome.Render` | cell.py:88-92 | `__str__` is 15 characters: birth digits, newline, survival digits, newline, seven dashes |
| `Genome.RenderShowsGenotype` | cell.py:88-92 | two well-formed genomes render alike iff they have the same birth and survival vectors |
| `Genome.Conway` | cell.py:94-96 | `conway()` has `birth = [0,1,0]`, `live = [1,1,0]` and age 0; `is_birth` holds only at 3 and `is_alive` only at 2 and 3 |
| `WorldGrid.EmptyGrid` | world.py:29-33 | `_new_world` has `h` rows of `w` slots, all empty |
| `WorldGrid.Wrap` | world.py:44-47 | the wrapped coordinate is in `[0, n)` and equals `v % n`; in-range coordinates are left alone |
| `WorldGrid.NeighbourCells` | world.py:40-50 | at most one neighbour per offset, so at most 8; all are well-formed genomes when the grid's are |
| `WorldGrid.CountIsOccupiedOffsets` | world.py:40-53 | the neighbour count equals the number of the eight offsets whose wrapped slot is occupied |
| `WorldGrid.SlotIsNeighbour` | world.py:40-50 | the occupant of any offset's wrapped slot is among the neighbours |
| `WorldGrid.TorusCorner` | world.py:40-50 | a cell at (0, 0) is a neighbour of (w-1, h-1), (w-1, 0) and (0, h-1) |
| `WorldGrid.RowMajor` | world.py:35-38 | iteration over `rows` rows yields `rows * w` triples, each `(x, y, cells[y][x])` for an in-range slot |
| `WorldGrid.RowMajorAt` | world.py:35-38 | slot (x, y) is triple number `y * w + x` (y outer, x inner) |
| `WorldGrid.CleanLeavesNothing` | world.py:74-75 | after `clean`, iteration yields `w * h` triples and none is occupied |
| `WorldGrid.Key` | world.py:82 | the census key `(tuple(birth), tuple(live))`; no contract, the body is the definition, and `KeyIgnoresAge` states that it identifies exactly the rule vectors |
| `WorldGrid.KeyIgnoresAge` | world.py:82 | the census key is the pair of rule vectors; age does not enter it |
| `WorldGrid.CensusExtend` | world.py:79-85 | one more triple adds one to its genotype's count and to the occupancy if it is occupied, and nothing otherwise |
| `WorldGrid.Tally` | world.py:79-85 | the loop of `stats` leaves an exact census of the triples it visits: positive counts, one per genotype present, each equal to that genotype's number of occupied triples, summing to the occupancy |
| `WorldGrid.TallyExtend` | world.py:79-85 | the `setdefault`/`+= 1` update keeps the map an exact census: counts positive, one per genotype present, summing to the occupancy |
| `WorldGrid.Aged` | world.py:69-70 | `if cell: cell.age += 1`: an empty slot stays empty, and a placed genome keeps its census key and is one generation older |
| `WorldGrid.NextSlot` | world.py:57-70 | a slot's next content, judged on the old grid; anything placed is well formed and at least 1 generation old |
| `WorldGrid.StepGrid` | world.py:55-72 | the stepped grid keeps the dimensions and holds only well-formed genomes |
| `WorldGrid.SurvivalRule` | world.py:64-70 | an occupant survives iff `is_alive(n)` and not `is_dead()`, judged at its pre-step age; a survivor keeps its rules and ages by exactly 1 |
| `WorldGrid.BirthRule` | world.py:59-70 | an empty slot receives exactly the aged offspring, so the re-check never discards a child; a newborn satisfies `is_birth(n)` and leaves the step with age 1; with no occupied neighbour the slot stays empty |
| `WorldGrid.World.constructor` | world.py:18-24 | a new world has the given dimensions and an empty grid |
| `WorldGrid.World.AddCell` | world.py:26-27 | `add_cell(x, y, c)` puts `c` at `[y][x]` and leaves every other slot unchanged |
| `WorldGrid.World.Get` | world.py:102-103 | `self[(x, y)]` reads row y, column x |
| `WorldGrid.World.Clean` | world.py:74-75 | `clean` replaces the grid with an empty one of the same dimensions |
| `WorldGrid.World.IterBy` | world.py:35-38 | the nested loops yield exactly the row-major triples of the given grid |
| `WorldGrid.World.Iter` | world.py:99-100 | `__iter__` yields exactly `w * h` row-major triples of the current grid |
| `WorldGrid.World.Neighbours` | world.py:40-50 | the offset loop with its wrap-around returns exactly the occupants of the wrapped neighbour slots, in offset order |
| `WorldGrid.World.NeighbourCount` | world.py:52-53 | `_neight_count` is the number of those occupants, at most 8 |
| `WorldGrid.World.Judge` | world.py:58-66 | one slot of the step loop computes the slot's next content before the age increment |
| `WorldGrid.World.Step` | world.py:55-72 | `step` keeps the world's invariant and leaves exactly `StepGrid` of the old grid: every new slot depends on the old grid and its draws only |
| `WorldGrid.World.Stats` | world.py:77-86 | `stats` has a positive count for each genotype present, each equal to the number of occupied slots of that genotype, and the counts sum to the number of occupied slots |
| `Prototype.UnpenalisedExpiry` | main.py:54-55 | in the earlier variant `is_dead` holds iff the age exceeds 100, whatever the rule bits |
| `Prototype.PenaltyOnlyShortensLife` | main.py:54-55 | a genome expired under the earlier rule is expired under the penalised one; the penalised limit is strictly lower iff some bit is set |
| `Prototype.ConwayAgeLimits` | main.py:101-103 | Conway's genome lives to age 100 in the earlier variant and to 40 in the penalised one |
| `Prototype.StepsDifferOnlyByPenalty` | main.py:155-172 | from the same grid and draws, the two variants' steps differ only at occupied slots whose genome expired under the penalty alone; there the earlier variant keeps the cell and the penalised one empties the slot |

## Left out

- The front end is not part of this model: `view.py`, and the `View` class and start-up script of main.py:206-402. That covers pygame drawing, fonts, events, frame timing, the float fractions of `_apply_stats` and the logarithmic graph.
- `World.print` (world.py:88-97, main.py:188-196) only writes to the console.
- The random source is an input. The mutation probability `mutation_coef` and the uniform distribution of `choice` are not modelled. The draws say which parent is picked and which bits flip.
- `Step` takes one set of draws per slot instead of one shared stream. Any shared stream gives each slot some draws, and any per-slot draws come from some stream, so both reach the same grids. The model does not fix the order in which slots consume the stream.
- Cells are values. A survivor is stored as an aged copy, not incremented in place, so object identity and aliasing of one cell object in two slots are not modelled. The source's own callers place distinct objects.
- `new_cells` is a field in the source. Here the staging grid is a local of `Step`.
- Python's negative indexing is excluded by preconditions:
  - `NewCell` and `FillBits` require every count to be at least `MIN_ALIVE`. In the source, a smaller count writes a bucket counted from the end of the list.
  - `AddCell` and `Get` require `0 <= x < w` and `0 <= y < h`.
- `AddCell` requires a well-formed genome (3-entry 0/1 vectors). Every cell the source builds is one: the constructor, `conway` and `generate_new`. The raw constructor `Cell(birth, live, raw=True)` is the datatype constructor with age 0. It is only reached from `generate_new`.
- The `if cell:` test after placement in `step` is modelled as "the slot is occupied". A `Cell` object defines no truth value, so every non-None cell is truthy.
