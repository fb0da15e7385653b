/**
 * main.py: an earlier single-file copy of the genome and the world. Its rule
 * vectors, constructor, offspring, listing, rendering, neighbour counting,
 * step and census are the same code as cell.py and world.py, and are modelled
 * by the same members (a world built with `Unpenalised` runs main.py's genome).
 * Its one semantic difference is `is_dead`, which has no per-bit penalty;
 * this module states what that difference amounts to.
 */
module Prototype {
  import opened Genome
  import opened WorldGrid

  /** main.py's `is_dead`: older than EXPECT, whatever the rule bits. */
  lemma UnpenalisedExpiry(c: Cell)
    ensures IsDead(c, Unpenalised) <==> c.age > EXPECT
    ensures Threshold(c, Unpenalised) == EXPECT
  {
  }

  /** The per-bit penalty only ever shortens life: a genome expired under main.py's rule is expired under
      cell.py's, and any set bit makes cell.py's limit strictly lower. */
  lemma PenaltyOnlyShortensLife(c: Cell)
    requires Valid(c)
    ensures IsDead(c, Unpenalised) ==> IsDead(c, Penalised)
    ensures Sum(c.birth) + Sum(c.live) > 0 <==> Threshold(c, Penalised) < Threshold(c, Unpenalised)
  {
    ThresholdRange(c);
  }

  /** Conway's genome lives to age 100 under main.py's rule but only to 40 under cell.py's. */
  lemma ConwayAgeLimits(c: Cell)
    requires c.birth == [0, 1, 0] && c.live == [1, 1, 0]
    ensures IsDead(c, Unpenalised) <==> c.age > 100
    ensures IsDead(c, Penalised) <==> c.age > 40
  {
    ConwayLifespan(c);
  }

  /** From the same grid with the same draws, the two variants' steps differ only at an occupied slot whose
      genome has expired under the penalty but not without it; there main.py keeps the cell and cell.py drops it. */
  lemma StepsDifferOnlyByPenalty(g: Grid, w: nat, h: nat, draws: seq<seq<Draws>>)
    requires GridOk(g, w, h) && DrawGridOk(draws, w, h)
    ensures forall y, x ::
              (0 <= y < h && 0 <= x < w &&
               StepGrid(g, w, h, Unpenalised, draws)[y][x] != StepGrid(g, w, h, Penalised, draws)[y][x]) ==>
                && g[y][x].Some?
                && IsDead(g[y][x].value, Penalised) && !IsDead(g[y][x].value, Unpenalised)
                && StepGrid(g, w, h, Penalised, draws)[y][x].None?
  {
    forall y, x | 0 <= y < h && 0 <= x < w &&
                  StepGrid(g, w, h, Unpenalised, draws)[y][x] != StepGrid(g, w, h, Penalised, draws)[y][x]
      ensures && g[y][x].Some?
              && IsDead(g[y][x].value, Penalised) && !IsDead(g[y][x].value, Unpenalised)
              && StepGrid(g, w, h, Penalised, draws)[y][x].None?
    {
      if g[y][x].Some? {
        PenaltyOnlyShortensLife(g[y][x].value);
      }
    }
  }
}
