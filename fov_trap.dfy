/**
 * The rhombus-mesh field of view (fov_trap.py). The eight straight and diagonal rays from the
 * viewer are cast first. Each octant is then swept row by row: every cell pushes weighted shares
 * of its visibility forward into the inner cells (c + 1, r + 1) and (c + 1, r) ahead of it, and
 * an inner cell, once every share has reached it, loses its decay. The rays lose theirs last.
 */
module FovTrap {
  import opened MathUtil
  import opened Grids
  import opened Octants
  import Fov

  /**
   * calc_adj_contrib(col, row): the shares (diag, horz) an inner cell (col, row) takes from its
   * diagonal source (col - 1, row - 1) and its straight source (col - 1, row), in the proportion
   * row : col - 1. They always add up to 1.
   */
  function AdjContrib(col: int, row: int): (w: (real, real))
    requires col - 1 + row != 0
    ensures w.0 + w.1 == 1.0
    ensures col >= 1 && row >= 0 ==> 0.0 <= w.0 <= 1.0 && 0.0 <= w.1 <= 1.0
  {
    var x := col - 1;
    var y := row;
    var total := x + y;
    var horz := x as real / total as real;
    var diag := y as real / total as real;
    SharesOfTotal(x, y);
    (diag, horz)
  }

  /** x / (x + y) and y / (x + y) add up to 1, and lie in [0,1] when neither is negative. */
  lemma SharesOfTotal(x: int, y: int)
    requires x + y != 0
    ensures x as real / (x + y) as real + y as real / (x + y) as real == 1.0
    ensures 0 <= x && 0 <= y ==> 0.0 <= x as real / (x + y) as real <= 1.0 && 0.0 <= y as real / (x + y) as real <= 1.0
  {
    assert (x + y) as real == x as real + y as real;
    PartsOfTotal(x as real, y as real);
    if 0 <= x && 0 <= y {
      DivBelowOne(x as real, (x + y) as real);
      DivBelowOne(y as real, (x + y) as real);
    }
  }

  /** contrib*amt with contrib = weight*vis: what a source hands on to a target that takes the given weight of it. */
  function Share(weight: real, opacity: real, amt: real): real
  {
    (weight * opacity) * amt
  }

  /** A share of a value in [0,1] through an opacity in [0,1] is at most the weight. */
  lemma ShareBelow(weight: real, opacity: real, amt: real)
    requires 0.0 <= weight && 0.0 <= opacity <= 1.0 && 0.0 <= amt <= 1.0
    ensures 0.0 <= Share(weight, opacity, amt) <= weight
  {
    var wo := weight * opacity;
    MulBetween(opacity, weight);
    assert 0.0 <= wo <= weight;
    MulBetween(amt, wo);
    assert Share(weight, opacity, amt) == amt * wo;
  }

  /**
   * The value the sweep reads at cell (c, r) of octant k: the total of the shares an inner cell
   * has received, the ray pass's value at a ray cell.
   */
  ghost function Amt(vis: Grid, viewer: IVec2, k: int, c: int, r: int): real
    requires vis.Valid() && 0 <= k < 8 && 0 <= r <= c
    decreases c, 2
  {
    if 0 < r < c then Acc(vis, viewer, k, c, r) else RayCell(vis, viewer, OctOffset(k, c, r))
  }

  /** The total an inner cell (c, r) receives: its diagonal share plus its straight share. */
  ghost function Acc(vis: Grid, viewer: IVec2, k: int, c: int, r: int): real
    requires vis.Valid() && 0 <= k < 8 && 0 < r < c
    decreases c, 1
  {
    DiagShare(vis, viewer, k, c, r) + HorzShare(vis, viewer, k, c, r)
  }

  /** The share the inner cell (c, r) receives from its diagonal source (c - 1, r - 1). */
  ghost function DiagShare(vis: Grid, viewer: IVec2, k: int, c: int, r: int): real
    requires vis.Valid() && 0 <= k < 8 && 0 < r < c
    decreases c, 0
  {
    Share(AdjContrib(c, r).0, At(vis, viewer.Add(OctOffset(k, c - 1, r - 1))), Amt(vis, viewer, k, c - 1, r - 1))
  }

  /** The share the inner cell (c, r) receives from its straight source (c - 1, r). */
  ghost function HorzShare(vis: Grid, viewer: IVec2, k: int, c: int, r: int): real
    requires vis.Valid() && 0 <= k < 8 && 0 < r < c
    decreases c, 0
  {
    Share(AdjContrib(c, r).1, At(vis, viewer.Add(OctOffset(k, c - 1, r))), Amt(vis, viewer, k, c - 1, r))
  }

  /**
   * With opacities in [0,1] every value the sweep reads lies in [0,1]: an inner total is a
   * weighted average of its two sources, dimmed by their opacities.
   */
  lemma {:induction false} AmtInUnit(vis: Grid, viewer: IVec2, k: int, c: int, r: int)
    requires vis.Valid() && UnitValued(vis) && 0 <= k < 8 && 0 <= r <= c
    ensures 0.0 <= Amt(vis, viewer, k, c, r) <= 1.0
    decreases c
  {
    if 0 < r < c {
      AmtInUnit(vis, viewer, k, c - 1, r - 1);
      AmtInUnit(vis, viewer, k, c - 1, r);
      var dOp, dAmt := At(vis, viewer.Add(OctOffset(k, c - 1, r - 1))), Amt(vis, viewer, k, c - 1, r - 1);
      var hOp, hAmt := At(vis, viewer.Add(OctOffset(k, c - 1, r))), Amt(vis, viewer, k, c - 1, r);
      AtInUnit(vis, viewer.Add(OctOffset(k, c - 1, r - 1)));
      AtInUnit(vis, viewer.Add(OctOffset(k, c - 1, r)));
      var w := AdjContrib(c, r);
      ShareBelow(w.0, dOp, dAmt);
      ShareBelow(w.1, hOp, hAmt);
      assert DiagShare(vis, viewer, k, c, r) == Share(w.0, dOp, dAmt);
      assert HorzShare(vis, viewer, k, c, r) == Share(w.1, hOp, hAmt);
      AmtInner(vis, viewer, k, c, r);
    } else {
      var o := OctOffset(k, c, r);
      if Classify(o).Ray? {
        RayValueInUnit(vis, viewer, Classify(o).d, Classify(o).i);
      }
    }
  }

  /**
   * The map fov returns, cell by cell: 1 at the viewer, 0 beyond the radius, and within it the
   * ray value of a ray cell or the received total of an inner cell, less the decay of its offset
   * and clamped at 0, so never negative.
   */
  ghost function TrapValue(vis: Grid, viewer: IVec2, losRadius: int, decay: IVec2 -> real, p: IVec2): (v: real)
    requires vis.Valid()
    ensures v >= 0.0
    ensures p == viewer ==> v == 1.0
    ensures !Reached(p.Sub(viewer), losRadius) && p != viewer ==> v == 0.0
  {
    var o := p.Sub(viewer);
    var cell := Classify(o);
    if cell.Origin? then 1.0
    else if !Reached(o, losRadius) then 0.0
    else if cell.Ray? then Max(RayCell(vis, viewer, o) - decay(o), 0.0)
    else Max(Acc(vis, viewer, cell.k, cell.c, cell.r) - decay(o), 0.0)
  }

  /** With opacities in [0,1] and a decay never negative, every cell of the result lies in [0,1]. */
  lemma TrapValueInUnit(vis: Grid, viewer: IVec2, losRadius: int, decay: IVec2 -> real, p: IVec2)
    requires vis.Valid() && UnitValued(vis) && forall o :: decay(o) >= 0.0
    ensures 0.0 <= TrapValue(vis, viewer, losRadius, decay, p) <= 1.0
  {
    var o := p.Sub(viewer);
    var cell := Classify(o);
    if cell.Ray? {
      RayValueInUnit(vis, viewer, cell.d, cell.i);
    } else if cell.Inner? {
      AmtInUnit(vis, viewer, cell.k, cell.c, cell.r);
    }
  }

  /** How far an inner cell has got while the sweep stands at (row, col) of octant k in phase ph. */
  datatype Progress = Untouched | Receiving(diag: bool, horz: bool) | Done

  /**
   * Inner cells within the radius of an earlier octant, or visited earlier in this one, are done;
   * those still ahead in this octant are receiving, with the shares counted so far; all other
   * cells are untouched by the sweep.
   */
  function ProgressOf(cell: Cell, reached: bool, k: int, row: int, col: int, ph: int): (g: Progress)
    ensures !g.Untouched? ==> cell.Inner? && reached && cell.k <= k
  {
    if cell.Inner? && reached && cell.k <= k then
      if cell.k < k || Before(cell.r, cell.c, row, col) then Done
      else Receiving(Counted(cell.r - 1, cell.c - 1, row, col, ph, 1), Counted(cell.r, cell.c - 1, row, col, ph, 2))
    else Untouched
  }

  /** The shares the inner cell (c, r) of octant k holds once the ones flagged have been added. */
  ghost function Received(vis: Grid, viewer: IVec2, k: int, c: int, r: int, diag: bool, horz: bool): real
    requires vis.Valid() && 0 <= k < 8 && 0 < r < c
  {
    (if diag then DiagShare(vis, viewer, k, c, r) else 0.0) + (if horz then HorzShare(vis, viewer, k, c, r) else 0.0)
  }

  /** Receiving the diagonal share adds exactly that share. */
  lemma ReceivedDiag(vis: Grid, viewer: IVec2, k: int, c: int, r: int)
    requires vis.Valid() && 0 <= k < 8 && 0 < r < c
    ensures Received(vis, viewer, k, c, r, true, false) == Received(vis, viewer, k, c, r, false, false) + DiagShare(vis, viewer, k, c, r)
  {
  }

  /** Receiving the straight share adds exactly that share. */
  lemma ReceivedHorz(vis: Grid, viewer: IVec2, k: int, c: int, r: int)
    requires vis.Valid() && 0 <= k < 8 && 0 < r < c
    ensures Received(vis, viewer, k, c, r, true, true) == Received(vis, viewer, k, c, r, true, false) + HorzShare(vis, viewer, k, c, r)
  {
  }

  /**
   * A cell while the sweep stands at (row, col) of octant k in phase ph: a done cell holds its
   * decayed total, a receiving one the shares received so far, an untouched one its value from m1.
   */
  ghost function SweepCell(m1: Grid, vis: Grid, viewer: IVec2, losRadius: int, decay: IVec2 -> real,
                           k: int, row: int, col: int, ph: int, p: IVec2): real
    requires m1.Valid() && vis.Valid() && m1.InBounds(p)
  {
    var o := p.Sub(viewer);
    var cell := Classify(o);
    var g := ProgressOf(cell, Reached(o, losRadius), k, row, col, ph);
    if g.Done? then Max(Acc(vis, viewer, cell.k, cell.c, cell.r) - decay(o), 0.0)
    else if g.Receiving? then Received(vis, viewer, cell.k, cell.c, cell.r, g.diag, g.horz)
    else m1.Get(p)
  }

  /** A cell whose progress is the same at two points of the sweep holds the same value at both. */
  lemma SameProgress(m1: Grid, vis: Grid, viewer: IVec2, losRadius: int, decay: IVec2 -> real,
                     k: int, row: int, col: int, ph: int, k': int, row': int, col': int, ph': int, p: IVec2)
    requires m1.Valid() && vis.Valid() && m1.InBounds(p)
    requires ProgressOf(Classify(p.Sub(viewer)), Reached(p.Sub(viewer), losRadius), k, row, col, ph) ==
             ProgressOf(Classify(p.Sub(viewer)), Reached(p.Sub(viewer), losRadius), k', row', col', ph')
    ensures SweepCell(m1, vis, viewer, losRadius, decay, k, row, col, ph, p) == SweepCell(m1, vis, viewer, losRadius, decay, k', row', col', ph', p)
  {
  }

  /** A receiving cell holds the shares flagged so far. */
  lemma CellReceiving(m1: Grid, vis: Grid, viewer: IVec2, losRadius: int, decay: IVec2 -> real,
                      k: int, row: int, col: int, ph: int, p: IVec2, diag: bool, horz: bool)
    requires m1.Valid() && vis.Valid() && m1.InBounds(p)
    requires ProgressOf(Classify(p.Sub(viewer)), Reached(p.Sub(viewer), losRadius), k, row, col, ph) == Receiving(diag, horz)
    ensures var cell := Classify(p.Sub(viewer));
      SweepCell(m1, vis, viewer, losRadius, decay, k, row, col, ph, p) == Received(vis, viewer, cell.k, cell.c, cell.r, diag, horz)
  {
  }

  /** The map m is what the sweep, started on m1, holds at (row, col) of octant k in phase ph. */
  ghost predicate SweepAt(m: Grid, m1: Grid, vis: Grid, viewer: IVec2, losRadius: int, decay: IVec2 -> real,
                          k: int, row: int, col: int, ph: int)
  {
    Sweepable(m1, vis, viewer, losRadius) && m.Valid() && m.width == m1.width && m.height == m1.height &&
    forall p {:trigger m.Get(p)} :: m.InBounds(p) ==> m.Get(p) == SweepCell(m1, vis, viewer, losRadius, decay, k, row, col, ph, p)
  }

  /** Before the first octant nothing has been received. */
  lemma SweepStart(m1: Grid, vis: Grid, viewer: IVec2, losRadius: int, decay: IVec2 -> real)
    requires Sweepable(m1, vis, viewer, losRadius)
    ensures SweepAt(m1, m1, vis, viewer, losRadius, decay, 0, 0, 0, 0)
  {
    forall p | m1.InBounds(p)
      ensures m1.Get(p) == SweepCell(m1, vis, viewer, losRadius, decay, 0, 0, 0, 0, p)
    {
      var cell := Classify(p.Sub(viewer));
      if cell.Inner? {
        assert m1.Get(p) == 0.0;
        assert !Before(cell.r, cell.c, 0, 0) && !Counted(cell.r - 1, cell.c - 1, 0, 0, 0, 1) && !Counted(cell.r, cell.c - 1, 0, 0, 0, 2);
      }
    }
  }

  /** After its last row every inner cell of octant k within the radius is done; octant k + 1 has received nothing. */
  lemma SweepNextOctant(m: Grid, m1: Grid, vis: Grid, viewer: IVec2, losRadius: int, decay: IVec2 -> real, k: int, row: int, col: int)
    requires 0 <= k < 8 && losRadius < row
    requires SweepAt(m, m1, vis, viewer, losRadius, decay, k, row, col, 0)
    ensures SweepAt(m, m1, vis, viewer, losRadius, decay, k + 1, 0, 0, 0)
  {
    forall p | m.InBounds(p)
      ensures m.Get(p) == SweepCell(m1, vis, viewer, losRadius, decay, k + 1, 0, 0, 0, p)
    {
      var o := p.Sub(viewer);
      var cell := Classify(o);
      if cell.Inner? && Reached(o, losRadius) && cell.k == k + 1 {
        assert !Counted(cell.r - 1, cell.c - 1, 0, 0, 0, 1) && !Counted(cell.r, cell.c - 1, 0, 0, 0, 2);
      } else {
        if cell.Inner? && Reached(o, losRadius) && cell.k == k {
          InnerWithin(o, losRadius);
        }
        SameProgress(m1, vis, viewer, losRadius, decay, k, row, col, 0, k + 1, 0, 0, 0, p);
      }
    }
  }

  /** Past the last column of row `row` the sweep stands at the start of row `row + 1`. */
  lemma SweepNextRow(m: Grid, m1: Grid, vis: Grid, viewer: IVec2, losRadius: int, decay: IVec2 -> real, k: int, row: int, col: int)
    requires 0 <= k < 8 && 0 <= row && losRadius < col
    requires SweepAt(m, m1, vis, viewer, losRadius, decay, k, row, col, 0)
    ensures SweepAt(m, m1, vis, viewer, losRadius, decay, k, row + 1, row + 1, 0)
  {
    forall p | m.InBounds(p)
      ensures m.Get(p) == SweepCell(m1, vis, viewer, losRadius, decay, k, row + 1, row + 1, 0, p)
    {
      var o := p.Sub(viewer);
      var cell := Classify(o);
      if cell.Inner? && Reached(o, losRadius) && cell.k == k {
        InnerWithin(o, losRadius);
      }
      SameProgress(m1, vis, viewer, losRadius, decay, k, row, col, 0, k, row + 1, row + 1, 0, p);
    }
  }

  /**
   * Skipping the viewer's own cell, or a cell off the map or beyond the radius, moves the sweep on:
   * no cell it would feed is both in the map and within the radius.
   */
  lemma SweepSkip(m: Grid, m1: Grid, vis: Grid, viewer: IVec2, losRadius: int, decay: IVec2 -> real, k: int, row: int, col: int)
    requires 0 <= k < 8 && 0 <= row <= col
    requires SweepAt(m, m1, vis, viewer, losRadius, decay, k, row, col, 0)
    requires (row == 0 && col == 0) || !m.InBounds(viewer.Add(OctOffset(k, col, row))) || !Reached(OctOffset(k, col, row), losRadius)
    ensures SweepAt(m, m1, vis, viewer, losRadius, decay, k, row, col + 1, 0)
  {
    forall q | m.InBounds(q)
      ensures m.Get(q) == SweepCell(m1, vis, viewer, losRadius, decay, k, row, col + 1, 0, q)
    {
      SkipCell(m1, vis, viewer, losRadius, decay, k, row, col, q);
    }
  }

  /** One cell of SweepSkip. */
  lemma SkipCell(m1: Grid, vis: Grid, viewer: IVec2, losRadius: int, decay: IVec2 -> real, k: int, row: int, col: int, q: IVec2)
    requires m1.Valid() && vis.Valid() && m1.InBounds(q) && m1.InBounds(viewer) && 0 <= k < 8 && 0 <= row <= col
    requires (row == 0 && col == 0) || !m1.InBounds(viewer.Add(OctOffset(k, col, row))) || !Reached(OctOffset(k, col, row), losRadius)
    ensures SweepCell(m1, vis, viewer, losRadius, decay, k, row, col, 0, q) == SweepCell(m1, vis, viewer, losRadius, decay, k, row, col + 1, 0, q)
  {
    var o := q.Sub(viewer);
    var cell := Classify(o);
    if cell.Inner? && Reached(o, losRadius) && cell.k == k {
      InnerAt(viewer, q, k, cell.c, cell.r);
      SkippedFeedsNone(m1.width, m1.height, viewer, losRadius, k, row, col, cell.c, cell.r);
      assert Before(cell.r, cell.c, row, col) == Before(cell.r, cell.c, row, col + 1);
      assert Counted(cell.r - 1, cell.c - 1, row, col, 0, 1) == Counted(cell.r - 1, cell.c - 1, row, col + 1, 0, 1);
      assert Counted(cell.r, cell.c - 1, row, col, 0, 2) == Counted(cell.r, cell.c - 1, row, col + 1, 0, 2);
    }
    SameProgress(m1, vis, viewer, losRadius, decay, k, row, col, 0, k, row, col + 1, 0, q);
  }

  /** At its visit an in-map cell within the radius holds the value the sweep reads there. */
  lemma SweepRead(m: Grid, m1: Grid, vis: Grid, viewer: IVec2, losRadius: int, decay: IVec2 -> real, k: int, row: int, col: int)
    requires 0 <= k < 8 && 0 <= row <= col && 0 < col
    requires SweepAt(m, m1, vis, viewer, losRadius, decay, k, row, col, 0)
    requires m.InBounds(viewer.Add(OctOffset(k, col, row))) && Reached(OctOffset(k, col, row), losRadius)
    ensures m.Get(viewer.Add(OctOffset(k, col, row))) == Amt(vis, viewer, k, col, row)
  {
    var o := OctOffset(k, col, row);
    var p := viewer.Add(o);
    assert p.Sub(viewer) == o;
    assert m.Get(p) == SweepCell(m1, vis, viewer, losRadius, decay, k, row, col, 0, p);
    if 0 < row < col {
      ClassifyInner(k, col, row);
      assert Counted(row - 1, col - 1, row, col, 0, 1) && Counted(row, col - 1, row, col, 0, 2) && !Before(row, col, row, col);
      assert ProgressOf(Classify(o), true, k, row, col, 0) == Receiving(true, true);
      assert Amt(vis, viewer, k, col, row) == Received(vis, viewer, k, col, row, true, true);
    } else {
      ClassifyOctantRays(k, col);
      assert ProgressOf(Classify(o), true, k, row, col, 0) == Untouched;
      assert m1.Get(p) == RayCell(vis, viewer, o);
      AmtOnRay(vis, viewer, k, col, row);
    }
  }

  /** At an inner cell the value read is the total it has received. */
  lemma AmtInner(vis: Grid, viewer: IVec2, k: int, c: int, r: int)
    requires vis.Valid() && 0 <= k < 8 && 0 < r < c
    ensures Amt(vis, viewer, k, c, r) == Acc(vis, viewer, k, c, r)
  {
  }

  /** On the two rays that bound the octant the value read is the ray pass's value. */
  lemma AmtOnRay(vis: Grid, viewer: IVec2, k: int, c: int, r: int)
    requires vis.Valid() && 0 <= k < 8 && 0 <= r <= c && (r == 0 || r == c)
    ensures Amt(vis, viewer, k, c, r) == RayCell(vis, viewer, OctOffset(k, c, r))
  {
  }

  /** The diagonal share from the cell (col, row) is what cell (col + 1, row + 1) receives from it. */
  lemma DiagShareOf(vis: Grid, viewer: IVec2, k: int, col: int, row: int, opacity: real, amt: real)
    requires vis.Valid() && 0 <= k < 8 && 0 <= row < col
    requires opacity == At(vis, viewer.Add(OctOffset(k, col, row))) && amt == Amt(vis, viewer, k, col, row)
    ensures Share(AdjContrib(col + 1, row + 1).0, opacity, amt) == DiagShare(vis, viewer, k, col + 1, row + 1)
  {
  }

  /** The straight share from the cell (col, row) is what cell (col + 1, row) receives from it. */
  lemma HorzShareOf(vis: Grid, viewer: IVec2, k: int, col: int, row: int, opacity: real, amt: real)
    requires vis.Valid() && 0 <= k < 8 && 0 < row <= col
    requires opacity == At(vis, viewer.Add(OctOffset(k, col, row))) && amt == Amt(vis, viewer, k, col, row)
    ensures Share(AdjContrib(col + 1, row).1, opacity, amt) == HorzShare(vis, viewer, k, col + 1, row)
  {
  }

  /** Adding the diagonal share to cell (col + 1, row + 1) completes phase 1 of the step. */
  lemma SweepDiagAdd(m: Grid, m1: Grid, vis: Grid, viewer: IVec2, losRadius: int, decay: IVec2 -> real, k: int, row: int, col: int, v: real)
    requires 0 <= k < 8 && 0 <= row < col
    requires SweepAt(m, m1, vis, viewer, losRadius, decay, k, row, col, 0)
    requires m.InBounds(viewer.Add(OctOffset(k, col + 1, row + 1))) && Reached(OctOffset(k, col + 1, row + 1), losRadius)
    requires v == DiagShare(vis, viewer, k, col + 1, row + 1)
    ensures SweepAt(m.Set(viewer.Add(OctOffset(k, col + 1, row + 1)), m.Get(viewer.Add(OctOffset(k, col + 1, row + 1))) + v),
                    m1, vis, viewer, losRadius, decay, k, row, col, 1)
  {
    var t := viewer.Add(OctOffset(k, col + 1, row + 1));
    DiagTarget(m1, vis, viewer, losRadius, decay, k, row, col);
    var m' := m.Set(t, m.Get(t) + v);
    forall q | m'.InBounds(q)
      ensures m'.Get(q) == SweepCell(m1, vis, viewer, losRadius, decay, k, row, col, 1, q)
    {
      if q != t {
        DiagOther(m1, vis, viewer, losRadius, decay, k, row, col, q);
      }
    }
  }

  /** The target of the diagonal share gains exactly that share in phase 1. */
  lemma DiagTarget(m1: Grid, vis: Grid, viewer: IVec2, losRadius: int, decay: IVec2 -> real, k: int, row: int, col: int)
    requires m1.Valid() && vis.Valid() && 0 <= k < 8 && 0 <= row < col
    requires m1.InBounds(viewer.Add(OctOffset(k, col + 1, row + 1))) && Reached(OctOffset(k, col + 1, row + 1), losRadius)
    ensures SweepCell(m1, vis, viewer, losRadius, decay, k, row, col, 1, viewer.Add(OctOffset(k, col + 1, row + 1))) ==
            SweepCell(m1, vis, viewer, losRadius, decay, k, row, col, 0, viewer.Add(OctOffset(k, col + 1, row + 1))) + DiagShare(vis, viewer, k, col + 1, row + 1)
  {
    var t := viewer.Add(OctOffset(k, col + 1, row + 1));
    ClassifyInnerAt(viewer, k, col + 1, row + 1);
    assert !Counted(row, col, row, col, 0, 1) && Counted(row, col, row, col, 1, 1);
    assert !Counted(row + 1, col, row, col, 0, 2) && !Counted(row + 1, col, row, col, 1, 2);
    assert !Before(row + 1, col + 1, row, col);
    var cell, reached := Classify(t.Sub(viewer)), Reached(t.Sub(viewer), losRadius);
    assert cell == Inner(k, col + 1, row + 1);
    assert ProgressOf(cell, reached, k, row, col, 0) == Receiving(false, false);
    assert ProgressOf(cell, reached, k, row, col, 1) == Receiving(true, false);
    CellReceiving(m1, vis, viewer, losRadius, decay, k, row, col, 0, t, false, false);
    assert SweepCell(m1, vis, viewer, losRadius, decay, k, row, col, 0, t) == Received(vis, viewer, k, col + 1, row + 1, false, false);
    CellReceiving(m1, vis, viewer, losRadius, decay, k, row, col, 1, t, true, false);
    assert SweepCell(m1, vis, viewer, losRadius, decay, k, row, col, 1, t) == Received(vis, viewer, k, col + 1, row + 1, true, false);
    ReceivedDiag(vis, viewer, k, col + 1, row + 1);
  }

  /** Every cell other than the target of the diagonal share keeps its value in phase 1. */
  lemma DiagOther(m1: Grid, vis: Grid, viewer: IVec2, losRadius: int, decay: IVec2 -> real, k: int, row: int, col: int, q: IVec2)
    requires m1.Valid() && vis.Valid() && m1.InBounds(q) && 0 <= k < 8 && 0 <= row <= col
    requires q != viewer.Add(OctOffset(k, col + 1, row + 1))
    ensures SweepCell(m1, vis, viewer, losRadius, decay, k, row, col, 1, q) == SweepCell(m1, vis, viewer, losRadius, decay, k, row, col, 0, q)
  {
    if Classify(q.Sub(viewer)) == Inner(k, col + 1, row + 1) {
      InnerAt(viewer, q, k, col + 1, row + 1);
    }
    SameProgress(m1, vis, viewer, losRadius, decay, k, row, col, 0, k, row, col, 1, q);
  }

  /** Without a diagonal share to add (on the diagonal ray, or the target off the map or beyond the radius) phase 1 is reached as is. */
  lemma SweepDiagSkip(m: Grid, m1: Grid, vis: Grid, viewer: IVec2, losRadius: int, decay: IVec2 -> real, k: int, row: int, col: int)
    requires 0 <= k < 8 && 0 <= row <= col
    requires SweepAt(m, m1, vis, viewer, losRadius, decay, k, row, col, 0)
    requires col == row || !m.InBounds(viewer.Add(OctOffset(k, col + 1, row + 1))) || !Reached(OctOffset(k, col + 1, row + 1), losRadius)
    ensures SweepAt(m, m1, vis, viewer, losRadius, decay, k, row, col, 1)
  {
    forall q | m.InBounds(q)
      ensures m.Get(q) == SweepCell(m1, vis, viewer, losRadius, decay, k, row, col, 1, q)
    {
      if q == viewer.Add(OctOffset(k, col + 1, row + 1)) {
        assert q.Sub(viewer) == OctOffset(k, col + 1, row + 1);
        if col != row {
          ClassifyInner(k, col + 1, row + 1);
        }
        SameProgress(m1, vis, viewer, losRadius, decay, k, row, col, 0, k, row, col, 1, q);
      } else {
        DiagOther(m1, vis, viewer, losRadius, decay, k, row, col, q);
      }
    }
  }

  /** Adding the straight share to cell (col + 1, row) completes phase 2 of the step. */
  lemma SweepHorzAdd(m: Grid, m1: Grid, vis: Grid, viewer: IVec2, losRadius: int, decay: IVec2 -> real, k: int, row: int, col: int, v: real)
    requires 0 <= k < 8 && 0 < row <= col
    requires SweepAt(m, m1, vis, viewer, losRadius, decay, k, row, col, 1)
    requires m.InBounds(viewer.Add(OctOffset(k, col + 1, row))) && Reached(OctOffset(k, col + 1, row), losRadius)
    requires v == HorzShare(vis, viewer, k, col + 1, row)
    ensures SweepAt(m.Set(viewer.Add(OctOffset(k, col + 1, row)), m.Get(viewer.Add(OctOffset(k, col + 1, row))) + v),
                    m1, vis, viewer, losRadius, decay, k, row, col, 2)
  {
    var t := viewer.Add(OctOffset(k, col + 1, row));
    HorzTarget(m1, vis, viewer, losRadius, decay, k, row, col);
    var m' := m.Set(t, m.Get(t) + v);
    forall q | m'.InBounds(q)
      ensures m'.Get(q) == SweepCell(m1, vis, viewer, losRadius, decay, k, row, col, 2, q)
    {
      if q != t {
        HorzOther(m1, vis, viewer, losRadius, decay, k, row, col, q);
      }
    }
  }

  /** The target of the straight share gains exactly that share in phase 2. */
  lemma HorzTarget(m1: Grid, vis: Grid, viewer: IVec2, losRadius: int, decay: IVec2 -> real, k: int, row: int, col: int)
    requires m1.Valid() && vis.Valid() && 0 <= k < 8 && 0 < row <= col
    requires m1.InBounds(viewer.Add(OctOffset(k, col + 1, row))) && Reached(OctOffset(k, col + 1, row), losRadius)
    ensures SweepCell(m1, vis, viewer, losRadius, decay, k, row, col, 2, viewer.Add(OctOffset(k, col + 1, row))) ==
            SweepCell(m1, vis, viewer, losRadius, decay, k, row, col, 1, viewer.Add(OctOffset(k, col + 1, row))) + HorzShare(vis, viewer, k, col + 1, row)
  {
    var t := viewer.Add(OctOffset(k, col + 1, row));
    ClassifyInnerAt(viewer, k, col + 1, row);
    assert Counted(row - 1, col, row, col, 1, 1) && Counted(row - 1, col, row, col, 2, 1);
    assert !Counted(row, col, row, col, 1, 2) && Counted(row, col, row, col, 2, 2);
    assert !Before(row, col + 1, row, col);
    var cell, reached := Classify(t.Sub(viewer)), Reached(t.Sub(viewer), losRadius);
    assert cell == Inner(k, col + 1, row) && reached;
    assert ProgressOf(cell, reached, k, row, col, 1) == Receiving(true, false);
    assert ProgressOf(cell, reached, k, row, col, 2) == Receiving(true, true);
    CellReceiving(m1, vis, viewer, losRadius, decay, k, row, col, 1, t, true, false);
    CellReceiving(m1, vis, viewer, losRadius, decay, k, row, col, 2, t, true, true);
    ReceivedHorz(vis, viewer, k, col + 1, row);
  }

  /** Every cell other than the target of the straight share keeps its value in phase 2. */
  lemma HorzOther(m1: Grid, vis: Grid, viewer: IVec2, losRadius: int, decay: IVec2 -> real, k: int, row: int, col: int, q: IVec2)
    requires m1.Valid() && vis.Valid() && m1.InBounds(q) && 0 <= k < 8 && 0 <= row <= col
    requires q != viewer.Add(OctOffset(k, col + 1, row))
    ensures SweepCell(m1, vis, viewer, losRadius, decay, k, row, col, 2, q) == SweepCell(m1, vis, viewer, losRadius, decay, k, row, col, 1, q)
  {
    if Classify(q.Sub(viewer)) == Inner(k, col + 1, row) {
      InnerAt(viewer, q, k, col + 1, row);
    }
    SameProgress(m1, vis, viewer, losRadius, decay, k, row, col, 1, k, row, col, 2, q);
  }

  /** Without a straight share to add (on the straight ray, or the target off the map or beyond the radius) phase 2 is reached as is. */
  lemma SweepHorzSkip(m: Grid, m1: Grid, vis: Grid, viewer: IVec2, losRadius: int, decay: IVec2 -> real, k: int, row: int, col: int)
    requires 0 <= k < 8 && 0 <= row <= col
    requires SweepAt(m, m1, vis, viewer, losRadius, decay, k, row, col, 1)
    requires row == 0 || !m.InBounds(viewer.Add(OctOffset(k, col + 1, row))) || !Reached(OctOffset(k, col + 1, row), losRadius)
    ensures SweepAt(m, m1, vis, viewer, losRadius, decay, k, row, col, 2)
  {
    forall q | m.InBounds(q)
      ensures m.Get(q) == SweepCell(m1, vis, viewer, losRadius, decay, k, row, col, 2, q)
    {
      if q == viewer.Add(OctOffset(k, col + 1, row)) {
        assert q.Sub(viewer) == OctOffset(k, col + 1, row);
        if row != 0 {
          ClassifyInner(k, col + 1, row);
        }
        SameProgress(m1, vis, viewer, losRadius, decay, k, row, col, 1, k, row, col, 2, q);
      } else {
        HorzOther(m1, vis, viewer, losRadius, decay, k, row, col, q);
      }
    }
  }

  /** Setting a visited inner cell to its decayed total moves the sweep to the next column. */
  lemma SweepSetOwn(m: Grid, m1: Grid, vis: Grid, viewer: IVec2, losRadius: int, decay: IVec2 -> real, k: int, row: int, col: int,
                    amt: real, d: real, v: real)
    requires 0 <= k < 8 && 0 < row < col
    requires SweepAt(m, m1, vis, viewer, losRadius, decay, k, row, col, 2)
    requires m.InBounds(viewer.Add(OctOffset(k, col, row))) && Reached(OctOffset(k, col, row), losRadius)
    requires amt == Acc(vis, viewer, k, col, row) && d == decay(OctOffset(k, col, row)) && v == Max(amt - d, 0.0)
    ensures SweepAt(m.Set(viewer.Add(OctOffset(k, col, row)), v), m1, vis, viewer, losRadius, decay, k, row, col + 1, 0)
  {
    var p := viewer.Add(OctOffset(k, col, row));
    OwnTarget(m1, vis, viewer, losRadius, decay, k, row, col);
    var m' := m.Set(p, v);
    forall q | m'.InBounds(q)
      ensures m'.Get(q) == SweepCell(m1, vis, viewer, losRadius, decay, k, row, col + 1, 0, q)
    {
      if q != p {
        OwnOther(m1, vis, viewer, losRadius, decay, k, row, col, q);
      }
    }
  }

  /** The visited inner cell is done once the sweep moves past it. */
  lemma OwnTarget(m1: Grid, vis: Grid, viewer: IVec2, losRadius: int, decay: IVec2 -> real, k: int, row: int, col: int)
    requires m1.Valid() && vis.Valid() && 0 <= k < 8 && 0 < row < col
    requires m1.InBounds(viewer.Add(OctOffset(k, col, row))) && Reached(OctOffset(k, col, row), losRadius)
    ensures SweepCell(m1, vis, viewer, losRadius, decay, k, row, col + 1, 0, viewer.Add(OctOffset(k, col, row))) ==
            Max(Acc(vis, viewer, k, col, row) - decay(OctOffset(k, col, row)), 0.0)
  {
    var p := viewer.Add(OctOffset(k, col, row));
    assert p.Sub(viewer) == OctOffset(k, col, row);
    ClassifyInner(k, col, row);
  }

  /** Every other cell keeps its value as the sweep moves past the visited cell. */
  lemma OwnOther(m1: Grid, vis: Grid, viewer: IVec2, losRadius: int, decay: IVec2 -> real, k: int, row: int, col: int, q: IVec2)
    requires m1.Valid() && vis.Valid() && m1.InBounds(q) && 0 <= k < 8 && 0 <= row <= col
    requires q != viewer.Add(OctOffset(k, col, row))
    ensures SweepCell(m1, vis, viewer, losRadius, decay, k, row, col + 1, 0, q) == SweepCell(m1, vis, viewer, losRadius, decay, k, row, col, 2, q)
  {
    if Classify(q.Sub(viewer)) == Inner(k, col, row) {
      InnerAt(viewer, q, k, col, row);
    }
    SameProgress(m1, vis, viewer, losRadius, decay, k, row, col, 2, k, row, col + 1, 0, q);
  }

  /** A visited ray cell is left as it is, and the sweep moves to the next column. */
  lemma SweepLeaveRay(m: Grid, m1: Grid, vis: Grid, viewer: IVec2, losRadius: int, decay: IVec2 -> real, k: int, row: int, col: int)
    requires 0 <= k < 8 && 0 <= row <= col && (row == 0 || row == col)
    requires SweepAt(m, m1, vis, viewer, losRadius, decay, k, row, col, 2)
    ensures SweepAt(m, m1, vis, viewer, losRadius, decay, k, row, col + 1, 0)
  {
    forall q | m.InBounds(q)
      ensures m.Get(q) == SweepCell(m1, vis, viewer, losRadius, decay, k, row, col + 1, 0, q)
    {
      SameProgress(m1, vis, viewer, losRadius, decay, k, row, col, 2, k, row, col + 1, 0, q);
    }
  }

  /**
   * The loop body for the cell (col, row) of octant k: skip the viewer's cell and cells off the map
   * or beyond the radius; else hand the diagonal and straight shares forward to the in-map cells
   * within the radius, and give an inner cell its decayed total.
   */
  method SweepVisit(fovmap: Map2D, vis: Map2D, viewer: IVec2, losRadius: int, decayPerTile: real, sqrt: int -> real,
                    k: int, row: int, col: int, ghost m1: Grid)
    requires vis.Valid() && fovmap.Valid() && fovmap != vis && 0 <= k < 8 && 0 <= row <= col <= losRadius
    requires SweepAt(fovmap.Model(), m1, vis.Model(), viewer, losRadius, Fov.DecayFn(decayPerTile, sqrt), k, row, col, 0)
    modifies fovmap
    ensures fovmap.Valid()
    ensures SweepAt(fovmap.Model(), m1, vis.Model(), viewer, losRadius, Fov.DecayFn(decayPerTile, sqrt), k, row, col + 1, 0)
  {
    ghost var decay := Fov.DecayFn(decayPerTile, sqrt);
    ghost var g := vis.Model();
    var fwd, up := AxisSets[k].0, AxisSets[k].1;
    var upfwd := up.Add(fwd);
    if col == 0 && row == 0 {
      SweepSkip(fovmap.Model(), m1, g, viewer, losRadius, decay, k, row, col);
      return;
    }
    var o := fwd.Muls(col).Add(up.Muls(row));
    AxisSetOffset(k, col, row);
    var p := viewer.Add(o);
    if !fovmap.InBounds(p) || o.SquaredLength() > losRadius * losRadius {
      SweepSkip(fovmap.Model(), m1, g, viewer, losRadius, decay, k, row, col);
      return;
    }
    SweepRead(fovmap.Model(), m1, g, viewer, losRadius, decay, k, row, col);
    var amt := fovmap.Get(p);
    var opacity := vis.Get(p);
    PushDiag(fovmap, g, viewer, losRadius, decay, k, row, col, p, upfwd, amt, opacity, m1);
    PushHorz(fovmap, g, viewer, losRadius, decay, k, row, col, p, fwd, amt, opacity, m1);
    Settle(fovmap, g, viewer, losRadius, decayPerTile, sqrt, k, row, col, p, amt, m1);
  }

  /** Hands the diagonal share of the cell p = (col, row) on to (col + 1, row + 1) when that is in the map and within the radius. */
  method PushDiag(fovmap: Map2D, ghost g: Grid, viewer: IVec2, losRadius: int, ghost decay: IVec2 -> real,
                  k: int, row: int, col: int, p: IVec2, upfwd: IVec2, amt: real, opacity: real, ghost m1: Grid)
    requires fovmap.Valid() && g.Valid() && 0 <= k < 8 && 0 <= row <= col <= losRadius && 0 < col
    requires p == viewer.Add(OctOffset(k, col, row)) && upfwd == AxisSets[k].1.Add(AxisSets[k].0)
    requires opacity == At(g, p) && amt == Amt(g, viewer, k, col, row)
    requires SweepAt(fovmap.Model(), m1, g, viewer, losRadius, decay, k, row, col, 0)
    modifies fovmap
    ensures fovmap.Valid() && SweepAt(fovmap.Model(), m1, g, viewer, losRadius, decay, k, row, col, 1)
  {
    OctOffsetSteps(k, col, row);
    var pnb := p.Add(upfwd);
    assert pnb == viewer.Add(OctOffset(k, col + 1, row + 1)) && pnb.Sub(viewer) == OctOffset(k, col + 1, row + 1);
    if col != row && fovmap.InBounds(pnb) && pnb.Sub(viewer).SquaredLength() <= losRadius * losRadius {
      var share := Share(AdjContrib(col + 1, row + 1).0, opacity, amt);
      DiagShareOf(g, viewer, k, col, row, opacity, amt);
      SweepDiagAdd(fovmap.Model(), m1, g, viewer, losRadius, decay, k, row, col, share);
      fovmap.Add(pnb, share);
    } else {
      SweepDiagSkip(fovmap.Model(), m1, g, viewer, losRadius, decay, k, row, col);
    }
  }

  /** Hands the straight share of the cell p = (col, row) on to (col + 1, row) when row > 0 and that is in the map and within the radius. */
  method PushHorz(fovmap: Map2D, ghost g: Grid, viewer: IVec2, losRadius: int, ghost decay: IVec2 -> real,
                  k: int, row: int, col: int, p: IVec2, fwd: IVec2, amt: real, opacity: real, ghost m1: Grid)
    requires fovmap.Valid() && g.Valid() && 0 <= k < 8 && 0 <= row <= col <= losRadius && 0 < col
    requires p == viewer.Add(OctOffset(k, col, row)) && fwd == AxisSets[k].0
    requires opacity == At(g, p) && amt == Amt(g, viewer, k, col, row)
    requires SweepAt(fovmap.Model(), m1, g, viewer, losRadius, decay, k, row, col, 1)
    modifies fovmap
    ensures fovmap.Valid() && SweepAt(fovmap.Model(), m1, g, viewer, losRadius, decay, k, row, col, 2)
  {
    OctOffsetSteps(k, col, row);
    var pnb := p.Add(fwd);
    assert pnb == viewer.Add(OctOffset(k, col + 1, row)) && pnb.Sub(viewer) == OctOffset(k, col + 1, row);
    if row > 0 && fovmap.InBounds(pnb) && pnb.Sub(viewer).SquaredLength() <= losRadius * losRadius {
      var share := Share(AdjContrib(col + 1, row).1, opacity, amt);
      HorzShareOf(g, viewer, k, col, row, opacity, amt);
      SweepHorzAdd(fovmap.Model(), m1, g, viewer, losRadius, decay, k, row, col, share);
      fovmap.Add(pnb, share);
    } else {
      SweepHorzSkip(fovmap.Model(), m1, g, viewer, losRadius, decay, k, row, col);
    }
  }

  /** Once both shares are handed on, an inner cell p = (col, row) takes its total less its decay, clamped at 0. */
  method Settle(fovmap: Map2D, ghost g: Grid, viewer: IVec2, losRadius: int, decayPerTile: real, sqrt: int -> real,
                k: int, row: int, col: int, p: IVec2, amt: real, ghost m1: Grid)
    requires fovmap.Valid() && g.Valid() && 0 <= k < 8 && 0 <= row <= col && 0 < col
    requires p == viewer.Add(OctOffset(k, col, row)) && fovmap.InBounds(p) && Reached(OctOffset(k, col, row), losRadius)
    requires amt == Amt(g, viewer, k, col, row)
    requires SweepAt(fovmap.Model(), m1, g, viewer, losRadius, Fov.DecayFn(decayPerTile, sqrt), k, row, col, 2)
    modifies fovmap
    ensures fovmap.Valid() && SweepAt(fovmap.Model(), m1, g, viewer, losRadius, Fov.DecayFn(decayPerTile, sqrt), k, row, col + 1, 0)
  {
    if row != col && col != 0 && row != 0 {
      var o := p.Sub(viewer);
      assert o == OctOffset(k, col, row);
      Fov.DecayFnAt(decayPerTile, sqrt, o);
      AmtInner(g, viewer, k, col, row);
      var d := Fov.Decay(o, decayPerTile, sqrt);
      var v := Max(amt - d, 0.0);
      SweepSetOwn(fovmap.Model(), m1, g, viewer, losRadius, Fov.DecayFn(decayPerTile, sqrt), k, row, col, amt, d, v);
      fovmap.Set(p, v);
    } else {
      SweepLeaveRay(fovmap.Model(), m1, g, viewer, losRadius, Fov.DecayFn(decayPerTile, sqrt), k, row, col);
    }
  }

  /** The sweep of octant k, rows 0..losRadius, each row from its diagonal cell out to column losRadius. */
  method SweepOctant(fovmap: Map2D, vis: Map2D, viewer: IVec2, losRadius: int, decayPerTile: real, sqrt: int -> real,
                     k: int, ghost m1: Grid)
    requires vis.Valid() && fovmap.Valid() && fovmap != vis && 0 <= k < 8
    requires SweepAt(fovmap.Model(), m1, vis.Model(), viewer, losRadius, Fov.DecayFn(decayPerTile, sqrt), k, 0, 0, 0)
    modifies fovmap
    ensures fovmap.Valid()
    ensures SweepAt(fovmap.Model(), m1, vis.Model(), viewer, losRadius, Fov.DecayFn(decayPerTile, sqrt), k + 1, 0, 0, 0)
  {
    ghost var decay := Fov.DecayFn(decayPerTile, sqrt);
    var row := 0;
    while row < losRadius + 1
      invariant 0 <= row && (row <= losRadius + 1 || row == 0) && fovmap.Valid()
      invariant SweepAt(fovmap.Model(), m1, vis.Model(), viewer, losRadius, decay, k, row, row, 0)
    {
      var col := row;
      while col < losRadius + 1
        invariant row <= col <= losRadius + 1 && fovmap.Valid()
        invariant SweepAt(fovmap.Model(), m1, vis.Model(), viewer, losRadius, decay, k, row, col, 0)
      {
        SweepVisit(fovmap, vis, viewer, losRadius, decayPerTile, sqrt, k, row, col, m1);
        col := col + 1;
      }
      SweepNextRow(fovmap.Model(), m1, vis.Model(), viewer, losRadius, decay, k, row, col);
      row := row + 1;
    }
    SweepNextOctant(fovmap.Model(), m1, vis.Model(), viewer, losRadius, decay, k, row, row);
  }

  /**
   * The sweep over all eight octants: afterwards every in-map inner cell within the radius holds its
   * decayed total and every other cell its value from before.
   */
  method Sweep(fovmap: Map2D, vis: Map2D, viewer: IVec2, losRadius: int, decayPerTile: real, sqrt: int -> real)
    requires vis.Valid() && fovmap.Valid() && fovmap != vis
    requires Sweepable(fovmap.Model(), vis.Model(), viewer, losRadius)
    modifies fovmap
    ensures fovmap.Valid()
    ensures SweepAt(fovmap.Model(), old(fovmap.Model()), vis.Model(), viewer, losRadius, Fov.DecayFn(decayPerTile, sqrt), 8, 0, 0, 0)
  {
    ghost var m1 := fovmap.Model();
    ghost var decay := Fov.DecayFn(decayPerTile, sqrt);
    SweepStart(m1, vis.Model(), viewer, losRadius, decay);
    var k := 0;
    while k < |AxisSets|
      invariant 0 <= k <= 8 && fovmap.Valid()
      invariant SweepAt(fovmap.Model(), m1, vis.Model(), viewer, losRadius, decay, k, 0, 0, 0)
    {
      SweepOctant(fovmap, vis, viewer, losRadius, decayPerTile, sqrt, k, m1);
      k := k + 1;
    }
    assert k == 8;
  }

  /** After the sweep and the decay pass every cell holds its TrapValue. */
  lemma TrapFinal(m0: Grid, m1: Grid, m2: Grid, m3: Grid, vis: Grid, viewer: IVec2, losRadius: int, decay: IVec2 -> real)
    requires m0.Valid() && m0.width == vis.width && m0.height == vis.height && m0.InBounds(viewer) && m0.Get(viewer) == 1.0
    requires forall p :: m0.InBounds(p) && p != viewer ==> m0.Get(p) == 0.0
    requires m1.Valid() && m1.width == m0.width && m1.height == m0.height
    requires forall p :: m1.InBounds(p) ==> m1.Get(p) == Passed(m0, viewer, losRadius, RayFn(vis, viewer), p)
    requires SweepAt(m2, m1, vis, viewer, losRadius, decay, 8, 0, 0, 0)
    requires m3.Valid() && m3.width == m2.width && m3.height == m2.height
    requires forall p :: m3.InBounds(p) ==> m3.Get(p) == Passed(m2, viewer, losRadius, DecayedFn(m2, viewer, decay), p)
    ensures forall p :: m3.InBounds(p) ==> m3.Get(p) == TrapValue(vis, viewer, losRadius, decay, p)
  {
    forall p | m3.InBounds(p)
      ensures m3.Get(p) == TrapValue(vis, viewer, losRadius, decay, p)
    {
      TrapCellFinal(m0, m1, m2, m3, vis, viewer, losRadius, decay, p, m0.Get(p), m1.Get(p), m2.Get(p));
    }
  }

  /** One cell of TrapFinal, given what it holds after each of the three passes. */
  lemma TrapCellFinal(m0: Grid, m1: Grid, m2: Grid, m3: Grid, vis: Grid, viewer: IVec2, losRadius: int, decay: IVec2 -> real,
                      p: IVec2, v0: real, v1: real, v2: real)
    requires m0.Valid() && m1.Valid() && m2.Valid() && m3.Valid() && vis.Valid()
    requires m0.width == m1.width == m2.width == m3.width && m0.height == m1.height == m2.height == m3.height
    requires m3.InBounds(p) && v0 == m0.Get(p) && v1 == m1.Get(p) && v2 == m2.Get(p)
    requires v0 == if p == viewer then 1.0 else 0.0
    requires v1 == Passed(m0, viewer, losRadius, RayFn(vis, viewer), p)
    requires v2 == SweepCell(m1, vis, viewer, losRadius, decay, 8, 0, 0, 0, p)
    requires m3.Get(p) == Passed(m2, viewer, losRadius, DecayedFn(m2, viewer, decay), p)
    ensures m3.Get(p) == TrapValue(vis, viewer, losRadius, decay, p)
  {
    var o := p.Sub(viewer);
    assert viewer.Add(o) == p;
    var cell := Classify(o);
    if cell.Origin? || !Reached(o, losRadius) {
      TrapCellUntouched(m0, m1, m2, m3, vis, viewer, losRadius, decay, p, v0);
      if cell.Origin? {
        assert p == viewer;
      }
    } else if cell.Ray? {
      TrapCellRay(m0, m1, m2, m3, vis, viewer, losRadius, decay, p, v1, v2);
    } else {
      TrapCellInner(m1, m2, m3, vis, viewer, losRadius, decay, p, v2);
    }
  }

  /** The viewer's own cell and a cell out of reach: no pass writes it, so it keeps its starting value. */
  lemma TrapCellUntouched(m0: Grid, m1: Grid, m2: Grid, m3: Grid, vis: Grid, viewer: IVec2, losRadius: int, decay: IVec2 -> real,
                          p: IVec2, v0: real)
    requires m0.Valid() && m1.Valid() && m2.Valid() && m3.Valid() && vis.Valid()
    requires m0.InBounds(p) && m1.InBounds(p) && m2.InBounds(p) && m3.InBounds(p) && v0 == m0.Get(p)
    requires Classify(p.Sub(viewer)).Origin? || !Reached(p.Sub(viewer), losRadius)
    requires m1.Get(p) == Passed(m0, viewer, losRadius, RayFn(vis, viewer), p)
    requires m2.Get(p) == SweepCell(m1, vis, viewer, losRadius, decay, 8, 0, 0, 0, p)
    requires m3.Get(p) == Passed(m2, viewer, losRadius, DecayedFn(m2, viewer, decay), p)
    ensures m3.Get(p) == v0
  {
    var o := p.Sub(viewer);
    var cell := Classify(o);
    assert !cell.Ray? || !Reached(o, losRadius);
    assert ProgressOf(cell, Reached(o, losRadius), 8, 0, 0, 0).Untouched?;
    assert m2.Get(p) == m1.Get(p);
  }

  /** A reached ray cell: the ray pass stores its visibility, and the decay pass decays it. */
  lemma TrapCellRay(m0: Grid, m1: Grid, m2: Grid, m3: Grid, vis: Grid, viewer: IVec2, losRadius: int, decay: IVec2 -> real,
                    p: IVec2, v1: real, v2: real)
    requires m0.Valid() && m1.Valid() && m2.Valid() && m3.Valid() && vis.Valid()
    requires m0.InBounds(p) && m1.InBounds(p) && m2.InBounds(p) && m3.InBounds(p)
    requires v1 == m1.Get(p) && v2 == m2.Get(p)
    requires Classify(p.Sub(viewer)).Ray? && Reached(p.Sub(viewer), losRadius)
    requires v1 == Passed(m0, viewer, losRadius, RayFn(vis, viewer), p)
    requires v2 == SweepCell(m1, vis, viewer, losRadius, decay, 8, 0, 0, 0, p)
    requires m3.Get(p) == Passed(m2, viewer, losRadius, DecayedFn(m2, viewer, decay), p)
    ensures m3.Get(p) == TrapValue(vis, viewer, losRadius, decay, p)
  {
    var o := p.Sub(viewer);
    assert viewer.Add(o) == p;
    assert v2 == v1;
    assert RayFn(vis, viewer)(o) == RayCell(vis, viewer, o);
    assert DecayedFn(m2, viewer, decay)(o) == Max(v2 - decay(o), 0.0);
  }

  /** A reached inner cell: the sweep leaves it finished, and the decay pass does not touch it. */
  lemma TrapCellInner(m1: Grid, m2: Grid, m3: Grid, vis: Grid, viewer: IVec2, losRadius: int, decay: IVec2 -> real,
                      p: IVec2, v2: real)
    requires m1.Valid() && m2.Valid() && m3.Valid() && vis.Valid()
    requires m1.InBounds(p) && m2.InBounds(p) && m3.InBounds(p) && v2 == m2.Get(p)
    requires Classify(p.Sub(viewer)).Inner? && Reached(p.Sub(viewer), losRadius)
    requires v2 == SweepCell(m1, vis, viewer, losRadius, decay, 8, 0, 0, 0, p)
    requires m3.Get(p) == Passed(m2, viewer, losRadius, DecayedFn(m2, viewer, decay), p)
    ensures m3.Get(p) == TrapValue(vis, viewer, losRadius, decay, p)
  {
    assert m3.Get(p) == v2;
  }

  /**
   * fov: the rhombus-mesh field of view of the viewer within losRadius over the opacities vis.
   * Every cell of the result holds its TrapValue; with opacities in [0,1], a true square root, a
   * positive radius and a decay percentage not below 0, every cell lies in [0,1].
   */
  method FovTrap(viewer: IVec2, losRadius: int, vis: Map2D, decayPercent: real, sqrt: int -> real) returns (fovmap: Map2D)
    requires losRadius != 0 && vis.Valid() && vis.InBounds(viewer)
    ensures fresh(fovmap) && fovmap.Valid() && fovmap.width == vis.width && fovmap.height == vis.height
    ensures forall p :: fovmap.Model().InBounds(p) ==>
      fovmap.Model().Get(p) == TrapValue(vis.Model(), viewer, losRadius, Fov.DecayFn(Fov.DecayPerTile(decayPercent, losRadius), sqrt), p)
    ensures UnitValued(vis.Model()) && IsSqrt(sqrt) && losRadius > 0 && decayPercent >= 0.0 ==> UnitValued(fovmap.Model())
  {
    fovmap := new Map2D(vis.width, vis.height, 0.0);
    var decayPerTile := Fov.DecayPerTile(decayPercent, losRadius);
    fovmap.Set(viewer, 1.0);
    ghost var m0 := fovmap.Model();
    RayPass(fovmap, vis, viewer, losRadius);
    ghost var m1 := fovmap.Model();
    RaysSweepable(m0, m1, vis.Model(), viewer, losRadius);
    Sweep(fovmap, vis, viewer, losRadius, decayPerTile, sqrt);
    ghost var m2 := fovmap.Model();
    DecayPass(fovmap, viewer, losRadius, Fov.DecayFn(decayPerTile, sqrt));
    TrapFinal(m0, m1, m2, fovmap.Model(), vis.Model(), viewer, losRadius, Fov.DecayFn(decayPerTile, sqrt));
    if UnitValued(vis.Model()) && IsSqrt(sqrt) && losRadius > 0 && decayPercent >= 0.0 {
      TrapUnitValued(fovmap.Model(), vis.Model(), viewer, losRadius, decayPerTile, sqrt);
    }
  }

  /** A map of TrapValues over opacities in [0,1], with a non-negative decay per tile and a true square root, lies in [0,1]. */
  lemma TrapUnitValued(m: Grid, vis: Grid, viewer: IVec2, losRadius: int, decayPerTile: real, sqrt: int -> real)
    requires m.Valid() && vis.Valid() && UnitValued(vis) && IsSqrt(sqrt) && decayPerTile >= 0.0
    requires forall p :: m.InBounds(p) ==> m.Get(p) == TrapValue(vis, viewer, losRadius, Fov.DecayFn(decayPerTile, sqrt), p)
    ensures UnitValued(m)
  {
    var decay := Fov.DecayFn(decayPerTile, sqrt);
    forall o: IVec2 ensures decay(o) >= 0.0 {
      Fov.DecayMonotone(IVec2(0, 0), o, decayPerTile, sqrt);
    }
    forall p | m.InBounds(p) ensures 0.0 <= m.Get(p) <= 1.0 {
      TrapValueInUnit(vis, viewer, losRadius, decay, p);
    }
  }
}
