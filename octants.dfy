/**
 * The geometry shared by the rhombus-mesh variants: the eight rays from the viewer, the eight
 * octants swept between them, and the classification of every offset as the viewer's own,
 * a ray cell or an inner octant cell.
 */
module Octants {
  import opened MathUtil
  import opened Grids

  /** axis_sets: the (fwd, up) pair of each octant, in the order the sweeps take them. */
  const AxisSets: seq<(IVec2, IVec2)> := [
    (IVec2(1, 0), IVec2(0, 1)),
    (IVec2(1, 0), IVec2(0, -1)),
    (IVec2(0, 1), IVec2(1, 0)),
    (IVec2(0, 1), IVec2(-1, 0)),
    (IVec2(-1, 0), IVec2(0, 1)),
    (IVec2(-1, 0), IVec2(0, -1)),
    (IVec2(0, -1), IVec2(-1, 0)),
    (IVec2(0, -1), IVec2(1, 0))
  ]

  /** The offset col*fwd + row*up of octant k, written out per octant. */
  function OctOffset(k: int, c: int, r: int): IVec2
  {
    if k == 0 then IVec2(c, r)
    else if k == 1 then IVec2(c, -r)
    else if k == 2 then IVec2(r, c)
    else if k == 3 then IVec2(-r, c)
    else if k == 4 then IVec2(-c, r)
    else if k == 5 then IVec2(-c, -r)
    else if k == 6 then IVec2(-r, -c)
    else IVec2(r, -c)
  }

  /** Each pair is a unit axis vector fwd and a unit axis vector up orthogonal to it. */
  lemma AxisSetsOrthonormal(k: int)
    requires 0 <= k < 8
    ensures AbsOf(AxisSets[k].0.x) + AbsOf(AxisSets[k].0.y) == 1
    ensures AbsOf(AxisSets[k].1.x) + AbsOf(AxisSets[k].1.y) == 1
    ensures AxisSets[k].0.x * AxisSets[k].1.x + AxisSets[k].0.y * AxisSets[k].1.y == 0
  {
  }

  /** fwd.muls(col) + up.muls(row) is the octant offset written out. */
  lemma AxisSetOffset(k: int, c: int, r: int)
    requires 0 <= k < 8
    ensures AxisSets[k].0.Muls(c).Add(AxisSets[k].1.Muls(r)) == OctOffset(k, c, r)
  {
    var fwd, up := AxisSets[k].0, AxisSets[k].1;
    if k == 0 { assert fwd == IVec2(1, 0) && up == IVec2(0, 1); }
    else if k == 1 { assert fwd == IVec2(1, 0) && up == IVec2(0, -1); }
    else if k == 2 { assert fwd == IVec2(0, 1) && up == IVec2(1, 0); }
    else if k == 3 { assert fwd == IVec2(0, 1) && up == IVec2(-1, 0); }
    else if k == 4 { assert fwd == IVec2(-1, 0) && up == IVec2(0, 1); }
    else if k == 5 { assert fwd == IVec2(-1, 0) && up == IVec2(0, -1); }
    else if k == 6 { assert fwd == IVec2(0, -1) && up == IVec2(-1, 0); }
    else { assert fwd == IVec2(0, -1) && up == IVec2(1, 0); }
  }

  /** One step forward along fwd, and one step along fwd + up. */
  lemma OctOffsetSteps(k: int, c: int, r: int)
    requires 0 <= k < 8
    ensures OctOffset(k, c, r).Add(AxisSets[k].0) == OctOffset(k, c + 1, r)
    ensures OctOffset(k, c, r).Add(AxisSets[k].1.Add(AxisSets[k].0)) == OctOffset(k, c + 1, r + 1)
  {
  }

  /** The squared length of an octant offset is col² + row². */
  lemma OctOffsetLength(k: int, c: int, r: int)
    requires 0 <= k < 8
    ensures OctOffset(k, c, r).SquaredLength() == c * c + r * r
  {
  }

  /** Where an offset lies: the viewer's own cell, step i of the ray in direction d, or cell (c, r) of octant k. */
  datatype Cell = Origin | Ray(d: IVec2, i: int) | Inner(k: int, c: int, r: int)

  /** The octant of an offset off the rays, keyed by which component is larger and by the signs. */
  function OctantOf(o: IVec2): int
  {
    if AbsOf(o.x) > AbsOf(o.y) then
      (if o.x > 0 then (if o.y > 0 then 0 else 1) else (if o.y > 0 then 4 else 5))
    else
      (if o.y > 0 then (if o.x > 0 then 2 else 3) else (if o.x < 0 then 6 else 7))
  }

  /** Classifies an offset: axis-aligned and diagonal offsets lie on a ray, the rest inside an octant. */
  function Classify(o: IVec2): (cell: Cell)
    ensures cell.Origin? <==> o.IsZero()
    ensures cell.Ray? ==> cell.d == o.Sign() && 1 <= cell.i
    ensures cell.Inner? ==> 0 <= cell.k < 8 && 0 < cell.r < cell.c
  {
    var ax, ay := AbsOf(o.x), AbsOf(o.y);
    if ax == 0 && ay == 0 then Origin
    else if ax == ay || ax == 0 || ay == 0 then Ray(o.Sign(), if ax > ay then ax else ay)
    else if ax > ay then Inner(OctantOf(o), ax, ay)
    else Inner(OctantOf(o), ay, ax)
  }

  /** Different offsets are classified differently. */
  lemma ClassifyInjective(a: IVec2, b: IVec2)
    requires Classify(a) == Classify(b)
    ensures a == b
  {
  }

  /** Cell (c, r) of octant k with 0 < r < c is classified as exactly that. */
  lemma ClassifyInner(k: int, c: int, r: int)
    requires 0 <= k < 8 && 0 < r < c
    ensures Classify(OctOffset(k, c, r)) == Inner(k, c, r)
  {
  }

  /** The cell at viewer + OctOffset(k, c, r), 0 < r < c, is classified Inner(k, c, r). */
  lemma ClassifyInnerAt(viewer: IVec2, k: int, c: int, r: int)
    requires 0 <= k < 8 && 0 < r < c
    ensures viewer.Add(OctOffset(k, c, r)).Sub(viewer) == OctOffset(k, c, r)
    ensures Classify(viewer.Add(OctOffset(k, c, r)).Sub(viewer)) == Inner(k, c, r)
  {
    var o := OctOffset(k, c, r);
    assert viewer.Add(o).Sub(viewer) == o;
    ClassifyInner(k, c, r);
  }

  /** The cells (c, 0) and (c, c) of octant k are the c-th steps of the rays along fwd and fwd + up. */
  lemma ClassifyOctantRays(k: int, c: int)
    requires 0 <= k < 8 && 0 < c
    ensures Classify(OctOffset(k, c, 0)) == Ray(AxisSets[k].0, c)
    ensures Classify(OctOffset(k, c, c)) == Ray(AxisSets[k].1.Add(AxisSets[k].0), c)
  {
    var fwd, up := AxisSets[k].0, AxisSets[k].1;
    if k == 0 { assert fwd == IVec2(1, 0) && up == IVec2(0, 1); }
    else if k == 1 { assert fwd == IVec2(1, 0) && up == IVec2(0, -1); }
    else if k == 2 { assert fwd == IVec2(0, 1) && up == IVec2(1, 0); }
    else if k == 3 { assert fwd == IVec2(0, 1) && up == IVec2(-1, 0); }
    else if k == 4 { assert fwd == IVec2(-1, 0) && up == IVec2(0, 1); }
    else if k == 5 { assert fwd == IVec2(-1, 0) && up == IVec2(0, -1); }
    else if k == 6 { assert fwd == IVec2(0, -1) && up == IVec2(-1, 0); }
    else { assert fwd == IVec2(0, -1) && up == IVec2(1, 0); }
  }

  /** A unit direction of the ray pass: each component in {-1, 0, 1}, not both zero. */
  predicate IsDirection(d: IVec2)
  {
    -1 <= d.x <= 1 && -1 <= d.y <= 1 && !d.IsZero()
  }

  /** Step i >= 1 along direction (x, y), computed as ivec2(x*i, y*i), is step i of that ray. */
  lemma ClassifyRay(x: int, y: int, i: int)
    requires IsDirection(IVec2(x, y)) && 1 <= i
    ensures IVec2(x * i, y * i) == IVec2(x, y).Muls(i)
    ensures Classify(IVec2(x * i, y * i)) == Ray(IVec2(x, y), i)
  {
    if x == -1 { assert x * i == -i; } else if x == 0 { assert x * i == 0; } else { assert x * i == i; }
    if y == -1 { assert y * i == -i; } else if y == 0 { assert y * i == 0; } else { assert y * i == i; }
  }

  /**
   * One step back along its ray from step i: the viewer's own cell for i = 1, else step i - 1;
   * either way it lies behind.
   */
  lemma RayBack(o: IVec2)
    requires Classify(o).Ray?
    ensures Behind(o.Sub(Classify(o).d), o)
    ensures Classify(o).i == 1 ==> o.Sub(Classify(o).d).IsZero()
    ensures Classify(o).i > 1 ==> Classify(o.Sub(Classify(o).d)) == Ray(Classify(o).d, Classify(o).i - 1)
  {
  }

  /** The cell j steps from the viewer in direction d. */
  function RayPoint(viewer: IVec2, d: IVec2, j: int): IVec2
    decreases j
  {
    if j <= 0 then viewer else RayPoint(viewer, d, j - 1).Add(d)
  }

  /** Step i of the ray in direction d is the cell RayPoint(viewer, d, i). */
  lemma {:induction false} RayPointOf(viewer: IVec2, o: IVec2)
    requires Classify(o).Ray?
    ensures viewer.Add(o) == RayPoint(viewer, Classify(o).d, Classify(o).i)
    decreases Classify(o).i
  {
    RayBack(o);
    var d, i := Classify(o).d, Classify(o).i;
    if i > 1 {
      RayPointOf(viewer, o.Sub(d));
    }
  }

  /** The value of a grid cell, and 0 off the grid. */
  function At(g: Grid, p: IVec2): real
    requires g.Valid()
  {
    if g.InBounds(p) then g.Get(p) else 0.0
  }

  lemma AtInUnit(g: Grid, p: IVec2)
    requires g.Valid() && UnitValued(g)
    ensures 0.0 <= At(g, p) <= 1.0
  {
  }

  /** The offset lies within the radius: losRadius >= 0 and the squared length is at most losRadius². */
  predicate Reached(o: IVec2, losRadius: int)
  {
    0 <= losRadius && o.SquaredLength() <= losRadius * losRadius
  }

  /** A reached ray cell lies at a step no greater than the radius. */
  lemma ReachedRayStep(o: IVec2, losRadius: int)
    requires Reached(o, losRadius) && Classify(o).Ray?
    ensures Classify(o).i <= losRadius
  {
    SquareOfAbs(o.x);
    SquareOfAbs(o.y);
    SquaredLengthBounds(o);
    IntSquareBound(AbsOf(o.x), losRadius);
    IntSquareBound(AbsOf(o.y), losRadius);
  }

  /**
   * The visibility the ray pass gives step i of the ray in direction d: the product of the
   * opacities of the steps before it, starting with the viewer's own cell; 1 at the viewer.
   */
  function RayValue(vis: Grid, viewer: IVec2, d: IVec2, i: int): real
    requires vis.Valid()
    decreases i
  {
    if i <= 0 then 1.0 else Dim(At(vis, RayPoint(viewer, d, i - 1)), RayValue(vis, viewer, d, i - 1))
  }

  /** vis.get(pnb) * fovmap.get(pnb): a value passed on through a cell of the given opacity. */
  function Dim(opacity: real, amt: real): real
  {
    opacity * amt
  }

  /** With opacities in [0,1] every ray value lies in [0,1]. */
  lemma {:induction false} RayValueInUnit(vis: Grid, viewer: IVec2, d: IVec2, i: int)
    requires vis.Valid() && UnitValued(vis)
    ensures 0.0 <= RayValue(vis, viewer, d, i) <= 1.0
    decreases i
  {
    if i > 0 {
      RayValueInUnit(vis, viewer, d, i - 1);
      AtInUnit(vis, RayPoint(viewer, d, i - 1));
      UnitProduct(At(vis, RayPoint(viewer, d, i - 1)), RayValue(vis, viewer, d, i - 1));
    }
  }

  /** The value the ray pass writes at the ray cell of offset o. */
  ghost function RayFn(vis: Grid, viewer: IVec2): IVec2 -> real
  {
    o => RayCell(vis, viewer, o)
  }

  /** The ray value of the ray cell at offset o, and 0 anywhere else. */
  ghost function RayCell(vis: Grid, viewer: IVec2, o: IVec2): real
  {
    if vis.Valid() && Classify(o).Ray? then RayValue(vis, viewer, Classify(o).d, Classify(o).i) else 0.0
  }

  /** The value the decay pass writes at the ray cell of offset o, given the map m0 it starts from. */
  ghost function DecayedFn(m0: Grid, viewer: IVec2, decay: IVec2 -> real): IVec2 -> real
  {
    o => if m0.Valid() && m0.InBounds(viewer.Add(o)) then Max(m0.Get(viewer.Add(o)) - decay(o), 0.0) else 0.0
  }

  /** The passes take the directions row by row, y = -1, 0, 1, each for x = -1, 0, 1: d comes before (x, y). */
  predicate DirBefore(d: IVec2, y: int, x: int)
  {
    d.y < y || (d.y == y && d.x < x)
  }

  /** A pass over the rays standing at step i of direction (x, y) has already handled this cell. */
  predicate RayDone(cell: Cell, y: int, x: int, i: int)
  {
    cell.Ray? && (DirBefore(cell.d, y, x) || (cell.d == IVec2(x, y) && cell.i < i))
  }

  /**
   * A cell during a pass over the rays that gives each in-map ray cell within the radius at offset o
   * the value f(o), standing at step i of direction (x, y): f of its offset once handled, else as in m0.
   */
  ghost function PassCell(m0: Grid, viewer: IVec2, losRadius: int, f: IVec2 -> real, y: int, x: int, i: int, p: IVec2): real
    requires m0.Valid() && m0.InBounds(p)
  {
    var o := p.Sub(viewer);
    if Reached(o, losRadius) && RayDone(Classify(o), y, x, i) then f(o) else m0.Get(p)
  }

  /** The map m is what the pass, started on m0, holds at step i of direction (x, y). */
  ghost predicate PassAt(m: Grid, m0: Grid, viewer: IVec2, losRadius: int, f: IVec2 -> real, y: int, x: int, i: int)
  {
    m.Valid() && m0.Valid() && m.width == m0.width && m.height == m0.height &&
    forall p {:trigger m.Get(p)} :: m.InBounds(p) ==> m.Get(p) == PassCell(m0, viewer, losRadius, f, y, x, i, p)
  }

  /** The map after the pass: each in-map ray cell within the radius holds f of its offset, every other cell as in m0. */
  ghost function Passed(m0: Grid, viewer: IVec2, losRadius: int, f: IVec2 -> real, p: IVec2): real
    requires m0.Valid() && m0.InBounds(p)
  {
    var o := p.Sub(viewer);
    if Reached(o, losRadius) && Classify(o).Ray? then f(o) else m0.Get(p)
  }

  /** The cell being handled still holds its value from m0. */
  lemma PassReadCurrent(m: Grid, m0: Grid, viewer: IVec2, losRadius: int, f: IVec2 -> real, x: int, y: int, i: int, o: IVec2)
    requires PassAt(m, m0, viewer, losRadius, f, y, x, i)
    requires Classify(o) == Ray(IVec2(x, y), i) && m.InBounds(viewer.Add(o))
    ensures m.Get(viewer.Add(o)) == m0.Get(viewer.Add(o))
  {
    assert viewer.Add(o).Sub(viewer) == o;
  }

  /** Writing f(o) at step i of the ray advances the pass to step i + 1. */
  lemma PassWrite(m: Grid, m0: Grid, viewer: IVec2, losRadius: int, f: IVec2 -> real, x: int, y: int, i: int, o: IVec2, v: real)
    requires PassAt(m, m0, viewer, losRadius, f, y, x, i)
    requires Classify(o) == Ray(IVec2(x, y), i)
    requires m.InBounds(viewer.Add(o)) && Reached(o, losRadius) && v == f(o)
    ensures PassAt(m.Set(viewer.Add(o), v), m0, viewer, losRadius, f, y, x, i + 1)
  {
    var p := viewer.Add(o);
    assert p.Sub(viewer) == o;
    var m' := m.Set(p, v);
    forall q | m'.InBounds(q)
      ensures m'.Get(q) == PassCell(m0, viewer, losRadius, f, y, x, i + 1, q)
    {
      if q != p && Classify(q.Sub(viewer)) == Ray(IVec2(x, y), i) {
        ClassifyInjective(q.Sub(viewer), o);
      }
    }
  }

  /** A step off the map or beyond the radius is passed over without writing. */
  lemma PassSkip(m: Grid, m0: Grid, viewer: IVec2, losRadius: int, f: IVec2 -> real, x: int, y: int, i: int, o: IVec2)
    requires PassAt(m, m0, viewer, losRadius, f, y, x, i)
    requires Classify(o) == Ray(IVec2(x, y), i)
    requires !m.InBounds(viewer.Add(o)) || !Reached(o, losRadius)
    ensures PassAt(m, m0, viewer, losRadius, f, y, x, i + 1)
  {
    forall q | m.InBounds(q)
      ensures m.Get(q) == PassCell(m0, viewer, losRadius, f, y, x, i + 1, q)
    {
      if Classify(q.Sub(viewer)) == Ray(IVec2(x, y), i) {
        ClassifyInjective(q.Sub(viewer), o);
        assert q == viewer.Add(o);
      }
    }
  }

  /** Past the radius (or for the skipped direction (0, 0)) the pass moves on to the next direction. */
  lemma PassNextDirection(m: Grid, m0: Grid, viewer: IVec2, losRadius: int, f: IVec2 -> real, x: int, y: int, i: int)
    requires PassAt(m, m0, viewer, losRadius, f, y, x, i)
    requires 1 <= i && (IVec2(x, y).IsZero() || losRadius < i)
    ensures PassAt(m, m0, viewer, losRadius, f, y, x + 1, 1)
  {
    forall q | m.InBounds(q)
      ensures m.Get(q) == PassCell(m0, viewer, losRadius, f, y, x + 1, 1, q)
    {
      var o := q.Sub(viewer);
      if Reached(o, losRadius) && Classify(o).Ray? {
        ReachedRayStep(o, losRadius);
      }
    }
  }

  /** After direction (1, y) the pass moves on to row y + 1. */
  lemma PassNextRow(m: Grid, m0: Grid, viewer: IVec2, losRadius: int, f: IVec2 -> real, y: int)
    requires PassAt(m, m0, viewer, losRadius, f, y, 2, 1)
    ensures PassAt(m, m0, viewer, losRadius, f, y + 1, -1, 1)
  {
  }

  /** After the last row every ray cell has been handled. */
  lemma PassDone(m: Grid, m0: Grid, viewer: IVec2, losRadius: int, f: IVec2 -> real)
    requires PassAt(m, m0, viewer, losRadius, f, 2, -1, 1)
    ensures forall p :: m.InBounds(p) ==> m.Get(p) == Passed(m0, viewer, losRadius, f, p)
  {
  }

  /** The cell before step i of a ray is in the map, one step back along the ray. */
  lemma RayPrevious(w: int, h: int, viewer: IVec2, x: int, y: int, i: int, o: IVec2)
    requires InBoundsOf(w, h, viewer) && InBoundsOf(w, h, viewer.Add(o))
    requires Classify(o) == Ray(IVec2(x, y), i)
    ensures InBoundsOf(w, h, viewer.Add(o).Sub(IVec2(x, y)))
    ensures viewer.Add(o).Sub(IVec2(x, y)) == RayPoint(viewer, IVec2(x, y), i - 1)
    ensures viewer.Add(o).Sub(IVec2(x, y)).Sub(viewer) == o.Sub(IVec2(x, y))
    ensures Behind(o.Sub(IVec2(x, y)), o)
    ensures i == 1 ==> o.Sub(IVec2(x, y)).IsZero()
    ensures i > 1 ==> Classify(o.Sub(IVec2(x, y))) == Ray(IVec2(x, y), i - 1)
  {
    var q := o.Sub(IVec2(x, y));
    RayBack(o);
    BehindInBounds(w, h, viewer, o, q);
    assert viewer.Add(o).Sub(IVec2(x, y)) == viewer.Add(q);
    if i > 1 {
      RayPointOf(viewer, q);
    }
  }

  /** The cell before step i of a ray holds the ray value of step i - 1 (1 at the viewer). */
  lemma RayRead(m: Grid, m0: Grid, vis: Grid, viewer: IVec2, losRadius: int, x: int, y: int, i: int, o: IVec2)
    requires PassAt(m, m0, viewer, losRadius, RayFn(vis, viewer), y, x, i) && vis.Valid()
    requires m0.InBounds(viewer) && m0.Get(viewer) == 1.0
    requires Classify(o) == Ray(IVec2(x, y), i)
    requires m.InBounds(viewer.Add(o)) && Reached(o, losRadius)
    ensures m.InBounds(viewer.Add(o).Sub(IVec2(x, y)))
    ensures viewer.Add(o).Sub(IVec2(x, y)) == RayPoint(viewer, IVec2(x, y), i - 1)
    ensures m.Get(viewer.Add(o).Sub(IVec2(x, y))) == RayValue(vis, viewer, IVec2(x, y), i - 1)
  {
    RayPrevious(m.width, m.height, viewer, x, y, i, o);
    BehindShorter(o.Sub(IVec2(x, y)), o);
  }

  /** The ray value of step i is the opacity of the step before it times that step's ray value. */
  lemma RayValueStep(vis: Grid, viewer: IVec2, d: IVec2, i: int, pnb: IVec2, opacity: real, before: real)
    requires vis.Valid() && i >= 1
    requires vis.InBounds(pnb) && pnb == RayPoint(viewer, d, i - 1)
    requires opacity == vis.Get(pnb) && before == RayValue(vis, viewer, d, i - 1)
    ensures Dim(opacity, before) == RayValue(vis, viewer, d, i)
  {
    RayValueUnfold(vis, viewer, d, i, pnb);
  }

  lemma RayFnAt(vis: Grid, viewer: IVec2, d: IVec2, i: int, o: IVec2)
    requires vis.Valid() && Classify(o) == Ray(d, i)
    ensures i >= 1 && RayFn(vis, viewer)(o) == RayValue(vis, viewer, d, i)
  {
    assert RayFn(vis, viewer)(o) == RayCell(vis, viewer, o);
  }

  lemma RayValueUnfold(vis: Grid, viewer: IVec2, d: IVec2, i: int, pnb: IVec2)
    requires vis.Valid() && i >= 1 && vis.InBounds(pnb) && pnb == RayPoint(viewer, d, i - 1)
    ensures RayValue(vis, viewer, d, i) == Dim(vis.Get(pnb), RayValue(vis, viewer, d, i - 1))
  {
    assert At(vis, RayPoint(viewer, d, i - 1)) == vis.Get(pnb);
  }

  /**
   * The loop over the steps 1..losRadius of the ray in direction (x, y): each in-map step within the
   * radius gets the opacity of the step before it times that step's visibility.
   */
  method CastRay(fovmap: Map2D, vis: Map2D, viewer: IVec2, losRadius: int, x: int, y: int, ghost m0: Grid)
    requires vis.Valid() && fovmap.Valid() && fovmap != vis && IsDirection(IVec2(x, y))
    requires PassAt(fovmap.Model(), m0, viewer, losRadius, RayFn(vis.Model(), viewer), y, x, 1)
    requires vis.width == m0.width && vis.height == m0.height
    requires m0.InBounds(viewer) && m0.Get(viewer) == 1.0
    modifies fovmap
    ensures fovmap.Valid() && PassAt(fovmap.Model(), m0, viewer, losRadius, RayFn(vis.Model(), viewer), y, x + 1, 1)
  {
    var i := 1;
    while i < losRadius + 1
      invariant 1 <= i && (i <= losRadius + 1 || i == 1)
      invariant fovmap.Valid() && PassAt(fovmap.Model(), m0, viewer, losRadius, RayFn(vis.Model(), viewer), y, x, i)
    {
      CastStep(fovmap, vis, viewer, losRadius, x, y, i, m0);
      i := i + 1;
    }
    PassNextDirection(fovmap.Model(), m0, viewer, losRadius, RayFn(vis.Model(), viewer), x, y, i);
  }

  /** Step i of the ray in direction (x, y): skipped off the map or beyond the radius, else set from step i - 1. */
  method CastStep(fovmap: Map2D, vis: Map2D, viewer: IVec2, losRadius: int, x: int, y: int, i: int, ghost m0: Grid)
    requires vis.Valid() && fovmap.Valid() && fovmap != vis && IsDirection(IVec2(x, y)) && 1 <= i <= losRadius
    requires PassAt(fovmap.Model(), m0, viewer, losRadius, RayFn(vis.Model(), viewer), y, x, i)
    requires vis.width == m0.width && vis.height == m0.height
    requires m0.InBounds(viewer) && m0.Get(viewer) == 1.0
    modifies fovmap
    ensures fovmap.Valid() && PassAt(fovmap.Model(), m0, viewer, losRadius, RayFn(vis.Model(), viewer), y, x, i + 1)
  {
    ghost var f := RayFn(vis.Model(), viewer);
    var o := IVec2(x * i, y * i);
    var p := viewer.Add(o);
    ClassifyRay(x, y, i);
    if !fovmap.InBounds(p) || o.SquaredLength() > losRadius * losRadius {
      PassSkip(fovmap.Model(), m0, viewer, losRadius, f, x, y, i, o);
    } else {
      var pnb := p.Sub(IVec2(x, y));
      RayRead(fovmap.Model(), m0, vis.Model(), viewer, losRadius, x, y, i, o);
      var before := fovmap.Get(pnb);
      RayFnAt(vis.Model(), viewer, IVec2(x, y), i, o);
      var opacity := vis.Get(pnb);
      RayValueStep(vis.Model(), viewer, IVec2(x, y), i, pnb, opacity, before);
      var amt := Dim(opacity, before);
      PassWrite(fovmap.Model(), m0, viewer, losRadius, f, x, y, i, o, amt);
      fovmap.Set(p, amt);
    }
  }

  /**
   * The pass over the eight straight and diagonal rays: every in-map ray cell within the radius gets its
   * ray value, every other cell keeps its value. The viewer's cell must already hold 1.
   */
  method RayPass(fovmap: Map2D, vis: Map2D, viewer: IVec2, losRadius: int)
    requires vis.Valid() && fovmap.Valid() && fovmap != vis
    requires fovmap.width == vis.width && fovmap.height == vis.height
    requires fovmap.InBounds(viewer) && fovmap.Get(viewer) == 1.0
    modifies fovmap
    ensures fovmap.Valid()
    ensures forall p :: fovmap.Model().InBounds(p) ==>
      fovmap.Model().Get(p) == Passed(old(fovmap.Model()), viewer, losRadius, RayFn(vis.Model(), viewer), p)
  {
    ghost var m0 := fovmap.Model();
    var y := -1;
    while y < 2
      invariant -1 <= y <= 2 && fovmap.Valid()
      invariant PassAt(fovmap.Model(), m0, viewer, losRadius, RayFn(vis.Model(), viewer), y, -1, 1)
    {
      CastRayRow(fovmap, vis, viewer, losRadius, y, m0);
      y := y + 1;
    }
    PassDone(fovmap.Model(), m0, viewer, losRadius, RayFn(vis.Model(), viewer));
  }

  /** The rays of one row y of directions, x = -1, 0, 1, skipping the direction (0, 0). */
  method CastRayRow(fovmap: Map2D, vis: Map2D, viewer: IVec2, losRadius: int, y: int, ghost m0: Grid)
    requires vis.Valid() && fovmap.Valid() && fovmap != vis && -1 <= y <= 1
    requires PassAt(fovmap.Model(), m0, viewer, losRadius, RayFn(vis.Model(), viewer), y, -1, 1)
    requires vis.width == m0.width && vis.height == m0.height
    requires m0.InBounds(viewer) && m0.Get(viewer) == 1.0
    modifies fovmap
    ensures fovmap.Valid() && PassAt(fovmap.Model(), m0, viewer, losRadius, RayFn(vis.Model(), viewer), y + 1, -1, 1)
  {
    var x := -1;
    while x < 2
      invariant -1 <= x <= 2 && fovmap.Valid()
      invariant PassAt(fovmap.Model(), m0, viewer, losRadius, RayFn(vis.Model(), viewer), y, x, 1)
    {
      if x != 0 || y != 0 {
        CastRay(fovmap, vis, viewer, losRadius, x, y, m0);
      } else {
        PassNextDirection(fovmap.Model(), m0, viewer, losRadius, RayFn(vis.Model(), viewer), x, y, 1);
      }
      x := x + 1;
    }
    PassNextRow(fovmap.Model(), m0, viewer, losRadius, RayFn(vis.Model(), viewer), y);
  }

  /** The decay pass along the ray in direction (x, y): each in-map step within the radius loses its decay, clamped at 0. */
  method DecayRay(fovmap: Map2D, viewer: IVec2, losRadius: int, decay: IVec2 -> real, x: int, y: int, ghost m0: Grid)
    requires fovmap.Valid() && IsDirection(IVec2(x, y))
    requires PassAt(fovmap.Model(), m0, viewer, losRadius, DecayedFn(m0, viewer, decay), y, x, 1)
    modifies fovmap
    ensures fovmap.Valid() && PassAt(fovmap.Model(), m0, viewer, losRadius, DecayedFn(m0, viewer, decay), y, x + 1, 1)
  {
    ghost var f := DecayedFn(m0, viewer, decay);
    var i := 1;
    while i < losRadius + 1
      invariant 1 <= i && (i <= losRadius + 1 || i == 1)
      invariant fovmap.Valid() && PassAt(fovmap.Model(), m0, viewer, losRadius, f, y, x, i)
    {
      var o := IVec2(x * i, y * i);
      var p := viewer.Add(o);
      ClassifyRay(x, y, i);
      if !fovmap.InBounds(p) || o.SquaredLength() > losRadius * losRadius {
        PassSkip(fovmap.Model(), m0, viewer, losRadius, f, x, y, i, o);
        i := i + 1;
        continue;
      }
      PassReadCurrent(fovmap.Model(), m0, viewer, losRadius, f, x, y, i, o);
      var amt := Max(fovmap.Get(p) - decay(o), 0.0);
      PassWrite(fovmap.Model(), m0, viewer, losRadius, f, x, y, i, o, amt);
      fovmap.Set(p, amt);
      i := i + 1;
    }
    PassNextDirection(fovmap.Model(), m0, viewer, losRadius, f, x, y, i);
  }

  /**
   * The final pass over the eight rays: every in-map ray cell within the radius loses the decay of its
   * offset, clamped at 0; every other cell keeps its value.
   */
  method DecayPass(fovmap: Map2D, viewer: IVec2, losRadius: int, decay: IVec2 -> real)
    requires fovmap.Valid()
    modifies fovmap
    ensures fovmap.Valid()
    ensures forall p :: fovmap.Model().InBounds(p) ==>
      fovmap.Model().Get(p) == Passed(old(fovmap.Model()), viewer, losRadius, DecayedFn(old(fovmap.Model()), viewer, decay), p)
  {
    ghost var m0 := fovmap.Model();
    var y := -1;
    while y < 2
      invariant -1 <= y <= 2 && fovmap.Valid()
      invariant PassAt(fovmap.Model(), m0, viewer, losRadius, DecayedFn(m0, viewer, decay), y, -1, 1)
    {
      DecayRayRow(fovmap, viewer, losRadius, decay, y, m0);
      y := y + 1;
    }
    PassDone(fovmap.Model(), m0, viewer, losRadius, DecayedFn(m0, viewer, decay));
  }

  /** The decay pass over one row y of directions, x = -1, 0, 1, skipping the direction (0, 0). */
  method DecayRayRow(fovmap: Map2D, viewer: IVec2, losRadius: int, decay: IVec2 -> real, y: int, ghost m0: Grid)
    requires fovmap.Valid() && -1 <= y <= 1
    requires PassAt(fovmap.Model(), m0, viewer, losRadius, DecayedFn(m0, viewer, decay), y, -1, 1)
    modifies fovmap
    ensures fovmap.Valid() && PassAt(fovmap.Model(), m0, viewer, losRadius, DecayedFn(m0, viewer, decay), y + 1, -1, 1)
  {
    var x := -1;
    while x < 2
      invariant -1 <= x <= 2 && fovmap.Valid()
      invariant PassAt(fovmap.Model(), m0, viewer, losRadius, DecayedFn(m0, viewer, decay), y, x, 1)
    {
      if x != 0 || y != 0 {
        DecayRay(fovmap, viewer, losRadius, decay, x, y, m0);
      } else {
        PassNextDirection(fovmap.Model(), m0, viewer, losRadius, DecayedFn(m0, viewer, decay), x, y, 1);
      }
      x := x + 1;
    }
    PassNextRow(fovmap.Model(), m0, viewer, losRadius, DecayedFn(m0, viewer, decay), y);
  }

  /** The sweeps take an octant row by row and each row column by column: (r, c) comes before (row, col). */
  predicate Before(r: int, c: int, row: int, col: int)
  {
    r < row || (r == row && c < col)
  }

  /** The cell (c, r) of an octant lies behind the two cells a sweep step feeds from it, (c + 1, r + 1) and (c + 1, r). */
  lemma SourcesBehind(k: int, c: int, r: int)
    requires 0 <= k < 8 && 0 <= r <= c
    ensures Behind(OctOffset(k, c, r), OctOffset(k, c + 1, r + 1))
    ensures Behind(OctOffset(k, c, r), OctOffset(k, c + 1, r))
  {
  }

  /** A cell behind an in-map cell within the radius is itself in the map and within the radius. */
  lemma BehindReached(w: int, h: int, viewer: IVec2, s: IVec2, t: IVec2, losRadius: int)
    requires InBoundsOf(w, h, viewer) && InBoundsOf(w, h, viewer.Add(t)) && Reached(t, losRadius) && Behind(s, t)
    ensures InBoundsOf(w, h, viewer.Add(s)) && Reached(s, losRadius)
  {
    BehindShorter(s, t);
    BehindInBounds(w, h, viewer, t, s);
  }

  /** The cell at offset OctOffset(k, c, r), 0 < r < c, is the only one classified Inner(k, c, r). */
  lemma InnerAt(viewer: IVec2, q: IVec2, k: int, c: int, r: int)
    requires 0 <= k < 8 && 0 < r < c && Classify(q.Sub(viewer)) == Inner(k, c, r)
    ensures q.Sub(viewer) == OctOffset(k, c, r) && q == viewer.Add(OctOffset(k, c, r))
  {
    ClassifyInner(k, c, r);
    ClassifyInjective(q.Sub(viewer), OctOffset(k, c, r));
  }

  /** The map the sweep starts from: inner cells still 0, every ray cell within the radius holding its ray value. */
  ghost predicate Sweepable(m1: Grid, vis: Grid, viewer: IVec2, losRadius: int)
  {
    m1.Valid() && vis.Valid() && m1.width == vis.width && m1.height == vis.height && m1.InBounds(viewer) &&
    forall p :: m1.InBounds(p) ==>
      (Classify(p.Sub(viewer)).Inner? ==> m1.Get(p) == 0.0) &&
      (Classify(p.Sub(viewer)).Ray? && Reached(p.Sub(viewer), losRadius) ==> m1.Get(p) == RayCell(vis, viewer, p.Sub(viewer)))
  }

  /**
   * Whether the share from the source (sr, sc) has been added when the sweep stands at (row, col):
   * the source came earlier, or it is the current cell and its step has reached phase need
   * (1 once the diagonal share is added, 2 once the straight share is added too).
   */
  predicate Counted(sr: int, sc: int, row: int, col: int, ph: int, need: int)
  {
    Before(sr, sc, row, col) || (sr == row && sc == col && ph >= need)
  }

  /** An inner cell within the radius has a column no greater than the radius. */
  lemma InnerWithin(o: IVec2, losRadius: int)
    requires Classify(o).Inner? && Reached(o, losRadius)
    ensures Classify(o).c <= losRadius
  {
    SquareOfAbs(o.x);
    SquareOfAbs(o.y);
    SquaredLengthBounds(o);
    IntSquareBound(AbsOf(o.x), losRadius);
    IntSquareBound(AbsOf(o.y), losRadius);
  }

  /**
   * The viewer's cell, a cell off the map and a cell beyond the radius are neither an in-map inner
   * cell (c, r) within the radius nor one of its two sources.
   */
  lemma SkippedFeedsNone(w: int, h: int, viewer: IVec2, losRadius: int, k: int, row: int, col: int, c: int, r: int)
    requires 0 <= k < 8 && 0 < r < c && InBoundsOf(w, h, viewer)
    requires InBoundsOf(w, h, viewer.Add(OctOffset(k, c, r))) && Reached(OctOffset(k, c, r), losRadius)
    requires (row == 0 && col == 0) || !InBoundsOf(w, h, viewer.Add(OctOffset(k, col, row))) || !Reached(OctOffset(k, col, row), losRadius)
    ensures !(c == col && r == row) && !(c - 1 == col && (r - 1 == row || r == row))
  {
    if c == col && r == row {
      assert false;
    }
    if c - 1 == col && (r - 1 == row || r == row) {
      SourceReached(w, h, viewer, losRadius, k, c, r, col, row);
      assert false;
    }
  }

  /** A source (sc, sr) of an in-map inner cell (c, r) within the radius is itself in the map and within the radius. */
  lemma SourceReached(w: int, h: int, viewer: IVec2, losRadius: int, k: int, c: int, r: int, sc: int, sr: int)
    requires 0 <= k < 8 && 0 < r < c && sc == c - 1 && (sr == r - 1 || sr == r) && InBoundsOf(w, h, viewer)
    requires InBoundsOf(w, h, viewer.Add(OctOffset(k, c, r))) && Reached(OctOffset(k, c, r), losRadius)
    ensures InBoundsOf(w, h, viewer.Add(OctOffset(k, sc, sr))) && Reached(OctOffset(k, sc, sr), losRadius)
  {
    SourcesBehind(k, sc, sr);
    if sr == r - 1 {
      BehindReached(w, h, viewer, OctOffset(k, sc, sr), OctOffset(k, sc + 1, sr + 1), losRadius);
    } else {
      BehindReached(w, h, viewer, OctOffset(k, sc, sr), OctOffset(k, sc + 1, sr), losRadius);
    }
  }

  /** The fresh map with the viewer set to 1, after the ray pass, is where the sweep can start. */
  lemma RaysSweepable(m0: Grid, m1: Grid, vis: Grid, viewer: IVec2, losRadius: int)
    requires m0.Valid() && vis.Valid() && m0.width == vis.width && m0.height == vis.height && m0.InBounds(viewer)
    requires forall p :: m0.InBounds(p) && p != viewer ==> m0.Get(p) == 0.0
    requires m1.Valid() && m1.width == m0.width && m1.height == m0.height
    requires forall p :: m1.InBounds(p) ==> m1.Get(p) == Passed(m0, viewer, losRadius, RayFn(vis, viewer), p)
    ensures Sweepable(m1, vis, viewer, losRadius)
  {
    forall p | m1.InBounds(p)
      ensures Classify(p.Sub(viewer)).Inner? ==> m1.Get(p) == 0.0
      ensures Classify(p.Sub(viewer)).Ray? && Reached(p.Sub(viewer), losRadius) ==> m1.Get(p) == RayCell(vis, viewer, p.Sub(viewer))
    {
      if p == viewer {
        assert p.Sub(viewer).IsZero();
      }
      assert RayFn(vis, viewer)(p.Sub(viewer)) == RayCell(vis, viewer, p.Sub(viewer));
    }
  }
}
