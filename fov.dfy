/**
 * The shipped field of view: visibility spreads outwards from the viewer along the spiral,
 * each cell taking its value from the one or two cells just behind it on the line to the viewer.
 */
module Fov {
  import opened MathUtil
  import opened Grids
  import opened Spiral

  /** The spiral covers offsets up to this distance on each axis. */
  const MaxLos := 20

  /** The decay gained per unit of distance. */
  function DecayPerTile(decayPercent: real, losRadius: int): (d: real)
    requires losRadius != 0
    ensures losRadius > 0 && decayPercent >= 0.0 ==> d >= 0.0
  {
    decayPercent / losRadius as real
  }

  /** At the radius itself the accumulated decay is the whole decay percentage. */
  lemma DecayPerTileAtRadius(decayPercent: real, losRadius: int)
    requires losRadius != 0
    ensures DecayPerTile(decayPercent, losRadius) * (losRadius as real) == decayPercent
  {
  }

  /** calc_decay: the decay at offset o from the viewer, proportional to its length. */
  function Decay(o: IVec2, decayPerTile: real, sqrt: int -> real): (d: real)
    ensures IsSqrt(sqrt) && decayPerTile >= 0.0 ==> d >= 0.0
  {
    Length(o, sqrt) * decayPerTile
  }

  /** The diagonal predecessor: one step back towards the viewer on both axes. */
  function Diagonal(o: IVec2): (q: IVec2)
    ensures AbsOf(q.x) <= AbsOf(o.x) && AbsOf(q.y) <= AbsOf(o.y)
    ensures q == o <==> o.IsZero()
  {
    StepTowardZero(o.x);
    StepTowardZero(o.y);
    o.Sub(o.Sign())
  }

  /** The straight predecessor: one step back along the axis of greater magnitude. */
  function Straight(o: IVec2): (q: IVec2)
    ensures AbsOf(q.x) <= AbsOf(o.x) && AbsOf(q.y) <= AbsOf(o.y)
    ensures q == o <==> o.IsZero()
  {
    if AbsOf(o.x) > AbsOf(o.y) then IVec2(o.x - SignOf(o.x), o.y) else IVec2(o.x, o.y - SignOf(o.y))
  }

  /** The interpolation weight of the diagonal predecessor: the minor component of the unit offset. */
  function Weight(o: IVec2, sqrt: int -> real): real
  {
    var n := Normalized(o.Abs(), sqrt);
    if AbsOf(o.x) > AbsOf(o.y) then n.1 else n.0
  }

  /** Axis-aligned and diagonal offsets have a single predecessor. */
  predicate SinglePredecessor(o: IVec2)
  {
    AbsOf(o.x) == AbsOf(o.y) || AbsOf(o.x) * AbsOf(o.y) == 0
  }

  /** Both predecessors are behind the offset and strictly closer to the viewer. */
  lemma PredecessorsCloser(o: IVec2)
    requires !o.IsZero()
    ensures Behind(Diagonal(o), o) && Diagonal(o).SquaredLength() < o.SquaredLength()
    ensures Behind(Straight(o), o) && Straight(o).SquaredLength() < o.SquaredLength()
  {
    DiagonalCloser(o);
    StraightCloser(o);
  }

  lemma DiagonalCloser(o: IVec2)
    requires !o.IsZero()
    ensures Behind(Diagonal(o), o) && Diagonal(o).SquaredLength() < o.SquaredLength()
  {
    var a, b := o.x - SignOf(o.x), o.y - SignOf(o.y);
    assert Diagonal(o) == IVec2(a, b);
    StepTowardZero(o.x);
    StepTowardZero(o.y);
    assert Diagonal(o).SquaredLength() == a * a + b * b;
  }

  lemma StraightCloser(o: IVec2)
    requires !o.IsZero()
    ensures Behind(Straight(o), o) && Straight(o).SquaredLength() < o.SquaredLength()
  {
    if AbsOf(o.x) > AbsOf(o.y) {
      var a := o.x - SignOf(o.x);
      assert Straight(o) == IVec2(a, o.y);
      StepTowardZero(o.x);
      assert Straight(o).SquaredLength() == a * a + o.y * o.y;
    } else {
      var b := o.y - SignOf(o.y);
      assert Straight(o) == IVec2(o.x, b);
      StepTowardZero(o.y);
      assert Straight(o).SquaredLength() == o.x * o.x + b * b;
    }
  }

  /** Both predecessors of an in-map offset other than the viewer's are in the map and closer. */
  lemma PredecessorsInMap(vis: Grid, viewer: IVec2, o: IVec2)
    requires vis.InBounds(viewer) && vis.InBounds(o.Add(viewer)) && !o.IsZero()
    ensures vis.InBounds(Diagonal(o).Add(viewer)) && Diagonal(o).SquaredLength() < o.SquaredLength()
    ensures vis.InBounds(Straight(o).Add(viewer)) && Straight(o).SquaredLength() < o.SquaredLength()
  {
    PredecessorsCloser(o);
    BehindInBounds(vis.width, vis.height, viewer, o, Diagonal(o));
    BehindInBounds(vis.width, vis.height, viewer, o, Straight(o));
  }

  /** The interpolation weight lies in [0,1]. */
  lemma WeightInUnit(o: IVec2, sqrt: int -> real)
    requires IsSqrt(sqrt)
    ensures 0.0 <= Weight(o, sqrt) <= 1.0
  {
    NormalizedInUnit(sqrt, o.Abs());
  }

  /** Decay grows with distance when the decay per tile is non-negative. */
  lemma DecayMonotone(q: IVec2, o: IVec2, decayPerTile: real, sqrt: int -> real)
    requires IsSqrt(sqrt) && decayPerTile >= 0.0
    requires q.SquaredLength() <= o.SquaredLength()
    ensures 0.0 <= Decay(q, decayPerTile, sqrt) <= Decay(o, decayPerTile, sqrt)
  {
    SqrtMonotone(sqrt, q.SquaredLength(), o.SquaredLength());
    DecayScales(q, o, decayPerTile, sqrt);
  }

  lemma DecayScales(q: IVec2, o: IVec2, decayPerTile: real, sqrt: int -> real)
    requires decayPerTile >= 0.0
    requires 0.0 <= Length(q, sqrt) <= Length(o, sqrt)
    ensures 0.0 <= Decay(q, decayPerTile, sqrt) <= Decay(o, decayPerTile, sqrt)
  {
    ScaleMonotone(Length(q, sqrt), Length(o, sqrt), decayPerTile);
  }

  lemma VisibilityInUnit(opacity: real, fov: real)
    ensures 0.0 <= opacity <= 1.0 && 0.0 <= fov <= 1.0 ==> 0.0 <= opacity * fov <= 1.0
  {
    if 0.0 <= opacity <= 1.0 && 0.0 <= fov <= 1.0 {
      UnitProduct(opacity, fov);
    }
  }

  /** calc_visibility: visibility propagates multiplicatively through the opacity of a cell. */
  function CalcVisibility(opacity: real, fov: real): (v: real)
    ensures 0.0 <= opacity <= 1.0 && 0.0 <= fov <= 1.0 ==> 0.0 <= v <= 1.0
  {
    VisibilityInUnit(opacity, fov);
    opacity * fov
  }

  /**
   * One step of propagation: the visibility arriving from behind, plus the decay already
   * charged there, less the decay charged here, clamped at 0.
   */
  function Attenuated(amt: real, prevDecay: real, curDecay: real): (r: real)
    ensures r >= 0.0
    ensures r == 0.0 || r == amt + prevDecay - curDecay
    ensures amt <= 1.0 && prevDecay <= curDecay ==> r <= 1.0
  {
    Max(amt + prevDecay - curDecay, 0.0)
  }

  /** Two predecessors: their visibilities and decays mixed with weight t, then attenuated. */
  function Mixed(amt0: real, amt1: real, decay0: real, decay1: real, t: real, curDecay: real): (r: real)
    ensures r >= 0.0
    ensures amt0 <= 1.0 && amt1 <= 1.0 && decay0 <= curDecay && decay1 <= curDecay && 0.0 <= t <= 1.0 ==> r <= 1.0
  {
    LerpBetween(amt0, amt1, t);
    LerpBetween(decay0, decay1, t);
    Attenuated(Lerp(amt0, amt1, t), Lerp(decay0, decay1, t), curDecay)
  }

  /** calc_decay as a function of the offset from the viewer. */
  function DecayFn(decayPerTile: real, sqrt: int -> real): IVec2 -> real
  {
    o => Decay(o, decayPerTile, sqrt)
  }

  /** DecayFn applied to an offset is calc_decay of that offset. */
  lemma DecayFnAt(decayPerTile: real, sqrt: int -> real, o: IVec2)
    ensures DecayFn(decayPerTile, sqrt)(o) == Decay(o, decayPerTile, sqrt)
  {
  }

  /** The interpolation weight as a function of the offset. */
  function WeightFn(sqrt: int -> real): IVec2 -> real
  {
    o => Weight(o, sqrt)
  }

  /** The decay never falls from a predecessor to its successor. */
  ghost predicate DecayOutwards(decay: IVec2 -> real)
  {
    forall o: IVec2 :: !o.IsZero() ==> decay(Diagonal(o)) <= decay(o) && decay(Straight(o)) <= decay(o)
  }

  /** Every interpolation weight lies in [0,1]. */
  ghost predicate UnitWeights(weight: IVec2 -> real)
  {
    forall o :: 0.0 <= weight(o) <= 1.0
  }

  /** With a true square root and a non-negative decay per tile, the decay grows outwards. */
  lemma DecayFnOutwards(decayPerTile: real, sqrt: int -> real)
    requires IsSqrt(sqrt) && decayPerTile >= 0.0
    ensures DecayOutwards(DecayFn(decayPerTile, sqrt))
  {
    forall o: IVec2 | !o.IsZero()
      ensures Decay(Diagonal(o), decayPerTile, sqrt) <= Decay(o, decayPerTile, sqrt)
      ensures Decay(Straight(o), decayPerTile, sqrt) <= Decay(o, decayPerTile, sqrt)
    {
      PredecessorsCloser(o);
      DecayMonotone(Diagonal(o), o, decayPerTile, sqrt);
      DecayMonotone(Straight(o), o, decayPerTile, sqrt);
    }
  }

  /** With a true square root every interpolation weight lies in [0,1]. */
  lemma WeightFnInUnit(sqrt: int -> real)
    requires IsSqrt(sqrt)
    ensures UnitWeights(WeightFn(sqrt))
  {
    forall o ensures 0.0 <= Weight(o, sqrt) <= 1.0 {
      WeightInUnit(o, sqrt);
    }
  }

  /**
   * The value fov computes for an in-map offset o other than the viewer's, from the values
   * fovDiag and fovStraight already held by its diagonal and straight predecessors: the
   * opacity-weighted visibility arriving from behind (from the diagonal one alone on an axis or a
   * diagonal, else mixed by the weight), plus the decay already charged there, less the decay here.
   */
  function Propagated(vis: Grid, viewer: IVec2, o: IVec2, fovDiag: real, fovStraight: real, decay: IVec2 -> real, weight: IVec2 -> real): (v: real)
    requires vis.Valid() && vis.InBounds(viewer) && vis.InBounds(o.Add(viewer)) && !o.IsZero()
    ensures v >= 0.0
  {
    PredecessorsInMap(vis, viewer, o);
    var qs, qd := Straight(o), Diagonal(o);
    var amt1 := CalcVisibility(vis.Get(qd.Add(viewer)), fovDiag);
    if SinglePredecessor(o) then
      Attenuated(amt1, decay(qd), decay(o))
    else
      var amt0 := CalcVisibility(vis.Get(qs.Add(viewer)), fovStraight);
      Mixed(amt0, amt1, decay(qs), decay(qd), weight(o), decay(o))
  }

  /** With opacities, predecessor values and weights in [0,1] and a decay growing outwards, the value is at most 1. */
  lemma PropagatedAtMostOne(vis: Grid, viewer: IVec2, o: IVec2, fovDiag: real, fovStraight: real, decay: IVec2 -> real, weight: IVec2 -> real)
    requires vis.Valid() && vis.InBounds(viewer) && vis.InBounds(o.Add(viewer)) && !o.IsZero()
    requires UnitValued(vis) && DecayOutwards(decay) && UnitWeights(weight)
    requires 0.0 <= fovDiag <= 1.0 && 0.0 <= fovStraight <= 1.0
    ensures Propagated(vis, viewer, o, fovDiag, fovStraight, decay, weight) <= 1.0
  {
    PredecessorsInMap(vis, viewer, o);
    var qs, qd := Straight(o), Diagonal(o);
    assert 0.0 <= vis.Get(qs.Add(viewer)) <= 1.0 && 0.0 <= vis.Get(qd.Add(viewer)) <= 1.0;
    assert decay(qs) <= decay(o) && decay(qd) <= decay(o) && 0.0 <= weight(o) <= 1.0;
  }

  /**
   * The visibility the spiral assigns to offset o, defined outright by recursion on the
   * distance: 1 at the viewer, otherwise the value propagated from the expected values of its
   * two predecessors.
   */
  function Expected(vis: Grid, viewer: IVec2, o: IVec2, decay: IVec2 -> real, weight: IVec2 -> real): (v: real)
    requires vis.Valid() && vis.InBounds(viewer) && vis.InBounds(o.Add(viewer))
    ensures v >= 0.0
    decreases o.SquaredLength()
  {
    if o.IsZero() then 1.0
    else
      PredecessorsInMap(vis, viewer, o);
      Propagated(vis, viewer, o, Expected(vis, viewer, Diagonal(o), decay, weight), Expected(vis, viewer, Straight(o), decay, weight), decay, weight)
  }

  /** With opacities and weights in [0,1] and a decay that grows outwards, every visibility is at most 1. */
  lemma {:induction false} ExpectedAtMostOne(vis: Grid, viewer: IVec2, o: IVec2, decay: IVec2 -> real, weight: IVec2 -> real)
    requires vis.Valid() && vis.InBounds(viewer) && vis.InBounds(o.Add(viewer))
    requires UnitValued(vis) && DecayOutwards(decay) && UnitWeights(weight)
    ensures Expected(vis, viewer, o, decay, weight) <= 1.0
    decreases o.SquaredLength()
  {
    if !o.IsZero() {
      PredecessorsInMap(vis, viewer, o);
      var qs, qd := Straight(o), Diagonal(o);
      ExpectedAtMostOne(vis, viewer, qd, decay, weight);
      ExpectedAtMostOne(vis, viewer, qs, decay, weight);
      PropagatedAtMostOne(vis, viewer, o, Expected(vis, viewer, qd, decay, weight), Expected(vis, viewer, qs, decay, weight), decay, weight);
    }
  }

  /** The cell values a walk over the offsets `done` leaves: Expected where walked, 1 at the viewer, else 0. */
  function CellValue(vis: Grid, viewer: IVec2, done: seq<IVec2>, p: IVec2, decay: IVec2 -> real, weight: IVec2 -> real): real
    requires vis.Valid() && vis.InBounds(viewer) && vis.InBounds(p)
  {
    if p == viewer then 1.0
    else if p.Sub(viewer) in done then Expected(vis, viewer, p.Sub(viewer), decay, weight)
    else 0.0
  }

  /** The map m holds exactly what walking `done` from the viewer produces. */
  ghost predicate Matches(m: Grid, vis: Grid, viewer: IVec2, done: seq<IVec2>, decay: IVec2 -> real, weight: IVec2 -> real)
  {
    m.Valid() && vis.Valid() && m.width == vis.width && m.height == vis.height && vis.InBounds(viewer) &&
    forall p :: m.InBounds(p) ==> m.Get(p) == CellValue(vis, viewer, done, p, decay, weight)
  }

  /** maxRadiusUsed: the length of the last walked in-map offset whose visibility is positive. */
  function RadiusUsed(vis: Grid, viewer: IVec2, done: seq<IVec2>, decay: IVec2 -> real, weight: IVec2 -> real, sqrt: int -> real): real
    requires vis.Valid() && vis.InBounds(viewer)
  {
    if done == [] then 0.0
    else
      var o := done[|done| - 1];
      if vis.InBounds(o.Add(viewer)) && Expected(vis, viewer, o, decay, weight) > 0.0 then Length(o, sqrt)
      else RadiusUsed(vis, viewer, done[..|done| - 1], decay, weight, sqrt)
  }

  /** Writing the expected value of one more in-map offset extends the walk by that offset. */
  lemma MatchesStep(m: Grid, vis: Grid, viewer: IVec2, done: seq<IVec2>, o: IVec2, decay: IVec2 -> real, weight: IVec2 -> real)
    requires Matches(m, vis, viewer, done, decay, weight)
    requires !o.IsZero() && vis.InBounds(o.Add(viewer))
    ensures Matches(m.Set(o.Add(viewer), Expected(vis, viewer, o, decay, weight)), vis, viewer, done + [o], decay, weight)
  {
    var p := o.Add(viewer);
    var m' := m.Set(p, Expected(vis, viewer, o, decay, weight));
    forall p' | m'.InBounds(p')
      ensures m'.Get(p') == CellValue(vis, viewer, done + [o], p', decay, weight)
    {
      if p' == p {
        assert p'.Sub(viewer) == o;
      } else {
        assert p'.Sub(viewer) in done + [o] <==> p'.Sub(viewer) in done;
      }
    }
  }

  /** An offset that lands outside the map extends the walk without writing anything. */
  lemma MatchesSkip(m: Grid, vis: Grid, viewer: IVec2, done: seq<IVec2>, o: IVec2, decay: IVec2 -> real, weight: IVec2 -> real)
    requires Matches(m, vis, viewer, done, decay, weight)
    requires !vis.InBounds(o.Add(viewer))
    ensures Matches(m, vis, viewer, done + [o], decay, weight)
  {
    forall p' | m.InBounds(p')
      ensures m.Get(p') == CellValue(vis, viewer, done + [o], p', decay, weight)
    {
      assert p'.Sub(viewer) in done + [o] <==> p'.Sub(viewer) in done;
    }
  }

  /** A walk over offsets within the box and the radius leaves the viewer at 1 and every cell outside them at 0. */
  lemma MatchesOutside(m: Grid, vis: Grid, viewer: IVec2, done: seq<IVec2>, losRadius: int, decay: IVec2 -> real, weight: IVec2 -> real)
    requires Matches(m, vis, viewer, done, decay, weight)
    requires forall q :: q in done ==> InAnnulus(MaxLos, 1, losRadius, q)
    ensures m.Get(viewer) == 1.0
    ensures forall p :: m.InBounds(p) && p != viewer && (!InBox(MaxLos, p.Sub(viewer)) || p.Sub(viewer).SquaredLength() > losRadius * losRadius) ==> m.Get(p) == 0.0
  {
  }

  /** With opacities and weights in [0,1] and a decay growing outwards, a map produced by a walk holds values in [0,1]. */
  lemma MatchesUnitValued(m: Grid, vis: Grid, viewer: IVec2, done: seq<IVec2>, decay: IVec2 -> real, weight: IVec2 -> real)
    requires Matches(m, vis, viewer, done, decay, weight)
    requires UnitValued(vis) && DecayOutwards(decay) && UnitWeights(weight)
    ensures UnitValued(m)
  {
    forall p | m.InBounds(p) ensures 0.0 <= m.Get(p) <= 1.0 {
      if p != viewer && p.Sub(viewer) in done {
        ExpectedAtMostOne(vis, viewer, p.Sub(viewer), decay, weight);
      }
    }
  }

  /** The map fov returns for a positive radius, a non-negative decay and opacities in [0,1] holds values in [0,1]. */
  lemma FovUnitValued(m: Grid, vis: Grid, viewer: IVec2, done: seq<IVec2>, losRadius: int, decayPercent: real, sqrt: int -> real)
    requires losRadius > 0 && decayPercent >= 0.0 && IsSqrt(sqrt)
    requires Matches(m, vis, viewer, done, DecayFn(DecayPerTile(decayPercent, losRadius), sqrt), WeightFn(sqrt))
    requires UnitValued(vis)
    ensures UnitValued(m)
  {
    DecayFnOutwards(DecayPerTile(decayPercent, losRadius), sqrt);
    WeightFnInUnit(sqrt);
    MatchesUnitValued(m, vis, viewer, done, DecayFn(DecayPerTile(decayPercent, losRadius), sqrt), WeightFn(sqrt));
  }

  /**
   * Where the walk over rng stops, searching from index j: the first in-map offset lying 2 or
   * more beyond the radius used by the offsets before it, or |rng| when there is none.
   */
  function StopFrom(vis: Grid, viewer: IVec2, rng: seq<IVec2>, j: nat, decay: IVec2 -> real, weight: IVec2 -> real, sqrt: int -> real): (s: nat)
    requires vis.Valid() && vis.InBounds(viewer) && j <= |rng|
    ensures j <= s <= |rng|
    decreases |rng| - j
  {
    if j == |rng| then j
    else if vis.InBounds(rng[j].Add(viewer)) && Length(rng[j], sqrt) - RadiusUsed(vis, viewer, rng[..j], decay, weight, sqrt) >= 2.0 then j
    else StopFrom(vis, viewer, rng, j + 1, decay, weight, sqrt)
  }

  /** No offset before the stop index meets the break condition of fov. */
  lemma {:induction false} StopFromBefore(vis: Grid, viewer: IVec2, rng: seq<IVec2>, j: nat, k: nat, decay: IVec2 -> real, weight: IVec2 -> real, sqrt: int -> real)
    requires vis.Valid() && vis.InBounds(viewer) && j <= |rng|
    requires j <= k < StopFrom(vis, viewer, rng, j, decay, weight, sqrt) && vis.InBounds(rng[k].Add(viewer))
    ensures Length(rng[k], sqrt) - RadiusUsed(vis, viewer, rng[..k], decay, weight, sqrt) < 2.0
    decreases |rng| - j
  {
    if j < k {
      StopFromBefore(vis, viewer, rng, j + 1, k, decay, weight, sqrt);
    }
  }

  /** The offset at the stop index, when there is one, meets the break condition of fov. */
  lemma {:induction false} StopFromAt(vis: Grid, viewer: IVec2, rng: seq<IVec2>, j: nat, decay: IVec2 -> real, weight: IVec2 -> real, sqrt: int -> real)
    requires vis.Valid() && vis.InBounds(viewer) && j <= |rng|
    requires StopFrom(vis, viewer, rng, j, decay, weight, sqrt) < |rng|
    ensures var s := StopFrom(vis, viewer, rng, j, decay, weight, sqrt);
      vis.InBounds(rng[s].Add(viewer)) && Length(rng[s], sqrt) - RadiusUsed(vis, viewer, rng[..s], decay, weight, sqrt) >= 2.0
    decreases |rng| - j
  {
    if !(vis.InBounds(rng[j].Add(viewer)) && Length(rng[j], sqrt) - RadiusUsed(vis, viewer, rng[..j], decay, weight, sqrt) >= 2.0) {
      StopFromAt(vis, viewer, rng, j + 1, decay, weight, sqrt);
    }
  }

  /**
   * fov: the viewer gets 1; then the offsets of the spiral with squared length in [1, losRadius²]
   * are walked in order, out-of-map cells skipped, each cell set from its predecessors, until an
   * in-map offset lies 2 or more beyond the last positive one. `walked` is the spiral's range,
   * `stop` the number of offsets walked.
   */
  method Fov(viewer: IVec2, losRadius: int, vis: Map2D, sp: SortedPoints, decayPercent: real, sqrt: int -> real)
    returns (fovmap: Map2D, ghost walked: seq<IVec2>, ghost stop: nat)
    requires losRadius != 0 && vis.Valid() && vis.InBounds(viewer)
    requires sp.Valid() && sp.maxLos == MaxLos
    ensures fresh(fovmap) && fovmap.Valid() && fovmap.width == vis.width && fovmap.height == vis.height
    ensures forall q :: q in walked <==> InAnnulus(MaxLos, 1, losRadius, q)
    ensures ByLength(walked) && Distinct(walked)
    ensures stop == StopFrom(vis.Model(), viewer, walked, 0, DecayFn(DecayPerTile(decayPercent, losRadius), sqrt), WeightFn(sqrt), sqrt)
    ensures Matches(fovmap.Model(), vis.Model(), viewer, walked[..stop], DecayFn(DecayPerTile(decayPercent, losRadius), sqrt), WeightFn(sqrt))
    ensures UnitValued(vis.Model()) && IsSqrt(sqrt) && losRadius > 0 && decayPercent >= 0.0 ==> UnitValued(fovmap.Model())
  {
    fovmap := new Map2D(vis.width, vis.height, 0.0);
    var decayPerTile := DecayPerTile(decayPercent, losRadius);
    MatchesStart(fovmap.Model(), vis.Model(), viewer, DecayFn(decayPerTile, sqrt), WeightFn(sqrt));
    fovmap.Set(viewer, 1.0);
    var rng;
    ghost var lo, hi;
    rng, lo, hi := sp.Range(1, losRadius);
    walked := rng;
    RangeExcludesOrigin(rng, MaxLos, 1, losRadius);
    SpiralPredecessorsFirst(rng, losRadius);
    stop := Walk(fovmap, vis, viewer, rng, decayPerTile, sqrt);
    if UnitValued(vis.Model()) && IsSqrt(sqrt) && losRadius > 0 && decayPercent >= 0.0 {
      FovUnitValued(fovmap.Model(), vis.Model(), viewer, rng[..stop], losRadius, decayPercent, sqrt);
    }
  }

  /** A map of zeros with the viewer set to 1 is what walking no offsets leaves. */
  lemma MatchesStart(m: Grid, vis: Grid, viewer: IVec2, decay: IVec2 -> real, weight: IVec2 -> real)
    requires vis.Valid() && vis.InBounds(viewer) && m.Valid() && m.width == vis.width && m.height == vis.height
    requires forall p :: m.InBounds(p) ==> m.Get(p) == 0.0
    ensures Matches(m.Set(viewer, 1.0), vis, viewer, [], decay, weight)
  {
  }

  /**
   * The loop of fov over the offsets rng: skip the ones off the map, stop at the first one 2 or
   * more beyond the radius used so far, else set it from its predecessors.
   */
  method Walk(fovmap: Map2D, vis: Map2D, viewer: IVec2, rng: seq<IVec2>, decayPerTile: real, sqrt: int -> real)
    returns (ghost stop: nat)
    requires vis.Valid() && fovmap.Valid() && fovmap != vis
    requires (forall q :: q in rng ==> !q.IsZero()) && forall i :: 0 <= i < |rng| ==> PredecessorsFirst(rng, i)
    requires Matches(fovmap.Model(), vis.Model(), viewer, [], DecayFn(decayPerTile, sqrt), WeightFn(sqrt))
    modifies fovmap
    ensures fovmap.Valid()
    ensures stop == StopFrom(vis.Model(), viewer, rng, 0, DecayFn(decayPerTile, sqrt), WeightFn(sqrt), sqrt)
    ensures Matches(fovmap.Model(), vis.Model(), viewer, rng[..stop], DecayFn(decayPerTile, sqrt), WeightFn(sqrt))
  {
    var g := vis.Model();
    ghost var decay, weight := DecayFn(decayPerTile, sqrt), WeightFn(sqrt);
    var maxRadiusUsed := 0.0;
    var i := 0;
    while i < |rng|
      invariant 0 <= i <= |rng| && vis.Model() == g && fovmap.Valid()
      invariant WalkState(fovmap.Model(), g, viewer, rng, i, maxRadiusUsed, decay, weight, sqrt)
    {
      var o := rng[i];
      var p := o.Add(viewer);
      if !fovmap.InBounds(p) {
        WalkSkip(fovmap.Model(), g, viewer, rng, i, maxRadiusUsed, decay, weight, sqrt);
        i := i + 1;
        continue;
      }
      var omag := Length(o, sqrt);
      if omag - maxRadiusUsed >= 2.0 {
        break;
      }
      var amt := Advance(fovmap, vis, viewer, rng, i, omag, maxRadiusUsed, decayPerTile, sqrt);
      if amt > 0.0 {
        maxRadiusUsed := omag;
      }
      i := i + 1;
    }
    WalkEnd(fovmap.Model(), g, viewer, rng, i, maxRadiusUsed, decay, weight, sqrt);
    stop := i;
  }

  /**
   * One step of the walk at an in-map offset rng[i] short of the break: its cell is set, which
   * extends the walk by rng[i]; amt is the value written.
   */
  method Advance(fovmap: Map2D, vis: Map2D, viewer: IVec2, rng: seq<IVec2>, i: nat, omag: real, maxRadiusUsed: real, decayPerTile: real, sqrt: int -> real)
    returns (amt: real)
    requires vis.Valid() && fovmap.Valid() && fovmap != vis
    requires i < |rng| && !rng[i].IsZero() && PredecessorsFirst(rng, i)
    requires WalkState(fovmap.Model(), vis.Model(), viewer, rng, i, maxRadiusUsed, DecayFn(decayPerTile, sqrt), WeightFn(sqrt), sqrt)
    requires fovmap.InBounds(rng[i].Add(viewer)) && omag == Length(rng[i], sqrt) && omag - maxRadiusUsed < 2.0
    modifies fovmap
    ensures fovmap.Valid()
    ensures WalkState(fovmap.Model(), vis.Model(), viewer, rng, i + 1, if amt > 0.0 then omag else maxRadiusUsed, DecayFn(decayPerTile, sqrt), WeightFn(sqrt), sqrt)
  {
    ghost var m := fovmap.Model();
    PredecessorsInMap(vis.Model(), viewer, rng[i]);
    amt := Visit(fovmap, vis, viewer, rng[i], decayPerTile, sqrt);
    WalkWrite(m, vis.Model(), viewer, rng, i, maxRadiusUsed, amt, if amt > 0.0 then omag else maxRadiusUsed, DecayFn(decayPerTile, sqrt), WeightFn(sqrt), sqrt);
  }

  /**
   * The loop body of fov for an in-map offset o other than the viewer's: its cell is set to the
   * value propagated from what its predecessors hold, and nothing else changes.
   */
  method Visit(fovmap: Map2D, vis: Map2D, viewer: IVec2, o: IVec2, decayPerTile: real, sqrt: int -> real)
    returns (amt: real)
    requires vis.Valid() && fovmap.Valid() && fovmap != vis
    requires fovmap.width == vis.width && fovmap.height == vis.height
    requires vis.InBounds(viewer) && !o.IsZero() && vis.InBounds(o.Add(viewer))
    requires vis.InBounds(Diagonal(o).Add(viewer)) && vis.InBounds(Straight(o).Add(viewer))
    modifies fovmap
    ensures fovmap.Valid() && fovmap.Model() == old(fovmap.Model()).Set(o.Add(viewer), amt)
    ensures amt == Propagated(vis.Model(), viewer, o, old(fovmap.Get(Diagonal(o).Add(viewer))), old(fovmap.Get(Straight(o).Add(viewer))), DecayFn(decayPerTile, sqrt), WeightFn(sqrt))
  {
    amt := Step(fovmap, vis, viewer, o, decayPerTile, sqrt);
    fovmap.Set(o.Add(viewer), amt);
  }

  /**
   * The state of the walk before offset i: the map holds the walk over rng[..i], maxRadiusUsed is
   * the radius those offsets used, and none of them met the break condition.
   */
  ghost predicate WalkState(m: Grid, vis: Grid, viewer: IVec2, rng: seq<IVec2>, i: nat, maxRadiusUsed: real, decay: IVec2 -> real, weight: IVec2 -> real, sqrt: int -> real)
  {
    i <= |rng| && Matches(m, vis, viewer, rng[..i], decay, weight) &&
    maxRadiusUsed == RadiusUsed(vis, viewer, rng[..i], decay, weight, sqrt) &&
    StopFrom(vis, viewer, rng, 0, decay, weight, sqrt) == StopFrom(vis, viewer, rng, i, decay, weight, sqrt)
  }

  lemma WalkSkip(m: Grid, vis: Grid, viewer: IVec2, rng: seq<IVec2>, i: nat, maxRadiusUsed: real, decay: IVec2 -> real, weight: IVec2 -> real, sqrt: int -> real)
    requires WalkState(m, vis, viewer, rng, i, maxRadiusUsed, decay, weight, sqrt)
    requires i < |rng| && !vis.InBounds(rng[i].Add(viewer))
    ensures WalkState(m, vis, viewer, rng, i + 1, maxRadiusUsed, decay, weight, sqrt)
  {
    TakeOneMore(rng, i);
    MatchesSkip(m, vis, viewer, rng[..i], rng[i], decay, weight);
  }

  lemma WalkWrite(m: Grid, vis: Grid, viewer: IVec2, rng: seq<IVec2>, i: nat, maxRadiusUsed: real, amt: real, next: real, decay: IVec2 -> real, weight: IVec2 -> real, sqrt: int -> real)
    requires WalkState(m, vis, viewer, rng, i, maxRadiusUsed, decay, weight, sqrt)
    requires i < |rng| && !rng[i].IsZero() && PredecessorsFirst(rng, i)
    requires m.InBounds(rng[i].Add(viewer)) && Length(rng[i], sqrt) - maxRadiusUsed < 2.0
    requires m.InBounds(Diagonal(rng[i]).Add(viewer)) && m.InBounds(Straight(rng[i]).Add(viewer))
    requires amt == Propagated(vis, viewer, rng[i], m.Get(Diagonal(rng[i]).Add(viewer)), m.Get(Straight(rng[i]).Add(viewer)), decay, weight)
    requires next == if amt > 0.0 then Length(rng[i], sqrt) else maxRadiusUsed
    ensures WalkState(m.Set(rng[i].Add(viewer), amt), vis, viewer, rng, i + 1, next, decay, weight, sqrt)
  {
    TakeOneMore(rng, i);
    Walked(m, vis, viewer, rng, i, Diagonal(rng[i]), decay, weight);
    Walked(m, vis, viewer, rng, i, Straight(rng[i]), decay, weight);
    assert amt == Expected(vis, viewer, rng[i], decay, weight);
    MatchesStep(m, vis, viewer, rng[..i], rng[i], decay, weight);
  }

  lemma WalkEnd(m: Grid, vis: Grid, viewer: IVec2, rng: seq<IVec2>, i: nat, maxRadiusUsed: real, decay: IVec2 -> real, weight: IVec2 -> real, sqrt: int -> real)
    requires WalkState(m, vis, viewer, rng, i, maxRadiusUsed, decay, weight, sqrt)
    requires i == |rng| || (vis.InBounds(rng[i].Add(viewer)) && Length(rng[i], sqrt) - maxRadiusUsed >= 2.0)
    ensures i == StopFrom(vis, viewer, rng, 0, decay, weight, sqrt)
    ensures Matches(m, vis, viewer, rng[..i], decay, weight)
  {
  }

  lemma TakeOneMore(s: seq<IVec2>, i: int)
    requires 0 <= i < |s|
    ensures s[..i + 1] == s[..i] + [s[i]]
  {
  }

  /**
   * The value fov computes for one in-map offset o, read from the cells of its predecessors
   * as the loop body does: a single predecessor on an axis or a diagonal, else two, mixed.
   */
  function Step(fovmap: Map2D, vis: Map2D, viewer: IVec2, o: IVec2, decayPerTile: real, sqrt: int -> real): (amt: real)
    reads fovmap, vis
    requires vis.Valid() && fovmap.Valid() && fovmap.width == vis.width && fovmap.height == vis.height
    requires vis.InBounds(viewer) && !o.IsZero() && vis.InBounds(o.Add(viewer))
    requires vis.InBounds(Diagonal(o).Add(viewer)) && vis.InBounds(Straight(o).Add(viewer))
    ensures amt == Propagated(vis.Model(), viewer, o, fovmap.Get(Diagonal(o).Add(viewer)), fovmap.Get(Straight(o).Add(viewer)), DecayFn(decayPerTile, sqrt), WeightFn(sqrt))
  {
    var p := o.Add(viewer);
    var oxAbs, oyAbs := AbsOf(o.x), AbsOf(o.y);
    var curDecay := Decay(p.Sub(viewer), decayPerTile, sqrt);
    var pnbDiag := IVec2(p.x - SignOf(o.x), p.y - SignOf(o.y));
    assert p.Sub(viewer) == o && pnbDiag == Diagonal(o).Add(viewer) && pnbDiag.Sub(viewer) == Diagonal(o);
    if oxAbs == oyAbs || oxAbs * oyAbs == 0 then
      var pnb := p.Sub(o.Sign());
      assert pnb == pnbDiag;
      Attenuated(CalcVisibility(vis.Get(pnb), fovmap.Get(pnb)), Decay(pnb.Sub(viewer), decayPerTile, sqrt), curDecay)
    else
      var pnb := if oxAbs > oyAbs then IVec2(p.x - SignOf(o.x), p.y) else IVec2(p.x, p.y - SignOf(o.y));
      assert pnb == Straight(o).Add(viewer) && pnb.Sub(viewer) == Straight(o);
      var amt0 := CalcVisibility(vis.Get(pnb), fovmap.Get(pnb));
      var prevDecay0 := Decay(pnb.Sub(viewer), decayPerTile, sqrt);
      var amt1 := CalcVisibility(vis.Get(pnbDiag), fovmap.Get(pnbDiag));
      var prevDecay1 := Decay(pnbDiag.Sub(viewer), decayPerTile, sqrt);
      var axis := if oxAbs > oyAbs then 1 else 0;
      var n := Normalized(o.Abs(), sqrt);
      var t := if axis == 1 then n.1 else n.0;
      assert t == Weight(o, sqrt);
      Attenuated(Lerp(amt0, amt1, t), Lerp(prevDecay0, prevDecay1, t), curDecay)
  }

  /** A predecessor of rng[i] is in the map and already holds its expected value. */
  lemma Walked(m: Grid, vis: Grid, viewer: IVec2, rng: seq<IVec2>, i: int, q: IVec2, decay: IVec2 -> real, weight: IVec2 -> real)
    requires 0 <= i < |rng| && !rng[i].IsZero() && PredecessorsFirst(rng, i)
    requires Matches(m, vis, viewer, rng[..i], decay, weight) && m.InBounds(rng[i].Add(viewer))
    requires q == Diagonal(rng[i]) || q == Straight(rng[i])
    ensures m.InBounds(q.Add(viewer))
    ensures m.Get(q.Add(viewer)) == Expected(vis, viewer, q, decay, weight)
  {
    PredecessorsCloser(rng[i]);
    BehindInBounds(vis.width, vis.height, viewer, rng[i], q);
    MatchesGet(m, vis, viewer, rng[..i], q, decay, weight);
  }

  /** Both predecessors of offset i are the viewer's own offset or listed before i. */
  predicate PredecessorsFirst(rng: seq<IVec2>, i: int)
    requires 0 <= i < |rng|
  {
    (Diagonal(rng[i]).IsZero() || Diagonal(rng[i]) in rng[..i]) &&
    (Straight(rng[i]).IsZero() || Straight(rng[i]) in rng[..i])
  }

  /** In the spiral every offset comes after both of its predecessors. */
  lemma SpiralPredecessorsFirst(rng: seq<IVec2>, losRadius: int)
    requires ByLength(rng)
    requires forall q :: q in rng <==> InAnnulus(MaxLos, 1, losRadius, q)
    ensures forall i :: 0 <= i < |rng| ==> PredecessorsFirst(rng, i)
  {
    RangeExcludesOrigin(rng, MaxLos, 1, losRadius);
    forall i | 0 <= i < |rng| ensures PredecessorsFirst(rng, i) {
      SpiralPredecessorsFirstAt(rng, losRadius, i);
    }
  }

  lemma SpiralPredecessorsFirstAt(rng: seq<IVec2>, losRadius: int, i: int)
    requires ByLength(rng) && 0 <= i < |rng| && forall q :: q in rng ==> !q.IsZero()
    requires forall q :: q in rng <==> InAnnulus(MaxLos, 1, losRadius, q)
    ensures PredecessorsFirst(rng, i)
  {
    PredecessorFirst(rng, losRadius, i, Diagonal(rng[i]));
    PredecessorFirst(rng, losRadius, i, Straight(rng[i]));
  }

  lemma PredecessorFirst(rng: seq<IVec2>, losRadius: int, i: int, q: IVec2)
    requires ByLength(rng) && 0 <= i < |rng| && forall q :: q in rng ==> !q.IsZero()
    requires forall q :: q in rng <==> InAnnulus(MaxLos, 1, losRadius, q)
    requires q == Diagonal(rng[i]) || q == Straight(rng[i])
    ensures q.IsZero() || q in rng[..i]
  {
    assert !rng[i].IsZero();
    PredecessorsCloser(rng[i]);
    EarlierInSpiral(rng, losRadius, i, q);
  }

  /** A non-zero offset behind rng[i] and shorter than it was listed before it. */
  lemma EarlierInSpiral(rng: seq<IVec2>, losRadius: int, i: int, q: IVec2)
    requires 0 <= i < |rng| && ByLength(rng)
    requires forall q :: q in rng <==> InAnnulus(MaxLos, 1, losRadius, q)
    requires Behind(q, rng[i]) && q.SquaredLength() < rng[i].SquaredLength()
    ensures q.IsZero() || q in rng[..i]
  {
    if !q.IsZero() {
      assert rng[i] in rng;
      assert InAnnulus(MaxLos, 1, losRadius, q);
      ShorterComesFirst(rng, i, q);
    }
  }

  /** A walked in-map offset, or the viewer itself, holds its expected value. */
  lemma MatchesGet(m: Grid, vis: Grid, viewer: IVec2, done: seq<IVec2>, q: IVec2, decay: IVec2 -> real, weight: IVec2 -> real)
    requires Matches(m, vis, viewer, done, decay, weight)
    requires m.InBounds(q.Add(viewer)) && (q.IsZero() || q in done)
    ensures m.Get(q.Add(viewer)) == Expected(vis, viewer, q, decay, weight)
  {
    var p := q.Add(viewer);
    assert p.Sub(viewer) == q;
    assert m.Get(p) == CellValue(vis, viewer, done, p, decay, weight);
  }
}
