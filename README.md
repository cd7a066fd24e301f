# Field of view on a grid, modelled in Dafny

The repository computes a field-of-view map. Every cell of a 2D grid gets a visibility value in
[0,1], as seen from a viewer cell, given an opacity map (`visibilityMap`: 1 fully transparent,
0 opaque). This project models its computing core and proves properties of that model:

- **`mathutil.py`**
  - the scalar helpers `sign`, `lerp` and `clamp`;
  - the integer vector `ivec2`;
  - the "spiral" `SortedPoints`, with its annulus query `range`;
  - the flat row-major grid `Map2D`.
- **`fov.py`**: the shipped algorithm. Visibility spreads outwards along the spiral. Each cell takes
  its value from one predecessor on an axis or a diagonal, and from a lerp of two predecessors
  elsewhere. Each value is dimmed by the predecessors' opacities, charged a distance decay and
  clamped at 0. The walk stops early once it is 2 units beyond the last lit ring.
- **`fov_trap.py`, `fov_rho_1.py` and `fov_rho.py`**: the rhombus-mesh variants.
  - A ray pass casts the eight straight and diagonal rays.
  - A row-major sweep over each of the eight octants pushes weighted shares of every cell forward
    into the two inner cells ahead of it.
  - A decay pass finishes the rays.
  - `fov_rho.py` keeps the two incoming shares of each inner cell in a module-level two-slot
    `cache`, and forwards only the slot chosen by `calc_idx`.

## Structure of the model

One Dafny module per concern:

- `MathUtil` (mathutil.dfy): `sign`, `lerp`, `clamp`, `ivec2`, and lengths through a square-root
  parameter.
- `Grids` (grid.dfy): `Map2D`, a class whose `data: seq<real>` is updated in place. `Grid` is its
  value, used by the specifications.
- `Spiral` (spiral.dfy): `SortedPoints`. Its constructor builds the point list in nested loops,
  with an insertion at the `bisect_right` position. `Range` uses `BisectLeft`/`BisectRight`
  methods.
- `Octants` (octants.dfy): what the three rhombus-mesh files share:
  - the eight `(fwd, up)` axis sets, and the classification of an offset as the viewer's cell, a
    ray step or an inner octant cell;
  - the ray pass and the decay pass, as methods with loop invariants.
- `Fov` (fov.dfy): the spiral algorithm.
  - `Expected` defines the visibility of every offset outright, by recursion on distance.
  - `Fov`/`Walk` are the loop. They are proved to leave exactly `Expected` on the cells walked
    and to stop exactly where the source breaks. `Fov` also ensures that every value lies in
    [0,1] when the opacities do, `sqrt` is the true square root, the radius is positive and the
    decay percentage is not negative.
- `FovTrap` (fov_trap.dfy): `fov_trap.py`.
  - `TrapValue` defines the final value of every cell.
  - The sweep is proved against a per-cell state (`SweepCell`). The state says, at every (octant,
    row, column, phase), which shares each inner cell has received so far.
- `FovRho1` (fov_rho_1.dfy): its `fov` is step for step the algorithm of `fov_trap.py`, so it runs
  the `FovTrap` passes.
- `FovRho` (fov_rho.dfy): `fov_rho.py`.
  - The global `cache` is a `Cache` class with `Resize`, `Reset`, `AddDiag` and `AddStraight`.
  - The sweep is proved against the expected cache contents (`CacheAt`) and map contents
    (`MapAt`). The cache steps are proved once over an abstract set of tracked cells and their
    slots (`CacheHolds`), then applied to the octant at hand.
  - `RhoValue` defines the final value of every cell.

`math.sqrt` is a parameter `sqrt: int -> real`. Where a property needs it to be the true square
root, `IsSqrt(sqrt)` says so (non-negative, and its square is its argument). Visibility values
are `real`.

## Model

| member | source | states |
|---|---|---|
| MathUtil.SignOf | mathutil.py:4-8 | sign(v) is 0 exactly for 0, 1 exactly for positive v, -1 exactly for negative v |
| MathUtil.SignTimesValue | mathutil.py:4-8 | sign(v)*v == abs(v) |
| MathUtil.LerpBetween | mathutil.py:10-12 | `Lerp`: lerp(a,b,0) == a, lerp(a,b,1) == b, and for t in [0,1] the result lies between min(a,b) and max(a,b) |
| MathUtil.LerpOffset | mathutil.py:10-12 | (1-t)*a + t*b equals a + t*(b-a) |
| MathUtil.LerpSwap | mathutil.py:10-12 | lerp(a,b,t) == lerp(b,a,1-t) |
| MathUtil.LerpOrdered | mathutil.py:10-12 | for a <= b and t in [0,1], a <= lerp(a,b,t) <= b |
| MathUtil.Clamp | mathutil.py:14-15 | min(max(x,a),b) lies in [a,b] when a <= b; it is x inside the interval, min(a,b) below it and b above it |
| MathUtil.IVec2.SquaredLength | mathutil.py:40-41 | squaredLength is never negative |
| MathUtil.SquaredLengthIsDot | mathutil.py:36-41 | squaredLength is `IVec2.Dot`, the dot product, of the vector with itself |
| MathUtil.SquaredLengthZero | mathutil.py:40-41 | squaredLength is 0 exactly when x == y == 0 |
| MathUtil.IVec2.Abs | mathutil.py:46-47 | each component of abs() is non-negative and has the same square as the original component, which makes it that component's absolute value |
| MathUtil.AbsSquaredLength | mathutil.py:40-47 | abs() keeps the squared length |
| MathUtil.SignOfMuls | mathutil.py:53-58 | `IVec2.Sign` is the componentwise sign (sign.x*x == abs(x)), and `IVec2.Muls` by a positive scalar keeps it |
| MathUtil.AddSubInverse | mathutil.py:75-82 | `IVec2.Add` and `IVec2.Sub` undo each other: (v + q) - q == v and (v - q) + q == v |
| MathUtil.SignStepCloser | mathutil.py:53-55 | for a non-zero vector, v - v.sign() is strictly shorter and no component grows in magnitude |
| MathUtil.Length | mathutil.py:43-44 | length() is never negative when sqrt is the true square root |
| MathUtil.SqrtMonotone | mathutil.py:43-44 | the length function (sqrt of the squared length) is 0 only at 0 and strictly increasing |
| MathUtil.ComponentBelowLength | mathutil.py:43-44 | each component's magnitude is at most the vector's length |
| MathUtil.Normalized | mathutil.py:63-67 | the zero vector normalizes to (0.0, 0.0): the multiplier falls back to 1 |
| MathUtil.NormalizedUnit | mathutil.py:63-67 | a non-zero vector normalizes to a unit vector, x² + y² == 1, when sqrt is the true square root |
| MathUtil.NormalizedInUnit | mathutil.py:63-67 | `Normalized` takes a vector with non-negative components into [0,1]² |
| MathUtil.Dot | mathutil.py:28-29 | dot(v, v) is never negative, and dot(v, (0,0)) is 0 |
| Grids.LinearIndexInRange | mathutil.py:118-119 | the `LinearIndex` of a point that in_bounds (`InBoundsOf`, `Map2D.InBounds`) accepts lies in [0, w*h) |
| Grids.LinearIndexInjective | mathutil.py:118-119 | distinct in-bounds points have distinct `LinearIndex` values |
| Grids.Grid.Set | mathutil.py:121-127 | after set(p, v), get(p) is v and every other cell is unchanged; `Map2D.Get` reads through this model |
| Grids.Map2D.constructor | mathutil.py:113-116 | Map2D(w,h,d) has w*h data entries, every one equal to d |
| Grids.Map2D.Set | mathutil.py:125-127 | set requires in_bounds(p) (the assert) and changes exactly cell p, to v |
| Grids.Map2D.Add | mathutil.py:129-131 | add requires in_bounds(p) and increases exactly cell p, by v |
| Grids.BehindInBounds | fov.py:75-80 | a cell between the viewer and an in-map cell, on each axis, is itself in the map |
| Spiral.KeysOf | mathutil.py:98 | keys has one entry per point, keys[i] == points[i].squaredLength(), and it is sorted when the points are |
| Spiral.BisectLeft | mathutil.py:103 | bisect_left returns the first index whose key is not below x |
| Spiral.BisectRight | mathutil.py:104 | bisect_right returns the first index whose key is above x |
| Spiral.InsertByLength | mathutil.py:97 | inserting a new point at its bisect_right position keeps the list ordered by length and without repeats, and adds exactly that point |
| Spiral.SortedPoints.constructor | mathutil.py:92-98 | the points are exactly the offsets of [-maxLos,maxLos]², each once, (2 maxLos + 1)² of them, ordered by squared length, with keys parallel to them |
| Spiral.SortedPoints.Range | mathutil.py:100-105 | range(ri, ro) returns a contiguous slice points[lo:hi] of the spiral holding exactly the points with ri² <= squaredLength <= ro², by non-decreasing length, each once |
| Spiral.SliceOrdered | mathutil.py:105 | the slice points[i0:i1] is again ordered by length and without repeats |
| Spiral.RangeExcludesOrigin | mathutil.py:100-105 | with an inner radius of at least 1, (0,0) is never returned |
| Spiral.ShorterComesFirst | mathutil.py:97 | in the sorted list, a strictly shorter point comes strictly earlier |
| Octants.AxisSetsOrthonormal | fov_trap.py:63-72 | each of the eight (fwd, up) pairs of `AxisSets` is two orthogonal unit axis vectors |
| Octants.AxisSetOffset | fov_trap.py:82 | fwd.muls(col) + up.muls(row) is the octant offset `OctOffset`(k, col, row) |
| Octants.OctOffsetSteps | fov_trap.py:89-96 | p + upfwd is cell (col+1, row+1) and p + fwd is cell (col+1, row) of the same octant |
| Octants.OctOffsetLength | fov_trap.py:84 | the squared length of cell (col, row) is col² + row² |
| Octants.Classify | fov_trap.py:49-83 | every offset is the viewer's (exactly the zero offset), a ray step i >= 1 in direction sign(o), or an inner cell 0 < r < c of one octant k < 8 |
| Octants.ClassifyInjective | fov_trap.py:73-83 | the ray/octant coordinates identify the offset: different offsets are never handled as the same cell |
| Octants.ClassifyInner | fov_trap.py:102 | the offset of cell (c, r) with 0 < r < c of octant k is classified as exactly that inner cell; with ClassifyInjective, each inner cell belongs to one octant |
| Octants.ClassifyOctantRays | fov_trap.py:77-83 | the row-0 and diagonal cells of an octant are the c-th steps of the rays along fwd and fwd + up |
| Octants.ClassifyRay | fov_trap.py:54 | ivec2(x*i, y*i) is step i of the ray in direction (x, y) |
| Octants.RayBack | fov_trap.py:58 | pnb = p - (x, y) lies behind p; it is the viewer for i == 1, else step i - 1 of the same ray |
| Octants.RayPrevious | fov_trap.py:55-59 | the pnb of an in-map ray step is in the map, one step back along the ray |
| Octants.ReachedRayStep | fov_trap.py:53-56 | a ray step within the radius has i <= losRadius, so range(1, ceil(losRadius)+1) reaches it |
| Octants.RayValueInUnit | fov_trap.py:59 | with opacities in [0,1] every ray value lies in [0,1] |
| Octants.RayRead | fov_trap.py:58-59 | when step i is handled, its pnb already holds the ray value of step i - 1 (1 at the viewer) |
| Octants.RayValueStep | fov_trap.py:59 | visibilityMap.get(pnb) * fovmap.get(pnb) is the ray value of step i |
| Octants.PassSkip | fov_trap.py:56-57 | a step off the map or beyond the radius is passed over and nothing is written |
| Octants.PassWrite | fov_trap.py:60 | writing the value of step i advances the pass to step i + 1 |
| Octants.PassDone | fov_trap.py:50-60 | after the last direction, every in-map ray cell within the radius is set and every other cell is as before |
| Octants.CastStep | fov_trap.py:54-60 | one step of the ray loop keeps the pass state, advanced by one step |
| Octants.CastRay | fov_trap.py:53-60 | the loop along one ray handles all of its steps |
| Octants.CastRayRow | fov_trap.py:51-60 | the rays of one row of directions, skipping (0, 0), are all handled |
| Octants.RayPass | fov_trap.py:50-60 | after the ray pass each in-map ray cell within the radius holds its ray value, and every other cell is unchanged |
| Octants.DecayRay | fov_trap.py:112-120 | along one ray, each in-map step within the radius becomes max(value - decay, 0) |
| Octants.DecayRayRow | fov_trap.py:110-120 | the decay pass over one row of directions handles all its rays |
| Octants.DecayPass | fov_trap.py:109-120 | after the decay pass each in-map ray cell within the radius holds max(old value - decay, 0), and every other cell is unchanged |
| Octants.SourcesBehind | fov_trap.py:89-99 | a cell lies behind, toward the viewer, both cells it feeds: (c+1, r+1) and (c+1, r) |
| Octants.BehindReached | fov_trap.py:84-85 | a cell behind an in-map cell within the radius is itself in the map and within the radius |
| Octants.SourceReached | fov_trap.py:91-99 | both sources of an in-map inner cell within the radius are in the map and within the radius, so the sweep visits them |
| Octants.SkippedFeedsNone | fov_trap.py:79-85 | a cell the sweep skips (the corner, off the map, beyond the radius) is the source of no in-map inner cell within the radius |
| Octants.InnerWithin | fov_trap.py:77-78 | an inner cell within the radius has col <= losRadius, so the row/column loops reach it |
| Octants.RaysSweepable | fov_trap.py:43-60 | after the seed and the ray pass, inner cells still hold 0 and ray cells within the radius hold their ray values |
| Fov.Decay | fov.py:28-30 | calc_decay is never negative for a true square root and a non-negative decay per tile |
| Fov.Diagonal | fov.py:75 | the diagonal predecessor has no component larger in magnitude than the offset's, and equals the offset only at the origin |
| Fov.Straight | fov.py:77-80 | the straight predecessor has no component larger in magnitude than the offset's, and equals the offset only at the origin |
| Fov.DecayPerTile | fov.py:27 | the decay per tile is non-negative for a positive radius and a non-negative percentage |
| Fov.DecayPerTileAtRadius | fov.py:25-27 | at distance losRadius the decay is the whole DECAY_PER_TILE_PERCENT |
| Fov.PredecessorsCloser | fov.py:64-80 | both predecessors of a non-zero offset lie behind it and are strictly closer to the viewer |
| Fov.DiagonalCloser | fov.py:75 | the diagonal predecessor (back one unit on both axes) is behind and strictly closer |
| Fov.StraightCloser | fov.py:77-80 | the straight predecessor (back one unit on the major axis) is behind and strictly closer |
| Fov.PredecessorsInMap | fov.py:64-86 | with the viewer in the map, the predecessors of an in-map offset are in the map, so the get asserts hold |
| Fov.WeightInUnit | fov.py:90-92 | `Weight`, t = o.abs().normalized()[axis], lies in [0,1] |
| Fov.DecayMonotone | fov.py:28-30 | calc_decay grows with the distance for a non-negative decay per tile |
| Fov.CalcVisibility | fov.py:32-34 | opacity times visibility stays in [0,1] |
| Fov.Attenuated | fov.py:68 | max(amt + prevDecay - curDecay, 0) is non-negative, is either 0 or that sum, and is at most 1 when amt <= 1 and prevDecay <= curDecay |
| Fov.Mixed | fov.py:94-96 | the lerped value, attenuated, is non-negative, and at most 1 with inputs in range |
| Fov.DecayFnOutwards | fov.py:61-86 | a predecessor's decay never exceeds the current cell's decay |
| Fov.WeightFnInUnit | fov.py:90-92 | every interpolation weight lies in [0,1] |
| Fov.Propagated | fov.py:56-96 | the value computed for a cell from its predecessors' values (one predecessor when `SinglePredecessor`: \|x\| == \|y\| or x*y == 0) is never negative |
| Fov.PropagatedAtMostOne | fov.py:61-96 | with opacities, predecessor values and weights in [0,1] and decay growing outwards, the value computed is at most 1 |
| Fov.Expected | fov.py:43-101 | the visibility defined for every offset by recursion on distance is never negative |
| Fov.ExpectedAtMostOne | fov.py:15-17 | every such visibility is at most 1 (the docstring's [0,1]) |
| Fov.MatchesStart | fov.py:23-37 | a map of zeros with the viewer set to 1 is what walking no offsets leaves |
| Fov.MatchesStep | fov.py:101 | writing the expected value of an in-map offset extends the walk by it |
| Fov.MatchesSkip | fov.py:48-49 | an offset off the map extends the walk without writing |
| Fov.MatchesOutside | fov.py:23 | the viewer holds 1; cells outside the spiral's box or beyond the radius keep the default 0 |
| Fov.MatchesUnitValued | fov.py:15-17 | a walked map holds values in [0,1] under the docstring's assumptions |
| Fov.FovUnitValued | fov.py:15-17 | fov's result lies in [0,1] for opacities in [0,1], a positive radius and a non-negative decay percentage |
| Fov.StopFromBefore | fov.py:52-54 | no in-map offset before the stop index meets the break condition omag - maxRadiusUsed >= 2 |
| Fov.StopFromAt | fov.py:52-54 | the offset at the stop index, if any, meets it |
| Fov.Step | fov.py:56-96 | the loop body's value, read from the two predecessor cells, is the propagated value |
| Fov.Visit | fov.py:56-101 | the loop body writes exactly that value at p and changes no other cell |
| Fov.Advance | fov.py:56-105 | one in-map step keeps the walk state: the map extended by the offset, maxRadiusUsed updated only when amt > 0 |
| Fov.WalkSkip | fov.py:48-49 | an off-map offset keeps the walk state |
| Fov.WalkWrite | fov.py:101-105 | writing the propagated value and updating maxRadiusUsed keeps the walk state |
| Fov.WalkEnd | fov.py:52-54 | the loop exits exactly at the stop index, with the map of the offsets walked |
| Fov.Walk | fov.py:43-105 | the loop walks the range up to the first break, and the map holds exactly the expected values of the offsets walked |
| Fov.Walked | fov.py:64-86 | each predecessor read is in the map and already holds its expected value |
| Fov.SpiralPredecessorsFirst | fov.py:43 | in the spiral every offset comes after both of its predecessors (or they are the viewer) |
| Fov.EarlierInSpiral | fov.py:43 | a non-zero offset behind and shorter than a walked offset was walked before it |
| Fov.MatchesGet | fov.py:34 | a walked in-map offset, or the viewer, holds its expected value when read |
| Fov.Fov | fov.py:15-107 | fov walks range(1, losRadius) of the MAX_LOS spiral by non-decreasing length, stops where the source breaks, leaves exactly the expected values, and every value lies in [0,1] for opacities in [0,1], a true square root, a positive radius and a non-negative decay percentage |
| FovTrap.AdjContrib | fov_trap.py:32-40 | the two shares (diag, horz) require a non-zero divisor col - 1 + row (the sweep never calls it otherwise), add up to 1, and both lie in [0,1] for col >= 1, row >= 0 |
| FovTrap.SharesOfTotal | fov_trap.py:35-39 | x/total + y/total == 1, each in [0,1] for non-negative parts |
| FovTrap.ShareBelow | fov_trap.py:92-93 | `Share`, contrib*amt with contrib = weight*vis, is at most the weight for values in [0,1] |
| FovTrap.AmtInUnit | fov_trap.py:87-99 | with opacities in [0,1] every value the sweep reads lies in [0,1] |
| FovTrap.TrapValue | fov_trap.py:15-122 | the final value of a cell is non-negative, 1 at the viewer, and 0 beyond the radius |
| FovTrap.TrapValueInUnit | fov_trap.py:16-17 | with opacities in [0,1] and a non-negative decay every final value lies in [0,1] |
| FovTrap.ReceivedDiag | fov_trap.py:93 | unfolding step of `Received`: receiving the diagonal share adds exactly that share |
| FovTrap.ReceivedHorz | fov_trap.py:99 | unfolding step of `Received`: receiving the straight share adds exactly that share |
| FovTrap.SweepStart | fov_trap.py:73-78 | before the first octant nothing has been received |
| FovTrap.SweepNextOctant | fov_trap.py:73 | finishing an octant's last row moves to the next octant with no cell half-received |
| FovTrap.SweepNextRow | fov_trap.py:77-78 | the end of a row moves to the next row, starting at col = row |
| FovTrap.SkipCell | fov_trap.py:79-85 | skipping a cell changes the expected state of no cell |
| FovTrap.SweepSkip | fov_trap.py:79-85 | skipping a cell keeps the sweep state, advanced by one column |
| FovTrap.SweepRead | fov_trap.py:87 | when a cell is visited it holds its complete total (inner) or its undecayed ray value |
| FovTrap.AmtOnRay | fov_trap.py:87 | unfolding step of `Amt`: on the octant's two rays the value read is the ray pass's value |
| FovTrap.DiagShareOf | fov_trap.py:92-93 | the amount added to (col+1, row+1) is exactly the diagonal share that cell expects |
| FovTrap.HorzShareOf | fov_trap.py:98-99 | the amount added to (col+1, row) is exactly the straight share that cell expects |
| FovTrap.SweepDiagAdd | fov_trap.py:91-93 | adding the diagonal share moves the sweep state to phase 1 |
| FovTrap.DiagTarget | fov_trap.py:93 | the target's expected value grows by exactly the diagonal share |
| FovTrap.DiagOther | fov_trap.py:93 | no other cell's expected value changes |
| FovTrap.SweepDiagSkip | fov_trap.py:91 | without a diagonal target (on the diagonal, off the map or beyond the radius) phase 1 is reached as is |
| FovTrap.SweepHorzAdd | fov_trap.py:97-99 | adding the straight share moves the sweep state to phase 2 |
| FovTrap.HorzTarget | fov_trap.py:99 | the target's expected value grows by exactly the straight share |
| FovTrap.HorzOther | fov_trap.py:99 | no other cell's expected value changes |
| FovTrap.SweepHorzSkip | fov_trap.py:97 | without a straight target (row 0, off the map or beyond the radius) phase 2 is reached as is |
| FovTrap.SweepSetOwn | fov_trap.py:102-104 | setting an inner cell to max(amt - decay, 0) completes it and moves to the next column |
| FovTrap.OwnTarget | fov_trap.py:103-104 | that cell is now done |
| FovTrap.OwnOther | fov_trap.py:104 | no other cell's expected value changes |
| FovTrap.SweepLeaveRay | fov_trap.py:102 | ray cells are not written by the sweep |
| FovTrap.SweepVisit | fov_trap.py:82-104 | one visited cell moves the sweep state to the next column |
| FovTrap.PushDiag | fov_trap.py:89-93 | the diagonal push reaches phase 1 |
| FovTrap.PushHorz | fov_trap.py:96-99 | the straight push reaches phase 2 |
| FovTrap.Settle | fov_trap.py:102-104 | the decay step of an inner cell completes it |
| FovTrap.SweepOctant | fov_trap.py:76-104 | one octant's row-major sweep completes every in-radius inner cell of that octant |
| FovTrap.Sweep | fov_trap.py:73-106 | after the eight octants every in-radius inner cell holds max(total - decay, 0) and every other cell is unchanged |
| FovTrap.TrapCellFinal | fov_trap.py:108-120 | a cell that went through the three passes holds its TrapValue |
| FovTrap.TrapCellUntouched | fov_trap.py:43-60 | the viewer's cell and a cell beyond the radius are written by no pass and keep their seeded value |
| FovTrap.TrapCellRay | fov_trap.py:108-118 | a ray cell within the radius ends with its ray value less its decay, floored at 0 |
| FovTrap.TrapCellInner | fov_trap.py:102-118 | an inner cell within the radius keeps the value the sweep settled, since the decay pass skips it |
| FovTrap.TrapFinal | fov_trap.py:43-120 | after seed, ray pass, sweep and decay pass every cell holds its TrapValue |
| FovTrap.FovTrap | fov_trap.py:15-122 | fov returns a map with every cell equal to its TrapValue, in [0,1] under the docstring's assumptions |
| FovTrap.TrapUnitValued | fov_trap.py:15-17 | a map of TrapValues over opacities in [0,1] lies in [0,1] |
| FovRho1.FovRho1 | fov_rho_1.py:13-130 | fov sets the viewer to 1 and every cell to its TrapValue, in [0,1] under the same assumptions |
| FovRho.Cache.constructor | fov_rho.py:28 | the cache starts empty |
| FovRho.Cache.Resize | fov_rho.py:73-76 | the cache grows to at least cache_len, never shrinks, keeps its entries, and new entries are empty |
| FovRho.Cache.Reset | fov_rho.py:105-107 | both slots of every entry are set to 0; the length is unchanged |
| FovRho.Cache.AddDiag | fov_rho.py:149 | c[0] += amt_cur on one entry, and nothing else changes |
| FovRho.Cache.AddStraight | fov_rho.py:164 | c[1] += amt_cur on one entry, and nothing else changes |
| FovRho.CacheIndexInRange | fov_rho.py:144 | `CacheIndex`, col + row*rmax, lies below rmax*rmax for col, row < rmax |
| FovRho.CacheIndexInjective | fov_rho.py:144 | different cells with col < rmax use different cache entries |
| FovRho.CalcIdx | fov_rho.py:91-101 | calc_idx always returns 0 or 1 |
| FovRho.DiagContribution | fov_rho.py:134-143 | 1 - ((row+1)*mult - row) is (row+1)/(col+1), in (0,1) below the diagonal |
| FovRho.DiagClosedForm | fov_rho.py:142-143 | the closed form of the diagonal weight |
| FovRho.StraightContribution | fov_rho.py:157-158 | 1 - (row - row*mult) is (col+1-row)/(col+1), in (0,1] |
| FovRho.StraightClosedForm | fov_rho.py:157-158 | the closed form of the straight weight |
| FovRho.ContributionsPartition | fov_rho.py:142-158 | the two weights an inner cell receives, from (c-1, r-1) and (c-1, r), add up to 1 |
| FovRho.ShareBelow | fov_rho.py:146-147 | `Share`, amt_cur*(contribution*vis), is at most the contribution for values in [0,1] |
| FovRho.SharesInUnit | fov_rho.py:146-164 | two such shares, with weights adding up to 1, add up to a value in [0,1] |
| FovRho.PickInner | fov_rho.py:146 | unfolding step of `Pick` and `Total`: an inner cell hands on slot idx of its entry; its total is the sum of both slots |
| FovRho.SlotsInUnit | fov_rho.py:130-164 | with sources in [0,1], both slots and their sum lie in [0,1] |
| FovRho.PickInUnit | fov_rho.py:146 | every value handed on lies in [0,1] with opacities in [0,1] |
| FovRho.TotalInUnit | fov_rho.py:130 | amt_cache[0] + amt_cache[1] lies in [0,1] with opacities in [0,1] |
| FovRho.NoDecay | fov_rho.py:41-46 | unfolding step of `DecayFn`: with decayPerTile forced to 0, calc_decay is 0 everywhere |
| FovRho.RhoValue | fov_rho.py:29-194 | the final value is non-negative, 1 at the viewer, and 0 beyond the radius |
| FovRho.RhoValueInUnit | fov_rho.py:29-33 | with opacities in [0,1] every final value lies in [0,1] |
| FovRho.ExpectedDiagStep | fov_rho.py:149 | unfolding step of `ExpectedEntry`: phase 1 adds the diagonal slot to the entry of (col+1, row+1) and to no other |
| FovRho.ExpectedStraightStep | fov_rho.py:164 | unfolding step of `ExpectedEntry`: phase 2 adds the straight slot to the entry of (col+1, row) and to no other |
| FovRho.TrackedWithin | fov_rho.py:140 | an in-radius inner cell has col <= losRadius, so its cache index is in range |
| FovRho.TrackedFnBelow | fov_rho.py:108-109 | every tracked inner cell of an octant has 0 < row < col < rmax |
| FovRho.HoldsStart | fov_rho.py:105-106 | an all-zero cache holds what is expected before the first cell, for any tracked cells and slots |
| FovRho.HoldsNextRow | fov_rho.py:108-109 | past the last column of a row nothing more is due before the next row starts |
| FovRho.HoldsSkip | fov_rho.py:111-123 | a cell that feeds no tracked cell can be passed over without changing any entry |
| FovRho.HoldsRead | fov_rho.py:128-130 | at its own turn a tracked cell's entry, in range, holds both of its complete slots |
| FovRho.HoldsDiagAdd | fov_rho.py:144-149 | adding the target's diagonal slot to its entry, in range, and to no other, reaches phase 1 |
| FovRho.HoldsDiagSkip | fov_rho.py:140 | without a tracked diagonal target phase 1 is reached unchanged |
| FovRho.HoldsStraightAdd | fov_rho.py:159-164 | adding the target's straight slot to its entry, in range, and to no other, reaches phase 2 |
| FovRho.HoldsStraightSkip | fov_rho.py:156 | without a tracked straight target phase 2 is reached unchanged |
| FovRho.HoldsLeave | fov_rho.py:109 | after both pushes the expected entries are those of the next column |
| FovRho.CacheStart | fov_rho.py:105-107 | the reset cache holds what the sweep expects at the start of an octant |
| FovRho.CacheNextRow | fov_rho.py:108-109 | the end of a row moves the cache state to the next row |
| FovRho.SkippedFeedsNothing | fov_rho.py:111-123 | a skipped cell is the source of no tracked inner cell |
| FovRho.CacheSkip | fov_rho.py:111-123 | skipping a cell keeps the cache state, advanced by one column |
| FovRho.CacheRead | fov_rho.py:128-130 | when an inner cell is visited its entry holds both complete slots |
| FovRho.PickHere | fov_rho.py:146 | amt_cache[idx], or the ray value, is what the cell hands on through slot idx |
| FovRho.CacheDiagAdd | fov_rho.py:140-149 | adding the diagonal share to its entry, whose index is in range, reaches phase 1 |
| FovRho.CacheDiagSkip | fov_rho.py:140 | without a diagonal target phase 1 is reached as is |
| FovRho.CacheStraightAdd | fov_rho.py:156-164 | adding the straight share to its entry, whose index is in range, reaches phase 2 |
| FovRho.CacheStraightSkip | fov_rho.py:156 | without a straight target phase 2 is reached as is |
| FovRho.CacheLeave | fov_rho.py:109 | after both pushes the cache state moves to the next column |
| FovRho.MapStart | fov_rho.py:103 | the map after the ray pass is where the sweep starts |
| FovRho.MapNextOctant | fov_rho.py:103-107 | the end of an octant moves the map state to the next octant |
| FovRho.MapNextRow | fov_rho.py:108-109 | the end of a row moves the map state to the next row |
| FovRho.MapPass | fov_rho.py:169-171 | a skipped cell or a ray cell leaves the map as is |
| FovRho.MapOther | fov_rho.py:171-173 | settling one cell changes no other cell's expected value |
| FovRho.MapSettle | fov_rho.py:171-173 | setting an inner cell to max(amt - decay, 0) settles it |
| FovRho.MapReadRay | fov_rho.py:128 | a ray cell read by the sweep holds its ray value |
| FovRho.DiagSlotOf | fov_rho.py:142-149 | the amount added to c[0] is the target's diagonal slot |
| FovRho.StraightSlotOf | fov_rho.py:157-164 | the amount added to c[1] is the target's straight slot |
| FovRho.RhoVisit | fov_rho.py:111-175 | one visited cell advances both the cache state and the map state by one column, keeping the cache length |
| FovRho.PushDiag | fov_rho.py:139-149 | the diagonal push reaches cache phase 1 |
| FovRho.PushStraight | fov_rho.py:155-164 | the straight push reaches cache phase 2 |
| FovRho.Settle | fov_rho.py:171-173 | the decay step of an inner cell settles it |
| FovRho.SweepOctant | fov_rho.py:103-178 | one octant (reset, then row-major sweep) settles every in-radius inner cell of that octant |
| FovRho.Sweep | fov_rho.py:103-178 | after the eight octants every in-radius inner cell holds max(total - decay, 0) and every other cell is unchanged |
| FovRho.RhoFinal | fov_rho.py:49-192 | after seed, ray pass, sweep and decay pass every cell holds its RhoValue |
| FovRho.FovRho | fov_rho.py:29-194 | fov returns a map with every cell equal to its RhoValue, in [0,1] for opacities in [0,1], and grows the cache to max(old length, rmax*rmax) |

## Left out

- `fov_symmetry` in every `fov*.py`: it draws random pairs, prints, and compares floats exactly.
  In three of the files it also refers to an undefined `sortedPoints`.
- `main.py`: the tkinter UI, map selection and event handling. Its change of the module-level
  `DECAY_PER_TILE_PERCENT` becomes the `decayPercent` parameter.
- `fov_demoutil.py`: file reading and the character legend.
- `step`, `smoothstep`, `smootherstep`, `mulv`, `get(i)`, `__str__`, `__hash__` in
  `mathutil.py`: not used by the core.
- The callbacks `onFovSetCallback`/`onFovStepCallback` and the debugging aids of `fov_rho.py`:
  `debugPos`, `fnContributorsToDebugPos`, and the contributor list `c[2]` of each cache entry.
  A cache `Entry` holds the two slots only.
- The unused imports (`timer`, `IntEnum`).
- Floating point: values are exact reals. `math.sqrt` is a parameter. Comparisons inside
  `calc_idx` and the break test of `fov` are exact.
- Module-level state: the precomputed spiral `sortedPoints` is a `SortedPoints` parameter of
  `Fov.Fov`. The global `cache` of `fov_rho.py` is a `Cache` object passed in.
- The radius is an integer, so `math.ceil(losRadius)` is the radius itself. Every `fov` requires
  a non-zero radius, because the source divides by it.
- Spiral.SortedPoints.constructor: does not state that points of equal squared length keep their
  generation order. Python's sort is stable, but nothing in the core depends on that order.
- FovRho.FovRho: states the cache's new length, max(old length, rmax*rmax), but not its entries
  after the call. Every octant resets the cache before reading it, so no caller depends on them.
- FovRho1.FovRho1: runs the passes of `FovTrap`, because the code of `fov_rho_1.py` is the same
  algorithm as `fov_trap.py`. Its own lines are cited, but the passes are not written twice.
