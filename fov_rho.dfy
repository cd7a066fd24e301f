/**
 * fov_rho.py: the rhombus mesh with a two-slot cache. The rays are cast as in fov_trap.py, but an
 * inner cell no longer accumulates into the map: each cell of the current octant owns an entry of a
 * module-global cache, whose slot 0 receives the share of its diagonal source and slot 1 the share
 * of its straight source. A source hands on, through each of its two forward neighbours, only the
 * one slot calc_idx picks for that neighbour, weighted by the row-based contributions
 * (row + 1)/(col + 1) and (col + 1 - row)/(col + 1). The decay per tile is forced to 0.
 */
module FovRho {
  import opened MathUtil
  import opened Grids
  import opened Octants
  import Fov

  /** DECAY_PER_TILE_PERCENT of this module. */
  const DefaultDecayPerTilePercent := 0.0

  /** A cache entry: slot 0 the diagonal input, slot 1 the straight input of its cell. */
  datatype Entry = Entry(diag: real, straight: real)

  /** [0, 0, []]: an entry with both slots empty. */
  const Empty := Entry(0.0, 0.0)

  /** amt_cache[idx]: slot 0 or slot 1 of an entry. */
  function Slot(e: Entry, idx: int): real
  {
    if idx == 0 then e.diag else e.straight
  }

  /** Every entry has both slots empty. */
  ghost predicate Zeroed(entries: seq<Entry>)
  {
    forall i :: 0 <= i < |entries| ==> entries[i] == Empty
  }

  /** The module-global cache: a list of entries that persists, and only grows, from one call to the next. */
  class Cache {
    var entries: seq<Entry>

    /** cache = []: empty at module load. */
    constructor ()
      ensures entries == []
    {
      entries := [];
    }

    /** Grows the cache with empty entries to length n when it is shorter; a longer cache is kept as it is. */
    method Resize(n: int)
      modifies this
      ensures |entries| == if |old(entries)| < n then n else |old(entries)|
      ensures entries[..|old(entries)|] == old(entries)
      ensures forall i :: |old(entries)| <= i < |entries| ==> entries[i] == Empty
    {
      if |entries| < n {
        var remain := n - |entries|;
        entries := entries + seq(remain, _ => Empty);
      }
    }

    /** Before each octant: both slots of every entry back to 0, the length unchanged. */
    method Reset()
      modifies this
      ensures |entries| == |old(entries)| && Zeroed(entries)
    {
      var i := 0;
      while i < |entries|
        invariant 0 <= i <= |entries| == |old(entries)|
        invariant forall j :: 0 <= j < i ==> entries[j] == Empty
      {
        entries := entries[i := Empty];
        i := i + 1;
      }
    }

    /** c[0] += v: adds v to the diagonal slot of entry i. */
    method AddDiag(i: int, v: real)
      requires 0 <= i < |entries|
      modifies this
      ensures entries == old(entries)[i := Entry(old(entries)[i].diag + v, old(entries)[i].straight)]
    {
      entries := entries[i := Entry(entries[i].diag + v, entries[i].straight)];
    }

    /** c[1] += v: adds v to the straight slot of entry i. */
    method AddStraight(i: int, v: real)
      requires 0 <= i < |entries|
      modifies this
      ensures entries == old(entries)[i := Entry(old(entries)[i].diag, old(entries)[i].straight + v)]
    {
      entries := entries[i := Entry(entries[i].diag, entries[i].straight + v)];
    }
  }

  /** col + row*rmax: the entry of the cell (col, row) of the octant being swept. */
  function CacheIndex(col: int, row: int, rmax: int): int
  {
    col + row * rmax
  }

  /** A cell with column and row below rmax has an entry below rmax*rmax. */
  lemma CacheIndexInRange(col: int, row: int, rmax: int)
    requires 0 <= col < rmax && 0 <= row < rmax
    ensures 0 <= CacheIndex(col, row, rmax) < rmax * rmax
  {
    LinearIndexInRange(rmax, rmax, IVec2(col, row));
  }

  /** Cells with columns below rmax have different entries. */
  lemma CacheIndexInjective(c: int, r: int, c': int, r': int, rmax: int)
    requires 0 <= c < rmax && 0 <= c' < rmax && 0 <= r && 0 <= r'
    requires CacheIndex(c, r, rmax) == CacheIndex(c', r', rmax)
    ensures c == c' && r == r'
  {
    var h := if r < r' then r' + 1 else r + 1;
    LinearIndexInjective(rmax, h, IVec2(c, r), IVec2(c', r'));
  }

  /**
   * calc_idx(for_diag, col_new, row_new): which slot of its source the cell (col_new, row_new)
   * takes. In the sheared square (col_new - row_new, row_new) it compares how close the directions
   * of two candidates are to the cell's own and answers 0 when the first is strictly closer, else 1.
   */
  function CalcIdx(forDiag: bool, colNew: int, rowNew: int, sqrt: int -> real): (idx: int)
    ensures idx == 0 || idx == 1
  {
    var col := colNew - rowNew;
    var n := Normalized(IVec2(col, rowNew), sqrt);
    var n0 := if forDiag then Normalized(IVec2(col - 2, rowNew - 2), sqrt) else Normalized(IVec2(col - 2, rowNew - 1), sqrt);
    var n1 := if forDiag then Normalized(IVec2(col - 2, rowNew - 1), sqrt) else Normalized(IVec2(col - 2, rowNew), sqrt);
    if Dot(n0, n) > Dot(n1, n) then 0 else 1
  }

  /**
   * The weight the source (col, row) gives its diagonal neighbour: 1 - (pnbf - row) with
   * pnbf = (row + 1)*mult and mult = col/(col + 1). It is (row + 1)/(col + 1), in (0, 1)
   * below the diagonal.
   */
  function DiagContribution(col: int, row: int): (w: real)
    requires 0 <= col
    ensures w == (row + 1) as real / (col + 1) as real
    ensures 0 <= row < col ==> 0.0 < w < 1.0
  {
    var mult := col as real / (col as real + 1.0);
    var pnbf := (row + 1) as real * mult;
    DiagClosedForm(col, row, mult, pnbf);
    1.0 - (pnbf - row as real)
  }

  lemma DiagClosedForm(col: int, row: int, mult: real, pnbf: real)
    requires 0 <= col && mult == col as real / (col as real + 1.0) && pnbf == (row + 1) as real * mult
    ensures 1.0 - (pnbf - row as real) == (row + 1) as real / (col + 1) as real
    ensures 0 <= row < col ==> 0.0 < (row + 1) as real / (col + 1) as real < 1.0
  {
    var d := (col + 1) as real;
    assert mult == 1.0 - 1.0 / d;
    assert pnbf == (row + 1) as real - (row + 1) as real / d;
  }

  /**
   * The weight the source (col, row) gives its straight neighbour: 1 - (row - pnby) with
   * pnby = row*mult. It is (col + 1 - row)/(col + 1), in (0, 1] for 0 <= row <= col.
   */
  function StraightContribution(col: int, row: int): (w: real)
    requires 0 <= col
    ensures w == (col + 1 - row) as real / (col + 1) as real
    ensures 0 <= row <= col ==> 0.0 < w <= 1.0
  {
    var mult := col as real / (col as real + 1.0);
    var pnby := row as real * mult;
    StraightClosedForm(col, row, mult, pnby);
    1.0 - (row as real - pnby)
  }

  lemma StraightClosedForm(col: int, row: int, mult: real, pnby: real)
    requires 0 <= col && mult == col as real / (col as real + 1.0) && pnby == row as real * mult
    ensures 1.0 - (row as real - pnby) == (col + 1 - row) as real / (col + 1) as real
    ensures 0 <= row <= col ==> 0.0 < (col + 1 - row) as real / (col + 1) as real <= 1.0
  {
    var d := (col + 1) as real;
    assert mult == 1.0 - 1.0 / d;
    assert pnby == row as real - row as real / d;
  }

  /** The two weights an inner cell (c, r) receives, from (c - 1, r - 1) and from (c - 1, r), add up to 1. */
  lemma ContributionsPartition(c: int, r: int)
    requires 0 < r < c
    ensures DiagContribution(c - 1, r - 1) + StraightContribution(c - 1, r) == 1.0
  {
    AddFractions(r as real, (c - r) as real, c as real);
    SelfDiv(c as real);
  }

  /** amt_cur * (contribution * vis): what a source hands on through one of its slots. */
  function Share(contribution: real, opacity: real, amt: real): real
  {
    amt * (contribution * opacity)
  }

  /** A share of a value in [0,1] through an opacity in [0,1] is at most the contribution. */
  lemma ShareBelow(contribution: real, opacity: real, amt: real)
    requires 0.0 <= contribution && 0.0 <= opacity <= 1.0 && 0.0 <= amt <= 1.0
    ensures 0.0 <= Share(contribution, opacity, amt) <= contribution
  {
    var co := contribution * opacity;
    MulBetween(opacity, contribution);
    assert 0.0 <= co <= contribution;
    MulBetween(amt, co);
  }

  /** Two shares whose weights add up to 1, of values and opacities in [0,1], add up to a value in [0,1]. */
  lemma SharesInUnit(dw: real, da: real, dv: real, sw: real, sa: real, sv: real)
    requires 0.0 <= dw && 0.0 <= sw && dw + sw == 1.0
    requires 0.0 <= da <= 1.0 && 0.0 <= dv <= 1.0 && 0.0 <= sa <= 1.0 && 0.0 <= sv <= 1.0
    ensures 0.0 <= Share(dw, da, dv) <= 1.0 && 0.0 <= Share(sw, sa, sv) <= 1.0
    ensures 0.0 <= Share(dw, da, dv) + Share(sw, sa, sv) <= 1.0
  {
    ShareBelow(dw, da, dv);
    ShareBelow(sw, sa, sv);
  }

  /**
   * The value the cell (c, r) of octant k hands on through slot idx: that slot of its cache entry
   * for an inner cell, its ray value for a cell on a ray.
   */
  ghost function Pick(vis: Grid, viewer: IVec2, sqrt: int -> real, k: int, c: int, r: int, idx: int): real
    requires vis.Valid() && 0 <= k < 8 && 0 <= r <= c
    decreases c, 1
  {
    if 0 < r < c then
      (if idx == 0 then DiagSlot(vis, viewer, sqrt, k, c, r) else StraightSlot(vis, viewer, sqrt, k, c, r))
    else RayCell(vis, viewer, OctOffset(k, c, r))
  }

  /** Slot 0 of the inner cell (c, r): the share its diagonal source (c - 1, r - 1) hands on. */
  ghost function DiagSlot(vis: Grid, viewer: IVec2, sqrt: int -> real, k: int, c: int, r: int): real
    requires vis.Valid() && 0 <= k < 8 && 0 < r < c
    decreases c, 0
  {
    Share(DiagContribution(c - 1, r - 1), At(vis, viewer.Add(OctOffset(k, c - 1, r - 1))),
          Pick(vis, viewer, sqrt, k, c - 1, r - 1, CalcIdx(true, c, r, sqrt)))
  }

  /** Slot 1 of the inner cell (c, r): the share its straight source (c - 1, r) hands on. */
  ghost function StraightSlot(vis: Grid, viewer: IVec2, sqrt: int -> real, k: int, c: int, r: int): real
    requires vis.Valid() && 0 <= k < 8 && 0 < r < c
    decreases c, 0
  {
    Share(StraightContribution(c - 1, r), At(vis, viewer.Add(OctOffset(k, c - 1, r))),
          Pick(vis, viewer, sqrt, k, c - 1, r, CalcIdx(false, c, r, sqrt)))
  }

  /** amt_cache[0] + amt_cache[1]: the total of the inner cell (c, r). */
  ghost function Total(vis: Grid, viewer: IVec2, sqrt: int -> real, k: int, c: int, r: int): real
    requires vis.Valid() && 0 <= k < 8 && 0 < r < c
  {
    DiagSlot(vis, viewer, sqrt, k, c, r) + StraightSlot(vis, viewer, sqrt, k, c, r)
  }

  /** An inner cell hands on the slot asked for; its total is the sum of its two slots. */
  lemma PickInner(vis: Grid, viewer: IVec2, sqrt: int -> real, k: int, c: int, r: int, idx: int)
    requires vis.Valid() && 0 <= k < 8 && 0 < r < c
    ensures Pick(vis, viewer, sqrt, k, c, r, idx) ==
            if idx == 0 then DiagSlot(vis, viewer, sqrt, k, c, r) else StraightSlot(vis, viewer, sqrt, k, c, r)
    ensures Total(vis, viewer, sqrt, k, c, r) == DiagSlot(vis, viewer, sqrt, k, c, r) + StraightSlot(vis, viewer, sqrt, k, c, r)
  {
  }

  /** The two slots of an inner cell whose sources hand on values in [0,1] lie in [0,1], and so does their sum. */
  lemma SlotsInUnit(vis: Grid, viewer: IVec2, sqrt: int -> real, k: int, c: int, r: int, dOp: real, dAmt: real, sOp: real, sAmt: real)
    requires vis.Valid() && 0 <= k < 8 && 0 < r < c
    requires dOp == At(vis, viewer.Add(OctOffset(k, c - 1, r - 1))) && dAmt == Pick(vis, viewer, sqrt, k, c - 1, r - 1, CalcIdx(true, c, r, sqrt))
    requires sOp == At(vis, viewer.Add(OctOffset(k, c - 1, r))) && sAmt == Pick(vis, viewer, sqrt, k, c - 1, r, CalcIdx(false, c, r, sqrt))
    requires 0.0 <= dOp <= 1.0 && 0.0 <= dAmt <= 1.0 && 0.0 <= sOp <= 1.0 && 0.0 <= sAmt <= 1.0
    ensures 0.0 <= DiagSlot(vis, viewer, sqrt, k, c, r) <= 1.0 && 0.0 <= StraightSlot(vis, viewer, sqrt, k, c, r) <= 1.0
    ensures 0.0 <= DiagSlot(vis, viewer, sqrt, k, c, r) + StraightSlot(vis, viewer, sqrt, k, c, r) <= 1.0
  {
    ContributionsPartition(c, r);
    SharesInUnit(DiagContribution(c - 1, r - 1), dOp, dAmt, StraightContribution(c - 1, r), sOp, sAmt);
    assert DiagSlot(vis, viewer, sqrt, k, c, r) == Share(DiagContribution(c - 1, r - 1), dOp, dAmt);
    assert StraightSlot(vis, viewer, sqrt, k, c, r) == Share(StraightContribution(c - 1, r), sOp, sAmt);
  }

  /**
   * With opacities in [0,1] every slot a cell hands on lies in [0,1]: an inner cell's slots are
   * shares whose weights add up to 1, dimmed by opacities and by values in [0,1].
   */
  lemma {:induction false} PickInUnit(vis: Grid, viewer: IVec2, sqrt: int -> real, k: int, c: int, r: int, idx: int)
    requires vis.Valid() && UnitValued(vis) && 0 <= k < 8 && 0 <= r <= c
    ensures 0.0 <= Pick(vis, viewer, sqrt, k, c, r, idx) <= 1.0
    decreases c, 1
  {
    if 0 < r < c {
      TotalInUnit(vis, viewer, sqrt, k, c, r);
      PickInner(vis, viewer, sqrt, k, c, r, idx);
    } else {
      var o := OctOffset(k, c, r);
      if Classify(o).Ray? {
        RayValueInUnit(vis, viewer, Classify(o).d, Classify(o).i);
      }
    }
  }

  /** The two slots of an inner cell, and their total, lie in [0,1]. */
  lemma {:induction false} TotalInUnit(vis: Grid, viewer: IVec2, sqrt: int -> real, k: int, c: int, r: int)
    requires vis.Valid() && UnitValued(vis) && 0 <= k < 8 && 0 < r < c
    ensures 0.0 <= DiagSlot(vis, viewer, sqrt, k, c, r) <= 1.0 && 0.0 <= StraightSlot(vis, viewer, sqrt, k, c, r) <= 1.0
    ensures 0.0 <= Total(vis, viewer, sqrt, k, c, r) <= 1.0
    decreases c, 0
  {
    var di, si := CalcIdx(true, c, r, sqrt), CalcIdx(false, c, r, sqrt);
    PickInUnit(vis, viewer, sqrt, k, c - 1, r - 1, di);
    PickInUnit(vis, viewer, sqrt, k, c - 1, r, si);
    var dp, sp := viewer.Add(OctOffset(k, c - 1, r - 1)), viewer.Add(OctOffset(k, c - 1, r));
    AtInUnit(vis, dp);
    AtInUnit(vis, sp);
    SlotsInUnit(vis, viewer, sqrt, k, c, r, At(vis, dp), Pick(vis, viewer, sqrt, k, c - 1, r - 1, di),
                At(vis, sp), Pick(vis, viewer, sqrt, k, c - 1, r, si));
    PickInner(vis, viewer, sqrt, k, c, r, 0);
  }

  /** calc_decay with the decay per tile forced to 0: no cell ever loses anything. */
  lemma NoDecay(sqrt: int -> real)
    ensures forall o :: Fov.DecayFn(0.0, sqrt)(o) == 0.0
  {
    forall o ensures Fov.DecayFn(0.0, sqrt)(o) == 0.0 {
      assert Fov.DecayFn(0.0, sqrt)(o) == Fov.Decay(o, 0.0, sqrt);
    }
  }

  /**
   * The map fov returns, cell by cell: 1 at the viewer, 0 beyond the radius, and within it the ray
   * value of a ray cell or the slot total of an inner cell, clamped at 0 — there is no decay.
   */
  ghost function RhoValue(vis: Grid, viewer: IVec2, losRadius: int, sqrt: int -> real, p: IVec2): (v: real)
    requires vis.Valid()
    ensures v >= 0.0
    ensures p == viewer ==> v == 1.0
    ensures !Reached(p.Sub(viewer), losRadius) && p != viewer ==> v == 0.0
  {
    var o := p.Sub(viewer);
    var cell := Classify(o);
    if cell.Origin? then 1.0
    else if !Reached(o, losRadius) then 0.0
    else if cell.Ray? then Max(RayCell(vis, viewer, o), 0.0)
    else Max(Total(vis, viewer, sqrt, cell.k, cell.c, cell.r), 0.0)
  }

  /** With opacities in [0,1] every cell of the result lies in [0,1]. */
  lemma RhoValueInUnit(vis: Grid, viewer: IVec2, losRadius: int, sqrt: int -> real, p: IVec2)
    requires vis.Valid() && UnitValued(vis)
    ensures 0.0 <= RhoValue(vis, viewer, losRadius, sqrt, p) <= 1.0
  {
    var cell := Classify(p.Sub(viewer));
    if cell.Ray? {
      RayValueInUnit(vis, viewer, cell.d, cell.i);
    } else if cell.Inner? {
      TotalInUnit(vis, viewer, sqrt, cell.k, cell.c, cell.r);
    }
  }

  /** Whether the sweep, standing at (row, col) of octant k, has visited and settled this cell. */
  predicate Settled(cell: Cell, reached: bool, k: int, row: int, col: int)
  {
    cell.Inner? && reached && (cell.k < k || (cell.k == k && Before(cell.r, cell.c, row, col)))
  }

  /**
   * A cell of the map while the sweep stands at (row, col) of octant k: a settled inner cell holds
   * its slot total less its decay, clamped at 0; every other cell its value from m1.
   */
  ghost function MapCell(m1: Grid, vis: Grid, viewer: IVec2, losRadius: int, sqrt: int -> real, decay: IVec2 -> real,
                         k: int, row: int, col: int, p: IVec2): real
    requires m1.Valid() && vis.Valid() && m1.InBounds(p)
  {
    var o := p.Sub(viewer);
    var cell := Classify(o);
    if Settled(cell, Reached(o, losRadius), k, row, col) then Max(Total(vis, viewer, sqrt, cell.k, cell.c, cell.r) - decay(o), 0.0)
    else m1.Get(p)
  }

  /** The map m is what the sweep, started on m1, holds at (row, col) of octant k. */
  ghost predicate MapAt(m: Grid, m1: Grid, vis: Grid, viewer: IVec2, losRadius: int, sqrt: int -> real, decay: IVec2 -> real,
                        k: int, row: int, col: int)
  {
    Sweepable(m1, vis, viewer, losRadius) && m.Valid() && m.width == m1.width && m.height == m1.height &&
    forall p {:trigger m.Get(p)} :: m.InBounds(p) ==> m.Get(p) == MapCell(m1, vis, viewer, losRadius, sqrt, decay, k, row, col, p)
  }

  /** An in-map inner cell (c, r) of octant k within the radius: a cell whose entry the sweep fills. */
  ghost predicate Tracked(vis: Grid, viewer: IVec2, losRadius: int, k: int, c: int, r: int)
  {
    0 < r < c && vis.InBounds(viewer.Add(OctOffset(k, c, r))) && Reached(OctOffset(k, c, r), losRadius)
  }

  /** The entry of an inner cell (c, r) whose complete slots are `slots`, once the shares counted at (row, col) in phase ph have arrived. */
  function ExpectedEntry(slots: Entry, c: int, r: int, row: int, col: int, ph: int): Entry
  {
    Entry(if Counted(r - 1, c - 1, row, col, ph, 1) then slots.diag else 0.0,
          if Counted(r, c - 1, row, col, ph, 2) then slots.straight else 0.0)
  }

  /** Phase 1 of the step at (row, col) adds the diagonal share to the entry of (col + 1, row + 1) and to no other. */
  lemma ExpectedDiagStep(slots: Entry, c: int, r: int, row: int, col: int)
    ensures ExpectedEntry(slots, c, r, row, col, 1) ==
            if c == col + 1 && r == row + 1 then
              Entry(ExpectedEntry(slots, c, r, row, col, 0).diag + slots.diag, ExpectedEntry(slots, c, r, row, col, 0).straight)
            else ExpectedEntry(slots, c, r, row, col, 0)
  {
  }

  /** Phase 2 of the step at (row, col) adds the straight share to the entry of (col + 1, row) and to no other. */
  lemma ExpectedStraightStep(slots: Entry, c: int, r: int, row: int, col: int)
    ensures ExpectedEntry(slots, c, r, row, col, 2) ==
            if c == col + 1 && r == row then
              Entry(ExpectedEntry(slots, c, r, row, col, 1).diag, ExpectedEntry(slots, c, r, row, col, 1).straight + slots.straight)
            else ExpectedEntry(slots, c, r, row, col, 1)
  {
  }

  /** Entry i of the cache, and an empty entry past its end. */
  function EntryAt(entries: seq<Entry>, i: int): Entry
  {
    if 0 <= i < |entries| then entries[i] else Empty
  }

  /** Every cell that `tracked` marks holds, in its entry, exactly the shares counted at (row, col) in phase ph. */
  ghost predicate CacheHolds(entries: seq<Entry>, rmax: int, tracked: (int, int) -> bool, slots: (int, int) -> Entry,
                             row: int, col: int, ph: int)
  {
    forall c, r :: tracked(c, r) ==> EntryAt(entries, CacheIndex(c, r, rmax)) == ExpectedEntry(slots(c, r), c, r, row, col, ph)
  }

  /** Every cell that `tracked` marks is an inner cell with a column below rmax. */
  ghost predicate TrackedBelow(tracked: (int, int) -> bool, rmax: int)
  {
    forall c, r :: tracked(c, r) ==> 0 < r < c < rmax
  }

  /** The inner cells of octant k whose entries the sweep fills. */
  ghost function TrackedFn(vis: Grid, viewer: IVec2, losRadius: int, k: int): (int, int) -> bool
  {
    (c, r) => Tracked(vis, viewer, losRadius, k, c, r)
  }

  /** Both complete slots of every inner cell of octant k (and empty slots anywhere else). */
  ghost function SlotsFn(vis: Grid, viewer: IVec2, sqrt: int -> real, k: int): (int, int) -> Entry
  {
    (c, r) => if vis.Valid() && 0 <= k < 8 && 0 < r < c
              then Entry(DiagSlot(vis, viewer, sqrt, k, c, r), StraightSlot(vis, viewer, sqrt, k, c, r))
              else Empty
  }

  /**
   * The cache holds at least rmax*rmax entries, and the entry of every tracked cell of octant k
   * holds exactly the shares counted so far.
   */
  ghost predicate CacheAt(entries: seq<Entry>, vis: Grid, viewer: IVec2, losRadius: int, sqrt: int -> real,
                          k: int, row: int, col: int, ph: int)
  {
    vis.Valid() && vis.InBounds(viewer) && 0 <= k < 8 && |entries| >= (losRadius + 1) * (losRadius + 1) &&
    CacheHolds(entries, losRadius + 1, TrackedFn(vis, viewer, losRadius, k), SlotsFn(vis, viewer, sqrt, k), row, col, ph)
  }

  /** A tracked cell has a column no greater than the radius. */
  lemma TrackedWithin(vis: Grid, viewer: IVec2, losRadius: int, k: int, c: int, r: int)
    requires 0 <= k < 8 && Tracked(vis, viewer, losRadius, k, c, r)
    ensures c <= losRadius
  {
    ClassifyInner(k, c, r);
    InnerWithin(OctOffset(k, c, r), losRadius);
  }

  /** Every tracked cell of octant k has a column below losRadius + 1. */
  lemma TrackedFnBelow(vis: Grid, viewer: IVec2, losRadius: int, k: int)
    requires 0 <= k < 8
    ensures TrackedBelow(TrackedFn(vis, viewer, losRadius, k), losRadius + 1)
  {
    forall c, r | TrackedFn(vis, viewer, losRadius, k)(c, r)
      ensures 0 < r < c < losRadius + 1
    {
      TrackedWithin(vis, viewer, losRadius, k, c, r);
    }
  }

  /** An all-empty cache holds what the sweep expects before its first cell. */
  lemma HoldsStart(entries: seq<Entry>, rmax: int, tracked: (int, int) -> bool, slots: (int, int) -> Entry)
    requires TrackedBelow(tracked, rmax) && Zeroed(entries)
    ensures CacheHolds(entries, rmax, tracked, slots, 0, 0, 0)
  {
    forall c, r | tracked(c, r)
      ensures EntryAt(entries, CacheIndex(c, r, rmax)) == ExpectedEntry(slots(c, r), c, r, 0, 0, 0)
    {
    }
  }

  /** Past the last column of row `row`, nothing more arrives before the start of row `row + 1`. */
  lemma HoldsNextRow(entries: seq<Entry>, rmax: int, tracked: (int, int) -> bool, slots: (int, int) -> Entry, row: int, col: int)
    requires TrackedBelow(tracked, rmax) && rmax <= col
    requires CacheHolds(entries, rmax, tracked, slots, row, col, 0)
    ensures CacheHolds(entries, rmax, tracked, slots, row + 1, row + 1, 0)
  {
    forall c, r | tracked(c, r)
      ensures EntryAt(entries, CacheIndex(c, r, rmax)) == ExpectedEntry(slots(c, r), c, r, row + 1, row + 1, 0)
    {
      assert ExpectedEntry(slots(c, r), c, r, row, col, 0) == ExpectedEntry(slots(c, r), c, r, row + 1, row + 1, 0);
    }
  }

  /** A cell that is the source of no tracked cell can be passed over without changing any entry. */
  lemma HoldsSkip(entries: seq<Entry>, rmax: int, tracked: (int, int) -> bool, slots: (int, int) -> Entry, row: int, col: int)
    requires CacheHolds(entries, rmax, tracked, slots, row, col, 0)
    requires forall c, r :: tracked(c, r) ==> !(c - 1 == col && (r - 1 == row || r == row))
    ensures CacheHolds(entries, rmax, tracked, slots, row, col + 1, 0)
  {
    forall c, r | tracked(c, r)
      ensures EntryAt(entries, CacheIndex(c, r, rmax)) == ExpectedEntry(slots(c, r), c, r, row, col + 1, 0)
    {
      assert Counted(r - 1, c - 1, row, col, 0, 1) == Counted(r - 1, c - 1, row, col + 1, 0, 1);
      assert Counted(r, c - 1, row, col, 0, 2) == Counted(r, c - 1, row, col + 1, 0, 2);
    }
  }

  /** While the sweep stands at a tracked cell, its entry holds both of its complete slots. */
  lemma HoldsRead(entries: seq<Entry>, rmax: int, tracked: (int, int) -> bool, slots: (int, int) -> Entry, row: int, col: int, ph: int)
    requires TrackedBelow(tracked, rmax) && |entries| >= rmax * rmax
    requires CacheHolds(entries, rmax, tracked, slots, row, col, ph) && tracked(col, row)
    ensures 0 <= CacheIndex(col, row, rmax) < |entries|
    ensures entries[CacheIndex(col, row, rmax)] == slots(col, row)
  {
    CacheIndexInRange(col, row, rmax);
    assert EntryAt(entries, CacheIndex(col, row, rmax)) == ExpectedEntry(slots(col, row), col, row, row, col, ph);
  }

  /** Adding the diagonal slot of (col + 1, row + 1) to its entry, and to no other, completes phase 1. */
  lemma HoldsDiagAdd(entries: seq<Entry>, rmax: int, tracked: (int, int) -> bool, slots: (int, int) -> Entry, row: int, col: int)
    requires TrackedBelow(tracked, rmax) && |entries| >= rmax * rmax
    requires CacheHolds(entries, rmax, tracked, slots, row, col, 0) && tracked(col + 1, row + 1)
    ensures 0 <= CacheIndex(col + 1, row + 1, rmax) < |entries|
    ensures var i := CacheIndex(col + 1, row + 1, rmax);
      CacheHolds(entries[i := Entry(entries[i].diag + slots(col + 1, row + 1).diag, entries[i].straight)], rmax, tracked, slots, row, col, 1)
  {
    var i := CacheIndex(col + 1, row + 1, rmax);
    CacheIndexInRange(col + 1, row + 1, rmax);
    var e' := entries[i := Entry(entries[i].diag + slots(col + 1, row + 1).diag, entries[i].straight)];
    forall c, r | tracked(c, r)
      ensures EntryAt(e', CacheIndex(c, r, rmax)) == ExpectedEntry(slots(c, r), c, r, row, col, 1)
    {
      ExpectedDiagStep(slots(c, r), c, r, row, col);
      if CacheIndex(c, r, rmax) == i {
        CacheIndexInjective(c, r, col + 1, row + 1, rmax);
      }
    }
  }

  /** Without a tracked diagonal target, phase 1 is reached as is. */
  lemma HoldsDiagSkip(entries: seq<Entry>, rmax: int, tracked: (int, int) -> bool, slots: (int, int) -> Entry, row: int, col: int)
    requires CacheHolds(entries, rmax, tracked, slots, row, col, 0) && !tracked(col + 1, row + 1)
    ensures CacheHolds(entries, rmax, tracked, slots, row, col, 1)
  {
    forall c, r | tracked(c, r)
      ensures EntryAt(entries, CacheIndex(c, r, rmax)) == ExpectedEntry(slots(c, r), c, r, row, col, 1)
    {
      ExpectedDiagStep(slots(c, r), c, r, row, col);
    }
  }

  /** Adding the straight slot of (col + 1, row) to its entry, and to no other, completes phase 2. */
  lemma HoldsStraightAdd(entries: seq<Entry>, rmax: int, tracked: (int, int) -> bool, slots: (int, int) -> Entry, row: int, col: int)
    requires TrackedBelow(tracked, rmax) && |entries| >= rmax * rmax
    requires CacheHolds(entries, rmax, tracked, slots, row, col, 1) && tracked(col + 1, row)
    ensures 0 <= CacheIndex(col + 1, row, rmax) < |entries|
    ensures var i := CacheIndex(col + 1, row, rmax);
      CacheHolds(entries[i := Entry(entries[i].diag, entries[i].straight + slots(col + 1, row).straight)], rmax, tracked, slots, row, col, 2)
  {
    var i := CacheIndex(col + 1, row, rmax);
    CacheIndexInRange(col + 1, row, rmax);
    var e' := entries[i := Entry(entries[i].diag, entries[i].straight + slots(col + 1, row).straight)];
    forall c, r | tracked(c, r)
      ensures EntryAt(e', CacheIndex(c, r, rmax)) == ExpectedEntry(slots(c, r), c, r, row, col, 2)
    {
      ExpectedStraightStep(slots(c, r), c, r, row, col);
      if CacheIndex(c, r, rmax) == i {
        CacheIndexInjective(c, r, col + 1, row, rmax);
      }
    }
  }

  /** Without a tracked straight target, phase 2 is reached as is. */
  lemma HoldsStraightSkip(entries: seq<Entry>, rmax: int, tracked: (int, int) -> bool, slots: (int, int) -> Entry, row: int, col: int)
    requires CacheHolds(entries, rmax, tracked, slots, row, col, 1) && !tracked(col + 1, row)
    ensures CacheHolds(entries, rmax, tracked, slots, row, col, 2)
  {
    forall c, r | tracked(c, r)
      ensures EntryAt(entries, CacheIndex(c, r, rmax)) == ExpectedEntry(slots(c, r), c, r, row, col, 2)
    {
      ExpectedStraightStep(slots(c, r), c, r, row, col);
    }
  }

  /** Once both shares of the cell (col, row) are handed on, the expected entries are those of the next column. */
  lemma HoldsLeave(entries: seq<Entry>, rmax: int, tracked: (int, int) -> bool, slots: (int, int) -> Entry, row: int, col: int)
    requires CacheHolds(entries, rmax, tracked, slots, row, col, 2)
    ensures CacheHolds(entries, rmax, tracked, slots, row, col + 1, 0)
  {
    forall c, r | tracked(c, r)
      ensures EntryAt(entries, CacheIndex(c, r, rmax)) == ExpectedEntry(slots(c, r), c, r, row, col + 1, 0)
    {
      assert ExpectedEntry(slots(c, r), c, r, row, col, 2) == ExpectedEntry(slots(c, r), c, r, row, col + 1, 0);
    }
  }

  /** The cache just emptied holds what the sweep expects at the start of octant k. */
  lemma CacheStart(entries: seq<Entry>, vis: Grid, viewer: IVec2, losRadius: int, sqrt: int -> real, k: int)
    requires vis.Valid() && vis.InBounds(viewer) && 0 <= k < 8
    requires |entries| >= (losRadius + 1) * (losRadius + 1) && Zeroed(entries)
    ensures CacheAt(entries, vis, viewer, losRadius, sqrt, k, 0, 0, 0)
  {
    TrackedFnBelow(vis, viewer, losRadius, k);
    HoldsStart(entries, losRadius + 1, TrackedFn(vis, viewer, losRadius, k), SlotsFn(vis, viewer, sqrt, k));
  }

  /** Past the last column of row `row` the cache is as expected at the start of row `row + 1`. */
  lemma CacheNextRow(entries: seq<Entry>, vis: Grid, viewer: IVec2, losRadius: int, sqrt: int -> real, k: int, row: int, col: int)
    requires 0 <= row && losRadius < col
    requires CacheAt(entries, vis, viewer, losRadius, sqrt, k, row, col, 0)
    ensures CacheAt(entries, vis, viewer, losRadius, sqrt, k, row + 1, row + 1, 0)
  {
    TrackedFnBelow(vis, viewer, losRadius, k);
    HoldsNextRow(entries, losRadius + 1, TrackedFn(vis, viewer, losRadius, k), SlotsFn(vis, viewer, sqrt, k), row, col);
  }

  /** The viewer's cell, a cell off the map and a cell beyond the radius are the source of no tracked cell. */
  lemma SkippedFeedsNothing(vis: Grid, viewer: IVec2, losRadius: int, k: int, row: int, col: int, c: int, r: int)
    requires 0 <= k < 8 && vis.InBounds(viewer) && Tracked(vis, viewer, losRadius, k, c, r)
    requires (row == 0 && col == 0) || !vis.InBounds(viewer.Add(OctOffset(k, col, row))) || !Reached(OctOffset(k, col, row), losRadius)
    ensures !(c - 1 == col && (r - 1 == row || r == row))
  {
    SkippedFeedsNone(vis.width, vis.height, viewer, losRadius, k, row, col, c, r);
  }

  /** Skipping the viewer's cell, or a cell off the map or beyond the radius, hands nothing on. */
  lemma CacheSkip(entries: seq<Entry>, vis: Grid, viewer: IVec2, losRadius: int, sqrt: int -> real, k: int, row: int, col: int)
    requires 0 <= row <= col
    requires CacheAt(entries, vis, viewer, losRadius, sqrt, k, row, col, 0)
    requires (row == 0 && col == 0) || !vis.InBounds(viewer.Add(OctOffset(k, col, row))) || !Reached(OctOffset(k, col, row), losRadius)
    ensures CacheAt(entries, vis, viewer, losRadius, sqrt, k, row, col + 1, 0)
  {
    var tracked := TrackedFn(vis, viewer, losRadius, k);
    forall c, r | tracked(c, r)
      ensures !(c - 1 == col && (r - 1 == row || r == row))
    {
      SkippedFeedsNothing(vis, viewer, losRadius, k, row, col, c, r);
    }
    HoldsSkip(entries, losRadius + 1, tracked, SlotsFn(vis, viewer, sqrt, k), row, col);
  }

  /** While the sweep stands at a tracked cell, its entry holds both of its slots. */
  lemma CacheRead(entries: seq<Entry>, vis: Grid, viewer: IVec2, losRadius: int, sqrt: int -> real, k: int, row: int, col: int, ph: int)
    requires CacheAt(entries, vis, viewer, losRadius, sqrt, k, row, col, ph)
    requires Tracked(vis, viewer, losRadius, k, col, row)
    ensures 0 <= CacheIndex(col, row, losRadius + 1) < |entries|
    ensures entries[CacheIndex(col, row, losRadius + 1)] ==
            Entry(DiagSlot(vis, viewer, sqrt, k, col, row), StraightSlot(vis, viewer, sqrt, k, col, row))
  {
    TrackedFnBelow(vis, viewer, losRadius, k);
    assert TrackedFn(vis, viewer, losRadius, k)(col, row);
    HoldsRead(entries, losRadius + 1, TrackedFn(vis, viewer, losRadius, k), SlotsFn(vis, viewer, sqrt, k), row, col, ph);
  }

  /**
   * amt_cache[idx] if is_inner_octant_pt else amt_cache: while the sweep stands at the cell
   * (col, row), slot idx of its entry for an inner cell, or the ray value amt it read from the map,
   * is what it hands on through slot idx.
   */
  lemma PickHere(entries: seq<Entry>, vis: Grid, viewer: IVec2, losRadius: int, sqrt: int -> real, k: int, row: int, col: int, ph: int,
                 isInner: bool, amt: real, idx: int)
    requires CacheAt(entries, vis, viewer, losRadius, sqrt, k, row, col, ph) && 0 <= row <= col
    requires isInner <==> 0 < row < col
    requires isInner ==> Tracked(vis, viewer, losRadius, k, col, row)
    requires !isInner ==> amt == RayCell(vis, viewer, OctOffset(k, col, row))
    ensures isInner ==> 0 <= CacheIndex(col, row, losRadius + 1) < |entries|
    ensures (if isInner then Slot(entries[CacheIndex(col, row, losRadius + 1)], idx) else amt) == Pick(vis, viewer, sqrt, k, col, row, idx)
  {
    if isInner {
      CacheRead(entries, vis, viewer, losRadius, sqrt, k, row, col, ph);
    }
  }

  /** Adding the diagonal share to the entry of (col + 1, row + 1) completes phase 1 of the step. */
  lemma CacheDiagAdd(entries: seq<Entry>, vis: Grid, viewer: IVec2, losRadius: int, sqrt: int -> real, k: int, row: int, col: int, v: real)
    requires 0 <= row < col
    requires CacheAt(entries, vis, viewer, losRadius, sqrt, k, row, col, 0)
    requires Tracked(vis, viewer, losRadius, k, col + 1, row + 1)
    requires v == DiagSlot(vis, viewer, sqrt, k, col + 1, row + 1)
    ensures 0 <= CacheIndex(col + 1, row + 1, losRadius + 1) < |entries|
    ensures var i := CacheIndex(col + 1, row + 1, losRadius + 1);
      CacheAt(entries[i := Entry(entries[i].diag + v, entries[i].straight)], vis, viewer, losRadius, sqrt, k, row, col, 1)
  {
    TrackedFnBelow(vis, viewer, losRadius, k);
    assert TrackedFn(vis, viewer, losRadius, k)(col + 1, row + 1);
    assert SlotsFn(vis, viewer, sqrt, k)(col + 1, row + 1).diag == v;
    HoldsDiagAdd(entries, losRadius + 1, TrackedFn(vis, viewer, losRadius, k), SlotsFn(vis, viewer, sqrt, k), row, col);
  }

  /** Without a diagonal share to add (on the diagonal ray, or the target not tracked) phase 1 is reached as is. */
  lemma CacheDiagSkip(entries: seq<Entry>, vis: Grid, viewer: IVec2, losRadius: int, sqrt: int -> real, k: int, row: int, col: int)
    requires 0 <= row <= col
    requires CacheAt(entries, vis, viewer, losRadius, sqrt, k, row, col, 0)
    requires col == row || !Tracked(vis, viewer, losRadius, k, col + 1, row + 1)
    ensures CacheAt(entries, vis, viewer, losRadius, sqrt, k, row, col, 1)
  {
    assert !TrackedFn(vis, viewer, losRadius, k)(col + 1, row + 1);
    HoldsDiagSkip(entries, losRadius + 1, TrackedFn(vis, viewer, losRadius, k), SlotsFn(vis, viewer, sqrt, k), row, col);
  }

  /** Adding the straight share to the entry of (col + 1, row) completes phase 2 of the step. */
  lemma CacheStraightAdd(entries: seq<Entry>, vis: Grid, viewer: IVec2, losRadius: int, sqrt: int -> real, k: int, row: int, col: int, v: real)
    requires 0 < row <= col
    requires CacheAt(entries, vis, viewer, losRadius, sqrt, k, row, col, 1)
    requires Tracked(vis, viewer, losRadius, k, col + 1, row)
    requires v == StraightSlot(vis, viewer, sqrt, k, col + 1, row)
    ensures 0 <= CacheIndex(col + 1, row, losRadius + 1) < |entries|
    ensures var i := CacheIndex(col + 1, row, losRadius + 1);
      CacheAt(entries[i := Entry(entries[i].diag, entries[i].straight + v)], vis, viewer, losRadius, sqrt, k, row, col, 2)
  {
    TrackedFnBelow(vis, viewer, losRadius, k);
    assert TrackedFn(vis, viewer, losRadius, k)(col + 1, row);
    assert SlotsFn(vis, viewer, sqrt, k)(col + 1, row).straight == v;
    HoldsStraightAdd(entries, losRadius + 1, TrackedFn(vis, viewer, losRadius, k), SlotsFn(vis, viewer, sqrt, k), row, col);
  }

  /** Without a straight share to add (on the straight ray, or the target not tracked) phase 2 is reached as is. */
  lemma CacheStraightSkip(entries: seq<Entry>, vis: Grid, viewer: IVec2, losRadius: int, sqrt: int -> real, k: int, row: int, col: int)
    requires 0 <= row <= col
    requires CacheAt(entries, vis, viewer, losRadius, sqrt, k, row, col, 1)
    requires row == 0 || !Tracked(vis, viewer, losRadius, k, col + 1, row)
    ensures CacheAt(entries, vis, viewer, losRadius, sqrt, k, row, col, 2)
  {
    assert !TrackedFn(vis, viewer, losRadius, k)(col + 1, row);
    HoldsStraightSkip(entries, losRadius + 1, TrackedFn(vis, viewer, losRadius, k), SlotsFn(vis, viewer, sqrt, k), row, col);
  }

  /** Once both shares of the cell (col, row) are handed on, the sweep moves to the next column. */
  lemma CacheLeave(entries: seq<Entry>, vis: Grid, viewer: IVec2, losRadius: int, sqrt: int -> real, k: int, row: int, col: int)
    requires CacheAt(entries, vis, viewer, losRadius, sqrt, k, row, col, 2)
    ensures CacheAt(entries, vis, viewer, losRadius, sqrt, k, row, col + 1, 0)
  {
    HoldsLeave(entries, losRadius + 1, TrackedFn(vis, viewer, losRadius, k), SlotsFn(vis, viewer, sqrt, k), row, col);
  }

  /** Before the first octant no inner cell is settled. */
  lemma MapStart(m1: Grid, vis: Grid, viewer: IVec2, losRadius: int, sqrt: int -> real, decay: IVec2 -> real)
    requires Sweepable(m1, vis, viewer, losRadius)
    ensures MapAt(m1, m1, vis, viewer, losRadius, sqrt, decay, 0, 0, 0)
  {
  }

  /** After its last row every inner cell of octant k within the radius is settled. */
  lemma MapNextOctant(m: Grid, m1: Grid, vis: Grid, viewer: IVec2, losRadius: int, sqrt: int -> real, decay: IVec2 -> real, k: int, row: int, col: int)
    requires losRadius < row
    requires MapAt(m, m1, vis, viewer, losRadius, sqrt, decay, k, row, col)
    ensures MapAt(m, m1, vis, viewer, losRadius, sqrt, decay, k + 1, 0, 0)
  {
    forall p | m.InBounds(p)
      ensures m.Get(p) == MapCell(m1, vis, viewer, losRadius, sqrt, decay, k + 1, 0, 0, p)
    {
      var o := p.Sub(viewer);
      if Classify(o).Inner? && Reached(o, losRadius) {
        InnerWithin(o, losRadius);
      }
      assert Settled(Classify(o), Reached(o, losRadius), k, row, col) == Settled(Classify(o), Reached(o, losRadius), k + 1, 0, 0);
    }
  }

  /** Past the last column of row `row` the sweep stands at the start of row `row + 1`. */
  lemma MapNextRow(m: Grid, m1: Grid, vis: Grid, viewer: IVec2, losRadius: int, sqrt: int -> real, decay: IVec2 -> real, k: int, row: int, col: int)
    requires losRadius < col
    requires MapAt(m, m1, vis, viewer, losRadius, sqrt, decay, k, row, col)
    ensures MapAt(m, m1, vis, viewer, losRadius, sqrt, decay, k, row + 1, row + 1)
  {
    forall p | m.InBounds(p)
      ensures m.Get(p) == MapCell(m1, vis, viewer, losRadius, sqrt, decay, k, row + 1, row + 1, p)
    {
      var o := p.Sub(viewer);
      if Classify(o).Inner? && Reached(o, losRadius) {
        InnerWithin(o, losRadius);
      }
      assert Settled(Classify(o), Reached(o, losRadius), k, row, col) == Settled(Classify(o), Reached(o, losRadius), k, row + 1, row + 1);
    }
  }

  /** Moving past a cell that is not an in-map inner cell within the radius settles nothing. */
  lemma MapPass(m: Grid, m1: Grid, vis: Grid, viewer: IVec2, losRadius: int, sqrt: int -> real, decay: IVec2 -> real, k: int, row: int, col: int)
    requires 0 <= k < 8 && 0 <= row <= col
    requires MapAt(m, m1, vis, viewer, losRadius, sqrt, decay, k, row, col)
    requires row == 0 || row == col || !m.InBounds(viewer.Add(OctOffset(k, col, row))) || !Reached(OctOffset(k, col, row), losRadius)
    ensures MapAt(m, m1, vis, viewer, losRadius, sqrt, decay, k, row, col + 1)
  {
    forall q | m.InBounds(q)
      ensures m.Get(q) == MapCell(m1, vis, viewer, losRadius, sqrt, decay, k, row, col + 1, q)
    {
      if Classify(q.Sub(viewer)) == Inner(k, col, row) {
        InnerAt(viewer, q, k, col, row);
      }
      MapOther(m1, vis, viewer, losRadius, sqrt, decay, k, row, col, q);
    }
  }

  /** A cell other than the inner cell (col, row), or that cell when not reached, keeps its value as the sweep moves past (col, row). */
  lemma MapOther(m1: Grid, vis: Grid, viewer: IVec2, losRadius: int, sqrt: int -> real, decay: IVec2 -> real, k: int, row: int, col: int, q: IVec2)
    requires m1.Valid() && vis.Valid() && m1.InBounds(q) && 0 <= k < 8 && 0 <= row <= col
    requires Classify(q.Sub(viewer)) == Inner(k, col, row) ==> !Reached(q.Sub(viewer), losRadius)
    ensures MapCell(m1, vis, viewer, losRadius, sqrt, decay, k, row, col + 1, q) == MapCell(m1, vis, viewer, losRadius, sqrt, decay, k, row, col, q)
  {
    var o := q.Sub(viewer);
    assert Settled(Classify(o), Reached(o, losRadius), k, row, col) == Settled(Classify(o), Reached(o, losRadius), k, row, col + 1);
  }

  /** Setting a visited inner cell to its decayed total settles it and moves the sweep to the next column. */
  lemma MapSettle(m: Grid, m1: Grid, vis: Grid, viewer: IVec2, losRadius: int, sqrt: int -> real, decay: IVec2 -> real, k: int, row: int, col: int, v: real)
    requires 0 <= k < 8 && 0 < row < col
    requires MapAt(m, m1, vis, viewer, losRadius, sqrt, decay, k, row, col)
    requires m.InBounds(viewer.Add(OctOffset(k, col, row))) && Reached(OctOffset(k, col, row), losRadius)
    requires v == Max(Total(vis, viewer, sqrt, k, col, row) - decay(OctOffset(k, col, row)), 0.0)
    ensures MapAt(m.Set(viewer.Add(OctOffset(k, col, row)), v), m1, vis, viewer, losRadius, sqrt, decay, k, row, col + 1)
  {
    var p := viewer.Add(OctOffset(k, col, row));
    assert p.Sub(viewer) == OctOffset(k, col, row);
    ClassifyInner(k, col, row);
    var m' := m.Set(p, v);
    forall q | m'.InBounds(q)
      ensures m'.Get(q) == MapCell(m1, vis, viewer, losRadius, sqrt, decay, k, row, col + 1, q)
    {
      if q != p {
        if Classify(q.Sub(viewer)) == Inner(k, col, row) {
          InnerAt(viewer, q, k, col, row);
        }
        MapOther(m1, vis, viewer, losRadius, sqrt, decay, k, row, col, q);
      }
    }
  }

  /** At its visit a ray cell in the map and within the radius holds its ray value. */
  lemma MapReadRay(m: Grid, m1: Grid, vis: Grid, viewer: IVec2, losRadius: int, sqrt: int -> real, decay: IVec2 -> real, k: int, row: int, col: int)
    requires 0 <= k < 8 && 0 < col && (row == 0 || row == col)
    requires MapAt(m, m1, vis, viewer, losRadius, sqrt, decay, k, row, col)
    requires m.InBounds(viewer.Add(OctOffset(k, col, row))) && Reached(OctOffset(k, col, row), losRadius)
    ensures m.Get(viewer.Add(OctOffset(k, col, row))) == RayCell(vis, viewer, OctOffset(k, col, row))
  {
    var o := OctOffset(k, col, row);
    assert viewer.Add(o).Sub(viewer) == o;
    ClassifyOctantRays(k, col);
  }

  /** The diagonal share the source (col, row) hands on through slot idx is slot 0 of (col + 1, row + 1). */
  lemma DiagSlotOf(vis: Grid, viewer: IVec2, sqrt: int -> real, k: int, col: int, row: int, pick: real, opacity: real)
    requires vis.Valid() && 0 <= k < 8 && 0 <= row < col
    requires opacity == At(vis, viewer.Add(OctOffset(k, col, row)))
    requires pick == Pick(vis, viewer, sqrt, k, col, row, CalcIdx(true, col + 1, row + 1, sqrt))
    ensures Share(DiagContribution(col, row), opacity, pick) == DiagSlot(vis, viewer, sqrt, k, col + 1, row + 1)
  {
    var c, r := col + 1, row + 1;
    assert c - 1 == col && r - 1 == row;
  }

  /** The straight share the source (col, row) hands on through slot idx is slot 1 of (col + 1, row). */
  lemma StraightSlotOf(vis: Grid, viewer: IVec2, sqrt: int -> real, k: int, col: int, row: int, pick: real, opacity: real)
    requires vis.Valid() && 0 <= k < 8 && 0 < row <= col
    requires opacity == At(vis, viewer.Add(OctOffset(k, col, row)))
    requires pick == Pick(vis, viewer, sqrt, k, col, row, CalcIdx(false, col + 1, row, sqrt))
    ensures Share(StraightContribution(col, row), opacity, pick) == StraightSlot(vis, viewer, sqrt, k, col + 1, row)
  {
    var c := col + 1;
    assert c - 1 == col;
  }

  /**
   * The loop body for the cell (col, row) of octant k: skip the viewer's cell and cells off the map
   * or beyond the radius; else hand a slot on to the diagonal and to the straight neighbour, and
   * give an inner cell its slot total less its decay.
   */
  method RhoVisit(fovmap: Map2D, cache: Cache, vis: Map2D, viewer: IVec2, losRadius: int, decayPerTile: real, sqrt: int -> real,
                  k: int, row: int, col: int, fwd: IVec2, up: IVec2, diag: IVec2, ghost m1: Grid)
    requires vis.Valid() && fovmap.Valid() && fovmap != vis && 0 <= k < 8 && 0 <= row <= col <= losRadius
    requires fwd == AxisSets[k].0 && up == AxisSets[k].1 && diag == up.Add(fwd)
    requires MapAt(fovmap.Model(), m1, vis.Model(), viewer, losRadius, sqrt, Fov.DecayFn(decayPerTile, sqrt), k, row, col)
    requires CacheAt(cache.entries, vis.Model(), viewer, losRadius, sqrt, k, row, col, 0)
    modifies fovmap, cache
    ensures fovmap.Valid()
    ensures MapAt(fovmap.Model(), m1, vis.Model(), viewer, losRadius, sqrt, Fov.DecayFn(decayPerTile, sqrt), k, row, col + 1)
    ensures CacheAt(cache.entries, vis.Model(), viewer, losRadius, sqrt, k, row, col + 1, 0) && |cache.entries| == old(|cache.entries|)
  {
    ghost var decay := Fov.DecayFn(decayPerTile, sqrt);
    ghost var g := vis.Model();
    if col == 0 && row == 0 {
      MapPass(fovmap.Model(), m1, g, viewer, losRadius, sqrt, decay, k, row, col);
      CacheSkip(cache.entries, g, viewer, losRadius, sqrt, k, row, col);
      return;
    }
    var isInner := row != col && col != 0 && row != 0;
    var o := fwd.Muls(col).Add(up.Muls(row));
    AxisSetOffset(k, col, row);
    var p := viewer.Add(o);
    if !fovmap.InBounds(p) || o.SquaredLength() > losRadius * losRadius {
      MapPass(fovmap.Model(), m1, g, viewer, losRadius, sqrt, decay, k, row, col);
      CacheSkip(cache.entries, g, viewer, losRadius, sqrt, k, row, col);
      return;
    }
    var amt: real;
    if isInner {
      CacheRead(cache.entries, g, viewer, losRadius, sqrt, k, row, col, 0);
      var entry := cache.entries[CacheIndex(col, row, losRadius + 1)];
      amt := entry.diag + entry.straight;
    } else {
      MapReadRay(fovmap.Model(), m1, g, viewer, losRadius, sqrt, decay, k, row, col);
      amt := fovmap.Get(p);
    }
    var opacity := vis.Get(p);
    PushDiag(fovmap, cache, g, viewer, losRadius, sqrt, k, row, col, p, diag, isInner, amt, opacity);
    PushStraight(fovmap, cache, g, viewer, losRadius, sqrt, k, row, col, p, fwd, isInner, amt, opacity);
    Settle(fovmap, g, viewer, losRadius, decayPerTile, sqrt, k, row, col, p, isInner, amt, m1);
    CacheLeave(cache.entries, g, viewer, losRadius, sqrt, k, row, col);
  }

  /**
   * Hands slot calc_idx(True, col + 1, row + 1) of the cell p = (col, row), weighted by the diagonal
   * contribution and its opacity, into slot 0 of (col + 1, row + 1) when that is in the map and
   * within the radius.
   */
  method PushDiag(fovmap: Map2D, cache: Cache, ghost g: Grid, viewer: IVec2, losRadius: int, sqrt: int -> real,
                  k: int, row: int, col: int, p: IVec2, diag: IVec2, isInner: bool, amt: real, opacity: real)
    requires fovmap.Valid() && g.Valid() && fovmap.width == g.width && fovmap.height == g.height
    requires 0 <= k < 8 && 0 <= row <= col <= losRadius && 0 < col
    requires p == viewer.Add(OctOffset(k, col, row)) && diag == AxisSets[k].1.Add(AxisSets[k].0)
    requires opacity == At(g, p)
    requires isInner <==> 0 < row < col
    requires isInner ==> Tracked(g, viewer, losRadius, k, col, row)
    requires !isInner ==> amt == RayCell(g, viewer, OctOffset(k, col, row))
    requires CacheAt(cache.entries, g, viewer, losRadius, sqrt, k, row, col, 0)
    modifies cache
    ensures CacheAt(cache.entries, g, viewer, losRadius, sqrt, k, row, col, 1) && |cache.entries| == old(|cache.entries|)
  {
    OctOffsetSteps(k, col, row);
    var pnb := p.Add(diag);
    assert pnb == viewer.Add(OctOffset(k, col + 1, row + 1)) && pnb.Sub(viewer) == OctOffset(k, col + 1, row + 1);
    if col != row && fovmap.InBounds(pnb) && pnb.Sub(viewer).SquaredLength() <= losRadius * losRadius {
      var contribution := DiagContribution(col, row);
      var i := CacheIndex(col + 1, row + 1, losRadius + 1);
      var idx := CalcIdx(true, col + 1, row + 1, sqrt);
      PickHere(cache.entries, g, viewer, losRadius, sqrt, k, row, col, 0, isInner, amt, idx);
      var amtCur := if isInner then Slot(cache.entries[CacheIndex(col, row, losRadius + 1)], idx) else amt;
      DiagSlotOf(g, viewer, sqrt, k, col, row, amtCur, opacity);
      amtCur := Share(contribution, opacity, amtCur);
      CacheDiagAdd(cache.entries, g, viewer, losRadius, sqrt, k, row, col, amtCur);
      cache.AddDiag(i, amtCur);
    } else {
      CacheDiagSkip(cache.entries, g, viewer, losRadius, sqrt, k, row, col);
    }
  }

  /**
   * Hands slot calc_idx(False, col + 1, row) of the cell p = (col, row), weighted by the straight
   * contribution and its opacity, into slot 1 of (col + 1, row) when row > 0 and that is in the map
   * and within the radius.
   */
  method PushStraight(fovmap: Map2D, cache: Cache, ghost g: Grid, viewer: IVec2, losRadius: int, sqrt: int -> real,
                      k: int, row: int, col: int, p: IVec2, fwd: IVec2, isInner: bool, amt: real, opacity: real)
    requires fovmap.Valid() && g.Valid() && fovmap.width == g.width && fovmap.height == g.height
    requires 0 <= k < 8 && 0 <= row <= col <= losRadius && 0 < col
    requires p == viewer.Add(OctOffset(k, col, row)) && fwd == AxisSets[k].0
    requires opacity == At(g, p)
    requires isInner <==> 0 < row < col
    requires isInner ==> Tracked(g, viewer, losRadius, k, col, row)
    requires !isInner ==> amt == RayCell(g, viewer, OctOffset(k, col, row))
    requires CacheAt(cache.entries, g, viewer, losRadius, sqrt, k, row, col, 1)
    modifies cache
    ensures CacheAt(cache.entries, g, viewer, losRadius, sqrt, k, row, col, 2) && |cache.entries| == old(|cache.entries|)
  {
    OctOffsetSteps(k, col, row);
    var pnb := p.Add(fwd);
    assert pnb == viewer.Add(OctOffset(k, col + 1, row)) && pnb.Sub(viewer) == OctOffset(k, col + 1, row);
    if row > 0 && fovmap.InBounds(pnb) && pnb.Sub(viewer).SquaredLength() <= losRadius * losRadius {
      var contribution := StraightContribution(col, row);
      var i := CacheIndex(col + 1, row, losRadius + 1);
      var idx := CalcIdx(false, col + 1, row, sqrt);
      PickHere(cache.entries, g, viewer, losRadius, sqrt, k, row, col, 1, isInner, amt, idx);
      var amtCur := if isInner then Slot(cache.entries[CacheIndex(col, row, losRadius + 1)], idx) else amt;
      StraightSlotOf(g, viewer, sqrt, k, col, row, amtCur, opacity);
      amtCur := Share(contribution, opacity, amtCur);
      CacheStraightAdd(cache.entries, g, viewer, losRadius, sqrt, k, row, col, amtCur);
      cache.AddStraight(i, amtCur);
    } else {
      CacheStraightSkip(cache.entries, g, viewer, losRadius, sqrt, k, row, col);
    }
  }

  /** Once both slots are handed on, an inner cell p = (col, row) takes its slot total less its decay, clamped at 0. */
  method Settle(fovmap: Map2D, ghost g: Grid, viewer: IVec2, losRadius: int, decayPerTile: real, sqrt: int -> real,
                k: int, row: int, col: int, p: IVec2, isInner: bool, amt: real, ghost m1: Grid)
    requires fovmap.Valid() && g.Valid() && 0 <= k < 8 && 0 <= row <= col && 0 < col
    requires p == viewer.Add(OctOffset(k, col, row)) && fovmap.InBounds(p) && Reached(OctOffset(k, col, row), losRadius)
    requires isInner <==> 0 < row < col
    requires isInner ==> amt == Total(g, viewer, sqrt, k, col, row)
    requires MapAt(fovmap.Model(), m1, g, viewer, losRadius, sqrt, Fov.DecayFn(decayPerTile, sqrt), k, row, col)
    modifies fovmap
    ensures fovmap.Valid() && MapAt(fovmap.Model(), m1, g, viewer, losRadius, sqrt, Fov.DecayFn(decayPerTile, sqrt), k, row, col + 1)
  {
    if isInner {
      var o := p.Sub(viewer);
      assert o == OctOffset(k, col, row);
      Fov.DecayFnAt(decayPerTile, sqrt, o);
      var v := Max(amt - Fov.Decay(o, decayPerTile, sqrt), 0.0);
      MapSettle(fovmap.Model(), m1, g, viewer, losRadius, sqrt, Fov.DecayFn(decayPerTile, sqrt), k, row, col, v);
      fovmap.Set(p, v);
    } else {
      MapPass(fovmap.Model(), m1, g, viewer, losRadius, sqrt, Fov.DecayFn(decayPerTile, sqrt), k, row, col);
    }
  }

  /** The sweep of octant k: the cache emptied, then rows 0..rmax - 1, each from its diagonal cell out to column rmax - 1. */
  method SweepOctant(fovmap: Map2D, cache: Cache, vis: Map2D, viewer: IVec2, losRadius: int, decayPerTile: real, sqrt: int -> real,
                     k: int, ghost m1: Grid)
    requires vis.Valid() && fovmap.Valid() && fovmap != vis && 0 <= k < 8 && vis.InBounds(viewer)
    requires MapAt(fovmap.Model(), m1, vis.Model(), viewer, losRadius, sqrt, Fov.DecayFn(decayPerTile, sqrt), k, 0, 0)
    requires |cache.entries| >= (losRadius + 1) * (losRadius + 1)
    modifies fovmap, cache
    ensures fovmap.Valid() && |cache.entries| == old(|cache.entries|)
    ensures MapAt(fovmap.Model(), m1, vis.Model(), viewer, losRadius, sqrt, Fov.DecayFn(decayPerTile, sqrt), k + 1, 0, 0)
  {
    ghost var decay := Fov.DecayFn(decayPerTile, sqrt);
    var fwd, up := AxisSets[k].0, AxisSets[k].1;
    var diag := up.Add(fwd);
    cache.Reset();
    CacheStart(cache.entries, vis.Model(), viewer, losRadius, sqrt, k);
    var rmax := losRadius + 1;
    var row := 0;
    while row < rmax
      invariant 0 <= row && (row <= rmax || row == 0) && fovmap.Valid() && |cache.entries| == old(|cache.entries|)
      invariant MapAt(fovmap.Model(), m1, vis.Model(), viewer, losRadius, sqrt, decay, k, row, row)
      invariant CacheAt(cache.entries, vis.Model(), viewer, losRadius, sqrt, k, row, row, 0)
    {
      var col := row;
      while col < rmax
        invariant row <= col <= rmax && fovmap.Valid() && |cache.entries| == old(|cache.entries|)
        invariant MapAt(fovmap.Model(), m1, vis.Model(), viewer, losRadius, sqrt, decay, k, row, col)
        invariant CacheAt(cache.entries, vis.Model(), viewer, losRadius, sqrt, k, row, col, 0)
      {
        RhoVisit(fovmap, cache, vis, viewer, losRadius, decayPerTile, sqrt, k, row, col, fwd, up, diag, m1);
        col := col + 1;
      }
      MapNextRow(fovmap.Model(), m1, vis.Model(), viewer, losRadius, sqrt, decay, k, row, col);
      CacheNextRow(cache.entries, vis.Model(), viewer, losRadius, sqrt, k, row, col);
      row := row + 1;
    }
    MapNextOctant(fovmap.Model(), m1, vis.Model(), viewer, losRadius, sqrt, decay, k, row, row);
  }

  /**
   * The sweep over all eight octants: afterwards every in-map inner cell within the radius holds its
   * slot total less its decay, clamped at 0, and every other cell its value from before.
   */
  method Sweep(fovmap: Map2D, cache: Cache, vis: Map2D, viewer: IVec2, losRadius: int, decayPerTile: real, sqrt: int -> real)
    requires vis.Valid() && fovmap.Valid() && fovmap != vis
    requires Sweepable(fovmap.Model(), vis.Model(), viewer, losRadius)
    requires |cache.entries| >= (losRadius + 1) * (losRadius + 1)
    modifies fovmap, cache
    ensures fovmap.Valid() && |cache.entries| == old(|cache.entries|)
    ensures MapAt(fovmap.Model(), old(fovmap.Model()), vis.Model(), viewer, losRadius, sqrt, Fov.DecayFn(decayPerTile, sqrt), 8, 0, 0)
  {
    ghost var m1 := fovmap.Model();
    ghost var decay := Fov.DecayFn(decayPerTile, sqrt);
    MapStart(m1, vis.Model(), viewer, losRadius, sqrt, decay);
    var k := 0;
    while k < |AxisSets|
      invariant 0 <= k <= 8 && fovmap.Valid() && |cache.entries| == old(|cache.entries|)
      invariant MapAt(fovmap.Model(), m1, vis.Model(), viewer, losRadius, sqrt, decay, k, 0, 0)
    {
      SweepOctant(fovmap, cache, vis, viewer, losRadius, decayPerTile, sqrt, k, m1);
      k := k + 1;
    }
    assert k == 8;
  }

  /** After the sweep and the decay pass, with no decay, every cell holds its RhoValue. */
  lemma RhoFinal(m0: Grid, m1: Grid, m2: Grid, m3: Grid, vis: Grid, viewer: IVec2, losRadius: int, sqrt: int -> real)
    requires m0.Valid() && m0.width == vis.width && m0.height == vis.height && m0.InBounds(viewer) && m0.Get(viewer) == 1.0
    requires forall p :: m0.InBounds(p) && p != viewer ==> m0.Get(p) == 0.0
    requires m1.Valid() && m1.width == m0.width && m1.height == m0.height
    requires forall p :: m1.InBounds(p) ==> m1.Get(p) == Passed(m0, viewer, losRadius, RayFn(vis, viewer), p)
    requires MapAt(m2, m1, vis, viewer, losRadius, sqrt, Fov.DecayFn(0.0, sqrt), 8, 0, 0)
    requires m3.Valid() && m3.width == m2.width && m3.height == m2.height
    requires forall p :: m3.InBounds(p) ==> m3.Get(p) == Passed(m2, viewer, losRadius, DecayedFn(m2, viewer, Fov.DecayFn(0.0, sqrt)), p)
    ensures forall p :: m3.InBounds(p) ==> m3.Get(p) == RhoValue(vis, viewer, losRadius, sqrt, p)
  {
    NoDecay(sqrt);
    forall p | m3.InBounds(p)
      ensures m3.Get(p) == RhoValue(vis, viewer, losRadius, sqrt, p)
    {
      var o := p.Sub(viewer);
      assert viewer.Add(o) == p;
      if o.IsZero() {
        assert p == viewer;
      }
      assert RayFn(vis, viewer)(o) == RayCell(vis, viewer, o);
    }
  }

  /**
   * fov: the rhombus-mesh field of view with the two-slot cache. Every cell of the result holds its
   * RhoValue; with opacities in [0,1] every cell lies in [0,1]. The cache is grown, never shrunk,
   * to at least rmax*rmax entries.
   */
  method FovRho(viewer: IVec2, losRadius: int, vis: Map2D, cache: Cache, sqrt: int -> real) returns (fovmap: Map2D)
    requires losRadius != 0 && vis.Valid() && vis.InBounds(viewer)
    modifies cache
    ensures fresh(fovmap) && fovmap.Valid() && fovmap.width == vis.width && fovmap.height == vis.height
    ensures forall p :: fovmap.Model().InBounds(p) ==> fovmap.Model().Get(p) == RhoValue(vis.Model(), viewer, losRadius, sqrt, p)
    ensures UnitValued(vis.Model()) ==> UnitValued(fovmap.Model())
    ensures |cache.entries| == if |old(cache.entries)| < (losRadius + 1) * (losRadius + 1) then (losRadius + 1) * (losRadius + 1) else |old(cache.entries)|
  {
    fovmap := new Map2D(vis.width, vis.height, 0.0);
    var decayPerTile := DefaultDecayPerTilePercent / losRadius as real;
    decayPerTile := 0.0;
    fovmap.Set(viewer, 1.0);
    var rmax := losRadius + 1;
    ghost var m0 := fovmap.Model();
    RayPass(fovmap, vis, viewer, losRadius);
    ghost var m1 := fovmap.Model();
    RaysSweepable(m0, m1, vis.Model(), viewer, losRadius);
    var cacheLen := rmax * rmax;
    cache.Resize(cacheLen);
    Sweep(fovmap, cache, vis, viewer, losRadius, decayPerTile, sqrt);
    ghost var m2 := fovmap.Model();
    DecayPass(fovmap, viewer, losRadius, Fov.DecayFn(decayPerTile, sqrt));
    RhoFinal(m0, m1, m2, fovmap.Model(), vis.Model(), viewer, losRadius, sqrt);
    if UnitValued(vis.Model()) {
      forall p | fovmap.Model().InBounds(p) ensures 0.0 <= fovmap.Model().Get(p) <= 1.0 {
        RhoValueInUnit(vis.Model(), viewer, losRadius, sqrt, p);
      }
    }
  }
}
