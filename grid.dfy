/** Map2D: a width-by-height grid of reals stored row-major in one flat sequence. */
module Grids {
  import opened MathUtil

  /** 0 <= x < width and 0 <= y < height. */
  predicate InBoundsOf(width: int, height: int, p: IVec2)
  {
    0 <= p.x < width && 0 <= p.y < height
  }

  /** Row-major position of p in the flat sequence. */
  function LinearIndex(width: int, p: IVec2): int
  {
    p.x + p.y * width
  }

  /** An in-bounds point has an index in [0, width*height). */
  lemma LinearIndexInRange(width: int, height: int, p: IVec2)
    requires InBoundsOf(width, height, p)
    ensures 0 <= LinearIndex(width, p) < width * height
  {
    assert p.y * width <= (height - 1) * width;
  }

  /** Distinct in-bounds points have distinct indices. */
  lemma LinearIndexInjective(width: int, height: int, p: IVec2, q: IVec2)
    requires InBoundsOf(width, height, p) && InBoundsOf(width, height, q)
    requires LinearIndex(width, p) == LinearIndex(width, q)
    ensures p == q
  {
    if p.y < q.y {
      RowsApart(width, p.y, q.y);
    } else if q.y < p.y {
      RowsApart(width, q.y, p.y);
    }
  }

  /** Two different rows start at least one full row apart. */
  lemma RowsApart(width: int, a: int, b: int)
    requires a < b && width >= 0
    ensures b * width - a * width >= width
  {
    var d := b - a;
    assert b * width - a * width == d * width;
    assert (d - 1) * width >= 0;
    assert d * width == (d - 1) * width + width;
  }

  /** A cell behind an in-bounds cell, seen from an in-bounds viewer, is itself in bounds. */
  lemma BehindInBounds(w: int, h: int, viewer: IVec2, o: IVec2, q: IVec2)
    requires InBoundsOf(w, h, viewer) && InBoundsOf(w, h, o.Add(viewer)) && Behind(q, o)
    ensures InBoundsOf(w, h, q.Add(viewer))
  {
  }

  /** The value of a Map2D: its dimensions and its flat data. */
  datatype Grid = Grid(width: nat, height: nat, data: seq<real>)
  {
    ghost predicate Valid()
    {
      |data| == width * height
    }

    predicate InBounds(p: IVec2)
    {
      InBoundsOf(width, height, p)
    }

    function Get(p: IVec2): real
      requires Valid() && InBounds(p)
    {
      LinearIndexInRange(width, height, p);
      data[LinearIndex(width, p)]
    }

    /** The grid with p holding v and every other cell as before. */
    function Set(p: IVec2, v: real): (g: Grid)
      requires Valid() && InBounds(p)
      ensures g.Valid() && g.width == width && g.height == height
      ensures g.Get(p) == v
      ensures forall q :: InBounds(q) && q != p ==> g.Get(q) == Get(q)
    {
      LinearIndexInRange(width, height, p);
      var g := Grid(width, height, data[LinearIndex(width, p) := v]);
      forall q | InBounds(q) && q != p
        ensures g.Get(q) == Get(q)
      {
        LinearIndexInRange(width, height, q);
        if LinearIndex(width, q) == LinearIndex(width, p) {
          LinearIndexInjective(width, height, p, q);
        }
      }
      g
    }
  }

  /** Every cell of the grid holds a value in [0,1]. */
  ghost predicate UnitValued(g: Grid)
    requires g.Valid()
  {
    forall p :: g.InBounds(p) ==> 0.0 <= g.Get(p) <= 1.0
  }

  /** The map2D class: fixed dimensions, data updated in place. */
  class Map2D {
    const width: nat
    const height: nat
    var data: seq<real>

    ghost predicate Valid()
      reads this
    {
      |data| == width * height
    }

    function Model(): Grid
      reads this
    {
      Grid(width, height, data)
    }

    /** Map2D(w, h, d): w*h cells, each holding d. */
    constructor (w: nat, h: nat, d: real)
      ensures Valid() && width == w && height == h
      ensures |data| == w * h && forall i :: 0 <= i < |data| ==> data[i] == d
      ensures forall p :: Model().InBounds(p) ==> Model().Get(p) == d
    {
      width, height := w, h;
      data := seq(w * h, _ => d);
      new;
      forall p | Model().InBounds(p) ensures Model().Get(p) == d {
        LinearIndexInRange(w, h, p);
      }
    }

    predicate InBounds(p: IVec2)
    {
      InBoundsOf(width, height, p)
    }

    function Get(p: IVec2): real
      reads this
      requires Valid() && InBounds(p)
    {
      Model().Get(p)
    }

    /** Stores v at p; no other cell changes. */
    method Set(p: IVec2, v: real)
      requires Valid() && InBounds(p)
      modifies this
      ensures Valid() && Model() == old(Model()).Set(p, v)
    {
      LinearIndexInRange(width, height, p);
      data := data[LinearIndex(width, p) := v];
    }

    /** Adds v to the cell at p; no other cell changes. */
    method Add(p: IVec2, v: real)
      requires Valid() && InBounds(p)
      modifies this
      ensures Valid() && Model() == old(Model()).Set(p, old(Get(p)) + v)
    {
      LinearIndexInRange(width, height, p);
      var i := LinearIndex(width, p);
      data := data[i := data[i] + v];
    }
  }
}
