/** The "spiral": every offset of a square, listed by increasing distance from the origin. */
module Spiral {
  import opened MathUtil

  /** - m <= x <= m and - m <= y <= m. */
  predicate InBox(m: int, p: IVec2)
  {
    -m <= p.x <= m && -m <= p.y <= m
  }

  /** In the box, with rInner² <= squared length <= rOuter². */
  predicate InAnnulus(m: int, rInner: int, rOuter: int, p: IVec2)
  {
    InBox(m, p) && rInner * rInner <= p.SquaredLength() <= rOuter * rOuter
  }

  predicate Sorted(a: seq<int>)
  {
    forall i, j :: 0 <= i < j < |a| ==> a[i] <= a[j]
  }

  /** Points listed by non-decreasing squared length. */
  predicate ByLength(s: seq<IVec2>)
  {
    forall i, j :: 0 <= i < j < |s| ==> s[i].SquaredLength() <= s[j].SquaredLength()
  }

  predicate Distinct<T(==)>(s: seq<T>)
  {
    forall i, j :: 0 <= i < j < |s| ==> s[i] != s[j]
  }

  /** The squared length of each point, in the same order. */
  function KeysOf(s: seq<IVec2>): (k: seq<int>)
    ensures |k| == |s| && forall i :: 0 <= i < |s| ==> k[i] == s[i].SquaredLength()
    ensures ByLength(s) ==> Sorted(k)
  {
    seq(|s|, i requires 0 <= i < |s| => s[i].SquaredLength())
  }

  /** bisect_left: the first index whose key is not below x. */
  method BisectLeft(a: seq<int>, x: int) returns (lo: nat)
    requires Sorted(a)
    ensures lo <= |a|
    ensures forall j :: 0 <= j < lo ==> a[j] < x
    ensures forall j :: lo <= j < |a| ==> x <= a[j]
  {
    lo := 0;
    var hi := |a|;
    while lo < hi
      invariant 0 <= lo <= hi <= |a|
      invariant forall j :: 0 <= j < lo ==> a[j] < x
      invariant forall j :: hi <= j < |a| ==> x <= a[j]
    {
      var mid := (lo + hi) / 2;
      if a[mid] < x {
        lo := mid + 1;
      } else {
        hi := mid;
      }
    }
  }

  /** bisect_right: the first index whose key is above x. */
  method BisectRight(a: seq<int>, x: int) returns (lo: nat)
    requires Sorted(a)
    ensures lo <= |a|
    ensures forall j :: 0 <= j < lo ==> a[j] <= x
    ensures forall j :: lo <= j < |a| ==> x < a[j]
  {
    lo := 0;
    var hi := |a|;
    while lo < hi
      invariant 0 <= lo <= hi <= |a|
      invariant forall j :: 0 <= j < lo ==> a[j] <= x
      invariant forall j :: hi <= j < |a| ==> x < a[j]
    {
      var mid := (lo + hi) / 2;
      if x < a[mid] {
        hi := mid;
      } else {
        lo := mid + 1;
      }
    }
  }

  /** Appending a point not yet present keeps the points distinct. */
  lemma AppendDistinct(s: seq<IVec2>, p: IVec2)
    requires Distinct(s) && p !in s
    ensures Distinct(s + [p])
  {
    var t := s + [p];
    forall i, j | 0 <= i < j < |t| ensures t[i] != t[j] {
      if j == |s| {
        assert t[i] == s[i];
      }
    }
  }

  /** Inserting at the bisect_right position keeps the order by length and distinctness. */
  lemma InsertByLength(s: seq<IVec2>, k: int, p: IVec2)
    requires ByLength(s) && Distinct(s) && p !in s && 0 <= k <= |s|
    requires forall j :: 0 <= j < k ==> s[j].SquaredLength() <= p.SquaredLength()
    requires forall j :: k <= j < |s| ==> p.SquaredLength() < s[j].SquaredLength()
    ensures ByLength(s[..k] + [p] + s[k..]) && Distinct(s[..k] + [p] + s[k..])
    ensures forall q :: q in s[..k] + [p] + s[k..] <==> q in s || q == p
  {
    var t := s[..k] + [p] + s[k..];
    InsertIndices(s, k, p);
    forall i, j | 0 <= i < j < |t|
      ensures t[i].SquaredLength() <= t[j].SquaredLength() && t[i] != t[j]
    {
      if j < k || i > k {
      } else if i == k {
        assert t[j] == s[j - 1];
      } else if j == k {
        assert t[i] == s[i];
      } else {
        assert t[i] == s[i] && t[j] == s[j - 1];
      }
    }
    forall q | q in s ensures q in t {
      var j :| 0 <= j < |s| && s[j] == q;
      if j < k { assert t[j] == q; } else { assert t[j + 1] == q; }
    }
  }

  /** Where each element of s[..k] + [p] + s[k..] comes from. */
  lemma InsertIndices(s: seq<IVec2>, k: int, p: IVec2)
    requires 0 <= k <= |s|
    ensures |s[..k] + [p] + s[k..]| == |s| + 1
    ensures forall j :: 0 <= j < k ==> (s[..k] + [p] + s[k..])[j] == s[j]
    ensures (s[..k] + [p] + s[k..])[k] == p
    ensures forall j :: k < j <= |s| ==> (s[..k] + [p] + s[k..])[j] == s[j - 1]
  {
  }

  /** The spiral over the square [-maxLos, maxLos]², with the squared length of each point. */
  class SortedPoints {
    const maxLos: int
    const points: seq<IVec2>
    const keys: seq<int>

    ghost predicate Valid()
    {
      keys == KeysOf(points) && ByLength(points) && Distinct(points) &&
      (forall p :: p in points <==> InBox(maxLos, p))
    }

    /** Every offset of the square exactly once, (2 maxLos + 1)² of them, sorted by squared length. */
    constructor (maxLos: int)
      ensures this.maxLos == maxLos && Valid()
      ensures |points| == if maxLos >= 0 then (2 * maxLos + 1) * (2 * maxLos + 1) else 0
    {
      var m := maxLos;
      var side := 2 * m + 1;
      var pts: seq<IVec2> := [];
      var y := -m;
      while y < m + 1
        invariant y == -m || -m < y <= m + 1
        invariant forall q :: q in pts <==> InBox(m, q) && q.y < y
        invariant Distinct(pts)
        invariant |pts| == (y + m) * side
      {
        var x := -m;
        while x < m + 1
          invariant -m <= x <= m + 1
          invariant forall q :: q in pts <==> InBox(m, q) && (q.y < y || (q.y == y && q.x < x))
          invariant Distinct(pts)
          invariant |pts| == (y + m) * side + (x + m)
        {
          AppendDistinct(pts, IVec2(x, y));
          pts := pts + [IVec2(x, y)];
          x := x + 1;
        }
        assert (y + 1 + m) * side == (y + m) * side + side;
        y := y + 1;
      }
      assert m >= 0 ==> y == m + 1;
      var sorted: seq<IVec2> := [];
      var i := 0;
      while i < |pts|
        invariant 0 <= i <= |pts|
        invariant ByLength(sorted) && Distinct(sorted) && |sorted| == i
        invariant forall q :: q in sorted <==> q in pts[..i]
      {
        var p := pts[i];
        assert p !in pts[..i];
        var k := BisectRight(KeysOf(sorted), p.SquaredLength());
        InsertByLength(sorted, k, p);
        assert pts[..i + 1] == pts[..i] + [p];
        sorted := sorted[..k] + [p] + sorted[k..];
        i := i + 1;
      }
      assert pts[..i] == pts;
      this.maxLos := maxLos;
      points := sorted;
      keys := KeysOf(sorted);
    }

    /**
     * range(rInner, rOuter): exactly the points with rInner² <= squared length <= rOuter², as the
     * contiguous run points[lo..hi] of the spiral (empty when the bisections cross).
     */
    method Range(rInner: int, rOuter: int) returns (r: seq<IVec2>, ghost lo: nat, ghost hi: nat)
      requires Valid()
      ensures lo <= hi <= |points| && r == points[lo..hi]
      ensures forall q :: q in r <==> InAnnulus(maxLos, rInner, rOuter, q)
      ensures ByLength(r) && Distinct(r)
    {
      var i0 := BisectLeft(keys, rInner * rInner);
      var i1 := BisectRight(keys, rOuter * rOuter);
      if i0 <= i1 {
        r, lo, hi := points[i0..i1], i0, i1;
        SliceOrdered(points, i0, i1);
        forall q | q in r
          ensures InAnnulus(maxLos, rInner, rOuter, q)
        {
          var j :| 0 <= j < |r| && r[j] == q;
          assert q == points[i0 + j] && keys[i0 + j] == q.SquaredLength();
        }
        forall q | InAnnulus(maxLos, rInner, rOuter, q)
          ensures q in r
        {
          var j :| 0 <= j < |points| && points[j] == q;
          assert keys[j] == q.SquaredLength();
          assert points[j] == r[j - i0];
        }
      } else {
        r, lo, hi := [], i0, i0;
        forall q | InAnnulus(maxLos, rInner, rOuter, q)
          ensures false
        {
        }
      }
    }
  }

  /** A slice of a list ordered by length and without repeats is again both. */
  lemma SliceOrdered(s: seq<IVec2>, i: int, j: int)
    requires ByLength(s) && Distinct(s) && 0 <= i <= j <= |s|
    ensures ByLength(s[i..j]) && Distinct(s[i..j])
  {
    var t := s[i..j];
    forall a, b | 0 <= a < b < |t|
      ensures t[a].SquaredLength() <= t[b].SquaredLength() && t[a] != t[b]
    {
      assert t[a] == s[i + a] && t[b] == s[i + b];
    }
  }

  /** With an inner radius of at least 1 the origin is never listed. */
  lemma RangeExcludesOrigin(r: seq<IVec2>, m: int, rInner: int, rOuter: int)
    requires 1 <= rInner
    requires forall q :: q in r <==> InAnnulus(m, rInner, rOuter, q)
    ensures forall q :: q in r ==> !q.IsZero()
  {
    assert rInner * rInner >= 1;
  }

  /** In a list sorted by length, a strictly shorter member comes strictly earlier. */
  lemma ShorterComesFirst(s: seq<IVec2>, i: int, q: IVec2)
    requires ByLength(s) && 0 <= i < |s| && q in s
    requires q.SquaredLength() < s[i].SquaredLength()
    ensures q in s[..i]
  {
    var j :| 0 <= j < |s| && s[j] == q;
    assert s[..i][j] == q;
  }
}
