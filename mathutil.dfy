/** Scalar helpers and the integer vector type of the field-of-view code. */
module MathUtil {

  function AbsOf(v: int): nat
  {
    if v < 0 then -v else v
  }

  function Min(a: real, b: real): real
  {
    if a <= b then a else b
  }

  function Max(a: real, b: real): real
  {
    if a <= b then b else a
  }

  /** The sign of an integer: 0, 1 or -1. */
  function SignOf(v: int): (s: int)
    ensures s == 0 <==> v == 0
    ensures s == 1 <==> v > 0
    ensures s == -1 <==> v < 0
  {
    if v == 0 then 0 else (if v >= 0 then 1 else -1)
  }

  /** The sign times the value is the absolute value. */
  lemma SignTimesValue(v: int)
    ensures SignOf(v) * v == AbsOf(v)
  {
  }

  /** Linear interpolation between a and b with weight t. */
  function Lerp(a: real, b: real, t: real): real
  {
    (1.0 - t) * a + t * b
  }

  /** Lerp meets its end points and, for t in [0,1], stays between them. */
  lemma LerpBetween(a: real, b: real, t: real)
    ensures Lerp(a, b, 0.0) == a && Lerp(a, b, 1.0) == b
    ensures 0.0 <= t <= 1.0 ==> Min(a, b) <= Lerp(a, b, t) <= Max(a, b)
  {
    LerpOffset(a, b, 0.0);
    LerpOffset(a, b, 1.0);
    if 0.0 <= t <= 1.0 {
      if a <= b {
        LerpOrdered(a, b, t);
      } else {
        LerpSwap(a, b, t);
        LerpOrdered(b, a, 1.0 - t);
      }
    }
  }

  /** Lerp is the start point plus the weighted difference. */
  lemma LerpOffset(a: real, b: real, t: real)
    ensures Lerp(a, b, t) == a + t * (b - a)
  {
    var ta, tb := t * a, t * b;
    assert (1.0 - t) * a == a - ta;
    assert t * (b - a) == tb - ta;
  }

  /** Swapping the end points reverses the weight. */
  lemma LerpSwap(a: real, b: real, t: real)
    ensures Lerp(a, b, t) == Lerp(b, a, 1.0 - t)
  {
  }

  lemma LerpOrdered(a: real, b: real, t: real)
    requires a <= b && 0.0 <= t <= 1.0
    ensures a <= Lerp(a, b, t) <= b
  {
    LerpOffset(a, b, t);
    MulBetween(t, b - a);
  }

  /** A weight in [0,1] scales a non-negative value into [0, value]. */
  lemma MulBetween(t: real, d: real)
    requires 0.0 <= t <= 1.0 && 0.0 <= d
    ensures 0.0 <= t * d <= d
  {
    var td, rest := t * d, (1.0 - t) * d;
    assert rest >= 0.0;
    assert rest == d - td;
  }

  /** Scaling by a non-negative factor keeps the order of two non-negative values. */
  lemma ScaleMonotone(a: real, b: real, c: real)
    requires 0.0 <= a <= b && 0.0 <= c
    ensures 0.0 <= a * c <= b * c
  {
    var ac, bc, d := a * c, b * c, (b - a) * c;
    assert d >= 0.0 && ac >= 0.0;
    assert d == bc - ac;
  }

  /** The product of two values in [0,1] lies in [0,1]. */
  lemma UnitProduct(a: real, b: real)
    requires 0.0 <= a <= 1.0 && 0.0 <= b <= 1.0
    ensures 0.0 <= a * b <= 1.0
  {
    MulBetween(a, b);
  }

  /** min(max(x, a), b) */
  function Clamp(x: real, a: real, b: real): (r: real)
    ensures a <= b ==> a <= r <= b
    ensures a <= x <= b ==> r == x
    ensures x < a ==> r == Min(a, b)
    ensures b < x ==> r == b
  {
    Min(Max(x, a), b)
  }

  /** The integer 2D vector of the program. */
  datatype IVec2 = IVec2(x: int, y: int)
  {
    /** Both components are zero: the viewer's own offset. */
    predicate IsZero()
    {
      x == 0 && y == 0
    }

    function Dot(q: IVec2): int
    {
      x * q.x + y * q.y
    }

    /** The squared Euclidean length, x² + y². */
    function SquaredLength(): (s: int)
      ensures s >= 0
    {
      SquareNonNegative(x);
      SquareNonNegative(y);
      x * x + y * y
    }

    /** The componentwise absolute value: the non-negative component with the same square. */
    function Abs(): (r: IVec2)
      ensures r.x >= 0 && r.y >= 0
      ensures r.x * r.x == x * x && r.y * r.y == y * y
    {
      SquareOfAbs(x);
      SquareOfAbs(y);
      IVec2(AbsOf(x), AbsOf(y))
    }

    function Sign(): IVec2
    {
      IVec2(SignOf(x), SignOf(y))
    }

    function Muls(scalar: int): IVec2
    {
      IVec2(x * scalar, y * scalar)
    }

    function Add(q: IVec2): IVec2
    {
      IVec2(x + q.x, y + q.y)
    }

    function Sub(q: IVec2): IVec2
    {
      IVec2(x - q.x, y - q.y)
    }
  }

  const Zero := IVec2(0, 0)

  /** squaredLength is the vector's dot product with itself. */
  lemma SquaredLengthIsDot(v: IVec2)
    ensures v.SquaredLength() == v.Dot(v)
  {
  }

  /** Only the zero vector has squared length 0. */
  lemma SquaredLengthZero(v: IVec2)
    ensures v.SquaredLength() == 0 <==> v.IsZero()
  {
    SquareNonNegative(v.x);
    SquareNonNegative(v.y);
  }

  /** Taking absolute values keeps the squared length. */
  lemma AbsSquaredLength(v: IVec2)
    ensures v.Abs().SquaredLength() == v.SquaredLength()
  {
    SquareOfAbs(v.x);
    SquareOfAbs(v.y);
  }

  lemma SquareNonNegative(v: int)
    ensures v * v >= 0
    ensures v * v == 0 <==> v == 0
  {
    if v < 0 {
      assert v * v == (-v) * (-v);
    }
  }

  /** The squared length bounds the square of either component. */
  lemma SquaredLengthBounds(v: IVec2)
    ensures v.SquaredLength() >= v.x * v.x && v.SquaredLength() >= v.y * v.y
  {
    SquareNonNegative(v.x);
    SquareNonNegative(v.y);
  }

  lemma SquareOfAbs(v: int)
    ensures AbsOf(v) * AbsOf(v) == v * v
  {
  }

  /** Vector sign is componentwise sign; scaling by a positive factor keeps it. */
  lemma SignOfMuls(v: IVec2, k: int)
    requires k > 0
    ensures v.Muls(k).Sign() == v.Sign()
    ensures v.Sign().x * v.x == AbsOf(v.x) && v.Sign().y * v.y == AbsOf(v.y)
  {
    SignTimesValue(v.x);
    SignTimesValue(v.y);
    if v.x > 0 { assert v.x * k > 0; } else if v.x < 0 { assert v.x * k < 0; }
    if v.y > 0 { assert v.y * k > 0; } else if v.y < 0 { assert v.y * k < 0; }
  }

  /** Adding and then subtracting the same vector is the identity, and so is the reverse. */
  lemma AddSubInverse(v: IVec2, q: IVec2)
    ensures v.Add(q).Sub(q) == v && v.Sub(q).Add(q) == v
  {
  }

  /** Stepping back one unit along the sign of each component moves strictly closer to the origin. */
  lemma SignStepCloser(v: IVec2)
    requires !v.IsZero()
    ensures v.Sub(v.Sign()).SquaredLength() < v.SquaredLength()
    ensures AbsOf(v.Sub(v.Sign()).x) <= AbsOf(v.x) && AbsOf(v.Sub(v.Sign()).y) <= AbsOf(v.y)
  {
    StepTowardZero(v.x);
    StepTowardZero(v.y);
  }

  lemma StepTowardZero(a: int)
    ensures AbsOf(a - SignOf(a)) <= AbsOf(a)
    ensures a != 0 ==> (a - SignOf(a)) * (a - SignOf(a)) < a * a
    ensures (a - SignOf(a)) * (a - SignOf(a)) <= a * a
  {
    if a > 0 {
      assert (a - 1) * (a - 1) == a * a - 2 * a + 1;
    } else if a < 0 {
      assert (a + 1) * (a + 1) == a * a + 2 * a + 1;
    }
  }

  /** q lies on the same side of the origin as o on each axis, and no further away. */
  predicate Behind(q: IVec2, o: IVec2)
  {
    (0 <= q.x <= o.x || o.x <= q.x <= 0) && (0 <= q.y <= o.y || o.y <= q.y <= 0)
  }

  /** A vector behind another is no longer. */
  lemma BehindShorter(q: IVec2, o: IVec2)
    requires Behind(q, o)
    ensures q.SquaredLength() <= o.SquaredLength()
  {
    IntSquareMonotone(AbsOf(q.x), AbsOf(o.x));
    IntSquareMonotone(AbsOf(q.y), AbsOf(o.y));
    SquareOfAbs(q.x);
    SquareOfAbs(q.y);
    SquareOfAbs(o.x);
    SquareOfAbs(o.y);
  }

  lemma IntSquareMonotone(a: int, b: int)
    requires 0 <= a <= b
    ensures a * a <= b * b
  {
    assert a * a <= a * b;
    assert a * b <= b * b;
  }

  /** A non-negative number whose square is at most R² (R >= 0) is at most R. */
  lemma IntSquareBound(a: int, r: int)
    requires 0 <= a && 0 <= r && a * a <= r * r
    ensures a <= r
  {
  }

  /** math.sqrt on the non-negative integers, characterised exactly. */
  ghost predicate IsSqrt(sqrt: int -> real)
  {
    forall n: int :: n >= 0 ==> sqrt(n) >= 0.0 && sqrt(n) * sqrt(n) == n as real
  }

  /** ivec2.length(): the Euclidean length. */
  function Length(v: IVec2, sqrt: int -> real): (l: real)
    ensures IsSqrt(sqrt) ==> l >= 0.0
  {
    sqrt(v.SquaredLength())
  }

  /** The square root is zero exactly at zero and strictly increasing. */
  lemma SqrtMonotone(sqrt: int -> real, a: int, b: int)
    requires IsSqrt(sqrt)
    requires 0 <= a <= b
    ensures a < b ==> sqrt(a) < sqrt(b)
    ensures sqrt(a) <= sqrt(b)
    ensures sqrt(a) == 0.0 <==> a == 0
  {
    var sa, sb := sqrt(a), sqrt(b);
    assert sa >= 0.0 && sa * sa == a as real;
    assert sb >= 0.0 && sb * sb == b as real;
    if sa > sb {
      SquareStrictlyMonotone(sb, sa);
    }
    if sa > 0.0 {
      SquareStrictlyMonotone(0.0, sa);
    }
  }

  lemma SquareStrictlyMonotone(p: real, q: real)
    requires 0.0 <= p < q
    ensures p * p < q * q
  {
    var pp, pq, qq, w := p * p, p * q, q * q, q * (q - p);
    assert pp <= pq by { assert p * (q - p) >= 0.0; assert p * (q - p) == pq - pp; }
    assert w > 0.0;
    assert w == qq - pq;
  }

  lemma RealOfProduct(m: int, n: int)
    ensures (m as real) * (n as real) == (m * n) as real
  {
  }

  /** A component of a vector is at most its length. */
  lemma ComponentBelowLength(sqrt: int -> real, v: IVec2)
    requires IsSqrt(sqrt)
    ensures AbsOf(v.x) as real <= Length(v, sqrt) && AbsOf(v.y) as real <= Length(v, sqrt)
  {
    SquareOfAbs(v.x);
    SquareOfAbs(v.y);
    SquaredLengthBounds(v);
    BelowSqrt(sqrt, AbsOf(v.x), v.SquaredLength());
    BelowSqrt(sqrt, AbsOf(v.y), v.SquaredLength());
  }

  /** A natural number whose square is at most s is at most the square root of s. */
  lemma BelowSqrt(sqrt: int -> real, c: nat, s: int)
    requires IsSqrt(sqrt) && c * c <= s
    ensures c as real <= sqrt(s)
  {
    var l, r := sqrt(s), c as real;
    assert l >= 0.0 && l * l == s as real;
    RealOfProduct(c, c);
    if r > l {
      SquareStrictlyMonotone(l, r);
    }
  }

  /** ivec2.normalized(): the vector divided by its length; the zero vector stays (0.0, 0.0). */
  function Normalized(v: IVec2, sqrt: int -> real): (n: (real, real))
    ensures v.IsZero() ==> n == (0.0, 0.0)
  {
    var l := Length(v, sqrt);
    ScaledZero(v, l);
    Scaled(v, l)
  }

  /** A non-zero vector normalizes to a vector of unit length. */
  lemma NormalizedUnit(sqrt: int -> real, v: IVec2)
    requires IsSqrt(sqrt) && !v.IsZero()
    ensures var n := Normalized(v, sqrt); n.0 * n.0 + n.1 * n.1 == 1.0
  {
    var s := v.SquaredLength();
    var l := Length(v, sqrt);
    SquaredLengthZero(v);
    SqrtMonotone(sqrt, 0, s);
    assert l > 0.0 && l * l == s as real;
    var a, b := v.x as real, v.y as real;
    RealOfProduct(v.x, v.x);
    RealOfProduct(v.y, v.y);
    assert (a / l) * (a / l) == (a * a) / (l * l);
    assert (b / l) * (b / l) == (b * b) / (l * l);
    AddFractions(a * a, b * b, l * l);
    SelfDiv(l * l);
  }

  /** Scaling keeps the zero vector at (0.0, 0.0). */
  lemma ScaledZero(v: IVec2, l: real)
    ensures v.IsZero() ==> Scaled(v, l) == (0.0, 0.0)
  {
    if v.IsZero() && l > 0.0 {
      assert 0.0 / l == 0.0;
    }
  }

  /** The components divided by l when l is positive, else unchanged (multiplied by 1). */
  function Scaled(v: IVec2, l: real): (real, real)
  {
    if l > 0.0 then (v.x as real / l, v.y as real / l) else (v.x as real, v.y as real)
  }

  /** A vector with non-negative components normalizes into [0,1]². */
  lemma NormalizedInUnit(sqrt: int -> real, a: IVec2)
    requires IsSqrt(sqrt)
    requires 0 <= a.x && 0 <= a.y
    ensures 0.0 <= Normalized(a, sqrt).0 <= 1.0 && 0.0 <= Normalized(a, sqrt).1 <= 1.0
  {
    var s := a.SquaredLength();
    var l := Length(a, sqrt);
    ComponentBelowLength(sqrt, a);
    SqrtMonotone(sqrt, s, s);
    ScaledInUnit(a, l);
  }

  lemma ScaledInUnit(a: IVec2, l: real)
    requires 0 <= a.x && 0 <= a.y && a.x as real <= l && a.y as real <= l
    requires l == 0.0 ==> a.IsZero()
    ensures 0.0 <= Scaled(a, l).0 <= 1.0 && 0.0 <= Scaled(a, l).1 <= 1.0
  {
    if l > 0.0 {
      DivBelowOne(a.x as real, l);
      DivBelowOne(a.y as real, l);
    }
  }

  /** Two parts of a non-zero total, each divided by the total, add up to 1. */
  lemma PartsOfTotal(a: real, b: real)
    requires a + b != 0.0
    ensures a / (a + b) + b / (a + b) == 1.0
  {
    AddFractions(a, b, a + b);
    SelfDiv(a + b);
  }

  /** Fractions over the same non-zero denominator add up numerator by numerator. */
  lemma AddFractions(a: real, b: real, t: real)
    requires t != 0.0
    ensures a / t + b / t == (a + b) / t
  {
  }

  /** A non-zero value divided by itself is 1. */
  lemma SelfDiv(t: real)
    requires t != 0.0
    ensures t / t == 1.0
  {
  }

  lemma DivBelowOne(c: real, l: real)
    requires 0.0 <= c <= l && l > 0.0
    ensures 0.0 <= c / l <= 1.0
  {
  }

  /** The module-level dot product of two real pairs. */
  function Dot(v: (real, real), q: (real, real)): (d: real)
    ensures v == q ==> d >= 0.0
    ensures q == (0.0, 0.0) ==> d == 0.0
  {
    v.0 * q.0 + v.1 * q.1
  }
}
