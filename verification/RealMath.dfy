/**
 Numeric helpers shared by the whole model. `CGFloat` is modelled as `real`
 (no NaN, no infinities, no rounding), and the handful of Swift numeric
 conversions the library relies on are written out explicitly:
 `Int(x)` truncates toward zero, `round(x)` rounds half away from zero and
 `ceil(x)` rounds up.

 The transcendental functions `acos`, `cos`, `sin` and `sqrt` are not
 definable here, so they are passed around as a `Trig` record of function
 values; `Sound(t)` collects the facts about them that the palette geometry
 relies on.
 */
module RealMath {

  function Min(a: real, b: real): real {
    if a <= b then a else b
  }

  function Max(a: real, b: real): real {
    if a >= b then a else b
  }

  function Abs(a: real): (r: real)
    ensures r >= 0.0
    ensures r == a || r == -a
  {
    if a >= 0.0 then a else -a
  }

  predicate InUnit(x: real) {
    0.0 <= x <= 1.0
  }

  /** `max(0, min(1, x))`, the clamp every HSB component goes through. */
  function Clamp01(x: real): (r: real)
    ensures InUnit(r)
    ensures InUnit(x) ==> r == x
    ensures x < 0.0 ==> r == 0.0
    ensures x > 1.0 ==> r == 1.0
  {
    Max(0.0, Min(1.0, x))
  }

  /** Swift's `Int(x)` for a floating-point `x`: truncation toward zero. */
  function Trunc(x: real): (n: int)
    ensures x >= 0.0 ==> n as real <= x < n as real + 1.0
    ensures x < 0.0 ==> n as real - 1.0 < x <= n as real
  {
    if x >= 0.0 then x.Floor else -((-x).Floor)
  }

  /** Swift's `ceil(x)` converted with `Int(_)`; the value is already integral. */
  function Ceil(x: real): (n: int)
    ensures x <= n as real < x + 1.0
  {
    -((-x).Floor)
  }

  /** Swift's `round(x)`: to the nearest integer, halves away from zero. */
  function Round(x: real): (n: int)
    ensures x >= 0.0 ==> x - 0.5 < n as real <= x + 0.5
    ensures x < 0.0 ==> x - 0.5 <= n as real < x + 0.5
    ensures x >= 0.0 ==> n >= 0
  {
    if x >= 0.0 then (x + 0.5).Floor else -((-x + 0.5).Floor)
  }

  /** Swift's `/` on `Int`: the quotient is truncated toward zero. */
  function SwiftQuot(a: int, n: int): int
    requires n > 0
  {
    if a >= 0 then a / n else -((-a) / n)
  }

  /** Swift's `%` on `Int`: the remainder takes the sign of the dividend, and
      what it leaves is a whole multiple of `n`. */
  function SwiftRem(a: int, n: int): (r: int)
    requires n > 0
    ensures a == n * SwiftQuot(a, n) + r
    ensures a >= 0 ==> r == a % n
    ensures a >= 0 ==> 0 <= r
    ensures a < 0 ==> r <= 0
    ensures -n < r < n
  {
    if a >= 0 then a % n else -((-a) % n)
  }

  /** The transcendental functions the palettes call, as values. */
  datatype Trig = Trig(pi: real, acos: real -> real, cos: real -> real, sin: real -> real, sqrt: real -> real)

  /** The model only ever applies the four functions through these names. */
  function Acos(t: Trig, x: real): real {
    t.acos(x)
  }

  function Cos(t: Trig, x: real): real {
    t.cos(x)
  }

  function Sin(t: Trig, x: real): real {
    t.sin(x)
  }

  function Sqrt(t: Trig, x: real): real {
    t.sqrt(x)
  }

  /** The facts about `Trig` the geometry needs: `pi` is positive, `acos`
      maps [-1,1] into [0,pi] and inverts `cos` there, `cos² + sin² = 1`,
      `cos` is symmetric about `pi`, `sin` is non-negative on [0,pi] and
      negative on (pi,2pi), and `sqrt` is the non-negative square root on
      non-negative arguments. */
  ghost predicate Sound(t: Trig) {
    && t.pi > 0.0
    && (forall x :: -1.0 <= x <= 1.0 ==> 0.0 <= Acos(t, x) <= t.pi)
    && (forall x :: 0.0 <= x <= t.pi ==> Acos(t, Cos(t, x)) == x)
    && (forall x :: Cos(t, x) * Cos(t, x) + Sin(t, x) * Sin(t, x) == 1.0)
    && (forall x, y :: x + y == 2.0 * t.pi ==> Cos(t, x) == Cos(t, y))
    && (forall x :: 0.0 <= x <= t.pi ==> Sin(t, x) >= 0.0)
    && (forall x :: t.pi < x < 2.0 * t.pi ==> Sin(t, x) < 0.0)
    && (forall x :: 0.0 <= x ==> 0.0 <= Sqrt(t, x) && Sqrt(t, x) * Sqrt(t, x) == x)
  }

  /** The unique non-negative square root: any non-negative `y` with
      `y * y == x` is `Sqrt(t, x)`. */
  lemma SqrtUnique(t: Trig, x: real, y: real)
    requires Sound(t)
    requires y >= 0.0 && y * y == x
    ensures Sqrt(t, x) == y
  {
    var s := Sqrt(t, x);
    assert 0.0 <= s && s * s == x;
    assert (s - y) * (s + y) == 0.0;
    ProductZero(s - y, s + y);
  }

  lemma ProductZero(x: real, y: real)
    requires x * y == 0.0
    ensures x == 0.0 || y == 0.0
  {
  }

  function Square(a: real): (r: real)
    ensures r >= 0.0
  {
    a * a
  }

  /** The Euclidean length `sqrt(a * a + b * b)` of the vector (a, b). */
  function Norm(t: Trig, a: real, b: real): real {
    Sqrt(t, Square(a) + Square(b))
  }

  /** The length is the non-negative root of the sum of squares, and it is
      zero exactly for the zero vector. */
  lemma NormSquared(t: Trig, a: real, b: real)
    requires Sound(t)
    ensures Norm(t, a, b) >= 0.0
    ensures Norm(t, a, b) * Norm(t, a, b) == a * a + b * b
    ensures Norm(t, a, b) == 0.0 <==> a == 0.0 && b == 0.0
  {
    var n := Norm(t, a, b);
    assert n * n == Square(a) + Square(b);
    if n == 0.0 {
      ProductZero(a, a);
      ProductZero(b, b);
    }
    if a == 0.0 && b == 0.0 {
      SqrtUnique(t, 0.0, 0.0);
    }
  }

  /** Each coordinate is at most the length: |a| <= sqrt(a² + b²), which
      keeps the cosine argument of the radial palettes in [-1, 1]. */
  lemma NormDominates(t: Trig, a: real, b: real)
    requires Sound(t)
    ensures Abs(a) <= Norm(t, a, b)
    ensures Abs(b) <= Norm(t, a, b)
  {
    NormSquared(t, a, b);
    SquareBelow(Abs(a), Norm(t, a, b), b * b);
    SquareBelow(Abs(b), Norm(t, a, b), a * a);
  }

  lemma SquareBelow(m: real, n: real, rest: real)
    requires m >= 0.0 && n >= 0.0 && rest >= 0.0
    requires n * n == m * m + rest
    ensures m <= n
  {
    if m > n {
      assert m * m > n * n by {
        assert m * m - n * n == (m - n) * (m + n);
        MulPositive(m - n, m + n);
      }
    }
  }

  lemma MulPositive(x: real, y: real)
    requires x > 0.0 && y > 0.0
    ensures x * y > 0.0
  {
  }

  lemma MulNonNegative(x: real, y: real)
    requires x >= 0.0 && y >= 0.0
    ensures x * y >= 0.0
  {
  }

  /** Scaling a vector by k >= 0 scales its length by k. */
  lemma NormScale(t: Trig, k: real, a: real, b: real)
    requires Sound(t)
    requires k >= 0.0
    ensures Norm(t, k * a, k * b) == k * Norm(t, a, b)
  {
    var n := Norm(t, a, b);
    NormSquared(t, a, b);
    assert (k * n) * (k * n) == (k * k) * (n * n);
    assert (k * a) * (k * a) + (k * b) * (k * b) == (k * k) * (a * a + b * b);
    assert k * n >= 0.0;
    SqrtUnique(t, Square(k * a) + Square(k * b), k * n);
  }

  /** Scaling a vector by any k scales its length by |k|. */
  lemma NormScaleAbs(t: Trig, k: real, a: real, b: real)
    requires Sound(t)
    ensures Norm(t, k * a, k * b) == Abs(k) * Norm(t, a, b)
  {
    var n := Norm(t, a, b);
    var m := Abs(k);
    NormSquared(t, a, b);
    assert m * m == k * k;
    assert (m * n) * (m * n) == (k * k) * (n * n);
    assert (k * a) * (k * a) + (k * b) * (k * b) == (k * k) * (a * a + b * b);
    MulNonNegative(m, n);
    SqrtUnique(t, Square(k * a) + Square(k * b), m * n);
  }

  /** A unit vector: (cos x, sin x) has length 1. */
  lemma NormOfAngle(t: Trig, x: real)
    requires Sound(t)
    ensures Norm(t, Cos(t, x), Sin(t, x)) == 1.0
  {
    SqrtUnique(t, Square(Cos(t, x)) + Square(Sin(t, x)), 1.0);
  }

  lemma MulBetween(a: real, x: real, lo: real, hi: real)
    requires a >= 0.0
    requires lo <= x <= hi
    ensures a * lo <= a * x <= a * hi
  {
    assert a * (x - lo) >= 0.0;
    assert a * (hi - x) >= 0.0;
  }

  lemma DivOf(x: real, y: real, d: real)
    requires d != 0.0
    requires x == y * d
    ensures x / d == y
  {
  }

  lemma DivCancel(x: real, d: real)
    requires d != 0.0
    ensures (x * d) / d == x
  {
  }

  lemma DivBounds(x: real, y: real)
    requires 0.0 <= x <= y
    requires y > 0.0
    ensures 0.0 <= x / y <= 1.0
  {
  }

  lemma SignedDivBounds(x: real, y: real)
    requires -y <= x <= y
    requires y > 0.0
    ensures -1.0 <= x / y <= 1.0
  {
  }

  /** A fraction of a non-negative length lies between 0 and the length. */
  lemma FractionOf(f: real, w: real)
    requires InUnit(f) && w >= 0.0
    ensures 0.0 <= f * w <= w
  {
    assert (1.0 - f) * w >= 0.0;
  }
}
