/**
 The hue ring of the demo application: a circular strip on which only the
 hue is picked. Its geometry is the radial palette's (`LayoutFor`, the
 angle reading, `distanceTo`); the thumb always sits on the circle
 `indicatorDistance` away from the centre, in the middle of the strip.
 */
module HueRing {
  import opened RealMath
  import opened Geometry
  import opened HSB
  import RadialPalette

  /** `radialHuePaletteStripWidth`, the width of the coloured strip. */
  const StripWidth: real := 28.0

  /** `indicatorDistance`: the thumb runs along the middle of the strip. */
  function IndicatorDistance(l: RadialLayout): real {
    l.radius - StripWidth / 2.0
  }

  /** `hue(at:)`: the angle reading of the radial palette without its
      saturation, 0 at the centre. */
  function Hue(t: Trig, l: RadialLayout, pt: Point): (h: real)
    requires l.radius != 0.0
    requires Sound(t)
    ensures InUnit(h)
    ensures pt == Centre(l) ==> h == 0.0
  {
    RadialPalette.CentreReadsZero(t, l);
    RadialPalette.HueAndSaturation(t, l, pt).hue
  }

  /** `modifiedColor(from:with:)`: only the hue changes. */
  function ModifiedColor(t: Trig, l: RadialLayout, c: HSBColor, pt: Point): (r: HSBColor)
    requires l.radius != 0.0
    requires Sound(t)
    ensures Valid(r)
    ensures r.hue == Hue(t, l, pt)
    ensures Valid(c) ==> r.saturation == c.saturation && r.brightness == c.brightness && r.alpha == c.alpha
  {
    WithHue(c, Hue(t, l, pt))
  }

  /** `closestValidPoint(to:)`: every point, inside the ring or not, is
      moved along its ray from the centre to `indicatorDistance` from it,
      `centre + indicatorDistance * ((pt - centre) / distance)`. The
      distance is the divisor, so the centre itself has no image. */
  function ClosestValidPoint(t: Trig, l: RadialLayout, pt: Point): (r: Point)
    requires Sound(t)
    requires pt != Centre(l)
    ensures DistanceTo(t, pt, l.midX, l.midY) > 0.0
    ensures DistanceTo(t, pt, l.midX, l.midY) * (r.x - l.midX) == IndicatorDistance(l) * (pt.x - l.midX)
    ensures DistanceTo(t, pt, l.midX, l.midY) * (r.y - l.midY) == IndicatorDistance(l) * (pt.y - l.midY)
  {
    var distance := DistanceTo(t, pt, l.midX, l.midY);
    var x := l.midX + IndicatorDistance(l) * ((pt.x - l.midX) / distance);
    var y := l.midY + IndicatorDistance(l) * ((pt.y - l.midY) / distance);
    RadialPalette.ScaleBack(distance, IndicatorDistance(l), pt.x - l.midX, x - l.midX);
    RadialPalette.ScaleBack(distance, IndicatorDistance(l), pt.y - l.midY, y - l.midY);
    Point(x, y)
  }

  /** The divisor of `closestValidPoint` is zero exactly at the centre. */
  lemma CentreHasNoDirection(t: Trig, l: RadialLayout, pt: Point)
    requires Sound(t)
    ensures DistanceTo(t, pt, l.midX, l.midY) == 0.0 <==> pt == Centre(l)
  {
  }

  /** Every point off the centre lands on the circle of radius
      |indicatorDistance|, interior points included. */
  lemma ClosestValidPointOnRing(t: Trig, l: RadialLayout, pt: Point)
    requires Sound(t)
    requires pt != Centre(l)
    ensures DistanceTo(t, ClosestValidPoint(t, l, pt), l.midX, l.midY) == Abs(IndicatorDistance(l))
  {
    var q := ClosestValidPoint(t, l, pt);
    ScaledVector(t, pt.x - l.midX, pt.y - l.midY, DistanceTo(t, pt, l.midX, l.midY),
      IndicatorDistance(l), q.x - l.midX, q.y - l.midY);
  }

  /** Scaling a vector of length d > 0 by k / d gives length |k|. */
  lemma ScaledVector(t: Trig, a: real, b: real, d: real, k: real, u: real, v: real)
    requires Sound(t)
    requires d == Norm(t, a, b) && d > 0.0
    requires d * u == k * a && d * v == k * b
    ensures Norm(t, u, v) == Abs(k)
  {
    var c := k / d;
    RadialPalette.Unscale(d, k, a, u);
    RadialPalette.Unscale(d, k, b, v);
    assert u == c * a && v == c * b;
    NormScaleAbs(t, c, a, b);
    assert Norm(t, u, v) == Abs(c) * d;
    AbsOfQuotient(k, d);
  }

  lemma AbsOfQuotient(k: real, d: real)
    requires d > 0.0
    ensures Abs(k / d) * d == Abs(k)
  {
    if k < 0.0 {
      assert k / d < 0.0;
    }
  }

  /** With the thumb on the outer side of the centre (a positive indicator
      distance), moving a point onto the ring keeps its hue. */
  lemma ClosestValidPointKeepsHue(t: Trig, l: RadialLayout, pt: Point)
    requires Sound(t)
    requires l.radius != 0.0 && IndicatorDistance(l) > 0.0
    requires pt != Centre(l)
    ensures ClosestValidPoint(t, l, pt) != Centre(l)
    ensures Hue(t, l, ClosestValidPoint(t, l, pt)) == Hue(t, l, pt)
  {
    ProjectedOffsets(l.radius, DistanceTo(t, pt, l.midX, l.midY), IndicatorDistance(l),
      pt.x - l.midX, pt.y - l.midY,
      ClosestValidPoint(t, l, pt).x - l.midX, ClosestValidPoint(t, l, pt).y - l.midY);
    OffsetAwayFromCentre(l, pt);
    ScaledReading(t, l, pt, ClosestValidPoint(t, l, pt), IndicatorDistance(l) / DistanceTo(t, pt, l.midX, l.midY),
      RadialPalette.Offset(l, pt).x, RadialPalette.Offset(l, pt).y);
  }

  /** Moving (a, b) to (u, v) = (ind / d) (a, b) scales its radius-unit
      offset by the positive factor ind / d. */
  lemma ProjectedOffsets(r: real, d: real, ind: real, a: real, b: real, u: real, v: real)
    requires r != 0.0 && d > 0.0 && ind > 0.0
    requires d * u == ind * a && d * v == ind * b
    ensures ind / d > 0.0
    ensures u / r == (ind / d) * (a / r) && v / r == (ind / d) * (b / r)
  {
    RadialPalette.Unscale(d, ind, a, u);
    RadialPalette.Unscale(d, ind, b, v);
    ScaledOffset(r, ind / d, a, u);
    ScaledOffset(r, ind / d, b, v);
  }

  lemma ScaledOffset(r: real, k: real, a: real, u: real)
    requires r != 0.0
    requires u == k * a
    ensures u / r == k * (a / r)
  {
  }

  /** The offset in radius units is the zero vector exactly at the centre. */
  lemma OffsetAwayFromCentre(l: RadialLayout, pt: Point)
    requires l.radius != 0.0
    ensures RadialPalette.Offset(l, pt) == Point(0.0, 0.0) <==> pt == Centre(l)
  {
    DivZero(pt.x - l.midX, l.radius);
    DivZero(pt.y - l.midY, l.radius);
  }

  lemma DivZero(x: real, r: real)
    requires r != 0.0
    ensures x / r == 0.0 <==> x == 0.0
  {
    if x / r == 0.0 {
      assert x == (x / r) * r;
    }
  }

  /** Two points whose offsets differ by a positive factor read the same hue. */
  lemma ScaledReading(t: Trig, l: RadialLayout, p: Point, q: Point, k: real, dx: real, dy: real)
    requires Sound(t) && l.radius != 0.0
    requires k > 0.0
    requires RadialPalette.Offset(l, p) == Point(dx, dy) && Point(dx, dy) != Point(0.0, 0.0)
    requires RadialPalette.Offset(l, q) == Point(k * dx, k * dy)
    ensures q != Centre(l)
    ensures Hue(t, l, q) == Hue(t, l, p)
  {
    NormSquared(t, dx, dy);
    NormScale(t, k, dx, dy);
    MulPositive(k, Norm(t, dx, dy));
    HueFromOffset(t, l, p, dx, dy);
    HueFromOffset(t, l, q, k * dx, k * dy);
    CancelFactor(k, dx, Norm(t, dx, dy), Norm(t, k * dx, k * dy));
    SameSign(k, dy);
    OffsetAwayFromCentre(l, q);
  }

  /** Off the centre, the hue is the angle reading of the offset's direction. */
  lemma HueFromOffset(t: Trig, l: RadialLayout, p: Point, dx: real, dy: real)
    requires Sound(t) && l.radius != 0.0
    requires RadialPalette.Offset(l, p) == Point(dx, dy) && Norm(t, dx, dy) > 0.0
    ensures -1.0 <= dx / Norm(t, dx, dy) <= 1.0
    ensures Hue(t, l, p) == AngleHue(t, dx / Norm(t, dx, dy), dy)
  {
    RadialPalette.ReadingAwayFromCentre(t, l, p, dx, dy, Norm(t, dx, dy));
  }

  /** `acos(x) / pi / 2`, reflected to `1 - hue` below the horizontal axis. */
  function AngleHue(t: Trig, x: real, dy: real): real
    requires Sound(t)
    requires -1.0 <= x <= 1.0
  {
    var hue := RadialPalette.HalfTurns(t, Acos(t, x));
    if dy < 0.0 then 1.0 - hue else hue
  }

  lemma CancelFactor(k: real, x: real, n: real, m: real)
    requires k != 0.0 && n != 0.0
    requires m == k * n
    ensures (k * x) / m == x / n
  {
    var a := x / n;
    assert x == a * n;
    assert k * x == a * m;
    DivOf(k * x, a, m);
  }

  lemma SameSign(k: real, y: real)
    requires k > 0.0
    ensures k * y < 0.0 <==> y < 0.0
  {
    if y < 0.0 {
      MulPositive(k, -y);
    } else {
      MulNonNegative(k, y);
    }
  }

  /** The point `(radius + radius cos a, radius + radius sin a)` at the
      angle of a hue on the palette's full radius. */
  function RingPoint(t: Trig, l: RadialLayout, hue: real): Point {
    Point(l.radius + l.radius * Cos(t, RadialPalette.Angle(t, hue)),
          l.radius + l.radius * Sin(t, RadialPalette.Angle(t, hue)))
  }

  /** In radius units the ring point of a hue is the unit vector at its
      angle, so it is never the centre. */
  lemma RingPointOffset(t: Trig, l: RadialLayout, hue: real)
    requires Sound(t)
    requires Centred(l) && l.radius != 0.0
    ensures RadialPalette.Offset(l, RingPoint(t, l, hue)) ==
      Point(Cos(t, RadialPalette.Angle(t, hue)), Sin(t, RadialPalette.Angle(t, hue)))
    ensures RingPoint(t, l, hue) != Centre(l)
  {
    var a := RadialPalette.Angle(t, hue);
    var p := RingPoint(t, l, hue);
    UnitsOfRadius(l.radius, Cos(t, a), p.x);
    UnitsOfRadius(l.radius, Sin(t, a), p.y);
    NormOfAngle(t, a);
    NormSquared(t, Cos(t, a), Sin(t, a));
    OffsetAwayFromCentre(l, p);
  }

  lemma UnitsOfRadius(r: real, f: real, x: real)
    requires r != 0.0
    requires x == r + r * f
    ensures (x - r) / r == f
  {
    DivOf(x - r, f, r);
  }

  /** `positionAndAlpha(for:)`: the ring point of the hue, moved onto the
      thumb's circle by `closestValidPoint`; the foreground is always
      opaque. Saturation and brightness play no part. */
  function PositionAndAlpha(t: Trig, l: RadialLayout, c: HSBColor): (r: Placement)
    requires Sound(t)
    requires Centred(l) && l.radius != 0.0
    ensures r.alpha == 1.0
    ensures DistanceTo(t, r.position, l.midX, l.midY) == Abs(IndicatorDistance(l))
  {
    var raw := RingPoint(t, l, c.hue);
    RingPointOffset(t, l, c.hue);
    ClosestValidPointOnRing(t, l, raw);
    Placement(ClosestValidPoint(t, l, raw), 1.0)
  }

  /** Reading the hue where a colour is placed gives back its hue, whatever
      its saturation: unlike the HSB radial palette, the ring shows the hue
      of a grey. This needs the thumb circle on the outer side of the
      centre, a radius above half the strip width. */
  lemma PositionRoundTrip(t: Trig, l: RadialLayout, c: HSBColor)
    requires Sound(t)
    requires Laid(l) && IndicatorDistance(l) > 0.0
    requires Valid(c) && c.hue < 1.0
    ensures Hue(t, l, PositionAndAlpha(t, l, c).position) == c.hue
    ensures ModifiedColor(t, l, c, PositionAndAlpha(t, l, c).position) == c
  {
    LaidCentre(l);
    PlacedHue(t, l, c);
  }

  lemma PlacedHue(t: Trig, l: RadialLayout, c: HSBColor)
    requires Sound(t)
    requires Centred(l) && l.radius != 0.0 && IndicatorDistance(l) > 0.0
    requires Valid(c) && c.hue < 1.0
    ensures Hue(t, l, PositionAndAlpha(t, l, c).position) == c.hue
  {
    var raw := RingPoint(t, l, c.hue);
    RingPointOffset(t, l, c.hue);
    RadialPalette.PolarReading(t, l, raw, c.hue, 1.0);
    ClosestValidPointKeepsHue(t, l, raw);
  }

  /** `backgroundImage()`: the ring has none, where the HSB radial palette
      draws a black disc for any non-zero diameter. */
  function BackgroundImage(l: RadialLayout): (r: Option<Size>)
    ensures r.None?
  {
    None
  }

  lemma BackgroundUnlikeRadialPalette(l: RadialLayout)
    ensures BackgroundImage(l).None?
    ensures l.diameter != 0.0 ==> RadialPalette.BackgroundImage(l).Some?
  {
  }
}
