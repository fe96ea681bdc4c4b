/**
 The radial HSB palette: hue is the angle around the centre of the circle
 inscribed in the view, saturation the distance from the centre relative
 to the radius, and brightness the alpha of the foreground over a black
 disc. The delegate's state is the `RadialLayout` its `size` observer
 computes.
 */
module RadialPalette {
  import opened RealMath
  import opened Geometry
  import opened HSB

  /** The point scaled into radius units: (dx, dy) with the centre at the
      origin and the circle of radius 1. */
  function Offset(l: RadialLayout, pt: Point): (v: Point)
    requires l.radius != 0.0
  {
    Point((pt.x - l.midX) / l.radius, (pt.y - l.midY) / l.radius)
  }

  /** `hueAndSaturation(at:)`. At the centre the reading is (0, 0); elsewhere
      the hue is the angle of the point, `acos(dx / distance) / 2pi`,
      reflected into the lower half-turn when dy < 0, and the saturation is
      the relative distance capped at 1. */
  function HueAndSaturation(t: Trig, l: RadialLayout, pt: Point): (r: HueSaturation)
    requires l.radius != 0.0
    requires Sound(t)
    ensures InUnit(r.hue) && InUnit(r.saturation)
    ensures Norm(t, Offset(l, pt).x, Offset(l, pt).y) == 0.0 ==> r == HueSaturation(0.0, 0.0)
    ensures Norm(t, Offset(l, pt).x, Offset(l, pt).y) > 0.0 ==>
      r.saturation == Min(1.0, Norm(t, Offset(l, pt).x, Offset(l, pt).y))
    ensures Offset(l, pt).y < 0.0 ==> r.hue >= 0.5
    ensures Offset(l, pt).y >= 0.0 ==> r.hue <= 0.5
  {
    var v := Offset(l, pt);
    var distance := Norm(t, v.x, v.y);
    NormSquared(t, v.x, v.y);
    if distance <= 0.0 then HueSaturation(0.0, 0.0)
    else
      NormDominates(t, v.x, v.y);
      assert -1.0 <= v.x / distance <= 1.0 by { SignedDivBounds(v.x, distance); }
      var hue := HalfTurns(t, Acos(t, v.x / distance));
      HueSaturation(if v.y < 0.0 then 1.0 - hue else hue, Min(1.0, distance))
  }

  /** An angle in [0, pi] as a fraction of the full turn, `a / pi / 2`. */
  function HalfTurns(t: Trig, a: real): (h: real)
    requires Sound(t)
    requires 0.0 <= a <= t.pi
    ensures 0.0 <= h <= 0.5
  {
    DivBounds(a, t.pi);
    a / t.pi / 2.0
  }

  /** The centre of the palette reads as hue 0, saturation 0. */
  lemma CentreReadsZero(t: Trig, l: RadialLayout)
    requires l.radius != 0.0
    requires Sound(t)
    ensures HueAndSaturation(t, l, Centre(l)) == HueSaturation(0.0, 0.0)
  {
    NormSquared(t, 0.0, 0.0);
  }

  /** `modifiedColor(from:with:)`: hue and saturation from the point,
      brightness and alpha kept. */
  function ModifiedColor(t: Trig, l: RadialLayout, c: HSBColor, pt: Point): (r: HSBColor)
    requires l.radius != 0.0
    requires Sound(t)
    ensures Valid(r)
    ensures r.hue == HueAndSaturation(t, l, pt).hue && r.saturation == HueAndSaturation(t, l, pt).saturation
    ensures Valid(c) ==> r.brightness == c.brightness && r.alpha == c.alpha
  {
    var hs := HueAndSaturation(t, l, pt);
    WithHueAndSaturation(c, hs.hue, hs.saturation)
  }

  /** `closestValidPoint(to:)`: a point inside the circle is kept, a point
      outside is moved along its ray from the centre onto the circle,
      `centre + radius * ((pt - centre) / distance)`. */
  function ClosestValidPoint(t: Trig, l: RadialLayout, pt: Point): (r: Point)
    requires Sound(t)
    requires l.radius >= 0.0 || pt != Centre(l)
    ensures DistanceTo(t, pt, l.midX, l.midY) <= l.radius ==> r == pt
    ensures DistanceTo(t, pt, l.midX, l.midY) > l.radius ==>
      && DistanceTo(t, pt, l.midX, l.midY) * (r.x - l.midX) == l.radius * (pt.x - l.midX)
      && DistanceTo(t, pt, l.midX, l.midY) * (r.y - l.midY) == l.radius * (pt.y - l.midY)
  {
    var distance := DistanceTo(t, pt, l.midX, l.midY);
    if distance <= l.radius then pt
    else
      var x := l.midX + l.radius * ((pt.x - l.midX) / distance);
      var y := l.midY + l.radius * ((pt.y - l.midY) / distance);
      ScaleBack(distance, l.radius, pt.x - l.midX, x - l.midX);
      ScaleBack(distance, l.radius, pt.y - l.midY, y - l.midY);
      Point(x, y)
  }

  lemma ScaleBack(d: real, r: real, a: real, u: real)
    requires d != 0.0
    requires u == r * (a / d)
    ensures d * u == r * a
  {
  }

  /** A moved point lands exactly on the circle, so the result is always
      within the radius and clamping is idempotent. */
  lemma ClosestValidPointOnCircle(t: Trig, l: RadialLayout, pt: Point)
    requires Sound(t)
    requires l.radius >= 0.0
    ensures DistanceTo(t, pt, l.midX, l.midY) > l.radius ==>
      DistanceTo(t, ClosestValidPoint(t, l, pt), l.midX, l.midY) == l.radius
    ensures DistanceTo(t, ClosestValidPoint(t, l, pt), l.midX, l.midY) <= l.radius
    ensures ClosestValidPoint(t, l, ClosestValidPoint(t, l, pt)) == ClosestValidPoint(t, l, pt)
  {
    var d := DistanceTo(t, pt, l.midX, l.midY);
    if d > l.radius {
      var q := ClosestValidPoint(t, l, pt);
      ShrunkVector(t, pt.x - l.midX, pt.y - l.midY, d, l.radius, q.x - l.midX, q.y - l.midY);
    }
  }

  /** Scaling a vector of length d by radius / d gives length radius. */
  lemma ShrunkVector(t: Trig, a: real, b: real, d: real, radius: real, u: real, v: real)
    requires Sound(t)
    requires d == Norm(t, a, b) && 0.0 <= radius < d
    requires d * u == radius * a && d * v == radius * b
    ensures Norm(t, u, v) == radius
  {
    var k := radius / d;
    assert k >= 0.0 by { DivBounds(radius, d); }
    Unscale(d, radius, a, u);
    Unscale(d, radius, b, v);
    assert u == k * a && v == k * b;
    NormScale(t, k, a, b);
    assert Norm(t, u, v) == k * d;
    DivTimes(radius, d);
  }

  lemma Unscale(d: real, r: real, a: real, u: real)
    requires d != 0.0
    requires d * u == r * a
    ensures u == r / d * a
  {
    assert u == (d * u) / d;
  }

  lemma DivTimes(r: real, d: real)
    requires d != 0.0
    ensures r / d * d == r
  {
  }

  /** The full turn, `2 * pi`. */
  function Turn(t: Trig): real {
    2.0 * t.pi
  }

  /** The angle `hue * 2 * pi` of a hue. */
  function Angle(t: Trig, hue: real): real {
    hue * Turn(t)
  }

  /** `positionAndAlpha(for:)`: the point at angle `hue * 2pi` and distance
      `saturation * radius` from (radius, radius), drawn at the colour's
      brightness. The position clauses only name the placement; what it
      means is stated by `PositionInsideCircle` and `PositionRoundTrip`:
      the point lies in the circle and reads back as the colour. */
  function PositionAndAlpha(t: Trig, l: RadialLayout, c: HSBColor): (r: Placement)
    ensures r.alpha == c.brightness
    ensures r.position.x - l.radius == (c.saturation * l.radius) * Cos(t, Angle(t, c.hue))
    ensures r.position.y - l.radius == (c.saturation * l.radius) * Sin(t, Angle(t, c.hue))
  {
    var radius := c.saturation * l.radius;
    Placement(Point(l.radius + radius * Cos(t, Angle(t, c.hue)), l.radius + radius * Sin(t, Angle(t, c.hue))), c.brightness)
  }

  /** The placed thumb sits at distance `saturation * radius` from the
      centre, inside the circle, so clamping leaves it where it is. */
  lemma PositionInsideCircle(t: Trig, l: RadialLayout, c: HSBColor)
    requires Sound(t)
    requires Laid(l) && l.radius >= 0.0
    requires Valid(c)
    ensures DistanceTo(t, PositionAndAlpha(t, l, c).position, l.midX, l.midY) == c.saturation * l.radius
    ensures ClosestValidPoint(t, l, PositionAndAlpha(t, l, c).position) == PositionAndAlpha(t, l, c).position
  {
    LaidCentre(l);
    PlacedInside(t, l, c);
  }

  lemma PlacedInside(t: Trig, l: RadialLayout, c: HSBColor)
    requires Sound(t)
    requires Centred(l) && l.radius >= 0.0
    requires Valid(c)
    ensures DistanceTo(t, PositionAndAlpha(t, l, c).position, l.midX, l.midY) == c.saturation * l.radius
    ensures ClosestValidPoint(t, l, PositionAndAlpha(t, l, c).position) == PositionAndAlpha(t, l, c).position
  {
    FractionOf(c.saturation, l.radius);
    assert c.saturation * l.radius <= l.radius;
    PlacedDistance(t, l, c);
    ClosestValidPointWithin(t, l, PositionAndAlpha(t, l, c).position, c.saturation * l.radius);
  }

  lemma ClosestValidPointWithin(t: Trig, l: RadialLayout, pt: Point, k: real)
    requires Sound(t)
    requires 0.0 <= k <= l.radius
    requires DistanceTo(t, pt, l.midX, l.midY) == k
    ensures ClosestValidPoint(t, l, pt) == pt
  {
  }

  lemma PlacedDistance(t: Trig, l: RadialLayout, c: HSBColor)
    requires Sound(t)
    requires Centred(l) && l.radius >= 0.0
    requires Valid(c)
    ensures DistanceTo(t, PositionAndAlpha(t, l, c).position, l.midX, l.midY) == c.saturation * l.radius
  {
    var a := Angle(t, c.hue);
    var k := c.saturation * l.radius;
    var pos := PositionAndAlpha(t, l, c).position;
    FractionOf(c.saturation, l.radius);
    ScaledUnitNorm(t, k, a);
    assert pos.x - l.midX == k * Cos(t, a) && pos.y - l.midY == k * Sin(t, a);
  }

  /** The vector of length k >= 0 at angle a has length k. */
  lemma ScaledUnitNorm(t: Trig, k: real, a: real)
    requires Sound(t)
    requires k >= 0.0
    ensures Norm(t, k * Cos(t, a), k * Sin(t, a)) == k
  {
    NormScale(t, k, Cos(t, a), Sin(t, a));
    NormOfAngle(t, a);
  }

  /** In radius units, a placed colour sits at (s cos a, s sin a). */
  lemma PlacementOffset(t: Trig, l: RadialLayout, c: HSBColor)
    requires Centred(l) && l.radius != 0.0
    ensures Offset(l, PositionAndAlpha(t, l, c).position) ==
      Point(c.saturation * Cos(t, Angle(t, c.hue)), c.saturation * Sin(t, Angle(t, c.hue)))
  {
    var pos := PositionAndAlpha(t, l, c).position;
    OffsetOfPlacement(l.radius, c.saturation, Cos(t, Angle(t, c.hue)), pos.x);
    OffsetOfPlacement(l.radius, c.saturation, Sin(t, Angle(t, c.hue)), pos.y);
  }

  lemma OffsetOfPlacement(r: real, s: real, f: real, x: real)
    requires r != 0.0
    requires x - r == (s * r) * f
    ensures (x - r) / r == s * f
  {
    assert (s * r) * f == (s * f) * r;
  }

  /** Away from the centre the reading is the angle formula applied to the
      offset and its length. */
  lemma ReadingAwayFromCentre(t: Trig, l: RadialLayout, pt: Point, dx: real, dy: real, n: real)
    requires Sound(t) && l.radius != 0.0
    requires Offset(l, pt) == Point(dx, dy) && n == Norm(t, dx, dy) && n > 0.0
    ensures -1.0 <= dx / n <= 1.0
    ensures 0.0 <= Acos(t, dx / n) <= t.pi
    ensures HueAndSaturation(t, l, pt) ==
      HueSaturation(if dy < 0.0 then 1.0 - HalfTurns(t, Acos(t, dx / n)) else HalfTurns(t, Acos(t, dx / n)), Min(1.0, n))
  {
    NormDominates(t, dx, dy);
    SignedDivBounds(dx, n);
  }

  /** Picking the point a chromatic colour is placed at gives back its hue
      and saturation. A colour at the centre (saturation 0) loses its hue,
      and hue 1 is read back as the same angle as hue 0. */
  lemma PositionRoundTrip(t: Trig, l: RadialLayout, c: HSBColor)
    requires Sound(t)
    requires Laid(l) && l.radius > 0.0
    requires Valid(c) && c.saturation > 0.0 && c.hue < 1.0
    ensures HueAndSaturation(t, l, PositionAndAlpha(t, l, c).position) == HueSaturation(c.hue, c.saturation)
    ensures ModifiedColor(t, l, c, PositionAndAlpha(t, l, c).position) == c
  {
    LaidCentre(l);
    PlacedReading(t, l, c);
  }

  lemma PlacedReading(t: Trig, l: RadialLayout, c: HSBColor)
    requires Sound(t)
    requires Centred(l) && l.radius > 0.0
    requires Valid(c) && c.saturation > 0.0 && c.hue < 1.0
    ensures HueAndSaturation(t, l, PositionAndAlpha(t, l, c).position) == HueSaturation(c.hue, c.saturation)
  {
    PlacementOffset(t, l, c);
    PolarReading(t, l, PositionAndAlpha(t, l, c).position, c.hue, c.saturation);
  }

  /** A point at angle `hue * 2pi` and relative distance s in (0, 1] reads
      as (hue, s). */
  lemma PolarReading(t: Trig, l: RadialLayout, pt: Point, hue: real, s: real)
    requires Sound(t) && l.radius != 0.0
    requires 0.0 <= hue < 1.0 && 0.0 < s <= 1.0
    requires Offset(l, pt) == Point(s * Cos(t, Angle(t, hue)), s * Sin(t, Angle(t, hue)))
    ensures HueAndSaturation(t, l, pt) == HueSaturation(hue, s)
  {
    var a := Angle(t, hue);
    var dx, dy := s * Cos(t, a), s * Sin(t, a);
    ScaledUnitNorm(t, s, a);
    DivOf(dx, Cos(t, a), s);
    ReadingAwayFromCentre(t, l, pt, dx, dy, s);
    AngleRecovered(t, hue, s, dy);
  }

  /** The hue formula inverts the angle: acos of the cosine gives the angle
      in the upper half-turn, and its reflection in the lower one, where
      the sine (and so dy) is negative. */
  lemma AngleRecovered(t: Trig, hue: real, s: real, dy: real)
    requires Sound(t)
    requires 0.0 <= hue < 1.0 && s > 0.0
    requires dy == s * Sin(t, Angle(t, hue))
    ensures 0.0 <= Acos(t, Cos(t, Angle(t, hue))) <= t.pi
    ensures (if dy < 0.0 then 1.0 - HalfTurns(t, Acos(t, Cos(t, Angle(t, hue))))
             else HalfTurns(t, Acos(t, Cos(t, Angle(t, hue))))) == hue
  {
    var a := Angle(t, hue);
    AngleRange(t, hue);
    if hue <= 0.5 {
      assert Sin(t, a) >= 0.0;
      assert dy >= 0.0 by { FractionSign(s, Sin(t, a)); }
      assert Acos(t, Cos(t, a)) == a;
    } else {
      var b := Turn(t) - a;
      assert Sin(t, a) < 0.0;
      assert dy < 0.0 by { MulPositive(s, -Sin(t, a)); }
      assert Cos(t, a) == Cos(t, b);
      assert Acos(t, Cos(t, a)) == b;
    }
  }

  lemma FractionSign(s: real, x: real)
    requires s > 0.0 && x >= 0.0
    ensures s * x >= 0.0
  {
  }

  /** Where the angle of a hue in [0, 1) falls, and the half-turn fractions
      of it and of its reflection `2pi - a`. */
  lemma AngleRange(t: Trig, hue: real)
    requires Sound(t)
    requires 0.0 <= hue < 1.0
    ensures hue <= 0.5 ==> 0.0 <= Angle(t, hue) <= t.pi && HalfTurns(t, Angle(t, hue)) == hue
    ensures hue > 0.5 ==> t.pi < Angle(t, hue) < Turn(t)
    ensures hue > 0.5 ==> 0.0 <= Turn(t) - Angle(t, hue) <= t.pi && 1.0 - HalfTurns(t, Turn(t) - Angle(t, hue)) == hue
  {
    AngleArith(t.pi, hue, Angle(t, hue));
  }

  /** The same facts over a plain positive `pi`. */
  lemma AngleArith(pi: real, hue: real, a: real)
    requires pi > 0.0 && 0.0 <= hue < 1.0
    requires a == hue * (2.0 * pi)
    ensures hue <= 0.5 ==> 0.0 <= a <= pi && a / pi / 2.0 == hue
    ensures hue > 0.5 ==> pi < a < 2.0 * pi && 0.0 <= 2.0 * pi - a <= pi && 1.0 - (2.0 * pi - a) / pi / 2.0 == hue
  {
    if hue <= 0.5 {
      var f := 2.0 * hue;
      assert a == f * pi;
      MulNonNegative(f, pi);
      MulNonNegative(1.0 - f, pi);
      DivOf(a, f, pi);
    } else {
      var b := 2.0 * pi - a;
      var f := 2.0 * (1.0 - hue);
      assert b == f * pi;
      MulPositive(f, pi);
      MulPositive(1.0 - f, pi);
      DivOf(b, f, pi);
    }
  }

  /** At saturation 0 every hue is placed at the centre and read back as
      hue 0: the palette cannot show the hue of a grey. */
  lemma GreyLosesHue(t: Trig, l: RadialLayout, c: HSBColor)
    requires Sound(t)
    requires Laid(l) && l.radius > 0.0
    requires Valid(c) && c.saturation == 0.0
    ensures PositionAndAlpha(t, l, c).position == Centre(l)
    ensures HueAndSaturation(t, l, PositionAndAlpha(t, l, c).position) == HueSaturation(0.0, 0.0)
  {
    LaidCentre(l);
    CentreReadsZero(t, l);
  }

  /** `supportedContentMode(for:)`: the modes that would stretch the circle
      or redraw it are replaced by aspect fit. */
  function SupportedContentMode(mode: ContentMode): (r: ContentMode)
    ensures r != Redraw && r != ScaleToFill && r != ScaleAspectFill
    ensures mode !in {Redraw, ScaleToFill, ScaleAspectFill} ==> r == mode
  {
    match mode
    case Redraw | ScaleToFill | ScaleAspectFill => ScaleAspectFit
    case _ => mode
  }

  /** Substituting twice is substituting once. */
  lemma SupportedContentModeIdempotent(mode: ContentMode)
    ensures SupportedContentMode(SupportedContentMode(mode)) == SupportedContentMode(mode)
  {
  }

  /** `backgroundImage()`: a black disc of the diameter, absent exactly when
      the diameter is zero. */
  function BackgroundImage(l: RadialLayout): (r: Option<Size>)
    ensures r.None? <==> l.diameter == 0.0
    ensures r.Some? ==> r.value.width == l.diameter && r.value.height == l.diameter
  {
    if Size(l.diameter, l.diameter) == Size(0.0, 0.0) then None
    else Some(Size(l.diameter, l.diameter))
  }
}
