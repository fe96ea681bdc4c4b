/**
 The rectangular HSB palette: hue runs along one axis and saturation along
 the other (inverted, full saturation at the origin side); brightness is
 shown by the alpha of the foreground image over a black background.
 */
module RectPalette {
  import opened RealMath
  import opened Geometry
  import opened HSB

  datatype RectPalette = RectPalette(size: Size, intWidth: int, intHeight: int, hueHorizontal: bool)

  /** A fresh delegate: zero size, hue along the x axis. */
  const Initial: RectPalette := RectPalette(Size(0.0, 0.0), 0, 0, true)

  /** The `size` observer: the integral pixel dimensions are the size
      truncated toward zero. */
  function SetSize(p: RectPalette, size: Size): (r: RectPalette)
    ensures r.size == size && r.hueHorizontal == p.hueHorizontal
    ensures size.width >= 0.0 ==> 0 <= r.intWidth && r.intWidth as real <= size.width < r.intWidth as real + 1.0
    ensures size.height >= 0.0 ==> 0 <= r.intHeight && r.intHeight as real <= size.height < r.intHeight as real + 1.0
  {
    p.(size := size, intWidth := Trunc(size.width), intHeight := Trunc(size.height))
  }

  /** A palette whose pixel dimensions were derived from its size. */
  predicate Consistent(p: RectPalette) {
    p.intWidth == Trunc(p.size.width) && p.intHeight == Trunc(p.size.height)
  }

  predicate PositiveSize(p: RectPalette) {
    p.size.width > 0.0 && p.size.height > 0.0
  }

  /** `hueAndSaturation(at:)`: the hue is the point's fraction along the hue
      axis and the saturation is one minus its fraction along the other
      axis, both clamped into [0, 1]. */
  function HueAndSaturation(p: RectPalette, pt: Point): (r: HueSaturation)
    requires p.size.width != 0.0 && p.size.height != 0.0
    ensures InUnit(r.hue) && InUnit(r.saturation)
    ensures p.hueHorizontal ==>
      r.hue == Clamp01(pt.x / p.size.width) && r.saturation == 1.0 - Clamp01(pt.y / p.size.height)
    ensures !p.hueHorizontal ==>
      r.hue == Clamp01(pt.y / p.size.height) && r.saturation == 1.0 - Clamp01(pt.x / p.size.width)
    ensures AlongX(p, r.hue, r.saturation) == Clamp01(pt.x / p.size.width)
    ensures AlongY(p, r.hue, r.saturation) == Clamp01(pt.y / p.size.height)
  {
    var alongX, alongY := pt.x / p.size.width, pt.y / p.size.height;
    if p.hueHorizontal then HueSaturation(Clamp01(alongX), 1.0 - Clamp01(alongY))
    else HueSaturation(Clamp01(alongY), 1.0 - Clamp01(alongX))
  }

  /** The fraction of the width, and of the height, that a hue and
      saturation stand for: the hue axis reads the hue directly, the other
      axis reads one minus the saturation. */
  function AlongX(p: RectPalette, hue: real, saturation: real): real {
    if p.hueHorizontal then hue else 1.0 - saturation
  }

  function AlongY(p: RectPalette, hue: real, saturation: real): real {
    if p.hueHorizontal then 1.0 - saturation else hue
  }

  /** With hue along x, the origin is hue 0 at full saturation and the far
      corner is hue 1 at no saturation; the saturation axis is inverted. */
  lemma HueAndSaturationCorners(p: RectPalette)
    requires PositiveSize(p)
    requires p.hueHorizontal
    ensures HueAndSaturation(p, Point(0.0, 0.0)) == HueSaturation(0.0, 1.0)
    ensures HueAndSaturation(p, Point(p.size.width, p.size.height)) == HueSaturation(1.0, 0.0)
  {
  }

  /** Turning `hueHorizontal` off swaps the roles of the two axes: the
      reading at (x, y) becomes the reading at (y, x) of the transposed
      palette. */
  lemma AxisSwap(p: RectPalette, pt: Point)
    requires p.size.width != 0.0 && p.size.height != 0.0
    ensures
      var q := p.(hueHorizontal := !p.hueHorizontal, size := Size(p.size.height, p.size.width));
      HueAndSaturation(q, Point(pt.y, pt.x)) == HueAndSaturation(p, pt)
  {
  }

  /** `modifiedColor(from:with:)`: hue and saturation from the point,
      brightness and alpha kept. */
  function ModifiedColor(p: RectPalette, c: HSBColor, pt: Point): (r: HSBColor)
    requires p.size.width != 0.0 && p.size.height != 0.0
    ensures Valid(r)
    ensures r.hue == HueAndSaturation(p, pt).hue && r.saturation == HueAndSaturation(p, pt).saturation
    ensures Valid(c) ==> r.brightness == c.brightness && r.alpha == c.alpha
  {
    var hs := HueAndSaturation(p, pt);
    WithHueAndSaturation(c, hs.hue, hs.saturation)
  }

  /** `closestValidPoint(to:)`: each coordinate clamped into the rectangle. */
  function ClosestValidPoint(p: RectPalette, pt: Point): (r: Point)
    ensures p.size.width >= 0.0 ==> 0.0 <= r.x <= p.size.width
    ensures p.size.height >= 0.0 ==> 0.0 <= r.y <= p.size.height
    ensures 0.0 <= pt.x <= p.size.width ==> r.x == pt.x
    ensures 0.0 <= pt.y <= p.size.height ==> r.y == pt.y
  {
    Point(Min(p.size.width, Max(0.0, pt.x)), Min(p.size.height, Max(0.0, pt.y)))
  }

  predicate InRect(p: RectPalette, pt: Point) {
    0.0 <= pt.x <= p.size.width && 0.0 <= pt.y <= p.size.height
  }

  /** The clamped point is the nearest point of the rectangle on each axis,
      and clamping twice is clamping once. */
  lemma ClosestValidPointIsClosest(p: RectPalette, pt: Point, q: Point)
    requires p.size.width >= 0.0 && p.size.height >= 0.0
    requires InRect(p, q)
    ensures InRect(p, ClosestValidPoint(p, pt))
    ensures Abs(ClosestValidPoint(p, pt).x - pt.x) <= Abs(q.x - pt.x)
    ensures Abs(ClosestValidPoint(p, pt).y - pt.y) <= Abs(q.y - pt.y)
    ensures ClosestValidPoint(p, ClosestValidPoint(p, pt)) == ClosestValidPoint(p, pt)
  {
  }

  /** `positionAndAlpha(for:)`: the point whose reading is the colour's hue
      and saturation, with the foreground drawn at the colour's brightness. */
  function PositionAndAlpha(p: RectPalette, c: HSBColor): (r: Placement)
    ensures r.alpha == c.brightness
    ensures Valid(c) && p.size.width >= 0.0 && p.size.height >= 0.0 ==> InRect(p, r.position)
    ensures r.position == Point(AlongX(p, c.hue, c.saturation) * p.size.width, AlongY(p, c.hue, c.saturation) * p.size.height)
  {
    var fx, fy := AlongX(p, c.hue, c.saturation), AlongY(p, c.hue, c.saturation);
    var x := fx * p.size.width;
    var y := fy * p.size.height;
    assert Valid(c) ==> InUnit(fx) && InUnit(fy);
    ScaledWithin(fx, p.size.width, x);
    ScaledWithin(fy, p.size.height, y);
    Placement(Point(x, y), c.brightness)
  }

  lemma ScaledWithin(f: real, w: real, x: real)
    requires x == f * w
    ensures InUnit(f) && w >= 0.0 ==> 0.0 <= x <= w
  {
    if InUnit(f) && w >= 0.0 {
      FractionOf(f, w);
    }
  }

  /** Reading the palette at a colour's position gives back its hue and
      saturation, so a valid colour survives being placed and picked. */
  lemma PositionRoundTrip(p: RectPalette, c: HSBColor)
    requires PositiveSize(p)
    requires Valid(c)
    ensures HueAndSaturation(p, PositionAndAlpha(p, c).position) == HueSaturation(c.hue, c.saturation)
    ensures ModifiedColor(p, c, PositionAndAlpha(p, c).position) == c
  {
    var pos := PositionAndAlpha(p, c).position;
    if p.hueHorizontal {
      DivOf(pos.x, c.hue, p.size.width);
      DivOf(pos.y, 1.0 - c.saturation, p.size.height);
    } else {
      DivOf(pos.x, 1.0 - c.saturation, p.size.width);
      DivOf(pos.y, c.hue, p.size.height);
    }
  }

  /** The other direction: picking a colour at any point and placing it
      again puts the thumb on the clamped point. */
  lemma PickThenPlace(p: RectPalette, c: HSBColor, pt: Point)
    requires PositiveSize(p)
    ensures PositionAndAlpha(p, ModifiedColor(p, c, pt)).position == ClosestValidPoint(p, pt)
  {
    var m := ModifiedColor(p, c, pt);
    PlaceAlongX(p, m, pt);
    PlaceAlongY(p, m, pt);
  }

  /** Any colour carrying the reading along x is placed at the clamped x. */
  lemma PlaceAlongX(p: RectPalette, m: HSBColor, pt: Point)
    requires PositiveSize(p)
    requires AlongX(p, m.hue, m.saturation) == Clamp01(pt.x / p.size.width)
    ensures PositionAndAlpha(p, m).position.x == ClosestValidPoint(p, pt).x
  {
    PlaceAxis(pt.x, p.size.width, AlongX(p, m.hue, m.saturation),
      PositionAndAlpha(p, m).position.x, ClosestValidPoint(p, pt).x);
  }

  /** The same along y. */
  lemma PlaceAlongY(p: RectPalette, m: HSBColor, pt: Point)
    requires PositiveSize(p)
    requires AlongY(p, m.hue, m.saturation) == Clamp01(pt.y / p.size.height)
    ensures PositionAndAlpha(p, m).position.y == ClosestValidPoint(p, pt).y
  {
    PlaceAxis(pt.y, p.size.height, AlongY(p, m.hue, m.saturation),
      PositionAndAlpha(p, m).position.y, ClosestValidPoint(p, pt).y);
  }

  /** One axis of `PickThenPlace`: the fraction `f` read at coordinate `x`,
      scaled back by the side `w`, is `x` clamped into [0, w]. */
  lemma PlaceAxis(x: real, w: real, f: real, placed: real, clamped: real)
    requires w > 0.0
    requires f == Clamp01(x / w)
    requires placed == f * w && clamped == Min(w, Max(0.0, x))
    ensures placed == clamped
  {
    if x < 0.0 {
      assert x / w < 0.0;
    } else if x > w {
      assert x / w > 1.0;
    } else {
      DivBounds(x, w);
      assert (x / w) * w == x;
    }
  }

  /** `supportedContentMode(for:)`: the rectangle may be stretched or
      cropped freely, so every content mode is accepted as it is. */
  function SupportedContentMode(mode: ContentMode): (r: ContentMode)
    ensures r == mode
  {
    mode
  }

  /** `backgroundImage()`: a black rectangle of the integral size, absent
      when either integral dimension is zero. */
  function BackgroundImage(p: RectPalette): (r: Option<Size>)
    ensures r.None? <==> p.intWidth == 0 || p.intHeight == 0
    ensures r.Some? ==> r.value.width == p.intWidth as real && r.value.height == p.intHeight as real
  {
    if p.intWidth == 0 || p.intHeight == 0 then None
    else Some(Size(p.intWidth as real, p.intHeight as real))
  }

  /** Any size under one point in either direction leaves no background. */
  lemma NoBackgroundForThinSizes(p: RectPalette, size: Size)
    requires 0.0 <= size.width < 1.0 || 0.0 <= size.height < 1.0
    ensures BackgroundImage(SetSize(p, size)).None?
  {
  }
}
