/**
 Plane geometry shared by the palettes and the image view: points, sizes,
 the `UIView.ContentMode` cases, the Euclidean distance of the `CGPoint`
 extension, and the layout both radial palettes derive from their size.
 */
module Geometry {
  import opened RealMath

  datatype Point = Point(x: real, y: real)

  datatype Size = Size(width: real, height: real)

  datatype Option<T> = None | Some(value: T)

  /** The `(hue, saturation)` pair a palette reads off a point. */
  datatype HueSaturation = HueSaturation(hue: real, saturation: real)

  /** A palette's `positionAndAlpha(for:)`: where the thumb goes and how
      opaque the foreground image is drawn. */
  datatype Placement = Placement(position: Point, alpha: real)

  /** The thirteen cases of `UIView.ContentMode`. */
  datatype ContentMode =
    | ScaleToFill | ScaleAspectFit | ScaleAspectFill | Redraw
    | Center | Top | Bottom | Left | Right
    | TopLeft | TopRight | BottomLeft | BottomRight

  /** `distanceTo(x:y:)`: the Euclidean distance from `p` to `(x, y)`. */
  function DistanceTo(t: Trig, p: Point, x: real, y: real): (d: real)
    requires Sound(t)
    ensures d >= 0.0
    ensures d == 0.0 <==> p == Point(x, y)
  {
    NormSquared(t, p.x - x, p.y - y);
    Norm(t, p.x - x, p.y - y)
  }

  /** `distance(to:)`. */
  function Distance(t: Trig, p: Point, q: Point): (d: real)
    requires Sound(t)
    ensures d == DistanceTo(t, p, q.x, q.y)
  {
    DistanceTo(t, p, q.x, q.y)
  }

  /** The distance is symmetric, and zero exactly between equal points. */
  lemma DistanceMetric(t: Trig, p: Point, q: Point)
    requires Sound(t)
    ensures Distance(t, p, q) == Distance(t, q, p)
    ensures Distance(t, p, q) == 0.0 <==> p == q
  {
    SquareOfDifference(p.x, q.x);
    SquareOfDifference(p.y, q.y);
    NormSquared(t, p.x - q.x, p.y - q.y);
  }

  lemma SquareOfDifference(a: real, b: real)
    ensures Square(a - b) == Square(b - a)
  {
  }

  /** The geometry the radial palettes derive from their `size`. */
  datatype RadialLayout = RadialLayout(size: Size, diameter: real, radius: real, midX: real, midY: real, ceiledDiameter: int)

  /** Both radial palettes start from a zero size and all-zero geometry. */
  const InitialRadialLayout: RadialLayout := RadialLayout(Size(0.0, 0.0), 0.0, 0.0, 0.0, 0.0, 0)

  /** The `size` observer of the radial palettes: the circle is inscribed in
      the shorter side, centred at (radius, radius), and the pixel buffer is
      `ceil(diameter)` wide. */
  function LayoutFor(size: Size): (l: RadialLayout)
    ensures l.size == size
    ensures l.diameter == Min(size.width, size.height)
    ensures l.diameter <= size.width && l.diameter <= size.height
    ensures l.radius * 2.0 == l.diameter
    ensures l.midX == l.radius && l.midY == l.radius
    ensures l.diameter as real <= l.ceiledDiameter as real < l.diameter + 1.0
    ensures l.diameter >= 0.0 ==> l.ceiledDiameter >= 0
    ensures l.ceiledDiameter > 0 ==> l.radius > 0.0
  {
    var diameter := Min(size.width, size.height);
    RadialLayout(size, diameter, diameter / 2.0,
      diameter / 2.0 + Min(0.0, (size.width - diameter) / 2.0),
      diameter / 2.0 + Min(0.0, (size.height - diameter) / 2.0),
      Ceil(diameter))
  }

  /** The initial geometry is the one the observer computes for a zero size. */
  lemma InitialLayoutIsZeroSize()
    ensures LayoutFor(Size(0.0, 0.0)) == InitialRadialLayout
  {
  }

  /** The layout after the `size` observer ran. */
  predicate Laid(l: RadialLayout) {
    l == LayoutFor(l.size)
  }

  /** The centre sits at (radius, radius), where `positionAndAlpha` measures
      from. */
  predicate Centred(l: RadialLayout) {
    l.midX == l.radius && l.midY == l.radius
  }

  /** Every laid-out palette is centred, whatever its size. */
  lemma LaidCentre(l: RadialLayout)
    requires Laid(l)
    ensures Centred(l)
  {
  }

  /** The centre of a layout, `(midX, midY)`. */
  function Centre(l: RadialLayout): Point {
    Point(l.midX, l.midY)
  }
}
