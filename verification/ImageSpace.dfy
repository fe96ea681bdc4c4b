/**
 The `UIImageView` extension that converts points between a palette's view
 coordinates and the coordinates of the image it shows. The image is laid
 out inside the view's bounds according to the content mode; on each axis
 the offset is none, half or all of the size difference.
 */
module ImageSpace {
  import opened Geometry

  /** Where an image sits along one axis of its view. */
  datatype Alignment = Beginning | Center | End

  /** The part of an image view the conversions read: its bounds, the size
      of its image if it has one, and its content mode. */
  datatype ImageView = ImageView(bounds: Size, image: Option<Size>, contentMode: ContentMode)

  /** `verticalAlighnment`: the bottom modes align to the end, the top modes
      to the beginning, everything else is centred. */
  function VerticalAlignment(mode: ContentMode): (a: Alignment)
    ensures a == End <==> mode == Bottom || mode == BottomLeft || mode == BottomRight
    ensures a == Beginning <==> mode == Top || mode == TopLeft || mode == TopRight
  {
    match mode
    case Bottom | BottomLeft | BottomRight => End
    case Center | Left | Right | ScaleAspectFit | ScaleAspectFill | ScaleToFill | Redraw => Alignment.Center
    case Top | TopRight | TopLeft => Beginning
  }

  /** `horizontalAlighnment`: the left modes align to the beginning, the
      right modes to the end, everything else is centred. */
  function HorizontalAlignment(mode: ContentMode): (a: Alignment)
    ensures a == Beginning <==> mode == Left || mode == TopLeft || mode == BottomLeft
    ensures a == End <==> mode == Right || mode == TopRight || mode == BottomRight
  {
    match mode
    case Left | TopLeft | BottomLeft => Beginning
    case Top | Center | Bottom | ScaleAspectFit | ScaleAspectFill | ScaleToFill | Redraw => Alignment.Center
    case Right | TopRight | BottomRight => End
  }

  /** The fraction of the size difference an alignment shifts by. */
  function Share(a: Alignment): real {
    match a
    case Beginning => 0.0
    case Center => 0.5
    case End => 1.0
  }

  /** `adjustedCoordinate(for:axisAlignment:difference:)`. */
  function AdjustedCoordinate(coordinate: real, a: Alignment, difference: real): (r: real)
    ensures r - coordinate == Share(a) * difference
  {
    match a
    case Beginning => coordinate
    case Center => coordinate + difference / 2.0
    case End => coordinate + difference
  }

  /** Shifts by opposite differences cancel, and a shift is linear in the
      difference: the two directions of the conversion undo each other. */
  lemma AdjustedCoordinateInverse(coordinate: real, a: Alignment, difference: real)
    ensures AdjustedCoordinate(AdjustedCoordinate(coordinate, a, difference), a, -difference) == coordinate
    ensures AdjustedCoordinate(coordinate, a, 0.0) == coordinate
  {
    assert Share(a) * -difference == -(Share(a) * difference);
  }

  /** `transform(point:toImageSpace:)`: without an image the point is kept;
      otherwise each coordinate is shifted by its alignment's share of the
      bounds-minus-image difference, negated towards image space. */
  function Transform(v: ImageView, pt: Point, toImageSpace: bool): (r: Point)
    ensures v.image.None? ==> r == pt
    ensures v.image.Some? ==>
      r.x - pt.x == Share(HorizontalAlignment(v.contentMode)) * Difference(v.bounds.width, v.image.value.width, toImageSpace)
    ensures v.image.Some? ==>
      r.y - pt.y == Share(VerticalAlignment(v.contentMode)) * Difference(v.bounds.height, v.image.value.height, toImageSpace)
  {
    match v.image
    case None => pt
    case Some(content) =>
      var multiplier := if toImageSpace then -1.0 else 1.0;
      var verticalDiff := (v.bounds.height - content.height) * multiplier;
      var horizontalDiff := (v.bounds.width - content.width) * multiplier;
      Point(AdjustedCoordinate(pt.x, HorizontalAlignment(v.contentMode), horizontalDiff),
            AdjustedCoordinate(pt.y, VerticalAlignment(v.contentMode), verticalDiff))
  }

  /** The signed size difference along one axis: bounds minus image, negated
      when converting into image space. */
  function Difference(bound: real, content: real, toImageSpace: bool): real {
    if toImageSpace then -(bound - content) else bound - content
  }

  /** `convertToImageSpace(point:)`. */
  function ConvertToImageSpace(v: ImageView, pt: Point): (r: Point)
    ensures v.image.None? ==> r == pt
  {
    Transform(v, pt, true)
  }

  /** `convertFromImageSpace(point:)`. */
  function ConvertFromImageSpace(v: ImageView, pt: Point): (r: Point)
    ensures v.image.None? ==> r == pt
  {
    Transform(v, pt, false)
  }

  /** The two conversions are inverse to each other. */
  lemma ConversionRoundTrip(v: ImageView, pt: Point)
    ensures ConvertFromImageSpace(v, ConvertToImageSpace(v, pt)) == pt
    ensures ConvertToImageSpace(v, ConvertFromImageSpace(v, pt)) == pt
  {
    if v.image.Some? {
      var hs, vs := Share(HorizontalAlignment(v.contentMode)), Share(VerticalAlignment(v.contentMode));
      var dw, dh := v.bounds.width - v.image.value.width, v.bounds.height - v.image.value.height;
      assert hs * -dw == -(hs * dw) && vs * -dh == -(vs * dh);
    }
  }

  /** An image exactly the size of its view is not shifted either way. */
  lemma SameSizeIsIdentity(v: ImageView, pt: Point)
    requires v.image == Some(v.bounds)
    ensures ConvertToImageSpace(v, pt) == pt
    ensures ConvertFromImageSpace(v, pt) == pt
  {
  }

  /** The x result depends only on the x coordinate, the two widths and the
      horizontal alignment; the y result only on the heights and the
      vertical alignment. */
  lemma AxesIndependent(v: ImageView, w: ImageView, p: Point, q: Point, toImageSpace: bool)
    requires v.image.Some? && w.image.Some?
    ensures p.x == q.x && v.bounds.width == w.bounds.width && v.image.value.width == w.image.value.width &&
            HorizontalAlignment(v.contentMode) == HorizontalAlignment(w.contentMode) ==>
            Transform(v, p, toImageSpace).x == Transform(w, q, toImageSpace).x
    ensures p.y == q.y && v.bounds.height == w.bounds.height && v.image.value.height == w.image.value.height &&
            VerticalAlignment(v.contentMode) == VerticalAlignment(w.contentMode) ==>
            Transform(v, p, toImageSpace).y == Transform(w, q, toImageSpace).y
  {
  }
}
