/**
 `ColorPaletteControl` and its two library subclasses. A palette control
 shows a palette delegate's images in an image view, keeps a thumb on the
 selected colour's position, and turns touches into colours through the
 delegate. Points travel between the view and the image through the image
 view's content-mode transform; the conversion between the control's own
 views is foreign and taken as the identity. The images themselves are
 foreign: the model counts how often they are regenerated.
 */
module PaletteControl {
  import opened RealMath
  import opened Geometry
  import opened HSB
  import opened ColorControls
  import opened ImageSpace
  import RectPalette
  import RadialPalette

  /** The two palette delegates of the library. */
  datatype PaletteDelegate = RectDelegate(rect: RectPalette.RectPalette) | RadialDelegate(layout: RadialLayout)

  /** A delegate whose reading of a point is defined: the rectangle has a
      non-zero width and height, the circle a positive radius. */
  predicate Drawable(d: PaletteDelegate) {
    match d
    case RectDelegate(p) => p.size.width != 0.0 && p.size.height != 0.0
    case RadialDelegate(l) => l.radius > 0.0
  }

  /** A delegate whose nearest valid point is defined: the rectangle only
      clamps, and the circle divides by a distance that exceeds its radius,
      so any size will do as long as the radius is not negative. Freshly
      installed, zero-size delegates qualify. */
  predicate Projectable(d: PaletteDelegate) {
    d.RadialDelegate? ==> d.layout.radius >= 0.0
  }

  /** Both delegates as installed, before any layout, can be hit-tested but
      not read. */
  lemma InitialDelegatesProjectable()
    ensures Projectable(RectDelegate(RectPalette.Initial)) && !Drawable(RectDelegate(RectPalette.Initial))
    ensures Projectable(RadialDelegate(InitialRadialLayout)) && !Drawable(RadialDelegate(InitialRadialLayout))
    ensures forall d :: Drawable(d) ==> Projectable(d)
  {
  }

  function DelegateModifiedColor(t: Trig, d: PaletteDelegate, c: HSBColor, pt: Point): (r: HSBColor)
    requires Sound(t) && Drawable(d)
    ensures Valid(r)
    ensures Valid(c) ==> r.brightness == c.brightness && r.alpha == c.alpha
  {
    match d
    case RectDelegate(p) => RectPalette.ModifiedColor(p, c, pt)
    case RadialDelegate(l) => RadialPalette.ModifiedColor(t, l, c, pt)
  }

  function DelegateClosestValidPoint(t: Trig, d: PaletteDelegate, pt: Point): Point
    requires Sound(t) && Projectable(d)
  {
    match d
    case RectDelegate(p) => RectPalette.ClosestValidPoint(p, pt)
    case RadialDelegate(l) => RadialPalette.ClosestValidPoint(t, l, pt)
  }

  function DelegatePositionAndAlpha(t: Trig, d: PaletteDelegate, c: HSBColor): (r: Placement)
    ensures r.alpha == c.brightness
  {
    match d
    case RectDelegate(p) => RectPalette.PositionAndAlpha(p, c)
    case RadialDelegate(l) => RadialPalette.PositionAndAlpha(t, l, c)
  }

  /** The content mode the image view is given: the one the delegate
      accepts in place of the requested one. */
  function DelegateSupportedContentMode(d: PaletteDelegate, mode: ContentMode): (r: ContentMode)
    ensures d.RectDelegate? ==> r == mode
    ensures d.RadialDelegate? ==> r != Redraw && r != ScaleToFill && r != ScaleAspectFill
  {
    match d
    case RectDelegate(_) => RectPalette.SupportedContentMode(mode)
    case RadialDelegate(_) => RadialPalette.SupportedContentMode(mode)
  }

  /** The two delegates part on the stretching modes: the rectangle keeps
      `scaleToFill`, the circle turns it into `scaleAspectFit`. Asking
      twice changes nothing for either. */
  lemma SupportedContentModesDiffer(p: RectPalette.RectPalette, l: RadialLayout, mode: ContentMode)
    ensures DelegateSupportedContentMode(RectDelegate(p), ScaleToFill) == ScaleToFill
    ensures DelegateSupportedContentMode(RadialDelegate(l), ScaleToFill) == ScaleAspectFit
    ensures DelegateSupportedContentMode(RectDelegate(p), mode) == DelegateSupportedContentMode(RadialDelegate(l), mode)
      <==> mode !in {Redraw, ScaleToFill, ScaleAspectFill}
    ensures DelegateSupportedContentMode(RadialDelegate(l), DelegateSupportedContentMode(RadialDelegate(l), mode))
      == DelegateSupportedContentMode(RadialDelegate(l), mode)
  {
    RadialPalette.SupportedContentModeIdempotent(mode);
  }

  datatype Palette = Palette(
    delegate: PaletteDelegate,
    selected: HSBColor,
    view: ImageView,
    thumb: Point,
    foregroundAlpha: real,
    imageUpdates: nat)

  /** `setSelectedHSBColor`: the colour is always stored, but the thumb and
      the foreground alpha follow it only when it differs from the colour
      held before. */
  function SetSelectedHSBColor(t: Trig, s: Palette, color: HSBColor, interactive: bool): (r: Palette)
    ensures r.selected == color
    ensures r.delegate == s.delegate && r.view == s.view && r.imageUpdates == s.imageUpdates
    ensures color == s.selected ==> r == s
    ensures color != s.selected ==>
      && r.foregroundAlpha == color.brightness
      && ConvertToImageSpace(s.view, r.thumb) == DelegatePositionAndAlpha(t, s.delegate, color).position
  {
    if s.selected != color then
      var placement := DelegatePositionAndAlpha(t, s.delegate, color);
      ConversionRoundTrip(s.view, placement.position);
      s.(selected := color, thumb := ConvertFromImageSpace(s.view, placement.position), foregroundAlpha := placement.alpha)
    else
      s.(selected := color)
  }

  /** The point of the palette nearest to a point of the view, back in view
      coordinates. */
  function NearestValidPoint(t: Trig, s: Palette, pt: Point): Point
    requires Sound(t) && Projectable(s.delegate)
  {
    ConvertFromImageSpace(s.view, DelegateClosestValidPoint(t, s.delegate, ConvertToImageSpace(s.view, pt)))
  }

  /** What a touch leaves behind: the palette and the events it sent. */
  datatype Touched = Touched(palette: Palette, sent: seq<ControlEvent>)

  /** `updateSelectedColor(at:isInteractive:)`: the touch is clamped to the
      nearest valid point of the palette, the colour is read there and the
      thumb moved there, and `valueChanged` is sent even when the colour did
      not change. */
  function UpdateSelectedColor(t: Trig, s: Palette, pt: Point, interactive: bool): (r: Touched)
    requires Sound(t) && Drawable(s.delegate)
    ensures r.sent == [ValueChanged]
    ensures r.palette.selected ==
      DelegateModifiedColor(t, s.delegate, s.selected, ConvertToImageSpace(s.view, NearestValidPoint(t, s, pt)))
    ensures r.palette.thumb == NearestValidPoint(t, s, pt)
    ensures Valid(s.selected) ==> r.palette.selected.brightness == s.selected.brightness
  {
    var inside := DelegateClosestValidPoint(t, s.delegate, ConvertToImageSpace(s.view, pt));
    ConversionRoundTrip(s.view, inside);
    var stored := SetSelectedHSBColor(t, s, DelegateModifiedColor(t, s.delegate, s.selected, inside), interactive);
    Touched(stored.(thumb := ConvertFromImageSpace(s.view, inside)), [ValueChanged])
  }

  /** On the rectangular palette the thumb a touch leaves is exactly where
      the picked colour is placed, so redrawing for the new colour would not
      move it. */
  lemma RectThumbOnPickedColour(t: Trig, s: Palette, pt: Point, interactive: bool)
    requires Sound(t)
    requires s.delegate.RectDelegate? && RectPalette.PositiveSize(s.delegate.rect)
    ensures var r := UpdateSelectedColor(t, s, pt, interactive).palette;
      ConvertToImageSpace(s.view, r.thumb) == DelegatePositionAndAlpha(t, s.delegate, r.selected).position
  {
    var p := s.delegate.rect;
    var image := ConvertToImageSpace(s.view, pt);
    var inside := RectPalette.ClosestValidPoint(p, image);
    ConversionRoundTrip(s.view, inside);
    assert ConvertToImageSpace(s.view, NearestValidPoint(t, s, pt)) == inside;
    var r := UpdateSelectedColor(t, s, pt, interactive).palette;
    assert r.selected == RectPalette.ModifiedColor(p, s.selected, inside);
    RectPalette.ClosestValidPointIsClosest(p, image, inside);
    RectPalette.PickThenPlace(p, s.selected, inside);
    assert DelegatePositionAndAlpha(t, s.delegate, r.selected).position == inside;
    assert ConvertToImageSpace(s.view, r.thumb) == inside;
  }

  /** A touch on the rectangle itself puts the thumb under the finger. */
  lemma RectThumbUnderFinger(t: Trig, s: Palette, pt: Point, interactive: bool)
    requires Sound(t)
    requires s.delegate.RectDelegate? && RectPalette.PositiveSize(s.delegate.rect)
    requires RectPalette.InRect(s.delegate.rect, ConvertToImageSpace(s.view, pt))
    ensures UpdateSelectedColor(t, s, pt, interactive).palette.thumb == pt
  {
    ConversionRoundTrip(s.view, pt);
  }

  /** The hit-box insets of `AdjustedHitBoxColorControl`. */
  datatype Insets = Insets(top: real, left: real, bottom: real, right: real)

  /** The largest inset, but never less than 44 points. */
  function MaxTouchDistance(insets: Insets): (m: real)
    ensures m >= 44.0
    ensures m >= insets.top && m >= insets.left && m >= insets.bottom && m >= insets.right
    ensures m == 44.0 || m == insets.top || m == insets.left || m == insets.bottom || m == insets.right
  {
    Max(Max(Max(Max(insets.bottom, insets.top), insets.left), insets.right), 44.0)
  }

  /** `hitTest(_:with:)`: whether the touch is passed on to the usual hit
      test, which happens unless the touch is farther from the nearest valid
      palette point than the maximal touch distance. */
  function HitTest(t: Trig, s: Palette, insets: Insets, pt: Point): (passed: bool)
    requires Sound(t) && Projectable(s.delegate)
    ensures var d := Distance(t, NearestValidPoint(t, s, pt), pt);
      passed <==> (d <= 44.0 || d <= insets.top || d <= insets.left || d <= insets.bottom || d <= insets.right)
  {
    !(Distance(t, NearestValidPoint(t, s, pt), pt) > MaxTouchDistance(insets))
  }

  /** Every point of the rectangle shown in the view is passed on. */
  lemma HitTestPassesRectPoints(t: Trig, s: Palette, insets: Insets, pt: Point)
    requires Sound(t)
    requires s.delegate.RectDelegate? && RectPalette.PositiveSize(s.delegate.rect)
    requires RectPalette.InRect(s.delegate.rect, ConvertToImageSpace(s.view, pt))
    ensures HitTest(t, s, insets, pt)
  {
    ConversionRoundTrip(s.view, pt);
    DistanceMetric(t, pt, pt);
  }

  /** The thumb sits where the delegate places the selected colour. */
  predicate ThumbOnSelected(t: Trig, s: Palette) {
    ConvertToImageSpace(s.view, s.thumb) == DelegatePositionAndAlpha(t, s.delegate, s.selected).position
  }

  /** `updatePaletteImagesAndThumb`, as far as the model sees it: the
      palette images are produced again and the thumb is moved to the
      selected colour's position. */
  function RegenerateImages(t: Trig, s: Palette): (r: Palette)
    ensures r.imageUpdates == s.imageUpdates + 1
    ensures r.delegate == s.delegate && r.selected == s.selected
    ensures r.view == s.view && r.foregroundAlpha == s.foregroundAlpha
    ensures ThumbOnSelected(t, r)
  {
    var position := DelegatePositionAndAlpha(t, s.delegate, s.selected).position;
    ConversionRoundTrip(s.view, position);
    s.(thumb := ConvertFromImageSpace(s.view, position), imageUpdates := s.imageUpdates + 1)
  }

  /** Setting `paletteDelegate`: its observer regenerates the images. */
  function SetPaletteDelegate(t: Trig, s: Palette, d: PaletteDelegate): (r: Palette)
    ensures r.delegate == d && r.selected == s.selected
    ensures r.imageUpdates == s.imageUpdates + 1
    ensures ThumbOnSelected(t, r)
  {
    RegenerateImages(t, s.(delegate := d))
  }

  /** `commonInit` of `RadialPaletteControl`: it installs a fresh circular
      delegate, and the base class then regenerates the images once more. */
  function RadialCommonInit(t: Trig, s: Palette): (r: Palette)
    ensures r.delegate == RadialDelegate(InitialRadialLayout)
    ensures r.selected == s.selected && r.imageUpdates == s.imageUpdates + 2
    ensures ThumbOnSelected(t, r)
  {
    RegenerateImages(t, SetPaletteDelegate(t, s, RadialDelegate(InitialRadialLayout)))
  }

  /** `RectangularPaletteControl`: a palette control with a hue axis. */
  datatype RectangularControl = RectangularControl(palette: Palette, hueHorizontal: bool)

  /** The `as? RectangularHSBPaletteDelegate` update in `setHue`: only a
      rectangular delegate has an axis to set. */
  function WithAxis(d: PaletteDelegate, horizontal: bool): (r: PaletteDelegate)
    ensures r.RectDelegate? <==> d.RectDelegate?
    ensures d.RectDelegate? ==> r.rect == d.rect.(hueHorizontal := horizontal)
    ensures d.RadialDelegate? ==> r == d
  {
    match d
    case RectDelegate(p) => RectDelegate(p.(hueHorizontal := horizontal))
    case RadialDelegate(_) => d
  }

  /** 0 when the control's axis is already `horizontal`, otherwise 1. */
  function AxisChange(c: RectangularControl, horizontal: bool): nat {
    if c.hueHorizontal == horizontal then 0 else 1
  }

  /** `setHue(horizontalAxis:updateImage:)`. Assigning `hueHorizontal` runs
      its observer, which calls `setHue(…, updateImage: true)` again when the
      axis changes, so a change regenerates the images even when
      `updateImage` is false, and twice when it is true. */
  function SetHue(t: Trig, c: RectangularControl, horizontal: bool, updateImage: bool): (r: RectangularControl)
    decreases AxisChange(c, horizontal), 1
    ensures r.hueHorizontal == horizontal
    ensures r.palette.delegate == WithAxis(c.palette.delegate, horizontal)
    ensures r.palette.selected == c.palette.selected
    ensures r.palette.imageUpdates ==
      c.palette.imageUpdates + AxisChange(c, horizontal) + (if updateImage then 1 else 0)
    ensures updateImage ==> ThumbOnSelected(t, r.palette)
  {
    var withAxis := AssignHueHorizontal(t, c, horizontal);
    var updated := withAxis.(palette := withAxis.palette.(delegate := WithAxis(withAxis.palette.delegate, horizontal)));
    if updateImage then updated.(palette := RegenerateImages(t, updated.palette)) else updated
  }

  /** Assigning `hueHorizontal`: the observer acts only on a change. */
  function AssignHueHorizontal(t: Trig, c: RectangularControl, horizontal: bool): (r: RectangularControl)
    decreases AxisChange(c, horizontal), 0
    ensures r.hueHorizontal == horizontal
    ensures r.palette.selected == c.palette.selected
    ensures r.palette.delegate == (if c.hueHorizontal == horizontal then c.palette.delegate else WithAxis(c.palette.delegate, horizontal))
    ensures r.palette.imageUpdates == c.palette.imageUpdates + AxisChange(c, horizontal)
  {
    var withAxis := c.(hueHorizontal := horizontal);
    if c.hueHorizontal != horizontal then SetHue(t, withAxis, horizontal, true) else withAxis
  }

  /** The documented promise of `updateImage: false` holds only when the
      axis does not change. */
  lemma SetHueWithoutImageUpdate(t: Trig, c: RectangularControl, horizontal: bool)
    ensures SetHue(t, c, horizontal, false).palette.imageUpdates == c.palette.imageUpdates
      <==> c.hueHorizontal == horizontal
  {
  }

  /** After `setHue`, the control and a rectangular delegate agree on the
      axis. */
  lemma SetHueAligns(t: Trig, c: RectangularControl, horizontal: bool, updateImage: bool)
    requires c.palette.delegate.RectDelegate?
    ensures SetHue(t, c, horizontal, updateImage).palette.delegate.rect.hueHorizontal == horizontal
    ensures SetHue(t, c, horizontal, updateImage).hueHorizontal == horizontal
  {
  }

  /** `commonInit` of `RectangularPaletteControl`: install a fresh
      rectangular delegate, hand it the control's axis without regenerating,
      then let the base class regenerate. */
  function RectCommonInit(t: Trig, c: RectangularControl): (r: RectangularControl)
    ensures r.hueHorizontal == c.hueHorizontal
    ensures r.palette.delegate == RectDelegate(RectPalette.Initial.(hueHorizontal := c.hueHorizontal))
    ensures r.palette.imageUpdates == c.palette.imageUpdates + 2
    ensures ThumbOnSelected(t, r.palette)
  {
    var installed := c.(palette := SetPaletteDelegate(t, c.palette, RectDelegate(RectPalette.Initial)));
    var axis := SetHue(t, installed, installed.hueHorizontal, false);
    axis.(palette := RegenerateImages(t, axis.palette))
  }
}
