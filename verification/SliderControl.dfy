/**
 `ColorSliderControl`: a horizontal track whose gradient previews the
 colours a slider delegate produces. The thumb is inset by its indicator
 radius at both ends, so the usable track is `contentWidth - 2 * radius`
 long. Layout, animation and the gradient layer itself are foreign; the
 model keeps the numbers they are given.
 */
module SliderControl {
  import opened RealMath
  import opened HSB
  import opened Sliders
  import opened ColorControls

  datatype Slider = Slider(
    delegate: SliderKind,
    selected: HSBColor,
    contentWidth: real,
    indicatorRadius: real,
    thumbX: real,
    percentage: int,
    gradientStart: HSBColor,
    gradientEnd: HSBColor,
    startOffset: real,
    endOffset: real)

  /** The part of the track the thumb centre can travel. */
  function GradientLength(s: Slider): real {
    s.contentWidth - s.indicatorRadius * 2.0
  }

  /** Where the thumb centre goes for a slider value: `radius + length *
      min(max(0, value), 1)`. */
  function ThumbCentre(radius: real, length: real, value: real): (x: real)
    ensures length >= 0.0 ==> radius <= x <= radius + length
  {
    var clamped := Min(Max(0.0, value), 1.0);
    FractionOfLength(clamped, length);
    radius + length * clamped
  }

  lemma FractionOfLength(f: real, w: real)
    requires InUnit(f)
    ensures w >= 0.0 ==> 0.0 <= w * f <= w
  {
    if w >= 0.0 {
      FractionOf(f, w);
    }
  }

  /** The value a touch at `x` selects: its fraction of the track past the
      left margin, clamped into [0, 1]. */
  function TouchValue(radius: real, length: real, x: real): (v: real)
    requires length != 0.0
    ensures InUnit(v)
    ensures length > 0.0 && x <= radius ==> v == 0.0
    ensures length > 0.0 && x >= radius + length ==> v == 1.0
  {
    QuotientAtLeastOne(x - radius, length);
    Max(0.0, Min(1.0, (x - radius) / length))
  }

  lemma QuotientAtLeastOne(a: real, l: real)
    requires l != 0.0
    ensures l > 0.0 && a >= l ==> a / l >= 1.0
  {
  }

  /** Touching the thumb centre selects the value the thumb was placed for. */
  lemma TouchAtThumbCentre(radius: real, length: real, value: real)
    requires length > 0.0
    requires InUnit(value)
    ensures TouchValue(radius, length, ThumbCentre(radius, length, value)) == value
  {
    assert ThumbCentre(radius, length, value) - radius == length * value;
    DivOf(length * value, value, length);
  }

  /** The other direction: the thumb for the value read at `x` sits at `x`
      held inside the track. */
  lemma ThumbAtTouch(radius: real, length: real, x: real)
    requires length > 0.0
    ensures ThumbCentre(radius, length, TouchValue(radius, length, x)) == Min(radius + length, Max(radius, x))
  {
    var q := (x - radius) / length;
    if x < radius {
      assert q < 0.0;
    } else if x > radius + length {
      assert q > 1.0;
    } else {
      DivBounds(x - radius, length);
      assert q * length == x - radius;
    }
  }

  /** `updateThumbAndGradient`: the thumb is placed for the value the
      delegate displays, and the gradient runs between the delegate's
      colours for values 0 and 1, inset by the indicator radius. */
  function UpdateThumbAndGradient(s: Slider): (r: Slider)
    ensures r.selected == s.selected && r.delegate == s.delegate && r.percentage == s.percentage
    ensures r.contentWidth == s.contentWidth && r.indicatorRadius == s.indicatorRadius
    ensures r.thumbX == ThumbCentre(s.indicatorRadius, GradientLength(s), SliderValueAndGradient(s.delegate, s.selected).value)
    ensures r.gradientStart == ModifiedColor(s.delegate, s.selected, 0.0)
    ensures r.gradientEnd == ModifiedColor(s.delegate, s.selected, 1.0)
    ensures r.startOffset == r.indicatorRadius && r.endOffset == r.indicatorRadius
  {
    var shown := SliderValueAndGradient(s.delegate, s.selected);
    GradientEndsAreSliderEnds(s.delegate, s.selected);
    s.(thumbX := ThumbCentre(s.indicatorRadius, GradientLength(s), shown.value),
       gradientStart := shown.gradientStart, gradientEnd := shown.gradientEnd,
       startOffset := s.indicatorRadius, endOffset := s.indicatorRadius)
  }

  /** A slider whose thumb and gradient show its selected colour. */
  predicate UpToDate(s: Slider) {
    s == UpdateThumbAndGradient(s)
  }

  /** `setSelectedHSBColor`: store the colour, then redraw thumb and
      gradient for it. */
  function SetSelectedHSBColor(s: Slider, color: HSBColor, interactive: bool): (r: Slider)
    ensures r.selected == color && r.delegate == s.delegate
    ensures UpToDate(r)
  {
    UpdateThumbAndGradient(s.(selected := color))
  }

  /** What a touch leaves behind: the slider and the events it sent. */
  datatype Touched = Touched(slider: Slider, sent: seq<ControlEvent>)

  /** `updateSelectedColor(at:isInteractive:)`: read the value at the touch,
      show its percentage on the thumb, store the delegate's colour for it
      and send one `valueChanged`. */
  function UpdateSelectedColor(s: Slider, x: real, interactive: bool): (r: Touched)
    requires GradientLength(s) != 0.0
    ensures r.sent == [ValueChanged]
    ensures 0 <= r.slider.percentage <= 100
    ensures r.slider.percentage == Round(TouchValue(s.indicatorRadius, GradientLength(s), x) * 100.0)
    ensures r.slider.selected == ModifiedColor(s.delegate, s.selected, TouchValue(s.indicatorRadius, GradientLength(s), x))
    ensures UpToDate(r.slider)
  {
    var value := TouchValue(s.indicatorRadius, GradientLength(s), x);
    var percentage := Round(value * 100.0);
    var s' := s.(percentage := percentage);
    Touched(SetSelectedHSBColor(s', ModifiedColor(s.delegate, s.selected, Min(Max(0.0, value), 1.0)), interactive), [ValueChanged])
  }

  /** Touching the thumb of an up-to-date slider gives back its colour:
      exactly for the saturation and brightness sliders, and for the channel
      sliders whenever the colour is chromatic. */
  lemma TouchAtThumbKeepsColour(s: Slider, interactive: bool)
    requires GradientLength(s) > 0.0
    requires Valid(s.selected)
    requires UpToDate(s)
    requires s.delegate in {RedSlider, GreenSlider, BlueSlider} ==>
      s.selected.hue < 1.0 && s.selected.saturation > 0.0 && s.selected.brightness > 0.0
    ensures UpdateSelectedColor(s, s.thumbX, interactive).slider.selected == s.selected
  {
    var value := SliderValueAndGradient(s.delegate, s.selected).value;
    TouchAtThumbCentre(s.indicatorRadius, GradientLength(s), value);
    SliderRoundTrip(s.delegate, s.selected);
  }

  /** On the saturation and brightness sliders the thumb follows the finger,
      held inside the track. */
  lemma ThumbFollowsTouch(s: Slider, x: real, interactive: bool)
    requires GradientLength(s) > 0.0
    requires Valid(s.selected)
    requires s.delegate == SaturationSlider || s.delegate == BrightnessSlider
    ensures UpdateSelectedColor(s, x, interactive).slider.thumbX ==
      Min(s.indicatorRadius + GradientLength(s), Max(s.indicatorRadius, x))
  {
    var value := TouchValue(s.indicatorRadius, GradientLength(s), x);
    SliderShowsValueSet(s.delegate, s.selected, value);
    ThumbAtTouch(s.indicatorRadius, GradientLength(s), x);
  }
}
