/**
 The five component slider delegates. Each one maps a slider value in
 [0, 1] to a modified colour (`ModifiedColor`) and a colour to the value the
 slider shows plus the two colours at the ends of its gradient
 (`ValueAndGradient`). The gradient ends are kept as HSB colours; turning
 them into `UIColor` is foreign.
 */
module Sliders {
  import opened RealMath
  import opened ColorMath
  import opened HSB

  datatype SliderKind = SaturationSlider | BrightnessSlider | RedSlider | GreenSlider | BlueSlider

  datatype ValueAndGradient = ValueAndGradient(value: real, gradientStart: HSBColor, gradientEnd: HSBColor)

  predicate IsChannelSlider(kind: SliderKind) {
    kind == RedSlider || kind == GreenSlider || kind == BlueSlider
  }

  /** The triple `rgb` with the channel a channel slider controls set to `v`. */
  function WithChannel(kind: SliderKind, rgb: RGB, v: real): RGB {
    match kind
    case RedSlider => rgb.(red := v)
    case GreenSlider => rgb.(green := v)
    case BlueSlider => rgb.(blue := v)
    case _ => rgb
  }

  /** `modifiedColor(from:with:)`. The brightness slider is inverted: value 0
      is full brightness. The channel sliders replace one RGB channel. */
  function ModifiedColor(kind: SliderKind, color: HSBColor, value: real): (r: HSBColor)
    ensures Valid(r)
    ensures kind == SaturationSlider ==> r.saturation == Clamp01(value)
    ensures kind == BrightnessSlider ==> r.brightness == Clamp01(1.0 - value)
    ensures Valid(color) && kind == SaturationSlider ==>
      r.hue == color.hue && r.brightness == color.brightness && r.alpha == color.alpha
    ensures Valid(color) && kind == BrightnessSlider ==>
      r.hue == color.hue && r.saturation == color.saturation && r.alpha == color.alpha
    ensures Valid(color) && InUnit(value) && IsChannelSlider(kind) ==>
      ConvertedFromRGB(color, r, WithChannel(kind, Rgb(color), value))
    ensures Valid(color) ==> r.alpha == color.alpha
  {
    match kind
    case SaturationSlider => WithSaturation(color, value)
    case BrightnessSlider => WithBrightness(color, 1.0 - value)
    case RedSlider => WithRed(color, value)
    case GreenSlider => WithGreen(color, value)
    case BlueSlider => WithBlue(color, value)
  }

  /** `valueAndGradient(for:)`: the value the slider displays for `color`,
      and the colours at its left and right ends. The value clauses only
      name the displayed component; `SliderShowsValueSet` and
      `SliderRoundTrip` relate it to `ModifiedColor` in both directions. */
  function SliderValueAndGradient(kind: SliderKind, color: HSBColor): (r: ValueAndGradient)
    ensures Valid(color) ==> InUnit(r.value)
    ensures Valid(color) ==> r.gradientStart.alpha == color.alpha && r.gradientEnd.alpha == color.alpha
    ensures kind == SaturationSlider ==>
      r.value == color.saturation && r.gradientStart.saturation == 0.0 && r.gradientEnd.saturation == 1.0
    ensures kind == BrightnessSlider ==>
      r.value == 1.0 - color.brightness && r.gradientStart.brightness == 1.0 && r.gradientEnd.brightness == 0.0
    ensures kind == RedSlider ==> r.value == Rgb(color).red
    ensures kind == GreenSlider ==> r.value == Rgb(color).green
    ensures kind == BlueSlider ==> r.value == Rgb(color).blue
  {
    match kind
    case SaturationSlider => ValueAndGradient(color.saturation, WithSaturation(color, 0.0), WithSaturation(color, 1.0))
    case BrightnessSlider => ValueAndGradient(1.0 - color.brightness, WithBrightness(color, 1.0), WithBrightness(color, 0.0))
    case RedSlider => ValueAndGradient(Rgb(color).red, WithRed(color, 0.0), WithRed(color, 1.0))
    case GreenSlider => ValueAndGradient(Rgb(color).green, WithGreen(color, 0.0), WithGreen(color, 1.0))
    case BlueSlider => ValueAndGradient(Rgb(color).blue, WithBlue(color, 0.0), WithBlue(color, 1.0))
  }

  /** The gradient is drawn with the colours the slider produces at its two
      ends: the start is the colour for value 0, the end the colour for value 1. */
  lemma GradientEndsAreSliderEnds(kind: SliderKind, color: HSBColor)
    ensures SliderValueAndGradient(kind, color).gradientStart == ModifiedColor(kind, color, 0.0)
    ensures SliderValueAndGradient(kind, color).gradientEnd == ModifiedColor(kind, color, 1.0)
  {
  }

  /** Moving the slider to the value it displays gives the colour back:
      exactly for saturation and brightness, and for the channel sliders
      whenever the colour is chromatic (see `HSB.ChannelSetterRoundTrip`). */
  lemma SliderRoundTrip(kind: SliderKind, color: HSBColor)
    requires Valid(color)
    requires IsChannelSlider(kind) ==>
      color.hue < 1.0 && color.saturation > 0.0 && color.brightness > 0.0
    ensures ModifiedColor(kind, color, SliderValueAndGradient(kind, color).value) == color
  {
    if IsChannelSlider(kind) {
      ChannelSetterRoundTrip(color);
    }
  }

  /** The other direction: a colour set from value `v` displays `v`, always
      for the HSB sliders and for a channel slider whenever the new triple is
      not grey. */
  lemma SliderShowsValueSet(kind: SliderKind, color: HSBColor, v: real)
    requires Valid(color)
    requires InUnit(v)
    requires IsChannelSlider(kind) ==>
      MaxChannel(WithChannel(kind, Rgb(color), v)) != MinChannel(WithChannel(kind, Rgb(color), v))
    ensures SliderValueAndGradient(kind, ModifiedColor(kind, color, v)).value == v
  {
  }

  /** The brightness slider is inverted: full brightness sits at value 0,
      black at value 1, and its gradient runs from bright to dark. */
  lemma BrightnessSliderInverted(color: HSBColor)
    requires Valid(color)
    ensures color.brightness == 1.0 ==> SliderValueAndGradient(BrightnessSlider, color).value == 0.0
    ensures color.brightness == 0.0 ==> SliderValueAndGradient(BrightnessSlider, color).value == 1.0
    ensures ModifiedColor(BrightnessSlider, color, 0.0).brightness == 1.0
    ensures ModifiedColor(BrightnessSlider, color, 1.0).brightness == 0.0
    ensures SliderValueAndGradient(BrightnessSlider, color).gradientStart.brightness >
            SliderValueAndGradient(BrightnessSlider, color).gradientEnd.brightness
  {
  }

  /** A channel slider on an achromatic colour is not a round trip: the grey's
      saturation comes back as `1 - brightness`. */
  lemma ChannelSliderOnGrey(color: HSBColor)
    requires Valid(color)
    requires color.saturation == 0.0 && color.brightness < 1.0
    ensures ModifiedColor(RedSlider, color, SliderValueAndGradient(RedSlider, color).value) != color
  {
    AchromaticRoundTrip(color);
  }
}
