# FlexColorPicker in Dafny

A model of the colour logic of FlexColorPicker, an iOS colour picker library,
with proofs of what that logic promises. The model covers six parts:

- **Colour values.** `HSBColor` is an immutable hue/saturation/brightness/alpha
  value with a clamping constructor, single-component setters and the RGB→HSB
  conversion `withRGB`. The six-sector HSB→RGB function `rgbFrom`, byte
  quantisation, hex formatting and the contrast ratio are modelled with it
  (modules `RealMath`, `ColorMath`, `HSB`).
- **Slider delegates.** The five component slider delegates map a value in
  [0, 1] to a modified colour and back (module `Sliders`).
- **Palette delegates.** These are the rectangular hue/saturation palette, the
  radial hue/saturation palette and the demo's hue ring. The model covers:
  - their geometry (point → colour, colour → point, nearest valid point);
  - the content-mode substitution;
  - the byte buffers their foreground images are filled from.

  Modules: `Geometry`, `RectPalette`, `RadialPalette`, `HueRing`,
  `PixelBuffer`.
- **Image space.** `UIImageView`'s point transform between view space and
  image space is driven by content-mode alignment (module `ImageSpace`).
- **Controls.** The model covers:
  - the `ColorControl` contract and its `AbstractColorControl` storage;
  - the slider control's value/thumb arithmetic;
  - the palette control's clamp-and-emit, hit test and hue-axis observer;
  - the hex preview's label, corner radius and tap-to-confirm touch handling.

  Modules: `ColorControls`, `SliderControl`, `PaletteControl`,
  `PreviewControl`.
- **The mediator.** `ColorPickerController` keeps the following state:
  - an ordered list of managed controls;
  - the target-action registrations;
  - the canonical selected colour;
  - the trace of delegate events it emits.

  It broadcasts every colour change to the controls (module `Picker`).

`CGFloat` is modelled as `real`. `acos`, `cos`, `sin` and `sqrt` are the fields
of a `Trig` record. The radial operations require the facts that
`Sound(t)` collects: ranges, `cos² + sin² = 1`, `acos` inverting `cos` on
[0, π], and `sqrt` giving the non-negative root. Swift's `Int(x)` truncation,
`round` (half away from zero), `ceil` and the truncating `%` are written out.

Several behaviours of the code look unintended. The model keeps them as
written, and lemmas expose them:

- the achromatic branch of `withRGB` sets saturation to `1 - max`
  (`HSB.WithRGBAchromatic`, `HSB.MidGreyIsNotGrey`);
- the red-max branch reads the unclamped `blue` (`HSB.WithRGBReadsRawBlue`);
- the default `selectedColor` setter ignores its new value
  (`ColorControls.DefaultSetterIgnoresNewValue`);
- `setHue(horizontalAxis:updateImage: false)` still regenerates the images
  when the axis changes (`PaletteControl.SetHueWithoutImageUpdate`);
- the ring projection divides by zero at the centre
  (`HueRing.ClosestValidPoint` requires a point off the centre;
  `HueRing.CentreHasNoDirection`);
- a control added twice receives every broadcast twice
  (`Picker.DuplicateRegistration`).

## Model

| member | source | states |
|---|---|---|
| RealMath.Clamp01 | FlexColorPicker/Classes/HSBColor.swift:44-47 | The result always lies in [0, 1]. It is the input itself when that is already in range, 0 below and 1 above. |
| RealMath.Trunc | FlexColorPicker/Classes/Utilities/UIColorExtension.swift:104 | `Int(x)` truncates toward zero. For non-negative x it is the largest integer not above x. For negative x it is the smallest integer not below x. |
| RealMath.Ceil | FlexColorPicker/Classes/ControlDelegates/RadialHSBPaletteDelegate.swift:45 | `ceil` gives the least integer not below x. |
| RealMath.Round | FlexColorPicker/Classes/Utilities/UIColorExtension.swift:96 | `round` gives the nearest integer, and a half goes away from zero: x − 0.5 < n ≤ x + 0.5 for x ≥ 0, and x − 0.5 ≤ n < x + 0.5 for x < 0. |
| RealMath.SwiftRem | FlexColorPicker/Classes/Utilities/UIColorExtension.swift:110 | Swift's `%` leaves a remainder with a = n·q + r for the truncated quotient q. The remainder has the sign of a, lies strictly between −n and n, and equals the mathematical remainder for a ≥ 0. |
| RealMath.NormSquared | FlexColorPickerDemo/Classes/CustomControls/RadialHueColorPaletteDelegate.swift:133-137 | The Euclidean norm `sqrt(a² + b²)` is non-negative. It squares back to `a² + b²` and is zero only at the origin. |
| Geometry.DistanceTo | FlexColorPickerDemo/Classes/CustomControls/RadialHueColorPaletteDelegate.swift:133-137 | `distanceTo` is non-negative and zero exactly at the point itself. |
| Geometry.DistanceMetric | FlexColorPickerDemo/Classes/CustomControls/RadialHueColorPaletteDelegate.swift:139-141 | `distance(to:)` is symmetric and separates distinct points. |
| Geometry.LayoutFor | FlexColorPicker/Classes/ControlDelegates/RadialHSBPaletteDelegate.swift:38-47 | The radial `size` setter takes the smaller side as the diameter and half of it as the radius. The centre is (radius, radius) for every size. The ceiled diameter is the least integer not below the diameter. |
| Geometry.InitialLayoutIsZeroSize | FlexColorPicker/Classes/ControlDelegates/RadialHSBPaletteDelegate.swift:32-38 | The initial all-zero layout is the one the `size` setter computes for the initial zero size. |
| Geometry.LaidCentre | FlexColorPickerDemo/Classes/CustomControls/RadialHueColorPaletteDelegate.swift:40-49 | The hue ring's `size` setter computes the same centre as the radial palette: (radius, radius). |
| ColorMath.SectorBounds | FlexColorPicker/Classes/Utilities/UIColorExtension.swift:104-105 | For a hue in [0, 1], the sector lies in 0...6 and the fraction in [0, 1). Sector 6 occurs exactly for hue 1, and only with fraction 0. |
| ColorMath.RgbFrom | FlexColorPicker/Classes/Utilities/UIColorExtension.swift:103-118 | Inputs in [0, 1] give every channel in [0, 1], with the largest channel equal to brightness and the smallest equal to brightness·(1 − saturation). Saturation 0 gives three equal channels. |
| ColorMath.SectorValuesOrdered | FlexColorPicker/Classes/Utilities/UIColorExtension.swift:106-108 | p ≤ q ≤ brightness and p ≤ t ≤ brightness, so p is the minimum and brightness the maximum in every sector. |
| ColorMath.HueOneWrapsToZero | FlexColorPicker/Classes/Utilities/UIColorExtension.swift:104-111 | Hue 1 falls into sector 6 % 6 = 0 with fraction 0. It gives the same RGB as hue 0. |
| ColorMath.ColorComponentToUInt8 | FlexColorPicker/Classes/Utilities/UIColorExtension.swift:94-97 | The byte always lies in [0, 255]. It is round(255·c) for c in [0, 1], 0 at or below 0, and 255 at or above 1. |
| ColorMath.HexByteRoundTrip | FlexColorPicker/Classes/Utilities/UIColorExtension.swift:71 | The two upper-case, zero-padded hex digits of a byte read back as that byte. |
| ColorMath.HexValue | FlexColorPicker/Classes/Utilities/UIColorExtension.swift:63-74 | The code has 6 hex digits (R, G, B) when alpha is 1 and alpha is not forced, and 8 digits (R, G, B, A) otherwise. Each digit pair reads back as the quantised channel. |
| ColorMath.ExtremeBytes | FlexColorPicker/Classes/Utilities/UIColorExtension.swift:94-97 | Component 1 becomes byte 255 ("FF") and component 0 becomes byte 0 ("00"). |
| ColorMath.HexValueExamples | FlexColorPicker/Classes/Utilities/UIColorExtension.swift:63-74 | Concrete codes: black "000000", red "FF0000", red with alpha forced "FF0000FF", transparent green "00FF0000". |
| ColorMath.ContrastRatioProperties | FlexColorPicker/Classes/Utilities/UIColorExtension.swift:76-82 | The contrast ratio is symmetric, zero for identical colours, non-negative, and at most 1 for channels in [0, 1]. |
| ColorMath.ContrastRatioMaximum | FlexColorPicker/Classes/Utilities/UIColorExtension.swift:76-82 | For channels in [0, 1], the ratio is 1 exactly when both colours are made of 0/1 channels and differ in every channel. |
| ColorMath.ContrastRatioNotOnlyBlackWhite | FlexColorPicker/Classes/Utilities/UIColorExtension.swift:76-82 | The maximum 1 is reached by green against magenta as well as by black against white. |
| HSB.Make | FlexColorPicker/Classes/HSBColor.swift:43-48 | Every constructed colour has all four components in [0, 1]. In-range inputs are kept, and out-of-range ones are clamped, never rejected. |
| HSB.MakeClamps | FlexColorPicker/Classes/HSBColor.swift:43-48 | Each of saturation, brightness and alpha is clamped to the nearest bound when out of range. The default colour white is valid. |
| HSB.MakeIdentityOnValid | FlexColorPicker/Classes/HSBColor.swift:43-48 | Constructing from a valid colour's components gives back that colour. |
| HSB.WithHueAndSaturation | FlexColorPicker/Classes/HSBColor.swift:83-85 | Hue and saturation become the clamped arguments. Brightness and alpha are kept. |
| HSB.WithSaturationAndBrightness | FlexColorPicker/Classes/HSBColor.swift:87-89 | Saturation and brightness become the clamped arguments. Hue and alpha are kept. |
| HSB.WithHueAndBrightness | FlexColorPicker/Classes/HSBColor.swift:91-93 | Hue and brightness become the clamped arguments. Saturation and alpha are kept. |
| HSB.WithHue | FlexColorPicker/Classes/HSBColor.swift:95-97 | Only hue changes, to the clamped argument. |
| HSB.WithSaturation | FlexColorPicker/Classes/HSBColor.swift:99-101 | Only saturation changes, to the clamped argument. |
| HSB.WithBrightness | FlexColorPicker/Classes/HSBColor.swift:103-105 | Only brightness changes, to the clamped argument. |
| HSB.WithAlpha | FlexColorPicker/Classes/HSBColor.swift:156-158 | Only alpha changes, to the clamped argument. |
| HSB.SettersCompose | FlexColorPicker/Classes/HSBColor.swift:83-105 | Setting a component to its own value changes nothing, and setters are idempotent. Each two-component setter equals the two single setters in sequence. |
| HSB.Rgb | FlexColorPicker/Classes/HSBColor.swift:54-56 | A valid colour's RGB has channels in [0, 1], and its largest channel is the brightness. |
| HSB.WithRGB | FlexColorPicker/Classes/HSBColor.swift:113-139 | The result is valid and keeps the receiver's alpha. Its brightness is the largest clamped channel. |
| HSB.WithRGBAchromatic | FlexColorPicker/Classes/HSBColor.swift:121-127 | Equal channels v keep hue and alpha and set brightness v, but set saturation to 1 − v, not 0. |
| HSB.MidGreyIsNotGrey | FlexColorPicker/Classes/HSBColor.swift:125-127 | Mid grey is read as saturation 0.5, so converting it back does not give grey. |
| HSB.WithRGBChromatic | FlexColorPicker/Classes/HSBColor.swift:118-138 | For distinct max and min channels in [0, 1], brightness is max and saturation is (max − min)/max. Alpha is kept. Hue is the max-channel piecewise formula over 6, and lies in [0, 1]. |
| HSB.ChromaticHueBounds | FlexColorPicker/Classes/HSBColor.swift:128-137 | The piecewise hue formula, with the red-max case wrapped by +6, lies in [0, 6]. |
| HSB.WithRGBClampsInputs | FlexColorPicker/Classes/HSBColor.swift:114-116 | Red and green are clamped before use: out-of-range red or green gives the same result as its clamped value. |
| HSB.WithRGBReadsRawBlue | FlexColorPicker/Classes/HSBColor.swift:129 | The red-max branch reads the raw `blue`. Blue −1 gives hue 0.25, while its clamped value 0 gives hue 0.5/6. |
| HSB.WithRed | FlexColorPicker/Classes/HSBColor.swift:141-144 | For a valid colour and red in [0, 1], a non-grey result shows RGB (red, g, b) with the colour's own g and b. A grey result keeps the hue. Alpha is always kept. |
| HSB.WithGreen | FlexColorPicker/Classes/HSBColor.swift:146-149 | The same as `withRed`, for green. Alpha is kept. |
| HSB.WithBlue | FlexColorPicker/Classes/HSBColor.swift:151-154 | The same as `withRed`, for blue. Alpha is kept. |
| HSB.ChannelSetterExample | FlexColorPicker/Classes/HSBColor.swift:141-144 | Orange (1, 0.5, 0) with red set to 0.5 becomes hue 1/6 at half brightness, which shows (0.5, 0.5, 0). |
| HSB.RgbOfWithRGB | FlexColorPicker/Classes/HSBColor.swift:113-139 | `withRGB` of an in-range, non-grey triple gives a colour whose `rgb` is that triple. |
| HSB.WithRGBResult | FlexColorPicker/Classes/HSBColor.swift:113-139 | For any in-range triple, `withRGB` gives back that triple if it is not grey. For a grey of level v it gives the receiver's hue and alpha with brightness v and saturation 1 − v. |
| HSB.SectorOf | FlexColorPicker/Classes/HSBColor.swift:128-138 | Every in-range, non-grey triple is the channel permutation of one hue sector, offset by less than its spread. |
| HSB.SameIsStructural | FlexColorPicker/Classes/HSBColor.swift:161-165 | `==` holds exactly when all four components are equal. It is reflexive and symmetric, and two greys differing only in hue are unequal. |
| HSB.RgbRoundTrip | FlexColorPicker/Classes/HSBColor.swift:31 | A valid colour with hue below 1 and positive saturation and brightness converts to RGB and back to itself. |
| HSB.WithRGBRecovers | FlexColorPicker/Classes/HSBColor.swift:113-139 | Any in-range RGB with the colour's max, min and hue sector reading is converted by `withRGB` back to that colour. |
| HSB.ChannelSetterRoundTrip | FlexColorPicker/Classes/HSBColor.swift:141-154 | On a chromatic colour, setting any channel to its current value gives back the colour. |
| HSB.AchromaticRoundTrip | FlexColorPicker/Classes/HSBColor.swift:125-127 | A grey colour does not round-trip: its saturation becomes 1 − brightness. |
| Sliders.ModifiedColor | FlexColorPicker/Classes/ControlDelegates/ComponentSliderDelegates.swift:31-89 | Each slider changes only its own component: saturation = value, brightness = 1 − value. A channel slider gives a colour whose RGB is the old one with its channel set to the value, or the matching grey. Alpha is kept. |
| Sliders.SliderValueAndGradient | FlexColorPicker/Classes/ControlDelegates/ComponentSliderDelegates.swift:31-89 | The displayed value is saturation, 1 − brightness, or the matching RGB channel, and lies in [0, 1]. Both gradient ends keep the colour's alpha. |
| Sliders.GradientEndsAreSliderEnds | FlexColorPicker/Classes/ControlDelegates/ComponentSliderDelegates.swift:38-39 | The gradient runs from the colour for value 0 to the colour for value 1, for every slider. |
| Sliders.SliderRoundTrip | FlexColorPicker/Classes/ControlDelegates/ComponentSliderDelegates.swift:34-88 | Modifying a colour with its own displayed value gives it back. This holds for the saturation and brightness sliders always, and for the channel sliders on chromatic colours. |
| Sliders.SliderShowsValueSet | FlexColorPicker/Classes/ControlDelegates/ComponentSliderDelegates.swift:34-89 | A slider displays exactly the value just set. This holds for the saturation and brightness sliders always, and for a channel slider whenever the new RGB triple is not grey. |
| Sliders.BrightnessSliderInverted | FlexColorPicker/Classes/ControlDelegates/ComponentSliderDelegates.swift:46-52 | Brightness 1 displays 0, brightness 0 displays 1, and the gradient starts brighter than it ends. |
| Sliders.ChannelSliderOnGrey | FlexColorPicker/Classes/ControlDelegates/ComponentSliderDelegates.swift:58-64 | On a grey below white, setting the red channel to its own value changes the colour, through the achromatic branch of `withRGB`. |
| RectPalette.SetSize | FlexColorPicker/Classes/ControlDelegates/RectangularHSBPaletteDelegate.swift:35-40 | The `size` setter stores the size and truncates each side to its integer pixel count. |
| RectPalette.HueAndSaturation | FlexColorPicker/Classes/ControlDelegates/RectangularHSBPaletteDelegate.swift:46-51 | Hue and saturation lie in [0, 1] for any point. One axis gives hue and the other gives 1 − saturation, both clamped fractions of the side. |
| RectPalette.HueAndSaturationCorners | FlexColorPicker/Classes/ControlDelegates/RectangularHSBPaletteDelegate.swift:48-50 | With hue horizontal, (0, 0) reads hue 0 and saturation 1, and (w, h) reads hue 1 and saturation 0. |
| RectPalette.AxisSwap | FlexColorPicker/Classes/ControlDelegates/RectangularHSBPaletteDelegate.swift:48-49 | With the hue axis vertical, hue comes from y/height and saturation from x/width. |
| RectPalette.ModifiedColor | FlexColorPicker/Classes/ControlDelegates/RectangularHSBPaletteDelegate.swift:53-56 | Only hue and saturation change, to the point's reading. Brightness and alpha are kept. |
| RectPalette.ClosestValidPoint | FlexColorPicker/Classes/ControlDelegates/RectangularHSBPaletteDelegate.swift:82-84 | Each axis is clamped into the rectangle. Points inside are kept. |
| RectPalette.ClosestValidPointIsClosest | FlexColorPicker/Classes/ControlDelegates/RectangularHSBPaletteDelegate.swift:82-84 | The clamped point lies in the rectangle. On each axis it is no farther from the touch than any point of the rectangle. The clamp is idempotent. |
| RectPalette.PositionAndAlpha | FlexColorPicker/Classes/ControlDelegates/RectangularHSBPaletteDelegate.swift:86-89 | Alpha is the brightness. The point lies in the rectangle, scaled from the colour's fractions along each axis. |
| RectPalette.PositionRoundTrip | FlexColorPicker/Classes/ControlDelegates/RectangularHSBPaletteDelegate.swift:47-56 | Reading the point placed for a colour gives back its hue and saturation, and so the colour itself. |
| RectPalette.PickThenPlace | FlexColorPicker/Classes/ControlDelegates/RectangularHSBPaletteDelegate.swift:82-89 | The point placed for the colour picked at a touch is the touch clamped into the rectangle. |
| RectPalette.BackgroundImage | FlexColorPicker/Classes/ControlDelegates/RectangularHSBPaletteDelegate.swift:74-80 | There is no background image exactly when the integer width or height is 0. |
| RectPalette.NoBackgroundForThinSizes | FlexColorPicker/Classes/ControlDelegates/RectangularHSBPaletteDelegate.swift:35-40 | A side shorter than one point truncates to zero pixels, so there is no background image. |
| RadialPalette.HueAndSaturation | FlexColorPicker/Classes/ControlDelegates/RadialHSBPaletteDelegate.swift:51-61 | Hue and saturation lie in [0, 1], and the centre reads (0, 0). Saturation is the distance in radii, capped at 1. Hue comes from `acos`, reflected to 1 − hue above the centre line. |
| RadialPalette.CentreReadsZero | FlexColorPicker/Classes/ControlDelegates/RadialHSBPaletteDelegate.swift:52-58 | The centre point reads hue 0 and saturation 0, without dividing by zero. |
| RadialPalette.ModifiedColor | FlexColorPicker/Classes/ControlDelegates/RadialHSBPaletteDelegate.swift:63-66 | Only hue and saturation change, to the point's reading. |
| RadialPalette.ClosestValidPoint | FlexColorPicker/Classes/ControlDelegates/RadialHSBPaletteDelegate.swift:108-116 | Points within the radius are kept. Points outside move along their ray from the centre. |
| RadialPalette.ClosestValidPointOnCircle | FlexColorPicker/Classes/ControlDelegates/RadialHSBPaletteDelegate.swift:108-116 | An outside point lands exactly on the circle. The result is never outside the circle, and the projection is idempotent. |
| RadialPalette.PositionAndAlpha | FlexColorPicker/Classes/ControlDelegates/RadialHSBPaletteDelegate.swift:118-124 | Alpha is the brightness. The point lies at saturation·radius from the centre, in the direction of angle hue·2π. |
| RadialPalette.PositionInsideCircle | FlexColorPicker/Classes/ControlDelegates/RadialHSBPaletteDelegate.swift:108-124 | The placed point lies at distance saturation·radius, so the nearest-valid-point projection leaves it fixed. |
| RadialPalette.ClosestValidPointWithin | FlexColorPicker/Classes/ControlDelegates/RadialHSBPaletteDelegate.swift:109-110 | A point no farther than the radius is returned unchanged. |
| RadialPalette.PositionRoundTrip | FlexColorPicker/Classes/ControlDelegates/RadialHSBPaletteDelegate.swift:51-66 | Reading the point placed for a colour with positive saturation and hue below 1 gives back its hue and saturation, and so the colour. |
| RadialPalette.PolarReading | FlexColorPicker/Classes/ControlDelegates/RadialHSBPaletteDelegate.swift:51-61 | A point at polar offset (s, hue·2π) in radii reads as (hue, s). |
| RadialPalette.GreyLosesHue | FlexColorPicker/Classes/ControlDelegates/RadialHSBPaletteDelegate.swift:118-124 | A grey colour is placed at the centre, which reads hue 0. Its hue is lost. |
| RadialPalette.SupportedContentMode | FlexColorPicker/Classes/ControlDelegates/RadialHSBPaletteDelegate.swift:126-131 | redraw, scaleToFill and scaleAspectFill are never returned. Every other mode is kept. |
| RadialPalette.SupportedContentModeIdempotent | FlexColorPicker/Classes/ControlDelegates/RadialHSBPaletteDelegate.swift:126-131 | The substitution is idempotent. |
| RectPalette.SupportedContentMode | FlexColorPicker/Classes/ControlDelegates/RectangularHSBPaletteDelegate.swift:91-93 | The rectangle accepts every content mode unchanged. |
| PaletteControl.DelegateSupportedContentMode | FlexColorPicker/Classes/Controls/ColorPaletteControl.swift:140-144 | The image views get the requested mode under a rectangular delegate, and never redraw, scaleToFill or scaleAspectFill under a radial one. |
| PaletteControl.SupportedContentModesDiffer | FlexColorPicker/Classes/Controls/ColorPaletteControl.swift:140-144 | The two delegates agree on a mode exactly when it is none of the three stretching modes. `scaleToFill` is kept by the rectangle and turned into `scaleAspectFit` by the circle. |
| RadialPalette.BackgroundImage | FlexColorPicker/Classes/ControlDelegates/RadialHSBPaletteDelegate.swift:100-106 | There is no background image exactly when the diameter is 0. Otherwise the image is diameter × diameter. |
| HueRing.Hue | FlexColorPickerDemo/Classes/CustomControls/RadialHueColorPaletteDelegate.swift:55-64 | The hue lies in [0, 1], and is 0 at the centre. |
| HueRing.ModifiedColor | FlexColorPickerDemo/Classes/CustomControls/RadialHueColorPaletteDelegate.swift:66-68 | Only hue changes. |
| HueRing.ClosestValidPoint | FlexColorPickerDemo/Classes/CustomControls/RadialHueColorPaletteDelegate.swift:110-115 | For a point off the centre, the result lies on the same ray, scaled from the point's distance to the indicator distance. |
| HueRing.CentreHasNoDirection | FlexColorPickerDemo/Classes/CustomControls/RadialHueColorPaletteDelegate.swift:111-113 | The distance divided by is zero exactly at the centre. The projection is undefined there. |
| HueRing.ClosestValidPointOnRing | FlexColorPickerDemo/Classes/CustomControls/RadialHueColorPaletteDelegate.swift:51-53 | Every point off the centre, inside the ring or not, lands on the ring at the absolute value of `indicatorDistance` from the centre. |
| HueRing.ClosestValidPointKeepsHue | FlexColorPickerDemo/Classes/CustomControls/RadialHueColorPaletteDelegate.swift:55-64 | Projecting onto the ring keeps the hue the point reads. |
| HueRing.PositionAndAlpha | FlexColorPickerDemo/Classes/CustomControls/RadialHueColorPaletteDelegate.swift:117-122 | Alpha is always 1, and the point lies on the ring. |
| HueRing.PositionRoundTrip | FlexColorPickerDemo/Classes/CustomControls/RadialHueColorPaletteDelegate.swift:55-68 | Reading the point placed for a colour with hue below 1 gives back its hue, and so the colour. |
| HueRing.BackgroundImage | FlexColorPickerDemo/Classes/CustomControls/RadialHueColorPaletteDelegate.swift:106-108 | There is never a background image. |
| HueRing.BackgroundUnlikeRadialPalette | FlexColorPickerDemo/Classes/CustomControls/RadialHueColorPaletteDelegate.swift:106-108 | Unlike the radial palette, the ring has no background even for a positive diameter. |
| ImageSpace.VerticalAlignment | FlexColorPicker/Classes/Utilities/UIImageViewExtension.swift:68-75 | Top modes align to the beginning and bottom modes to the end. The rest are centred. |
| ImageSpace.HorizontalAlignment | FlexColorPicker/Classes/Utilities/UIImageViewExtension.swift:77-84 | Left modes align to the beginning and right modes to the end. The rest are centred. |
| ImageSpace.AdjustedCoordinate | FlexColorPicker/Classes/Utilities/UIImageViewExtension.swift:54-60 | The shift is nothing, half the difference or the whole difference, for beginning, centre and end. |
| ImageSpace.AdjustedCoordinateInverse | FlexColorPicker/Classes/Utilities/UIImageViewExtension.swift:54-60 | Shifting by the opposite difference undoes a shift, and a zero difference shifts nothing. |
| ImageSpace.Transform | FlexColorPicker/Classes/Utilities/UIImageViewExtension.swift:41-52 | Without an image the point is unchanged. Otherwise each axis shifts by its alignment's share of the size difference, signed by direction. |
| ImageSpace.ConvertToImageSpace | FlexColorPicker/Classes/Utilities/UIImageViewExtension.swift:33-35 | Without an image the point is unchanged. |
| ImageSpace.ConvertFromImageSpace | FlexColorPicker/Classes/Utilities/UIImageViewExtension.swift:37-39 | Without an image the point is unchanged. |
| ImageSpace.ConversionRoundTrip | FlexColorPicker/Classes/Utilities/UIImageViewExtension.swift:33-51 | Converting to image space and back, or back and then to, gives the original point. |
| ImageSpace.SameSizeIsIdentity | FlexColorPicker/Classes/Utilities/UIImageViewExtension.swift:46-47 | When the image is as large as the bounds, both conversions are the identity. |
| ImageSpace.AxesIndependent | FlexColorPicker/Classes/Utilities/UIImageViewExtension.swift:48-51 | x depends only on the widths and the horizontal alignment, and y only on the heights and the vertical alignment. |
| PixelBuffer.SetPixel | FlexColorPicker/Classes/ControlDelegates/RectangularHSBPaletteDelegate.swift:65-68 | Writing a pixel sets its four bytes (alpha 255) and leaves every other byte unchanged. |
| PixelBuffer.RectIndexInBounds | FlexColorPicker/Classes/ControlDelegates/RectangularHSBPaletteDelegate.swift:62-68 | Every index `4*(i + j*intWidth)+3` lies below `4*intWidth*intHeight`. |
| PixelBuffer.FillByColumns | FlexColorPicker/Classes/ControlDelegates/RectangularHSBPaletteDelegate.swift:59-70 | The column-by-column fill gives a byte buffer of 4·w·h entries in which every cell holds its pixel. |
| PixelBuffer.RectForeground | FlexColorPicker/Classes/ControlDelegates/RectangularHSBPaletteDelegate.swift:58-72 | The buffer has 4·intWidth·intHeight bytes. Every pixel is the full-brightness colour of its hue and saturation, and every alpha byte is 255. |
| PixelBuffer.FillByRows | FlexColorPicker/Classes/ControlDelegates/RadialHSBPaletteDelegate.swift:69-80 | The row-by-row fill gives a byte buffer of 4·d·d entries in which every cell holds its pixel. |
| PixelBuffer.RadialIndexInBounds | FlexColorPicker/Classes/ControlDelegates/RadialHSBPaletteDelegate.swift:71-77 | Every index `4*(i*cd + j)+3` lies below `4*cd*cd`. |
| PixelBuffer.RadialForeground | FlexColorPicker/Classes/ControlDelegates/RadialHSBPaletteDelegate.swift:68-80 | The buffer has 4·cd·cd bytes, and every cell holds the colour read at its point. |
| PixelBuffer.RingForeground | FlexColorPickerDemo/Classes/CustomControls/RadialHueColorPaletteDelegate.swift:70-82 | The buffer has 4·cd·cd bytes, and every cell holds the full colour of its hue. |
| ColorControls.NewControl | FlexColorPicker/Classes/Controls/AbstractColorControl.swift:33 | A new control holds the library default, white. |
| ColorControls.SetSelectedHSBColor | FlexColorPicker/Classes/Controls/AbstractColorControl.swift:72-74 | The colour is stored exactly as given, and the call is appended to what the control received. |
| ColorControls.InteractiveFlagIgnored | FlexColorPicker/Classes/Controls/AbstractColorControl.swift:72-74 | The interactive flag makes no difference to what is stored. |
| ColorControls.DefaultSelectedColorSetter | FlexColorPicker/Classes/Controls/ColorControl.swift:66-68 | The protocol's default setter calls `setSelectedHSBColor` non-interactively with the current colour. |
| ColorControls.DefaultSetterIgnoresNewValue | FlexColorPicker/Classes/Controls/ColorControl.swift:61-67 | The documented promise that setting `selectedColor` is reflected in `selectedHSBColor` holds only for the current colour. |
| ColorControls.AbstractSelectedColorSetter | FlexColorPicker/Classes/Controls/AbstractColorControl.swift:42-44 | The base class's setter stores the new value and does not go through `setSelectedHSBColor`. |
| ColorControls.SettersDisagree | FlexColorPicker/Classes/Controls/AbstractColorControl.swift:37-45 | The two setters store the same colour only when nothing changes. Neither acts like `setSelectedHSBColor` with the new value. |
| SliderControl.ThumbCentre | FlexColorPicker/Classes/Controls/ColorSliderControl.swift:90-92 | The thumb centre lies in [r, r + L]. |
| SliderControl.TouchValue | FlexColorPicker/Classes/Controls/ColorSliderControl.swift:101-102 | A touch value lies in [0, 1]. It is 0 left of the track and 1 right of it. |
| SliderControl.TouchAtThumbCentre | FlexColorPicker/Classes/Controls/ColorSliderControl.swift:90-102 | Touching the thumb centre placed for a value in [0, 1] gives that value. |
| SliderControl.ThumbAtTouch | FlexColorPicker/Classes/Controls/ColorSliderControl.swift:90-102 | The thumb for the value read at x sits at x, held inside the track. |
| SliderControl.UpdateThumbAndGradient | FlexColorPicker/Classes/Controls/ColorSliderControl.swift:88-98 | The thumb is placed for the delegate's value. The gradient runs between the delegate's colours for 0 and 1, with both offsets equal to the indicator radius. |
| SliderControl.SetSelectedHSBColor | FlexColorPicker/Classes/Controls/ColorSliderControl.swift:73-76 | The colour is stored, and thumb and gradient are brought up to date for it. |
| SliderControl.UpdateSelectedColor | FlexColorPicker/Classes/Controls/ColorSliderControl.swift:100-106 | The new colour is the delegate's colour for the touch value. The thumb's percentage is round(100·value), which lies in [0, 100]. Exactly one `valueChanged` is sent. |
| SliderControl.TouchAtThumbKeepsColour | FlexColorPicker/Classes/Controls/ColorSliderControl.swift:88-106 | Touching the thumb of an up-to-date slider keeps its colour, on the channel sliders when it is chromatic. |
| SliderControl.ThumbFollowsTouch | FlexColorPicker/Classes/Controls/ColorSliderControl.swift:88-106 | On the saturation and brightness sliders, the thumb moves to the finger, held inside the track. |
| PaletteControl.DelegateModifiedColor | FlexColorPicker/Classes/Controls/ColorPaletteControl.swift:122-125 | Either palette changes hue and saturation only, keeping brightness and alpha. |
| PaletteControl.DelegatePositionAndAlpha | FlexColorPicker/Classes/Controls/ColorPaletteControl.swift:77-79 | Both built-in palettes give alpha = brightness. |
| PaletteControl.SetSelectedHSBColor | FlexColorPicker/Classes/Controls/ColorPaletteControl.swift:72-81 | The colour is always stored. Thumb and foreground alpha move only when it changed, and an unchanged colour leaves the control as it was. |
| PaletteControl.UpdateSelectedColor | FlexColorPicker/Classes/Controls/ColorPaletteControl.swift:122-127 | The touch is clamped to the nearest valid point, and the colour is read there. The thumb goes to that point. One `valueChanged` is always sent. |
| PaletteControl.RectThumbOnPickedColour | FlexColorPicker/Classes/Controls/ColorPaletteControl.swift:72-81 | On the rectangular palette, the thumb after a touch is where the picked colour is placed. |
| PaletteControl.RectThumbUnderFinger | FlexColorPicker/Classes/Controls/ColorPaletteControl.swift:122-125 | A touch inside the rectangle puts the thumb exactly under the finger. |
| PaletteControl.MaxTouchDistance | FlexColorPicker/Classes/Controls/ColorPaletteControl.swift:129-131 | The threshold is the largest of the four hit-box insets and 44. |
| PaletteControl.HitTest | FlexColorPicker/Classes/Controls/ColorPaletteControl.swift:129-135 | A touch is passed on exactly when its distance to the nearest valid point is at most 44 or at most one of the four insets. |
| PaletteControl.InitialDelegatesProjectable | FlexColorPicker/Classes/Controls/ColorPaletteControl.swift:129-135 | The rectangle and circle as installed, before any layout, can be hit-tested though not read, and every readable delegate can be hit-tested. |
| PaletteControl.HitTestPassesRectPoints | FlexColorPicker/Classes/Controls/ColorPaletteControl.swift:129-135 | Every touch inside the rectangular palette is accepted. |
| PaletteControl.RegenerateImages | FlexColorPicker/Classes/Controls/ColorPaletteControl.swift:88-98 | Regenerating counts one image update and changes neither delegate, colour, view nor foreground alpha. The thumb then sits at the delegate's position for the selected colour. |
| PaletteControl.SetPaletteDelegate | FlexColorPicker/Classes/Controls/ColorPaletteControl.swift:45-49 | Installing a delegate regenerates the images and puts the thumb on the selected colour's position for the new delegate. |
| PaletteControl.RadialCommonInit | FlexColorPicker/Classes/Controls/PaletteControls.swift:31-34 | A radial control installs a radial HSB delegate, and its thumb ends on the selected colour. |
| PaletteControl.WithAxis | FlexColorPicker/Classes/Controls/PaletteControls.swift:72 | The rectangular delegate takes the new axis, and a radial one is unchanged. |
| PaletteControl.SetHue | FlexColorPicker/Classes/Controls/PaletteControls.swift:70-76 | Control and delegate take the new axis. The images regenerate once per axis change through the observer, plus once when asked, and then the thumb is on the selected colour. |
| PaletteControl.AssignHueHorizontal | FlexColorPicker/Classes/Controls/PaletteControls.swift:49-55 | Assigning the current value triggers nothing. A new value re-enters `setHue` with image update. |
| PaletteControl.SetHueWithoutImageUpdate | FlexColorPicker/Classes/Controls/PaletteControls.swift:49-76 | `updateImage: false` regenerates the images once if the axis changes, contrary to its documentation, and not at all otherwise. |
| PaletteControl.SetHueAligns | FlexColorPicker/Classes/Controls/PaletteControls.swift:70-72 | After `setHue`, the control's and the delegate's axis both equal the argument. |
| PaletteControl.RectCommonInit | FlexColorPicker/Classes/Controls/PaletteControls.swift:39-44 | A rectangular control installs a rectangular delegate with its axis, and its thumb ends on the selected colour. |
| PreviewControl.HexLabel | FlexColorPicker/Classes/Controls/ColorPreviewWithHex.swift:145-150 | The label is "#" followed by the hex code: 6 digits for an opaque colour and 8 otherwise, each pair reading back as its quantised channel. |
| PreviewControl.SetSelectedHSBColor | FlexColorPicker/Classes/Controls/ColorPreviewWithHex.swift:145-150 | The colour is stored and its label shown. |
| PreviewControl.UpdateLabelHeight | FlexColorPicker/Classes/Controls/ColorPreviewWithHex.swift:152-154 | The label height is `hexHeight` when the hex code is shown and 0 otherwise. |
| PreviewControl.LabelHeightFollowsDisplayHex | FlexColorPicker/Classes/Controls/ColorPreviewWithHex.swift:61-65 | Toggling `displayHex` gives or frees the label's height. |
| PreviewControl.UpdateCornerRadius | FlexColorPicker/Classes/Controls/ColorPreviewWithHex.swift:186-191 | The radius applied is min(cornerRadius, height/2, width/2). Clipping turns on once it is positive. |
| PreviewControl.LargeRadiusMakesCircle | FlexColorPicker/Classes/Controls/ColorPreviewWithHex.swift:186-191 | A large radius on a square preview makes a clipped circle. |
| PreviewControl.HandleTouch | FlexColorPicker/Classes/Controls/ColorPreviewWithHex.swift:173-214 | `primaryActionTriggered` is sent exactly for a touch ending inside with `tapToConfirm` on. A touch beginning outside, a cancelled touch, or one ending outside sends nothing. |
| PreviewControl.ConfirmationsCount | FlexColorPicker/Classes/Controls/ColorPreviewWithHex.swift:173-214 | Over any touch sequence, one confirmation is sent per touch ending inside when `tapToConfirm` is on, and none otherwise. |
| Picker.Initial | FlexColorPicker/Classes/ColorPickerController.swift:39-41 | The mediator starts with white, no controls, no registrations and no events. |
| Picker.BroadcastEffect | FlexColorPicker/Classes/ColorPickerController.swift:177-182 | Every listed control except the origin holds the colour afterwards, and the origin and unlisted controls are untouched. Each control receives the colour with the flag once per listing. |
| Picker.SetColor | FlexColorPicker/Classes/ColorPickerController.swift:177-182 | The loop over the controls in order is the broadcast. Afterwards the mediator's colour is set and nothing else changes. |
| Picker.SetColorEffect | FlexColorPicker/Classes/ColorPickerController.swift:177-182 | After `setColor`, every managed control except the origin holds the colour. |
| Picker.BroadcastSynchronises | FlexColorPicker/Classes/ColorPickerController.swift:177-182 | When the origin already holds the colour, all managed controls agree with the mediator afterwards. |
| Picker.AddControl | FlexColorPicker/Classes/ColorPickerController.swift:125-131 | The control is appended in registration order. `valueChanged` is always subscribed, and the confirm event only when `canConfirmColor`. |
| Picker.RemoveControl | FlexColorPicker/Classes/ColorPickerController.swift:137-140 | Every occurrence is removed along with both registrations. An unknown control leaves the list unchanged. |
| Picker.WithoutCount | FlexColorPicker/Classes/ColorPickerController.swift:139 | Removal drops every occurrence of the control and keeps the others' multiplicities. |
| Picker.DuplicateRegistration | FlexColorPicker/Classes/ColorPickerController.swift:125-131 | A control added twice is listed twice and receives each broadcast from another origin twice. |
| Picker.ColorPicked | FlexColorPicker/Classes/ColorPickerController.swift:146-153 | A sender that is not a control is ignored. Otherwise the mediator takes the origin's colour and emits one "selected" event naming it, and all controls agree afterwards. |
| Picker.ColorConfirmed | FlexColorPicker/Classes/ColorPickerController.swift:160-168 | With equal colours only "confirmed" is emitted. Otherwise "selected" then "confirmed" are emitted, both with the origin's colour. |
| Picker.ControlSends | FlexColorPicker/Classes/ColorPickerController.swift:128-131 | An event reaches the mediator only through a registered target. A registered `valueChanged` is reported as "selected" and leaves the controls synchronised. A registered `primaryActionTriggered` always ends the log with "confirmed", carrying the control's colour, which the picker then holds. |
| Picker.ConfirmAfterAdd | FlexColorPicker/Classes/ColorPickerController.swift:128-131 | After adding a control, its confirm action is heard, with its colour, when it can confirm. A control that cannot confirm, and was not registered for it before, adds no event. |
| Picker.SetSelectedColor | FlexColorPicker/Classes/ColorPickerController.swift:51-53 | Setting the colour programmatically broadcasts to every control non-interactively and emits no event. |
| Picker.ControlDidSet | FlexColorPicker/Classes/ColorPickerController.swift:190-194 | The old control is unregistered. The new one gets the current colour non-interactively before it is registered, and synchronisation is kept. |

## Left out

- UIKit views, layers, images and animation are foreign. This covers the
  following:
  - the image objects themselves (only the byte buffers are modelled);
  - clipping paths and gradient layers;
  - the thumb view and its dark-border test;
  - autolayout and the hit-box insets' layout.
- The view controllers, the demo's UIKit wrapper controls and the older
  duplicate sources are outside the core.
- The `UIColor` conversions (`toUIColor`, `HSBColor(color:)`, `getRed`) are
  foreign. A colour's `UIColor` RGBA is taken to be `rgbFrom` of its HSB
  components.
- Coordinate conversion between the control's own views (`UIView.convert`) is
  foreign and taken as the identity. Only the image-view transform is modelled.
- IEEE floating point (NaN, infinities, rounding) is left out: `CGFloat` is a
  real.
- Division by zero is excluded by preconditions instead of modelled: palette
  width and height, radius, slider track length, ring point at the centre.
  Hit testing and the nearest valid point divide by none of these, so they
  accept zero-size palettes and need only a non-negative radius.
- The picker's own delegate is weak and optional in the code. The model
  records every delegate call as if one were set: `Picker.ColorPicked` and
  `Picker.ColorConfirmed` append their event unconditionally.
- ColorControls.DefaultSelectedColorSetter: the `selectedColor.hsbColor` round
  trip through `UIColor` and `getHue` is taken as the identity. The real call
  may normalise a grey's hue or a hue of 1, so the colour stored in the code
  is the normalised one. The same holds for `Picker.SetSelectedColor`, whose
  new value arrives as an `HSBColor`.
- PixelBuffer.RectForeground: requires non-negative integral dimensions. For a
  negative one Swift traps in `[UInt8](repeating:count:)` and in the range
  `0..<n`; that trap is not modelled.
- PixelBuffer.RadialForeground: requires a non-negative ceiled diameter, for
  the same reason.
- PixelBuffer.RingForeground: requires a non-negative ceiled diameter, for the
  same reason.
- `ColorPaletteControl`'s `contentMode` observer and the layout and size update
  in `updatePaletteImagesAndThumb` are left out. The model counts the
  regeneration and moves the thumb. The mode the delegate would accept is
  modelled (`PaletteControl.DelegateSupportedContentMode`), but it is not
  written back into the image view.
- The preview's border and dark-mode colouring and its touch-down animation are
  left out. The confirmation, sent from an animation completion, is taken as
  sent when the touch ends.
- The hue ring's `supportedContentMode` is the same substitution as the radial
  palette's, line for line. It is not modelled a second time:
  `RadialPalette.SupportedContentMode` stands for both.
- UIKit's target registry is modelled as a set, so registering the same target
  twice counts once.
- HueRing.ClosestValidPoint: requires a point off the centre, where the code
  divides by zero.
- Picker.ControlSends: covers only the two events the mediator registers for; any other event finds no target and changes nothing.
- RealMath.NormSquared: `sqrt` is an opaque field of `Trig`. Its properties come
  from `Sound(t)` rather than from a definition.
