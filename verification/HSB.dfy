/**
 The immutable `HSBColor` value: hue, saturation, brightness and alpha, each
 clamped into [0, 1] by the initializer. Every modification returns a new
 colour. RGB is derived through `RgbFrom`; setting an RGB channel goes
 through `WithRGB`, which keeps the previous hue when the result is
 achromatic.
 */
module HSB {
  import opened RealMath
  import opened ColorMath

  datatype HSBColor = HSBColor(hue: real, saturation: real, brightness: real, alpha: real)

  /** Every colour the initializer can produce. */
  predicate Valid(c: HSBColor) {
    InUnit(c.hue) && InUnit(c.saturation) && InUnit(c.brightness) && InUnit(c.alpha)
  }

  /** `HSBColor.init(hue:saturation:brightness:alpha:)`: clamps, never rejects. */
  function Make(hue: real, saturation: real, brightness: real, alpha: real): (c: HSBColor)
    ensures Valid(c)
    ensures InUnit(hue) ==> c.hue == hue
    ensures InUnit(saturation) ==> c.saturation == saturation
    ensures InUnit(brightness) ==> c.brightness == brightness
    ensures InUnit(alpha) ==> c.alpha == alpha
    ensures hue < 0.0 ==> c.hue == 0.0
    ensures hue > 1.0 ==> c.hue == 1.0
  {
    HSBColor(Clamp01(hue), Clamp01(saturation), Clamp01(brightness), Clamp01(alpha))
  }

  /** The library's default selected colour, `UIColor.white` read back as HSB. */
  const White: HSBColor := HSBColor(0.0, 0.0, 1.0, 1.0)

  /** Out-of-range components are clamped to the nearer end, in-range ones kept. */
  lemma MakeClamps(hue: real, saturation: real, brightness: real, alpha: real)
    ensures Make(hue, saturation, brightness, alpha).saturation == (if saturation < 0.0 then 0.0 else if saturation > 1.0 then 1.0 else saturation)
    ensures Make(hue, saturation, brightness, alpha).brightness == (if brightness < 0.0 then 0.0 else if brightness > 1.0 then 1.0 else brightness)
    ensures Make(hue, saturation, brightness, alpha).alpha == (if alpha < 0.0 then 0.0 else if alpha > 1.0 then 1.0 else alpha)
    ensures Valid(White) && Make(0.0, 0.0, 1.0, 1.0) == White
  {
  }

  /** A valid colour is its own clamp: the initializer is the identity on it. */
  lemma MakeIdentityOnValid(c: HSBColor)
    requires Valid(c)
    ensures Make(c.hue, c.saturation, c.brightness, c.alpha) == c
  {
  }

  /** `withHue(_:andSaturation:)`. */
  function WithHueAndSaturation(c: HSBColor, hue: real, saturation: real): (r: HSBColor)
    ensures Valid(r)
    ensures r.hue == Clamp01(hue)
    ensures r.saturation == Clamp01(saturation)
    ensures Valid(c) ==> r.brightness == c.brightness && r.alpha == c.alpha
  {
    Make(hue, saturation, c.brightness, c.alpha)
  }

  /** `withSaturation(_:andBrightness:)`. */
  function WithSaturationAndBrightness(c: HSBColor, saturation: real, brightness: real): (r: HSBColor)
    ensures Valid(r)
    ensures r.saturation == Clamp01(saturation)
    ensures r.brightness == Clamp01(brightness)
    ensures Valid(c) ==> r.hue == c.hue && r.alpha == c.alpha
  {
    Make(c.hue, saturation, brightness, c.alpha)
  }

  /** `withHue(_:andBrightness:)`. */
  function WithHueAndBrightness(c: HSBColor, hue: real, brightness: real): (r: HSBColor)
    ensures Valid(r)
    ensures r.hue == Clamp01(hue)
    ensures r.brightness == Clamp01(brightness)
    ensures Valid(c) ==> r.saturation == c.saturation && r.alpha == c.alpha
  {
    Make(hue, c.saturation, brightness, c.alpha)
  }

  /** `withHue(_:)`. */
  function WithHue(c: HSBColor, hue: real): (r: HSBColor)
    ensures Valid(r)
    ensures r.hue == Clamp01(hue)
    ensures Valid(c) ==> r.saturation == c.saturation && r.brightness == c.brightness && r.alpha == c.alpha
  {
    Make(hue, c.saturation, c.brightness, c.alpha)
  }

  /** `withSaturation(_:)`. */
  function WithSaturation(c: HSBColor, saturation: real): (r: HSBColor)
    ensures Valid(r)
    ensures r.saturation == Clamp01(saturation)
    ensures Valid(c) ==> r.hue == c.hue && r.brightness == c.brightness && r.alpha == c.alpha
  {
    Make(c.hue, saturation, c.brightness, c.alpha)
  }

  /** `withBrightness(_:)`. */
  function WithBrightness(c: HSBColor, brightness: real): (r: HSBColor)
    ensures Valid(r)
    ensures r.brightness == Clamp01(brightness)
    ensures Valid(c) ==> r.hue == c.hue && r.saturation == c.saturation && r.alpha == c.alpha
  {
    Make(c.hue, c.saturation, brightness, c.alpha)
  }

  /** `withAlpha(_:)`. */
  function WithAlpha(c: HSBColor, alpha: real): (r: HSBColor)
    ensures Valid(r)
    ensures r.alpha == Clamp01(alpha)
    ensures Valid(c) ==> r.hue == c.hue && r.saturation == c.saturation && r.brightness == c.brightness
  {
    Make(c.hue, c.saturation, c.brightness, alpha)
  }

  /** Setting a component to the value it already has changes nothing, setting
      it twice is setting it once, and the two-component setters are the
      one-component setters in sequence. */
  lemma SettersCompose(c: HSBColor, hue: real, saturation: real, brightness: real)
    requires Valid(c)
    ensures WithHue(c, c.hue) == c && WithSaturation(c, c.saturation) == c
    ensures WithBrightness(c, c.brightness) == c && WithAlpha(c, c.alpha) == c
    ensures WithSaturation(WithSaturation(c, saturation), saturation) == WithSaturation(c, saturation)
    ensures WithHueAndSaturation(c, hue, saturation) == WithSaturation(WithHue(c, hue), saturation)
    ensures WithSaturationAndBrightness(c, saturation, brightness) == WithBrightness(WithSaturation(c, saturation), brightness)
    ensures WithHueAndBrightness(c, hue, brightness) == WithBrightness(WithHue(c, hue), brightness)
  {
  }

  /** The `rgb` property. */
  function Rgb(c: HSBColor): (r: RGB)
    ensures Valid(c) ==> UnitRGB(r) && MaxChannel(r) == c.brightness
  {
    RgbFrom(c.hue, c.saturation, c.brightness)
  }

  /** The hue formula of `withRGB` for a chromatic input: which channel is
      the maximum decides the base sector. The red branch reads the
      UNCLAMPED `blue` argument, as the code does. */
  function ChromaticHue(red_: real, green_: real, blue_: real, rawBlue: real): real
    requires MaxChannel(RGB(red_, green_, blue_)) != MinChannel(RGB(red_, green_, blue_))
  {
    var max_ := MaxChannel(RGB(red_, green_, blue_));
    var d := max_ - MinChannel(RGB(red_, green_, blue_));
    if max_ == red_ then (green_ - rawBlue) / d + (if green_ < blue_ then 6.0 else 0.0)
    else if max_ == green_ then (blue_ - red_) / d + 2.0
    else if max_ == blue_ then (red_ - green_) / d + 4.0
    else 0.0
  }

  /** `withRGB(red:green:blue:)`: a colour with the given RGB channels and the
      receiver's alpha. Inputs are clamped first; an achromatic input keeps
      the receiver's hue and, as written, gets saturation `1 - max`. */
  function WithRGB(c: HSBColor, red: real, green: real, blue: real): (r: HSBColor)
    ensures Valid(r)
    ensures InUnit(c.alpha) ==> r.alpha == c.alpha
    ensures r.brightness == MaxChannel(RGB(Clamp01(red), Clamp01(green), Clamp01(blue)))
  {
    var red_ := Min(1.0, Max(0.0, red));
    var green_ := Min(1.0, Max(0.0, green));
    var blue_ := Min(1.0, Max(0.0, blue));
    var max_ := Max(red_, Max(green_, blue_));
    var min_ := Min(red_, Min(green_, blue_));
    var b := max_;
    var d := max_ - min_;
    var s := if max_ == 0.0 then 0.0 else d / max_;
    if max_ == min_ then
      Make(c.hue, 1.0 - max_, b, c.alpha)
    else
      var h := ChromaticHue(red_, green_, blue_, blue);
      Make(h / 6.0, s, b, c.alpha)
  }

  /** Achromatic input: the hue and alpha of the receiver survive, brightness is
      the common channel value, and saturation is `1 - max` instead of 0, so a
      mid grey comes back as a half-saturated colour. */
  lemma WithRGBAchromatic(c: HSBColor, v: real)
    requires Valid(c)
    requires InUnit(v)
    ensures WithRGB(c, v, v, v) == HSBColor(c.hue, 1.0 - v, v, c.alpha)
    ensures v < 1.0 ==> WithRGB(c, v, v, v).saturation > 0.0
  {
  }

  lemma MidGreyIsNotGrey(c: HSBColor)
    requires Valid(c)
    ensures WithRGB(c, 0.5, 0.5, 0.5).saturation == 0.5
    ensures Rgb(WithRGB(c, 0.5, 0.5, 0.5)) != RGB(0.5, 0.5, 0.5)
  {
    var g := WithRGB(c, 0.5, 0.5, 0.5);
    WithRGBAchromatic(c, 0.5);
    assert MinChannel(Rgb(g)) == 0.5 * (1.0 - 0.5);
  }

  /** Chromatic input: brightness is the largest channel, saturation is the
      spread over the largest channel, alpha is the receiver's, and the hue
      is the sector formula divided by 6 (clamped into [0, 1]). */
  lemma WithRGBChromatic(c: HSBColor, red: real, green: real, blue: real)
    requires Valid(c)
    requires InUnit(red) && InUnit(green) && InUnit(blue)
    requires MaxChannel(RGB(red, green, blue)) != MinChannel(RGB(red, green, blue))
    ensures var mx := MaxChannel(RGB(red, green, blue));
            var mn := MinChannel(RGB(red, green, blue));
            var r := WithRGB(c, red, green, blue);
            && r.brightness == mx
            && r.saturation == (mx - mn) / mx
            && r.alpha == c.alpha
            && InUnit(ChromaticHue(red, green, blue, blue) / 6.0)
            && r.hue == ChromaticHue(red, green, blue, blue) / 6.0
  {
    var mx := MaxChannel(RGB(red, green, blue));
    var mn := MinChannel(RGB(red, green, blue));
    assert 0.0 <= (mx - mn) / mx <= 1.0 by { DivBounds(mx - mn, mx); }
    ChromaticHueBounds(red, green, blue);
  }

  /** For in-range channels the hue formula lies in [0, 6]. */
  lemma ChromaticHueBounds(red: real, green: real, blue: real)
    requires InUnit(red) && InUnit(green) && InUnit(blue)
    requires MaxChannel(RGB(red, green, blue)) != MinChannel(RGB(red, green, blue))
    ensures 0.0 <= ChromaticHue(red, green, blue, blue) <= 6.0
  {
    var mx := MaxChannel(RGB(red, green, blue));
    var d := mx - MinChannel(RGB(red, green, blue));
    if mx == red {
      SignedDivBounds(green - blue, d);
      if green < blue {
        assert (green - blue) / d < 0.0 by { SignedDivNegative(green - blue, d); }
      } else {
        DivBounds(green - blue, d);
      }
    } else if mx == green {
      SignedDivBounds(blue - red, d);
    } else {
      SignedDivBounds(red - green, d);
    }
  }

  lemma SignedDivNegative(x: real, y: real)
    requires x < 0.0 && y > 0.0
    ensures x / y < 0.0
  {
  }

  lemma RgbUnfold(c: HSBColor)
    requires InUnit(c.hue) && c.hue < 1.0
    ensures Rgb(c) == SectorPermutation(Sector(c.hue), c.brightness, SectorP(c.brightness, c.saturation),
      SectorQ(c.brightness, c.saturation, SectorFraction(c.hue)), SectorT(c.brightness, c.saturation, SectorFraction(c.hue)))
  {
    SectorBounds(c.hue);
    assert SwiftRem(Sector(c.hue), 6) == Sector(c.hue);
  }

  lemma SectorValueForms(b: real, s: real, f: real)
    ensures SectorP(b, s) == b - b * s
    ensures SectorQ(b, s, f) == b - f * (b * s)
    ensures SectorT(b, s, f) == b - b * s + f * (b * s)
  {
  }

  /** With `blue` already in range the unclamped read is harmless: the result
      equals the one for clamped red and green. */
  lemma WithRGBClampsInputs(c: HSBColor, red: real, green: real, blue: real)
    requires InUnit(blue)
    ensures WithRGB(c, red, green, blue) == WithRGB(c, Clamp01(red), Clamp01(green), blue)
  {
  }

  /** ... but an out-of-range `blue` is not equivalent to its clamp: the red
      branch subtracts the raw value. Clamped first, blue -1 would be blue 0
      and the hue 0.5/6; the code gives hue 1.5/6. */
  lemma WithRGBReadsRawBlue(c: HSBColor)
    requires Valid(c)
    ensures WithRGB(c, 1.0, 0.5, -1.0).hue == 0.25
    ensures WithRGB(c, 1.0, 0.5, 0.0).hue == 0.5 / 6.0
    ensures WithRGB(c, 1.0, 0.5, -1.0) != WithRGB(c, 1.0, 0.5, Clamp01(-1.0))
  {
    assert ChromaticHue(1.0, 0.5, 0.0, -1.0) == 1.5;
    assert ChromaticHue(1.0, 0.5, 0.0, 0.0) == 0.5;
  }

  /** What `withRGB` makes of an in-range triple: a colour whose `rgb` is the
      triple when it is not grey, and for a grey of level `v` the receiver's
      hue and alpha with brightness `v` and saturation `1 - v`. */
  predicate ConvertedFromRGB(c: HSBColor, r: HSBColor, rgb: RGB) {
    && (MaxChannel(rgb) != MinChannel(rgb) ==> Rgb(r) == rgb)
    && (MaxChannel(rgb) == MinChannel(rgb) ==> r == HSBColor(c.hue, 1.0 - rgb.red, rgb.red, c.alpha))
  }

  /** `withRed(_:)`: the colour's RGB with the red channel replaced. */
  function WithRed(c: HSBColor, red: real): (r: HSBColor)
    ensures Valid(r)
    ensures Valid(c) ==> r.alpha == c.alpha
    ensures Valid(c) && InUnit(red) ==> ConvertedFromRGB(c, r, RGB(red, Rgb(c).green, Rgb(c).blue))
  {
    var rgb := Rgb(c);
    if Valid(c) && InUnit(red) then
      WithRGBResult(c, RGB(red, rgb.green, rgb.blue));
      WithRGB(c, red, rgb.green, rgb.blue)
    else
      WithRGB(c, red, rgb.green, rgb.blue)
  }

  /** `withGreen(_:)`: the colour's RGB with the green channel replaced. */
  function WithGreen(c: HSBColor, green: real): (r: HSBColor)
    ensures Valid(r)
    ensures Valid(c) ==> r.alpha == c.alpha
    ensures Valid(c) && InUnit(green) ==> ConvertedFromRGB(c, r, RGB(Rgb(c).red, green, Rgb(c).blue))
  {
    var rgb := Rgb(c);
    if Valid(c) && InUnit(green) then
      WithRGBResult(c, RGB(rgb.red, green, rgb.blue));
      WithRGB(c, rgb.red, green, rgb.blue)
    else
      WithRGB(c, rgb.red, green, rgb.blue)
  }

  /** `withBlue(_:)`: the colour's RGB with the blue channel replaced. */
  function WithBlue(c: HSBColor, blue: real): (r: HSBColor)
    ensures Valid(r)
    ensures Valid(c) ==> r.alpha == c.alpha
    ensures Valid(c) && InUnit(blue) ==> ConvertedFromRGB(c, r, RGB(Rgb(c).red, Rgb(c).green, blue))
  {
    var rgb := Rgb(c);
    if Valid(c) && InUnit(blue) then
      WithRGBResult(c, RGB(rgb.red, rgb.green, blue));
      WithRGB(c, rgb.red, rgb.green, blue)
    else
      WithRGB(c, rgb.red, rgb.green, blue)
  }

  /** One worked case: orange (1, 0.5, 0) with red lowered to 0.5 becomes the
      olive (0.5, 0.5, 0), hue 1/6 at half brightness. */
  lemma ChannelSetterExample()
    ensures Rgb(HSBColor(1.0 / 12.0, 1.0, 1.0, 1.0)) == RGB(1.0, 0.5, 0.0)
    ensures WithRed(HSBColor(1.0 / 12.0, 1.0, 1.0, 1.0), 0.5) == HSBColor(1.0 / 6.0, 1.0, 0.5, 1.0)
    ensures Rgb(HSBColor(1.0 / 6.0, 1.0, 0.5, 1.0)) == RGB(0.5, 0.5, 0.0)
  {
    var orange := HSBColor(1.0 / 12.0, 1.0, 1.0, 1.0);
    assert Sector(orange.hue) == 0 && SectorFraction(orange.hue) == 0.5;
    assert Rgb(orange) == RGB(1.0, 0.5, 0.0);
    assert ChromaticHue(0.5, 0.5, 0.0, 0.0) == 1.0;
    assert Sector(1.0 / 6.0) == 1 && SectorFraction(1.0 / 6.0) == 0.0;
  }

  /** The `==` operator: exact equality of all four components. */
  predicate Same(l: HSBColor, r: HSBColor) {
    l.hue == r.hue && l.saturation == r.saturation && l.brightness == r.brightness && l.alpha == r.alpha
  }

  /** `==` is structural equality: reflexive, symmetric, and blind to what the
      colour looks like: two greys of different hue differ. */
  lemma SameIsStructural(l: HSBColor, r: HSBColor)
    ensures Same(l, r) <==> l == r
    ensures Same(l, l)
    ensures Same(l, r) ==> Same(r, l)
    ensures l.hue != r.hue ==> !Same(l, r)
    ensures !Same(HSBColor(0.0, 0.0, 0.5, 1.0), HSBColor(0.5, 0.0, 0.5, 1.0))
  {
  }

  // ---------------------------------------------------------------------
  // Round trip: a chromatic colour converted to RGB and back is itself.
  // ---------------------------------------------------------------------

  /** The hue formula recovers `sector + fd/d` from the permutation of one
      sector, written with `d = brightness * saturation` and `fd = f * d`:
      p = b - d, q = b - fd, t = b - d + fd. */
  lemma SectorHue(k: int, b: real, d: real, fd: real, rgb: RGB)
    requires 0 <= k <= 5
    requires 0.0 <= fd < d <= b
    requires rgb == SectorPermutation(k, b, b - d, b - fd, b - d + fd)
    ensures MaxChannel(rgb) == b
    ensures MinChannel(rgb) == b - d
    ensures MaxChannel(rgb) != MinChannel(rgb)
    ensures ChromaticHue(rgb.red, rgb.green, rgb.blue, rgb.blue) == k as real + fd / d
  {
    if k == 0 {
      SectorHue0(b, d, fd);
    } else if k == 1 {
      SectorHue1(b, d, fd);
    } else if k == 2 {
      SectorHue2(b, d, fd);
    } else if k == 3 {
      SectorHue3(b, d, fd);
    } else if k == 4 {
      SectorHue4(b, d, fd);
    } else {
      SectorHue5(b, d, fd);
    }
  }

  lemma DivShift(x: real, d: real)
    requires d != 0.0
    ensures (x - d) / d == x / d - 1.0
  {
    var q := x / d;
    assert q * d == x;
    DivOf(x - d, q - 1.0, d);
  }

  lemma SectorHue0(b: real, d: real, fd: real)
    requires 0.0 <= fd < d <= b
    ensures var rgb := RGB(b, b - d + fd, b - d);
            && MaxChannel(rgb) == b && MinChannel(rgb) == b - d
            && ChromaticHue(rgb.red, rgb.green, rgb.blue, rgb.blue) == fd / d
  {
    assert b - d + fd - (b - d) == fd;
  }

  lemma SectorHue1(b: real, d: real, fd: real)
    requires 0.0 <= fd < d <= b
    ensures var rgb := RGB(b - fd, b, b - d);
            && MaxChannel(rgb) == b && MinChannel(rgb) == b - d
            && ChromaticHue(rgb.red, rgb.green, rgb.blue, rgb.blue) == 1.0 + fd / d
  {
    if fd == 0.0 {
      DivOf(fd, 0.0, d);
      DivOf(b - (b - d), 1.0, d);
    } else {
      DivShift(fd, d);
    }
  }

  lemma SectorHue2(b: real, d: real, fd: real)
    requires 0.0 <= fd < d <= b
    ensures var rgb := RGB(b - d, b, b - d + fd);
            && MaxChannel(rgb) == b && MinChannel(rgb) == b - d
            && ChromaticHue(rgb.red, rgb.green, rgb.blue, rgb.blue) == 2.0 + fd / d
  {
    assert b - d + fd - (b - d) == fd;
  }

  lemma SectorHue3(b: real, d: real, fd: real)
    requires 0.0 <= fd < d <= b
    ensures var rgb := RGB(b - d, b - fd, b);
            && MaxChannel(rgb) == b && MinChannel(rgb) == b - d
            && ChromaticHue(rgb.red, rgb.green, rgb.blue, rgb.blue) == 3.0 + fd / d
  {
    if fd == 0.0 {
      DivOf(fd, 0.0, d);
      DivOf(b - (b - d), 1.0, d);
    } else {
      DivShift(fd, d);
    }
  }

  lemma SectorHue4(b: real, d: real, fd: real)
    requires 0.0 <= fd < d <= b
    ensures var rgb := RGB(b - d + fd, b - d, b);
            && MaxChannel(rgb) == b && MinChannel(rgb) == b - d
            && ChromaticHue(rgb.red, rgb.green, rgb.blue, rgb.blue) == 4.0 + fd / d
  {
    assert b - d + fd - (b - d) == fd;
  }

  lemma SectorHue5(b: real, d: real, fd: real)
    requires 0.0 <= fd < d <= b
    ensures var rgb := RGB(b, b - d, b - fd);
            && MaxChannel(rgb) == b && MinChannel(rgb) == b - d
            && ChromaticHue(rgb.red, rgb.green, rgb.blue, rgb.blue) == 5.0 + fd / d
  {
    DivShift(fd, d);
  }

  /** The round trip in one hue sector: the RGB of a chromatic colour has
      maximum `brightness`, minimum `brightness * (1 - saturation)`, and its
      hue formula gives back `6 * hue`. */
  lemma {:induction false} RoundTripInSector(c: HSBColor)
    requires Valid(c)
    requires c.hue < 1.0 && c.saturation > 0.0 && c.brightness > 0.0
    ensures var rgb := Rgb(c);
            && MaxChannel(rgb) == c.brightness
            && MaxChannel(rgb) != MinChannel(rgb)
            && ChromaticHue(rgb.red, rgb.green, rgb.blue, rgb.blue) == c.hue * 6.0
  {
    SectorBounds(c.hue);
    RgbUnfold(c);
    SectorRoundTrip(c.hue, Sector(c.hue), SectorFraction(c.hue), c.brightness, c.saturation, Rgb(c));
  }

  /** The same in terms of the sector `k` and the fraction `f` alone. */
  lemma SectorRoundTrip(hue: real, k: int, f: real, b: real, s: real, rgb: RGB)
    requires 0 <= k <= 5 && 0.0 <= f < 1.0 && hue * 6.0 == k as real + f
    requires 0.0 < b <= 1.0 && 0.0 < s <= 1.0
    requires rgb == SectorPermutation(k, b, SectorP(b, s), SectorQ(b, s, f), SectorT(b, s, f))
    ensures MaxChannel(rgb) == b
    ensures MinChannel(rgb) == b * (1.0 - s)
    ensures MaxChannel(rgb) != MinChannel(rgb)
    ensures ChromaticHue(rgb.red, rgb.green, rgb.blue, rgb.blue) == hue * 6.0
  {
    SectorTerms(b, s, f);
    SectorHue(k, b, b * s, f * (b * s), rgb);
  }

  /** The arithmetic behind the sector values, with `d = b * s` and `fd = f * d`. */
  lemma SectorTerms(b: real, s: real, f: real)
    requires 0.0 <= f < 1.0
    requires 0.0 < b <= 1.0 && 0.0 < s <= 1.0
    ensures 0.0 <= f * (b * s) < b * s <= b
    ensures f * (b * s) / (b * s) == f
    ensures b * (1.0 - s) == b - b * s
    ensures SectorP(b, s) == b - b * s
    ensures SectorQ(b, s, f) == b - f * (b * s)
    ensures SectorT(b, s, f) == b - b * s + f * (b * s)
  {
    var d := b * s;
    SpreadBounds(b, s);
    SectorValueForms(b, s, f);
    var fd := f * d;
    assert 0.0 <= fd < d by {
      MulBetween(d, f, 0.0, 1.0);
      MulPositive(d, 1.0 - f);
      assert d * (1.0 - f) == d - fd;
    }
    DivOf(fd, f, d);
  }

  lemma SpreadBounds(b: real, s: real)
    requires 0.0 < b <= 1.0 && 0.0 < s <= 1.0
    ensures 0.0 < b * s <= b
  {
    MulBetween(b, s, 0.0, 1.0);
    MulPositive(b, s);
  }

  /** The documented promise "can be directly converted to and from RGB":
      `c.withRGB(c.rgb) == c` for every valid chromatic colour (hue below 1,
      saturation and brightness above 0). */
  lemma {:induction false} RgbRoundTrip(c: HSBColor)
    requires Valid(c)
    requires c.hue < 1.0 && c.saturation > 0.0 && c.brightness > 0.0
    ensures WithRGB(c, Rgb(c).red, Rgb(c).green, Rgb(c).blue) == c
  {
    RoundTripInSector(c);
    WithRGBRecovers(c, Rgb(c));
  }

  /** Any in-range RGB triple with maximum `brightness`, minimum
      `brightness * (1 - saturation)` and hue formula `6 * hue` converts back
      to exactly `c`. */
  lemma WithRGBRecovers(c: HSBColor, rgb: RGB)
    requires Valid(c)
    requires c.hue < 1.0 && c.saturation > 0.0 && c.brightness > 0.0
    requires UnitRGB(rgb)
    requires MaxChannel(rgb) == c.brightness
    requires MinChannel(rgb) == c.brightness * (1.0 - c.saturation)
    requires MaxChannel(rgb) != MinChannel(rgb)
    requires ChromaticHue(rgb.red, rgb.green, rgb.blue, rgb.blue) == c.hue * 6.0
    ensures WithRGB(c, rgb.red, rgb.green, rgb.blue) == c
  {
    SaturationRecovered(c.brightness, c.saturation, MinChannel(rgb));
    WithRGBChromatic(c, rgb.red, rgb.green, rgb.blue);
  }

  lemma SaturationRecovered(b: real, s: real, mn: real)
    requires b > 0.0
    requires mn == b * (1.0 - s)
    ensures (b - mn) / b == s
  {
    assert b - mn == s * b;
    DivCancel(s, b);
  }

  /** Every in-range, non-grey triple is the permutation of one hue sector:
      with `mx` its largest channel and `d` its spread, it is
      `SectorPermutation(k, mx, mx - d, mx - fd, mx - d + fd)` for a sector
      `k` and an offset `0 <= fd < d`. */
  lemma SectorOf(rgb: RGB) returns (k: int, fd: real)
    requires UnitRGB(rgb)
    requires MaxChannel(rgb) != MinChannel(rgb)
    ensures 0 <= k <= 5
    ensures 0.0 <= fd < MaxChannel(rgb) - MinChannel(rgb)
    ensures var mx := MaxChannel(rgb);
            var d := mx - MinChannel(rgb);
            rgb == SectorPermutation(k, mx, mx - d, mx - fd, mx - d + fd)
  {
    var mx := MaxChannel(rgb);
    var mn := MinChannel(rgb);
    if rgb.red == mx {
      if rgb.green == mx {
        k, fd := 1, 0.0;
      } else if rgb.green >= rgb.blue {
        k, fd := 0, rgb.green - mn;
      } else {
        k, fd := 5, mx - rgb.blue;
      }
    } else if rgb.green == mx {
      if rgb.red > rgb.blue {
        k, fd := 1, mx - rgb.red;
      } else if rgb.blue == mx {
        k, fd := 3, 0.0;
      } else {
        k, fd := 2, rgb.blue - mn;
      }
    } else if rgb.green > rgb.red {
      k, fd := 3, mx - rgb.green;
    } else {
      k, fd := 4, rgb.red - mn;
    }
  }

  /** The converse round trip: `withRGB` of an in-range, non-grey triple is a
      colour whose `rgb` is that triple again. */
  lemma RgbOfWithRGB(c: HSBColor, rgb: RGB)
    requires Valid(c)
    requires UnitRGB(rgb)
    requires MaxChannel(rgb) != MinChannel(rgb)
    ensures Rgb(WithRGB(c, rgb.red, rgb.green, rgb.blue)) == rgb
  {
    var k, fd := SectorOf(rgb);
    var mx := MaxChannel(rgb);
    var d := mx - MinChannel(rgb);
    SectorHue(k, mx, d, fd, rgb);
    WithRGBChromatic(c, rgb.red, rgb.green, rgb.blue);
    var r := WithRGB(c, rgb.red, rgb.green, rgb.blue);
    assert r.brightness == mx && r.saturation == d / mx;
    assert r.hue == (k as real + fd / d) / 6.0;
    SectorColorRgb(r, k, fd, d, rgb);
  }

  lemma SectorColorRgb(h: HSBColor, k: int, fd: real, d: real, rgb: RGB)
    requires 0 <= k <= 5
    requires 0.0 <= fd < d <= h.brightness
    requires h.hue == (k as real + fd / d) / 6.0
    requires h.saturation == d / h.brightness
    requires rgb == SectorPermutation(k, h.brightness, h.brightness - d, h.brightness - fd, h.brightness - d + fd)
    ensures Rgb(h) == rgb
  {
    FractionBelowOne(fd, d);
    DivTimes(d, h.brightness);
    RgbOfSectorColor(h, k, fd / d, d);
  }

  /** A colour whose hue lies `f` of the way through sector `k` and whose
      spread `brightness * saturation` is `d` shows the sector's permutation. */
  lemma RgbOfSectorColor(h: HSBColor, k: int, f: real, d: real)
    requires 0 <= k <= 5
    requires 0.0 <= f < 1.0
    requires h.hue == (k as real + f) / 6.0
    requires h.brightness * h.saturation == d
    ensures Rgb(h) == SectorPermutation(k, h.brightness, h.brightness - d, h.brightness - f * d, h.brightness - d + f * d)
  {
    assert h.hue * 6.0 == k as real + f;
    assert Sector(h.hue) == k;
    assert SectorFraction(h.hue) == f;
    RgbUnfold(h);
    SectorValueForms(h.brightness, h.saturation, f);
  }

  lemma FractionBelowOne(x: real, d: real)
    requires 0.0 <= x < d
    ensures 0.0 <= x / d < 1.0
    ensures x / d * d == x
  {
  }

  lemma DivTimes(x: real, d: real)
    requires d != 0.0
    ensures d * (x / d) == x
  {
  }

  /** `withRGB` on any in-range triple, grey or not. */
  lemma WithRGBResult(c: HSBColor, rgb: RGB)
    requires Valid(c)
    requires UnitRGB(rgb)
    ensures ConvertedFromRGB(c, WithRGB(c, rgb.red, rgb.green, rgb.blue), rgb)
  {
    if MaxChannel(rgb) != MinChannel(rgb) {
      RgbOfWithRGB(c, rgb);
    } else {
      WithRGBAchromatic(c, rgb.red);
    }
  }

  /** The slider-facing form: re-applying a colour's own red (green, blue)
      channel gives the colour back. */
  lemma ChannelSetterRoundTrip(c: HSBColor)
    requires Valid(c)
    requires c.hue < 1.0 && c.saturation > 0.0 && c.brightness > 0.0
    ensures WithRed(c, Rgb(c).red) == c
    ensures WithGreen(c, Rgb(c).green) == c
    ensures WithBlue(c, Rgb(c).blue) == c
  {
    RgbRoundTrip(c);
  }

  /** For an achromatic colour the hue is kept across the round trip, but the
      saturation becomes `1 - brightness`. */
  lemma AchromaticRoundTrip(c: HSBColor)
    requires Valid(c)
    requires c.saturation == 0.0
    ensures WithRGB(c, Rgb(c).red, Rgb(c).green, Rgb(c).blue) == HSBColor(c.hue, 1.0 - c.brightness, c.brightness, c.alpha)
  {
    WithRGBAchromatic(c, c.brightness);
  }
}
