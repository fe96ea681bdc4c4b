/**
 The free colour functions of the library's `UIColor` extension: the
 six-sector HSB to RGB conversion, byte quantisation of a colour component,
 hexadecimal formatting of an RGBA colour and the simple contrast measure.
 `UIColor` itself is foreign; an RGBA colour is a plain record here.
 */
module ColorMath {
  import opened RealMath

  datatype RGB = RGB(red: real, green: real, blue: real)

  datatype RGBA = RGBA(red: real, green: real, blue: real, alpha: real)

  predicate UnitRGB(c: RGB) {
    InUnit(c.red) && InUnit(c.green) && InUnit(c.blue)
  }

  function MaxChannel(c: RGB): real {
    Max(c.red, Max(c.green, c.blue))
  }

  function MinChannel(c: RGB): real {
    Min(c.red, Min(c.green, c.blue))
  }

  /** The hue sector `Int(hue * 6)` and the position `f` inside it. */
  function Sector(hue: real): int {
    Trunc(hue * 6.0)
  }

  function SectorFraction(hue: real): real {
    hue * 6.0 - Sector(hue) as real
  }

  lemma SectorBounds(hue: real)
    requires InUnit(hue)
    ensures 0 <= Sector(hue) <= 6
    ensures 0.0 <= SectorFraction(hue) < 1.0
    ensures Sector(hue) == 6 <==> hue == 1.0
    ensures Sector(hue) == 6 ==> SectorFraction(hue) == 0.0
  {
  }

  /** HSB to RGB over six hue sectors. Sector `Int(hue * 6) % 6` picks which
      permutation of {brightness, p, q, t} is returned. */
  function RgbFrom(hue: real, saturation: real, brightness: real): (c: RGB)
    ensures InUnit(hue) && InUnit(saturation) && InUnit(brightness) ==>
      && UnitRGB(c)
      && MaxChannel(c) == brightness
      && MinChannel(c) == brightness * (1.0 - saturation)
    ensures saturation == 0.0 ==> c == RGB(brightness, brightness, brightness)
  {
    var hPrime := Sector(hue);
    var f := SectorFraction(hue);
    var p := SectorP(brightness, saturation);
    var q := SectorQ(brightness, saturation, f);
    var t := SectorT(brightness, saturation, f);
    assert InUnit(hue) && InUnit(saturation) && InUnit(brightness) ==> 0.0 <= p <= q <= brightness && p <= t <= brightness by {
      if InUnit(hue) && InUnit(saturation) && InUnit(brightness) {
        SectorBounds(hue);
        SectorValuesOrdered(brightness, saturation, f);
      }
    }
    assert saturation == 0.0 ==> p == brightness && q == brightness && t == brightness;
    var r := SectorPermutation(SwiftRem(hPrime, 6), brightness, p, q, t);
    SectorPermutationExtremes(SwiftRem(hPrime, 6), brightness, p, q, t);
    r
  }

  /** The three derived values of the sector algorithm. */
  function SectorP(b: real, s: real): real {
    b * (1.0 - s)
  }

  function SectorQ(b: real, s: real, f: real): real {
    b * (1.0 - f * s)
  }

  function SectorT(b: real, s: real, f: real): real {
    b * (1.0 - (1.0 - f) * s)
  }

  /** In every sector p <= q, t <= brightness. */
  lemma SectorValuesOrdered(b: real, s: real, f: real)
    requires InUnit(b) && InUnit(s) && InUnit(f)
    ensures 0.0 <= SectorP(b, s) <= SectorQ(b, s, f) <= b
    ensures SectorP(b, s) <= SectorT(b, s, f) <= b
  {
    MulBetween(s, f, 0.0, 1.0);
    assert f * s <= s;
    MulBetween(s, 1.0 - f, 0.0, 1.0);
    assert (1.0 - f) * s <= s;
    MulBetween(b, 1.0 - f * s, 1.0 - s, 1.0);
    MulBetween(b, 1.0 - (1.0 - f) * s, 1.0 - s, 1.0);
    MulBetween(b, 1.0 - s, 0.0, 1.0);
  }

  lemma SectorPermutationExtremes(sector: int, v: real, p: real, q: real, t: real)
    ensures var c := SectorPermutation(sector, v, p, q, t);
            0.0 <= p <= q <= v && p <= t <= v ==> MaxChannel(c) == v && MinChannel(c) == p
  {
  }

  /** Which of the four values goes to which channel in each hue sector. */
  function SectorPermutation(sector: int, v: real, p: real, q: real, t: real): RGB {
    match sector
    case 0 => RGB(v, t, p)
    case 1 => RGB(q, v, p)
    case 2 => RGB(p, v, t)
    case 3 => RGB(p, q, v)
    case 4 => RGB(t, p, v)
    case _ => RGB(v, p, q)
  }

  /** Hue 1 lands in sector 6, which wraps to sector 0 with f = 0: the same
      colour as hue 0. */
  lemma HueOneWrapsToZero(saturation: real, brightness: real)
    ensures RgbFrom(1.0, saturation, brightness) == RgbFrom(0.0, saturation, brightness)
    ensures RgbFrom(0.0, saturation, brightness) ==
      RGB(brightness, brightness * (1.0 - saturation), brightness * (1.0 - saturation))
  {
    assert Sector(1.0) == 6 && SectorFraction(1.0) == 0.0;
    assert Sector(0.0) == 0 && SectorFraction(0.0) == 0.0;
  }

  /** `UInt8(max(0, min(255, round(255 * component))))`. */
  function ColorComponentToUInt8(component: real): (b: int)
    ensures 0 <= b <= 255
    ensures InUnit(component) ==> b == Round(255.0 * component)
    ensures component <= 0.0 ==> b == 0
    ensures component >= 1.0 ==> b == 255
  {
    var r := Round(255.0 * component);
    if r < 0 then 0 else if r > 255 then 255 else r
  }

  const HexDigits: string := "0123456789ABCDEF"

  predicate IsHexDigit(ch: char) {
    ch in HexDigits
  }

  function HexDigit(n: int): char
    requires 0 <= n < 16
  {
    HexDigits[n]
  }

  /** The value of an upper-case hexadecimal digit, the inverse of `HexDigit`. */
  function DigitValue(ch: char): (n: int)
    ensures 0 <= n < 16
    ensures IsHexDigit(ch) ==> HexDigit(n) == ch
  {
    if '0' <= ch <= '9' then ch as int - '0' as int
    else if 'A' <= ch <= 'F' then ch as int - 'A' as int + 10
    else 0
  }

  /** `%02lX` of one byte: two upper-case digits, zero padded. */
  function HexByte(n: int): (s: string)
    requires 0 <= n < 256
    ensures |s| == 2 && AllHexDigits(s)
  {
    [HexDigit(n / 16), HexDigit(n % 16)]
  }

  function ParseHexByte(s: string): int
    requires |s| == 2
  {
    16 * DigitValue(s[0]) + DigitValue(s[1])
  }

  lemma HexByteRoundTrip(n: int)
    requires 0 <= n < 256
    ensures ParseHexByte(HexByte(n)) == n
  {
    DigitRoundTrip(n / 16);
    DigitRoundTrip(n % 16);
  }

  lemma DigitRoundTrip(k: int)
    requires 0 <= k < 16
    ensures DigitValue(HexDigit(k)) == k
  {
  }

  predicate AllHexDigits(s: string) {
    forall i :: 0 <= i < |s| ==> IsHexDigit(s[i])
  }

  lemma AllHexDigitsConcat(a: string, b: string)
    requires AllHexDigits(a) && AllHexDigits(b)
    ensures AllHexDigits(a + b)
  {
    forall i | 0 <= i < |a + b| ensures IsHexDigit((a + b)[i]) {
      if i < |a| {
        assert (a + b)[i] == a[i];
      } else {
        assert (a + b)[i] == b[i - |a|];
      }
    }
  }

  /** Where each two-digit group sits in `r + g + b` and `r + g + b + a`. */
  lemma HexLayout(r: string, g: string, b: string, a: string)
    requires |r| == 2 && |g| == 2 && |b| == 2 && |a| == 2
    requires AllHexDigits(r) && AllHexDigits(g) && AllHexDigits(b) && AllHexDigits(a)
    ensures AllHexDigits(r + g + b) && AllHexDigits(r + g + b + a)
    ensures (r + g + b)[0..2] == r && (r + g + b)[2..4] == g && (r + g + b)[4..6] == b
    ensures (r + g + b + a)[0..2] == r && (r + g + b + a)[2..4] == g
    ensures (r + g + b + a)[4..6] == b && (r + g + b + a)[6..8] == a
  {
    AllHexDigitsConcat(r, g);
    AllHexDigitsConcat(r + g, b);
    AllHexDigitsConcat(r + g + b, a);
  }

  /** `hexValue(alwaysIncludeAlpha:)` over an RGBA colour: the bytes R, G, B
      and, unless the colour is opaque and the alpha byte was not asked for,
      A, each as two upper-case hex digits. */
  function HexValue(c: RGBA, alwaysIncludeAlpha: bool): (s: string)
    ensures |s| == (if c.alpha == 1.0 && !alwaysIncludeAlpha then 6 else 8)
    ensures AllHexDigits(s)
    ensures ParseHexByte(s[0..2]) == ColorComponentToUInt8(c.red)
    ensures ParseHexByte(s[2..4]) == ColorComponentToUInt8(c.green)
    ensures ParseHexByte(s[4..6]) == ColorComponentToUInt8(c.blue)
    ensures |s| == 8 ==> ParseHexByte(s[6..8]) == ColorComponentToUInt8(c.alpha)
  {
    var red := ColorComponentToUInt8(c.red);
    var green := ColorComponentToUInt8(c.green);
    var blue := ColorComponentToUInt8(c.blue);
    var alpha := ColorComponentToUInt8(c.alpha);
    HexByteRoundTrip(red);
    HexByteRoundTrip(green);
    HexByteRoundTrip(blue);
    HexByteRoundTrip(alpha);
    HexLayout(HexByte(red), HexByte(green), HexByte(blue), HexByte(alpha));
    var head := HexByte(red) + HexByte(green) + HexByte(blue);
    if c.alpha == 1.0 && !alwaysIncludeAlpha then head else head + HexByte(alpha)
  }

  lemma ExtremeBytes()
    ensures ColorComponentToUInt8(1.0) == 255 && ColorComponentToUInt8(0.0) == 0
    ensures HexByte(255) == "FF" && HexByte(0) == "00"
  {
  }

  /** Examples of the documented formatting: opaque colours print six
      digits unless the alpha byte is asked for, translucent ones eight. */
  lemma HexValueExamples()
    ensures HexValue(RGBA(0.0, 0.0, 0.0, 1.0), false) == "000000"
    ensures HexValue(RGBA(1.0, 0.0, 0.0, 1.0), false) == "FF0000"
    ensures HexValue(RGBA(1.0, 0.0, 0.0, 1.0), true) == "FF0000FF"
    ensures HexValue(RGBA(0.0, 1.0, 0.0, 0.0), false) == "00FF0000"
  {
    ExtremeBytes();
    assert "00" + "00" + "00" == "000000";
    assert "FF" + "00" + "00" == "FF0000";
    assert "FF" + "00" + "00" + "FF" == "FF0000FF";
    assert "00" + "FF" + "00" + "00" == "00FF0000";
  }

  /** `constrastRatio(with:)`: the mean absolute channel difference. */
  function ContrastRatio(c1: RGB, c2: RGB): real {
    (Abs(c1.red - c2.red) + Abs(c1.green - c2.green) + Abs(c1.blue - c2.blue)) / 3.0
  }

  predicate IsBinary(x: real) {
    x == 0.0 || x == 1.0
  }

  /** The contrast measure is a symmetric, zero-on-the-diagonal value in [0, 1]. */
  lemma ContrastRatioProperties(c1: RGB, c2: RGB)
    ensures ContrastRatio(c1, c2) == ContrastRatio(c2, c1)
    ensures ContrastRatio(c1, c1) == 0.0
    ensures ContrastRatio(c1, c2) >= 0.0
    ensures UnitRGB(c1) && UnitRGB(c2) ==> ContrastRatio(c1, c2) <= 1.0
  {
    assert Abs(c1.red - c2.red) == Abs(c2.red - c1.red);
    assert Abs(c1.green - c2.green) == Abs(c2.green - c1.green);
    assert Abs(c1.blue - c2.blue) == Abs(c2.blue - c1.blue);
  }

  /** The maximum 1 is reached exactly by pairs of complementary colours
      whose channels are all 0 or 1: black against white, but equally
      green against magenta. */
  lemma ContrastRatioMaximum(c1: RGB, c2: RGB)
    requires UnitRGB(c1) && UnitRGB(c2)
    ensures ContrastRatio(c1, c2) == 1.0 <==>
      && IsBinary(c1.red) && IsBinary(c1.green) && IsBinary(c1.blue)
      && c2 == RGB(1.0 - c1.red, 1.0 - c1.green, 1.0 - c1.blue)
  {
  }

  lemma ContrastRatioNotOnlyBlackWhite()
    ensures ContrastRatio(RGB(0.0, 1.0, 0.0), RGB(1.0, 0.0, 1.0)) == 1.0
    ensures ContrastRatio(RGB(0.0, 0.0, 0.0), RGB(1.0, 1.0, 1.0)) == 1.0
  {
  }
}
