/**
 `ColorPreviewWithHex`: a swatch of the selected colour above a label with
 its hex code. Tapping it confirms the colour: the control sends
 `primaryActionTriggered` when a touch ends inside it. The confirming
 animation is foreign; the event is taken as sent when the touch ends.
 */
module PreviewControl {
  import opened RealMath
  import opened Geometry
  import opened ColorMath
  import opened HSB
  import opened ColorControls

  /** `defaultHexLabelHeight` and `defaultCornerradius`. */
  const DefaultHexHeight: real := 20.0
  const DefaultCornerRadius: real := 5.0

  datatype Preview = Preview(
    selected: HSBColor,
    hexText: string,
    displayHex: bool,
    hexHeight: real,
    labelHeight: real,
    cornerRadius: real,
    bounds: Size,
    appliedCornerRadius: real,
    clipsToBounds: bool,
    tapToConfirm: bool,
    sent: seq<ControlEvent>)

  /** The colour's RGBA as `UIColor` reports it. */
  function Rgba(c: HSBColor): RGBA {
    var rgb := Rgb(c);
    RGBA(rgb.red, rgb.green, rgb.blue, c.alpha)
  }

  /** The label text for a colour: "#" followed by its hex code, six digits
      for an opaque colour and eight otherwise. */
  function HexLabel(c: RGBA): (s: string)
    ensures |s| == (if c.alpha == 1.0 then 7 else 9)
    ensures s[0] == '#' && AllHexDigits(s[1..])
    ensures ParseHexByte(s[1..3]) == ColorComponentToUInt8(c.red)
    ensures ParseHexByte(s[3..5]) == ColorComponentToUInt8(c.green)
    ensures ParseHexByte(s[5..7]) == ColorComponentToUInt8(c.blue)
    ensures |s| == 9 ==> ParseHexByte(s[7..9]) == ColorComponentToUInt8(c.alpha)
  {
    var hex := HexValue(c, false);
    SliceAfterMark(hex, 0, |hex|);
    SliceAfterMark(hex, 0, 2);
    SliceAfterMark(hex, 2, 4);
    SliceAfterMark(hex, 4, 6);
    if |hex| == 8 then
      SliceAfterMark(hex, 6, 8);
      "#" + hex
    else
      "#" + hex
  }

  lemma SliceAfterMark(hex: string, i: int, j: int)
    requires 0 <= i <= j <= |hex|
    ensures ("#" + hex)[i + 1..j + 1] == hex[i..j]
  {
  }

  /** `setSelectedHSBColor`: store the colour and show its label. */
  function SetSelectedHSBColor(p: Preview, color: HSBColor, interactive: bool): (r: Preview)
    ensures r.selected == color
    ensures r.hexText == HexLabel(Rgba(color))
    ensures r.sent == p.sent && r.tapToConfirm == p.tapToConfirm
  {
    p.(selected := color, hexText := HexLabel(Rgba(color)))
  }

  /** `updateLabelHeight`: the label takes `hexHeight` when shown and nothing
      when hidden. */
  function UpdateLabelHeight(p: Preview): (r: Preview)
    ensures r.labelHeight == (if p.displayHex then p.hexHeight else 0.0)
    ensures r.selected == p.selected && r.hexText == p.hexText
  {
    p.(labelHeight := if p.displayHex then p.hexHeight else 0.0)
  }

  /** Hiding the hex code frees the label's height, showing it takes
      `hexHeight`. */
  lemma LabelHeightFollowsDisplayHex(p: Preview, show: bool)
    ensures UpdateLabelHeight(p.(displayHex := show)).labelHeight == (if show then p.hexHeight else 0.0)
  {
  }

  /** `updateCornerRadius`: the radius applied is the configured one, but at
      most half of each side; clipping is switched on once it is positive and
      never switched off here. */
  function UpdateCornerRadius(p: Preview): (r: Preview)
    ensures r.appliedCornerRadius <= p.cornerRadius
    ensures r.appliedCornerRadius <= p.bounds.height / 2.0 && r.appliedCornerRadius <= p.bounds.width / 2.0
    ensures r.appliedCornerRadius == p.cornerRadius || r.appliedCornerRadius == p.bounds.height / 2.0
      || r.appliedCornerRadius == p.bounds.width / 2.0
    ensures r.clipsToBounds <==> p.clipsToBounds || r.appliedCornerRadius > 0.0
  {
    var radius := Min(Min(p.cornerRadius, p.bounds.height / 2.0), p.bounds.width / 2.0);
    p.(appliedCornerRadius := radius, clipsToBounds := p.clipsToBounds || radius > 0.0)
  }

  /** A very large corner radius turns a square preview into a circle. */
  lemma LargeRadiusMakesCircle(p: Preview)
    requires p.bounds.width == p.bounds.height > 0.0
    requires p.cornerRadius >= p.bounds.width / 2.0
    ensures UpdateCornerRadius(p).appliedCornerRadius == p.bounds.width / 2.0
    ensures UpdateCornerRadius(p).clipsToBounds
  {
  }

  /** The touches the preview handles. `Began` and `Ended` carry whether the
      touch lies inside the preview; `Ended(None)` is an end with no touch
      location. */
  datatype Touch = Began(inside: bool) | Ended(location: Option<bool>) | Cancelled

  /** One touch handler. A touch beginning outside is ignored, a touch ending
      inside confirms when `tapToConfirm` is on, and a cancelled touch never
      confirms. */
  function HandleTouch(p: Preview, touch: Touch): (r: Preview)
    ensures r.selected == p.selected && r.tapToConfirm == p.tapToConfirm
    ensures r.sent == p.sent || r.sent == p.sent + [PrimaryActionTriggered]
    ensures r.sent != p.sent <==> p.tapToConfirm && touch == Ended(Some(true))
  {
    match touch
    case Began(_) => p
    case Ended(location) =>
      if location.Some? && location.value && p.tapToConfirm then p.(sent := p.sent + [PrimaryActionTriggered])
      else p
    case Cancelled => p
  }

  /** Handling a sequence of touches in order. */
  function HandleTouches(p: Preview, touches: seq<Touch>): (r: Preview)
    decreases |touches|
  {
    if touches == [] then p else HandleTouches(HandleTouch(p, touches[0]), touches[1..])
  }

  /** The touches that end inside the preview. */
  function EndedInside(touches: seq<Touch>): nat {
    if touches == [] then 0
    else (if touches[0] == Ended(Some(true)) then 1 else 0) + EndedInside(touches[1..])
  }

  /** Over any sequence of touches, the preview confirms once per touch
      ending inside it when `tapToConfirm` is on, and never otherwise; it
      sends nothing but confirmations. */
  lemma {:induction false} ConfirmationsCount(p: Preview, touches: seq<Touch>)
    ensures var r := HandleTouches(p, touches);
      && |r.sent| == |p.sent| + (if p.tapToConfirm then EndedInside(touches) else 0)
      && r.sent[..|p.sent|] == p.sent
      && forall i :: |p.sent| <= i < |r.sent| ==> r.sent[i] == PrimaryActionTriggered
    decreases |touches|
  {
    if touches != [] {
      var q := HandleTouch(p, touches[0]);
      ConfirmationsCount(q, touches[1..]);
      var r := HandleTouches(q, touches[1..]);
      assert r.sent[..|q.sent|] == q.sent;
      assert r.sent[..|p.sent|] == r.sent[..|q.sent|][..|p.sent|];
    }
  }
}
