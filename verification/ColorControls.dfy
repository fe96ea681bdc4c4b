/**
 The widget contract every colour control follows (`ColorControl`) and the
 storage the library's base class gives it (`AbstractColorControl`), as the
 picker sees a control: its selected colour, whether its confirm action
 counts, and the calls of `setSelectedHSBColor` it has received so far.
 `UIColor` conversions are foreign and taken as the identity on colours, so
 `selectedColor` is the HSB colour itself.
 */
module ColorControls {
  import opened HSB

  /** One call of `setSelectedHSBColor(_:isInteractive:)`. */
  datatype Push = Push(color: HSBColor, interactive: bool)

  /** The `UIControl.Event`s the picker listens to. */
  datatype ControlEvent = ValueChanged | PrimaryActionTriggered

  datatype Control = Control(selected: HSBColor, canConfirm: bool, received: seq<Push>)

  /** The protocol's default for `canConfirmColor`; a control type may
      override it with `false`. */
  const DefaultCanConfirm: bool := true

  /** A freshly created control: it holds the library default, white, and
      has received nothing. */
  function NewControl(canConfirm: bool): (c: Control)
    ensures c.selected == White && c.canConfirm == canConfirm && c.received == []
  {
    Control(White, canConfirm, [])
  }

  /** `setSelectedHSBColor(_:isInteractive:)` of the base class: the colour is
      stored exactly as given, whatever the interactive flag. */
  function SetSelectedHSBColor(c: Control, color: HSBColor, interactive: bool): (r: Control)
    ensures r.selected == color && r.canConfirm == c.canConfirm
    ensures r.received == c.received + [Push(color, interactive)]
  {
    c.(selected := color, received := c.received + [Push(color, interactive)])
  }

  /** The interactive flag makes no difference to what is stored. */
  lemma InteractiveFlagIgnored(c: Control, color: HSBColor)
    ensures SetSelectedHSBColor(c, color, true).selected == SetSelectedHSBColor(c, color, false).selected
    ensures SetSelectedHSBColor(c, color, true).canConfirm == SetSelectedHSBColor(c, color, false).canConfirm
  {
  }

  /** The `selectedColor` getter, of the protocol and of the base class: the
      stored colour. */
  function SelectedColor(c: Control): HSBColor {
    c.selected
  }

  /** The protocol's default `selectedColor` setter. It calls
      `setSelectedHSBColor` non-interactively, but with the colour the control
      already holds rather than with the new value. */
  function DefaultSelectedColorSetter(c: Control, newValue: HSBColor): (r: Control)
    ensures r.selected == c.selected
    ensures r.received == c.received + [Push(c.selected, false)]
  {
    SetSelectedHSBColor(c, SelectedColor(c), false)
  }

  /** So the documented promise, that setting `selectedColor` is reflected in
      `selectedHSBColor`, fails for every new value that differs from the
      current one. */
  lemma DefaultSetterIgnoresNewValue(c: Control, newValue: HSBColor)
    ensures SelectedColor(DefaultSelectedColorSetter(c, newValue)) == newValue <==> newValue == c.selected
  {
  }

  /** The base class's own `selectedColor` setter stores the new value but
      bypasses `setSelectedHSBColor`, so no subclass refresh runs. */
  function AbstractSelectedColorSetter(c: Control, newValue: HSBColor): (r: Control)
    ensures SelectedColor(r) == newValue
    ensures r.received == c.received && r.canConfirm == c.canConfirm
  {
    c.(selected := newValue)
  }

  /** The two setters agree on what is stored only when nothing changes, and
      neither reaches the control the way `setSelectedHSBColor` does with the
      new value. */
  lemma SettersDisagree(c: Control, newValue: HSBColor)
    ensures AbstractSelectedColorSetter(c, newValue).selected == DefaultSelectedColorSetter(c, newValue).selected
      <==> newValue == c.selected
    ensures AbstractSelectedColorSetter(c, newValue) != SetSelectedHSBColor(c, newValue, false)
  {
    assert |SetSelectedHSBColor(c, newValue, false).received| == |c.received| + 1;
  }
}
