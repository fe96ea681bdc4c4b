/**
 `ColorPickerController`, the mediator that keeps several colour controls
 in step. It holds the canonical colour, the managed controls in the order
 they were added, and the target-action registrations it made on them; the
 calls it makes on its delegate are kept as a trace of events. Controls are
 named by identifiers, and the state of every control the program knows,
 managed or not, is in `widgets`.
 */
module Picker {
  import opened Geometry
  import opened HSB
  import opened ColorControls

  type ControlId = nat

  /** The two calls the picker makes on its delegate. */
  datatype DelegateEvent = Selected(origin: ControlId, color: HSBColor) | Confirmed(origin: ControlId, color: HSBColor)

  /** A target-action registration of the picker on one event of a control. */
  datatype Target = Target(control: ControlId, event: ControlEvent)

  datatype Picker = Picker(
    selected: HSBColor,
    controls: seq<ControlId>,
    targets: set<Target>,
    widgets: map<ControlId, Control>,
    events: seq<DelegateEvent>)

  /** Every managed control exists. */
  predicate Wired(p: Picker) {
    forall c :: c in p.controls ==> c in p.widgets
  }

  /** Every managed control shows the picker's colour. */
  predicate Synchronised(p: Picker)
    requires Wired(p)
  {
    forall c :: c in p.controls ==> p.widgets[c].selected == p.selected
  }

  /** A new picker: white, managing nothing, with no delegate calls made. */
  function Initial(widgets: map<ControlId, Control>): (p: Picker)
    ensures Wired(p) && Synchronised(p)
    ensures p.selected == White && p.controls == [] && p.targets == {} && p.events == []
  {
    Picker(White, [], {}, widgets, [])
  }

  /** How many times `c` occurs in `s`. */
  function Count(s: seq<ControlId>, c: ControlId): nat {
    if s == [] then 0 else Count(s[..|s| - 1], c) + (if s[|s| - 1] == c then 1 else 0)
  }

  lemma {:induction false} CountZero(s: seq<ControlId>, c: ControlId)
    ensures Count(s, c) == 0 <==> c !in s
  {
    if s != [] {
      CountZero(s[..|s| - 1], c);
      assert s == s[..|s| - 1] + [s[|s| - 1]];
    }
  }

  // ---------------------------------------------------------------------
  // Broadcasting a colour
  // ---------------------------------------------------------------------

  /** One iteration of the broadcast: the control, unless it is the one
      excepted, receives the colour. */
  function Deliver(w: map<ControlId, Control>, c: ControlId, color: HSBColor, except: Option<ControlId>, interactive: bool): map<ControlId, Control>
    requires c in w
  {
    if except == Some(c) then w else w[c := SetSelectedHSBColor(w[c], color, interactive)]
  }

  /** The broadcast over the controls `s`, in order. */
  function Broadcast(w: map<ControlId, Control>, s: seq<ControlId>, color: HSBColor, except: Option<ControlId>, interactive: bool): (r: map<ControlId, Control>)
    requires forall i :: 0 <= i < |s| ==> s[i] in w
    ensures r.Keys == w.Keys
  {
    if s == [] then w
    else Deliver(Broadcast(w, s[..|s| - 1], color, except, interactive), s[|s| - 1], color, except, interactive)
  }

  /** A control that is excepted or not broadcast to is left as it was; one
      that is receives the colour. */
  lemma {:induction false} BroadcastSelected(w: map<ControlId, Control>, s: seq<ControlId>, color: HSBColor, except: Option<ControlId>, interactive: bool, c: ControlId)
    requires forall i :: 0 <= i < |s| ==> s[i] in w
    requires c in w
    ensures var r := Broadcast(w, s, color, except, interactive);
      && (c !in s || except == Some(c) ==> r[c] == w[c])
      && (c in s && except != Some(c) ==> r[c].selected == color)
      && r[c].canConfirm == w[c].canConfirm
  {
    if s != [] {
      BroadcastSelected(w, s[..|s| - 1], color, except, interactive, c);
      assert s == s[..|s| - 1] + [s[|s| - 1]];
    }
  }

  /** The calls a control receives: one per occurrence in `s` unless it is
      excepted, appended to what it had, each carrying the colour and flag. */
  lemma {:induction false} BroadcastLog(w: map<ControlId, Control>, s: seq<ControlId>, color: HSBColor, except: Option<ControlId>, interactive: bool, c: ControlId)
    requires forall i :: 0 <= i < |s| ==> s[i] in w
    requires c in w
    ensures var r := Broadcast(w, s, color, except, interactive);
      && |r[c].received| == |w[c].received| + (if except == Some(c) then 0 else Count(s, c))
      && r[c].received[..|w[c].received|] == w[c].received
      && forall k :: |w[c].received| <= k < |r[c].received| ==> r[c].received[k] == Push(color, interactive)
  {
    if s != [] {
      var front := s[..|s| - 1];
      BroadcastLog(w, front, color, except, interactive, c);
      var before := Broadcast(w, front, color, except, interactive);
      if s[|s| - 1] == c && except != Some(c) {
        var after := SetSelectedHSBColor(before[c], color, interactive);
        assert after.received[..|w[c].received|] == before[c].received[..|w[c].received|];
      }
    }
  }

  /** What the broadcast does to each control: a control that is managed and
      not excepted receives one call per occurrence in `s`, every call
      carrying the colour and flag, and ends up holding the colour; every
      other control is left as it was. */
  lemma BroadcastEffect(w: map<ControlId, Control>, s: seq<ControlId>, color: HSBColor, except: Option<ControlId>, interactive: bool, c: ControlId)
    requires forall i :: 0 <= i < |s| ==> s[i] in w
    requires c in w
    ensures var r := Broadcast(w, s, color, except, interactive);
      && (c !in s || except == Some(c) ==> r[c] == w[c])
      && (c in s && except != Some(c) ==> r[c].selected == color)
      && r[c].canConfirm == w[c].canConfirm
      && |r[c].received| == |w[c].received| + (if except == Some(c) then 0 else Count(s, c))
      && r[c].received[..|w[c].received|] == w[c].received
      && forall k :: |w[c].received| <= k < |r[c].received| ==> r[c].received[k] == Push(color, interactive)
  {
    BroadcastSelected(w, s, color, except, interactive, c);
    BroadcastLog(w, s, color, except, interactive, c);
  }

  /** Broadcasting to one more control of `s` is one more delivery. */
  lemma BroadcastStep(w: map<ControlId, Control>, s: seq<ControlId>, i: int, color: HSBColor, except: Option<ControlId>, interactive: bool)
    requires forall k :: 0 <= k < |s| ==> s[k] in w
    requires 0 <= i < |s|
    ensures s[i] in Broadcast(w, s[..i], color, except, interactive)
    ensures Broadcast(w, s[..i + 1], color, except, interactive) ==
      Deliver(Broadcast(w, s[..i], color, except, interactive), s[i], color, except, interactive)
  {
    assert s[..i + 1][..i] == s[..i];
  }

  /** `setColor(_:exceptControl:isInteractive:)`: push the colour to every
      managed control except the origin, in order, then take it as the
      picker's colour. */
  method SetColor(p: Picker, color: HSBColor, except: Option<ControlId>, interactive: bool) returns (r: Picker)
    requires Wired(p)
    ensures r.widgets == Broadcast(p.widgets, p.controls, color, except, interactive)
    ensures r == p.(selected := color, widgets := r.widgets)
    ensures Wired(r)
  {
    var widgets := p.widgets;
    var i := 0;
    while i < |p.controls|
      invariant 0 <= i <= |p.controls|
      invariant widgets == Broadcast(p.widgets, p.controls[..i], color, except, interactive)
    {
      var c := p.controls[i];
      BroadcastStep(p.widgets, p.controls, i, color, except, interactive);
      if except != Some(c) {
        widgets := widgets[c := SetSelectedHSBColor(widgets[c], color, interactive)];
      }
      i := i + 1;
    }
    assert p.controls[..i] == p.controls;
    r := p.(selected := color, widgets := widgets);
  }

  /** After a broadcast every managed control except the origin holds the
      colour, the origin and every unmanaged control are untouched, and a
      control managed twice receives the colour twice. */
  lemma SetColorEffect(p: Picker, color: HSBColor, except: Option<ControlId>, interactive: bool, c: ControlId)
    requires Wired(p) && c in p.widgets
    ensures var w := Broadcast(p.widgets, p.controls, color, except, interactive);
      && (c in p.controls && except != Some(c) ==> w[c].selected == color)
      && (c !in p.controls || except == Some(c) ==> w[c] == p.widgets[c])
      && |w[c].received| == |p.widgets[c].received| + (if except == Some(c) then 0 else Count(p.controls, c))
  {
    BroadcastEffect(p.widgets, p.controls, color, except, interactive, c);
  }

  /** A broadcast from the origin's own colour leaves the picker in step
      with all its controls. */
  lemma BroadcastSynchronises(p: Picker, color: HSBColor, except: Option<ControlId>, interactive: bool)
    requires Wired(p)
    requires except.Some? ==> except.value in p.widgets && p.widgets[except.value].selected == color
    ensures var r := p.(selected := color, widgets := Broadcast(p.widgets, p.controls, color, except, interactive));
      Wired(r) && Synchronised(r)
  {
    var w := Broadcast(p.widgets, p.controls, color, except, interactive);
    forall c | c in p.controls
      ensures w[c].selected == color
    {
      BroadcastEffect(p.widgets, p.controls, color, except, interactive, c);
    }
  }

  // ---------------------------------------------------------------------
  // Managing controls
  // ---------------------------------------------------------------------

  /** `addControl`: append the control and register for its `valueChanged`,
      and for its `primaryActionTriggered` only when it can confirm. */
  function AddControl(p: Picker, c: ControlId): (r: Picker)
    requires Wired(p) && c in p.widgets
    ensures Wired(r)
    ensures r.controls == p.controls + [c]
    ensures r.targets == p.targets + {Target(c, ValueChanged)} + (if p.widgets[c].canConfirm then {Target(c, PrimaryActionTriggered)} else {})
    ensures r.selected == p.selected && r.widgets == p.widgets && r.events == p.events
  {
    var confirm := if p.widgets[c].canConfirm then {Target(c, PrimaryActionTriggered)} else {};
    p.(controls := p.controls + [c], targets := p.targets + {Target(c, ValueChanged)} + confirm)
  }

  /** The controls `s` without `c`, in the same order. */
  function Without(s: seq<ControlId>, c: ControlId): (r: seq<ControlId>)
    ensures forall x :: x in r <==> x in s && x != c
    ensures |r| <= |s|
  {
    if s == [] then []
    else
      var front := Without(s[..|s| - 1], c);
      assert forall x :: x in s <==> x in s[..|s| - 1] || x == s[|s| - 1];
      if s[|s| - 1] == c then front else front + [s[|s| - 1]]
  }

  /** Removing keeps every other control exactly as often as before. */
  lemma {:induction false} WithoutCount(s: seq<ControlId>, c: ControlId, x: ControlId)
    ensures Count(Without(s, c), x) == (if x == c then 0 else Count(s, x))
  {
    if s != [] {
      WithoutCount(s[..|s| - 1], c, x);
      var front := Without(s[..|s| - 1], c);
      if s[|s| - 1] != c {
        assert (front + [s[|s| - 1]])[..|front|] == front;
      }
    }
  }

  /** `removeControl`: drop every occurrence of the control and both of its
      registrations; an unknown control changes nothing. */
  function RemoveControl(p: Picker, c: ControlId): (r: Picker)
    requires Wired(p)
    ensures Wired(r)
    ensures c !in r.controls
    ensures forall x :: x in r.controls <==> x in p.controls && x != c
    ensures r.targets == p.targets - {Target(c, ValueChanged), Target(c, PrimaryActionTriggered)}
    ensures r.selected == p.selected && r.widgets == p.widgets && r.events == p.events
    ensures c !in p.controls ==> r.controls == p.controls
  {
    var kept := Without(p.controls, c);
    WithoutUnknown(p.controls, c);
    p.(controls := kept, targets := p.targets - {Target(c, ValueChanged), Target(c, PrimaryActionTriggered)})
  }

  lemma {:induction false} WithoutUnknown(s: seq<ControlId>, c: ControlId)
    ensures c !in s ==> Without(s, c) == s
  {
    if s != [] && c !in s {
      assert c !in s[..|s| - 1];
      WithoutUnknown(s[..|s| - 1], c);
      assert s == s[..|s| - 1] + [s[|s| - 1]];
    }
  }

  /** Adding a control twice manages it twice: a colour picked on another
      control reaches it twice. */
  lemma DuplicateRegistration(p: Picker, c: ControlId, color: HSBColor, origin: ControlId)
    requires Wired(p) && c in p.widgets && c !in p.controls
    requires origin != c
    ensures var q := AddControl(AddControl(p, c), c);
      Count(q.controls, c) == 2 &&
      |Broadcast(q.widgets, q.controls, color, Some(origin), true)[c].received| == |p.widgets[c].received| + 2
  {
    var q := AddControl(AddControl(p, c), c);
    CountZero(p.controls, c);
    assert q.controls[..|q.controls| - 1] == p.controls + [c];
    assert (p.controls + [c])[..|p.controls|] == p.controls;
    BroadcastEffect(q.widgets, q.controls, color, Some(origin), true, c);
  }

  // ---------------------------------------------------------------------
  // Reacting to controls
  // ---------------------------------------------------------------------

  /** `colorPicked(by:)`: a sender that is not a colour control is ignored;
      otherwise its colour is broadcast to the other controls as an
      interactive change, and the delegate hears of the selection. */
  method ColorPicked(p: Picker, sender: Option<ControlId>) returns (r: Picker)
    requires Wired(p)
    requires sender.Some? ==> sender.value in p.widgets
    ensures Wired(r)
    ensures r.widgets.Keys == p.widgets.Keys
    ensures sender.None? ==> r == p
    ensures sender.Some? ==>
      && r.selected == p.widgets[sender.value].selected
      && r.events == p.events + [Selected(sender.value, r.selected)]
      && r.controls == p.controls && r.targets == p.targets
      && Synchronised(r)
      && r.widgets[sender.value] == p.widgets[sender.value]
  {
    if sender.None? {
      return p;
    }
    var origin := sender.value;
    var color := p.widgets[origin].selected;
    BroadcastSynchronises(p, color, sender, true);
    BroadcastEffect(p.widgets, p.controls, color, sender, true, origin);
    r := SetColor(p, color, sender, true);
    r := r.(events := r.events + [Selected(origin, r.selected)]);
  }

  /** `colorConfirmed(by:)`: when the sender's colour differs from the
      picker's, it is picked first; then the delegate hears of the
      confirmation, with the sender's colour either way. */
  method ColorConfirmed(p: Picker, sender: Option<ControlId>) returns (r: Picker)
    requires Wired(p)
    requires sender.Some? ==> sender.value in p.widgets
    ensures Wired(r)
    ensures sender.None? ==> r == p
    ensures sender.Some? && p.selected == p.widgets[sender.value].selected ==>
      r == p.(events := p.events + [Confirmed(sender.value, p.selected)])
    ensures sender.Some? && p.selected != p.widgets[sender.value].selected ==>
      && r.events == p.events + [Selected(sender.value, r.selected), Confirmed(sender.value, r.selected)]
      && r.selected == p.widgets[sender.value].selected
      && Synchronised(r)
  {
    if sender.None? {
      return p;
    }
    var origin := sender.value;
    r := p;
    if p.selected != p.widgets[origin].selected {
      r := ColorPicked(p, sender);
    }
    r := r.(events := r.events + [Confirmed(origin, r.selected)]);
  }

  /** A control firing one of its events: the picker's action runs when it
      has registered for that event on that control. */
  method ControlSends(p: Picker, c: ControlId, event: ControlEvent) returns (r: Picker)
    requires Wired(p) && c in p.widgets
    ensures Wired(r)
    ensures Target(c, event) !in p.targets ==> r == p
    ensures event == PrimaryActionTriggered && Target(c, event) in p.targets ==>
      && |r.events| > |p.events|
      && r.events[|r.events| - 1] == Confirmed(c, r.selected)
      && r.selected == p.widgets[c].selected
    ensures event == ValueChanged && Target(c, event) in p.targets ==>
      r.events == p.events + [Selected(c, r.selected)] && Synchronised(r)
  {
    r := p;
    if Target(c, event) in p.targets {
      if event == ValueChanged {
        r := ColorPicked(p, Some(c));
      } else {
        r := ColorConfirmed(p, Some(c));
      }
    }
  }

  /** A control added to a picker that cannot confirm is never heard
      confirming. */
  lemma CannotConfirmIsNotHeard(p: Picker, c: ControlId)
    requires Wired(p) && c in p.widgets && !p.widgets[c].canConfirm
    requires Target(c, PrimaryActionTriggered) !in p.targets
    ensures Target(c, PrimaryActionTriggered) !in AddControl(p, c).targets
  {
  }

  /** Adding a control and then letting it fire `primaryActionTriggered`:
      the delegate hears the confirmation, with the control's colour,
      exactly when the control can confirm (or was already registered for
      it). */
  method ConfirmAfterAdd(p: Picker, c: ControlId) returns (r: Picker)
    requires Wired(p) && c in p.widgets
    ensures p.widgets[c].canConfirm ==>
      |r.events| > |p.events| && r.events[|r.events| - 1] == Confirmed(c, p.widgets[c].selected)
    ensures !p.widgets[c].canConfirm && Target(c, PrimaryActionTriggered) !in p.targets ==> r.events == p.events
  {
    var q := AddControl(p, c);
    r := ControlSends(q, c, PrimaryActionTriggered);
  }

  /** The `selectedColor` setter: a programmatic, non-interactive broadcast
      to every managed control, with no delegate call. */
  method SetSelectedColor(p: Picker, color: HSBColor) returns (r: Picker)
    requires Wired(p)
    ensures Wired(r) && Synchronised(r)
    ensures r.selected == color && r.events == p.events
    ensures r.controls == p.controls && r.targets == p.targets
    ensures forall c :: c in p.widgets && c in p.controls ==>
      |r.widgets[c].received| > 0 && r.widgets[c].received[|r.widgets[c].received| - 1] == Push(color, false)
  {
    BroadcastSynchronises(p, color, None, false);
    r := SetColor(p, color, None, false);
    forall c | c in p.widgets && c in p.controls
      ensures |r.widgets[c].received| > 0 && r.widgets[c].received[|r.widgets[c].received| - 1] == Push(color, false)
    {
      BroadcastEffect(p.widgets, p.controls, color, None, false, c);
      CountZero(p.controls, c);
    }
  }

  /** `controlDidSet(newValue:oldValue:)`: the old control is removed, the
      new one is given the picker's colour non-interactively and then added
      at the end. */
  function ControlDidSet(p: Picker, newValue: Option<ControlId>, oldValue: Option<ControlId>): (r: Picker)
    requires Wired(p)
    requires newValue.Some? ==> newValue.value in p.widgets
    ensures Wired(r)
    ensures r.selected == p.selected && r.events == p.events
    ensures oldValue.Some? && oldValue != newValue ==> oldValue.value !in r.controls
    ensures newValue.Some? ==>
      && |r.controls| > 0 && r.controls[|r.controls| - 1] == newValue.value
      && r.widgets[newValue.value].selected == p.selected
      && r.widgets[newValue.value].received == p.widgets[newValue.value].received + [Push(p.selected, false)]
    ensures newValue.None? && oldValue.None? ==> r == p
    ensures Synchronised(p) ==> Synchronised(r)
  {
    var removed := if oldValue.Some? then RemoveControl(p, oldValue.value) else p;
    if newValue.Some? then
      var c := newValue.value;
      var given := removed.(widgets := removed.widgets[c := SetSelectedHSBColor(removed.widgets[c], removed.selected, false)]);
      assert Wired(given);
      AddControl(given, c)
    else
      removed
  }
}
