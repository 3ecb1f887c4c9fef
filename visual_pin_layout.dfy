/** The visual pin layout: the short label drawn on each pin, the label of
    each selector option, which pins are locked, which layout buttons get
    a spot, and which pin is selected. */
module VisualPinLayout {
  import opened Wrappers
  import opened Text
  import opened Pins
  import opened BoardLayouts
  import opened Sequences
  import PinAssignmentPopover

  // ---------------------------------------------------------------------
  // Locked pins
  // ---------------------------------------------------------------------

  /** Actions whose pins cannot be edited. */
  const DisabledActions: seq<Action> := [Reserved, AssignedToAddon]

  /** `disabledActions.includes(action)`. */
  function IsDisabledAction(action: Action): (locked: bool)
    ensures locked <==> action == Reserved || action == AssignedToAddon
  {
    action in DisabledActions
  }

  // ---------------------------------------------------------------------
  // Button names and label keys
  // ---------------------------------------------------------------------

  /** The button-name table: the current button labels without the
      `label` and `value` entries. */
  function ButtonNames(currentButtons: map<string, string>): (names: map<string, string>)
    ensures "label" !in names && "value" !in names
    ensures names.Keys <= currentButtons.Keys
    ensures forall k :: k in currentButtons && k != "label" && k != "value" ==>
      k in names && names[k] == currentButtons[k]
  {
    currentButtons - {"label", "value"}
  }

  const ButtonPressPrefix := "BUTTON_PRESS_"

  /** `key` is what follows the last `BUTTON_PRESS_` of `l`: it holds no
      prefix, ends `l`, follows an occurrence of the prefix unless it is
      all of `l`, and is all of `l` exactly when `l` holds no prefix. */
  predicate IsLastPart(key: string, l: string) {
    && Free(key, ButtonPressPrefix)
    && |key| <= |l| && l[|l| - |key|..] == key
    && (key != l ==> OccursAt(l, ButtonPressPrefix, |l| - |key| - |ButtonPressPrefix|))
    && (Free(l, ButtonPressPrefix) <==> key == l)
  }

  /** The text after the last `BUTTON_PRESS_` of `l`. */
  function LastPart(l: string): (key: string)
    ensures IsLastPart(key, l)
  {
    LastPartShape(l);
    var parts := Split(l, ButtonPressPrefix);
    parts[|parts| - 1]
  }

  /** The last part of a split at `BUTTON_PRESS_` is what follows the last one. */
  lemma LastPartShape(l: string)
    ensures var parts := Split(l, ButtonPressPrefix); IsLastPart(parts[|parts| - 1], l)
  {
    var parts := Split(l, ButtonPressPrefix);
    var key := parts[|parts| - 1];
    assert Free(key, ButtonPressPrefix);
    LastPartFollowsSeparator(l, ButtonPressPrefix);
    SplitOfFreeIsWhole(l, ButtonPressPrefix);
    if |parts| == 1 {
      assert Join(parts, ButtonPressPrefix) == key;
    }
    assert key != l ==> |parts| > 1;
  }

  /** `label?.split('BUTTON_PRESS_')?.pop()`: the text after the last
      `BUTTON_PRESS_` of the label, the whole label when it has none.
      An undefined label gives "", which every use treats as it treats
      undefined (both are falsy). */
  function LabelKey(labelText: Option<string>): (key: string)
    ensures labelText.None? ==> key == ""
    ensures labelText.Some? ==> IsLastPart(key, labelText.value)
  {
    match labelText
    case None => ""
    case Some(l) => LastPart(l)
  }

  /** The label of a button-press option, `BUTTON_PRESS_` and a name,
      is keyed by that name. */
  lemma PressLabelKey(name: string)
    requires Free(name, ButtonPressPrefix)
    ensures LabelKey(Some(ButtonPressPrefix + name)) == name
  {
    var l := ButtonPressPrefix + name;
    assert l[..|ButtonPressPrefix|] == ButtonPressPrefix;
    assert l[|ButtonPressPrefix|..] == name;
    SplitOfFree(name, ButtonPressPrefix, "");
    assert "" + name == name;
    assert Split(l, ButtonPressPrefix) == [""] + [name];
  }

  /** `labelKey && buttonNames[labelKey]` is truthy: the key is non-empty
      and names a non-empty display name. */
  predicate IsNamed(key: string, names: map<string, string>) {
    key != "" && key in names && names[key] != ""
  }

  // ---------------------------------------------------------------------
  // Pin and option labels
  // ---------------------------------------------------------------------

  /** The pin has a payload whose action is none of the three special ones. */
  predicate HasOrdinaryAction(pinData: Option<MaskPayload>) {
    pinData.Some? && pinData.value.action !in {ActionNone, AssignedToAddon, Reserved}
  }

  /** `getActionLabel`: the short text drawn on a pin. Special actions
      first, in this order; otherwise the options the payload decodes to.
      `getMultiValue`, the payload decoder of the pin-mapping page, is
      not part of this model and is taken as a parameter. */
  function ActionLabel(
    pinData: Option<MaskPayload>,
    names: map<string, string>,
    getMultiValue: MaskPayload -> Option<seq<PinOption>>): (text: string)
    ensures text != ""
    ensures pinData.None? || pinData.value.action == ActionNone ==> text == "---"
    ensures pinData.Some? && pinData.value.action == AssignedToAddon ==> text == "Addon"
    ensures pinData.Some? && pinData.value.action == Reserved ==> text == "Rsvd"
    ensures HasOrdinaryAction(pinData) ==>
      var decoded := getMultiValue(pinData.value);
      && (decoded.None? || |decoded.value| == 0 ==> text == "---")
      && (decoded.Some? && |decoded.value| > 1 ==> text == "Combo")
      && (decoded.Some? && |decoded.value| == 1 ==>
            var key := LabelKey(decoded.value[0].labelText);
            text == if IsNamed(key, names) then names[key] else if key != "" then key else "?")
  {
    if pinData.None? || pinData.value.action == ActionNone then "---"
    else if pinData.value.action == AssignedToAddon then "Addon"
    else if pinData.value.action == Reserved then "Rsvd"
    else
      var multiValue := getMultiValue(pinData.value);
      if multiValue.None? || |multiValue.value| == 0 then "---"
      else if |multiValue.value| > 1 then "Combo"
      else
        var labelKey := LabelKey(multiValue.value[0].labelText);
        if IsNamed(labelKey, names) then names[labelKey]
        else if labelKey != "" then labelKey
        else "?"
  }

  /** How a label is spliced into a template string: undefined becomes "undefined". */
  function TemplateText(labelText: Option<string>): string {
    match labelText
    case None => "undefined"
    case Some(l) => l
  }

  const TranslationPrefix := "Proto:GpioAction."

  /** `getOptionLabel`: the button's display name when the label key has
      one, else the translation of `Proto:GpioAction.` and the label.
      The translation function `t` is not part of this model and is
      taken as a parameter. */
  function OptionLabel(option: PinOption, names: map<string, string>, translate: string -> string): (text: string)
    ensures var key := LabelKey(option.labelText);
      && (IsNamed(key, names) ==> text == names[key])
      && (!IsNamed(key, names) ==> text == translate(TranslationPrefix + TemplateText(option.labelText)))
  {
    var labelKey := LabelKey(option.labelText);
    if IsNamed(labelKey, names) then names[labelKey]
    else translate(TranslationPrefix + TemplateText(option.labelText))
  }

  /** A pin whose payload decodes to one option with a named key shows
      the same text on its spot as that option shows in the selector. */
  lemma NamedLabelsAgree(
    pinData: MaskPayload, option: PinOption, names: map<string, string>,
    getMultiValue: MaskPayload -> Option<seq<PinOption>>, translate: string -> string)
    requires HasOrdinaryAction(Some(pinData))
    requires getMultiValue(pinData) == Some([option])
    requires IsNamed(LabelKey(option.labelText), names)
    ensures ActionLabel(Some(pinData), names, getMultiValue) == OptionLabel(option, names, translate)
  {
  }

  /** A button-press option named after one of the current buttons,
      other than their `label` and `value` entries, shows that button's
      display name in the selector and on a pin holding it alone. */
  lemma PressOptionShowsButtonName(
    currentButtons: map<string, string>, name: string, option: PinOption, pinData: MaskPayload,
    getMultiValue: MaskPayload -> Option<seq<PinOption>>, translate: string -> string)
    requires option.labelText == Some(ButtonPressPrefix + name)
    requires Free(name, ButtonPressPrefix)
    requires name in currentButtons && name != "label" && name != "value"
    requires name != "" && currentButtons[name] != ""
    ensures OptionLabel(option, ButtonNames(currentButtons), translate) == currentButtons[name]
    ensures HasOrdinaryAction(Some(pinData)) && getMultiValue(pinData) == Some([option]) ==>
      ActionLabel(Some(pinData), ButtonNames(currentButtons), getMultiValue) == currentButtons[name]
  {
    PressLabelKey(name);
  }

  /** The `label` and `value` entries of the current buttons are no
      names: an option keyed by either shows its translation in the
      selector and its bare key on a pin holding it alone. */
  lemma OmittedKeysAreNotNames(
    currentButtons: map<string, string>, key: string, option: PinOption, pinData: MaskPayload,
    getMultiValue: MaskPayload -> Option<seq<PinOption>>, translate: string -> string)
    requires key == "label" || key == "value"
    requires option.labelText == Some(ButtonPressPrefix + key)
    ensures OptionLabel(option, ButtonNames(currentButtons), translate)
         == translate(TranslationPrefix + (ButtonPressPrefix + key))
    ensures HasOrdinaryAction(Some(pinData)) && getMultiValue(pinData) == Some([option]) ==>
      ActionLabel(Some(pinData), ButtonNames(currentButtons), getMultiValue) == key
  {
    PressLabelKey(key);
  }

  // ---------------------------------------------------------------------
  // Spots
  // ---------------------------------------------------------------------

  /** What is drawn for one layout button. */
  datatype Spot = Spot(position: ButtonPosition, actionLabel: string, isSelected: bool, isDisabled: bool)

  predicate HasPayload(position: ButtonPosition, pins: map<string, MaskPayload>) {
    PinKey(position.pin) in pins
  }

  /** The spot of a button whose pin holds `pinData`: it shows the pin's
      label, is selected exactly when its pin is the selected one, and is
      disabled exactly when the pin's action is locked. */
  function SpotFor(
    position: ButtonPosition, pinData: MaskPayload, selected: Option<nat>,
    names: map<string, string>, getMultiValue: MaskPayload -> Option<seq<PinOption>>): (spot: Spot)
    ensures spot.position == position
    ensures spot.actionLabel == ActionLabel(Some(pinData), names, getMultiValue) && spot.actionLabel != ""
    ensures spot.isSelected <==> selected == Some(position.pin)
    ensures spot.isDisabled <==> pinData.action == Reserved || pinData.action == AssignedToAddon
  {
    Spot(position, ActionLabel(Some(pinData), names, getMultiValue),
         selected == Some(position.pin), IsDisabledAction(pinData.action))
  }

  /** Reference definition: the layout buttons whose pin has a payload, in layout order. */
  function WithPayload(buttons: seq<ButtonPosition>, pins: map<string, MaskPayload>): seq<ButtonPosition>
  {
    Filter(buttons, (position: ButtonPosition) => HasPayload(position, pins))
  }

  /** `spots` are, one for one and in order, the spots of the buttons
      `kept`, each of which has a payload. */
  predicate SpotsOf(
    spots: seq<Spot>, kept: seq<ButtonPosition>, pins: map<string, MaskPayload>, selected: Option<nat>,
    names: map<string, string>, getMultiValue: MaskPayload -> Option<seq<PinOption>>)
  {
    && |spots| == |kept|
    && forall k :: 0 <= k < |spots| ==>
      && HasPayload(kept[k], pins)
      && spots[k] == SpotFor(kept[k], pins[PinKey(kept[k].pin)], selected, names, getMultiValue)
  }

  lemma SpotsOfAppend(
    s1: seq<Spot>, k1: seq<ButtonPosition>, s2: seq<Spot>, k2: seq<ButtonPosition>,
    pins: map<string, MaskPayload>, selected: Option<nat>,
    names: map<string, string>, getMultiValue: MaskPayload -> Option<seq<PinOption>>)
    requires SpotsOf(s1, k1, pins, selected, names, getMultiValue)
    requires SpotsOf(s2, k2, pins, selected, names, getMultiValue)
    ensures SpotsOf(s1 + s2, k1 + k2, pins, selected, names, getMultiValue)
  {
    forall k | |s1| <= k < |s1| + |s2|
      ensures (s1 + s2)[k] == s2[k - |s1|] && (k1 + k2)[k] == k2[k - |s1|]
    {
    }
  }

  /** The `layout.buttons.map(...)` of the layout view: a spot for exactly
      the buttons whose pin has a payload, in layout order, each showing
      its pin's label, selection and lock. */
  function Spots(
    buttons: seq<ButtonPosition>, pins: map<string, MaskPayload>, selected: Option<nat>,
    names: map<string, string>, getMultiValue: MaskPayload -> Option<seq<PinOption>>): (spots: seq<Spot>)
    ensures SpotsOf(spots, WithPayload(buttons, pins), pins, selected, names, getMultiValue)
    decreases |buttons|
  {
    if buttons == [] then []
    else
      var pos := buttons[0];
      var pinKey := PinKey(pos.pin);
      var here := if pinKey in pins then [SpotFor(pos, pins[pinKey], selected, names, getMultiValue)] else [];
      var rest := Spots(buttons[1..], pins, selected, names, getMultiValue);
      SpotsOfAppend(here, if pinKey in pins then [pos] else [], rest, WithPayload(buttons[1..], pins),
                    pins, selected, names, getMultiValue);
      here + rest
  }

  /** The filter keeps exactly the buttons whose pin has a payload: a
      layout button without one gets no spot. */
  lemma WithPayloadMembers(buttons: seq<ButtonPosition>, pins: map<string, MaskPayload>, p: ButtonPosition)
    ensures p in WithPayload(buttons, pins) <==> p in buttons && HasPayload(p, pins)
  {
    FilterMembers(buttons, (position: ButtonPosition) => HasPayload(position, pins), p);
  }

  /** The filter keeps the layout order: filtering two runs of buttons is
      filtering each and concatenating. */
  lemma WithPayloadAppend(a: seq<ButtonPosition>, b: seq<ButtonPosition>, pins: map<string, MaskPayload>)
    ensures WithPayload(a + b, pins) == WithPayload(a, pins) + WithPayload(b, pins)
  {
    FilterAppend(a, b, (position: ButtonPosition) => HasPayload(position, pins));
  }

  // ---------------------------------------------------------------------
  // The selected pin
  // ---------------------------------------------------------------------

  /** Clicking a pin: the selected pin is deselected, any other pin
      becomes the only selected one. */
  function Toggle(selected: Option<nat>, pin: nat): (next: Option<nat>)
    ensures next == Some(pin) <==> selected != Some(pin)
    ensures next.Some? ==> next.value == pin
  {
    if selected == Some(pin) then None else Some(pin)
  }

  /** Clicking the same pin twice from no selection, or from that pin,
      returns to where it started. */
  lemma ToggleTwice(selected: Option<nat>, pin: nat)
    requires selected == None || selected == Some(pin)
    ensures Toggle(Toggle(selected, pin), pin) == selected
  {
  }

  /** The layout view's `selectedPin` state. */
  class PinSelection {
    var selected: Option<nat>

    /** Nothing is selected at first. */
    constructor ()
      ensures selected == None
    {
      selected := None;
    }

    /** A click on the spot of `pin`. */
    method Click(pin: nat)
      modifies this
      ensures selected == Toggle(old(selected), pin)
    {
      if selected == Some(pin) {
        selected := None;
      } else {
        selected := Some(pin);
      }
    }

    /** The popover closes. */
    method Close()
      modifies this
      ensures selected == None
    {
      selected := None;
    }
  }

  /** The change a button's popover writes lands under the key that
      button's spot reads: once the profile holds it, the spot finds the
      encoded payload, and a button of another pin finds what it found
      before. */
  lemma ChangeReachesSpot(
    position: ButtonPosition, other: ButtonPosition,
    selected: PinAssignmentPopover.Selected, pins: map<string, MaskPayload>)
    ensures var change := PinAssignmentPopover.HandleChange(position.pin, selected);
      var stored := pins[change.pinKey := change.payload];
      && HasPayload(position, stored)
      && stored[PinKey(position.pin)] == PinAssignmentPopover.Encode(selected)
      && (other.pin != position.pin ==>
            && (HasPayload(other, stored) <==> HasPayload(other, pins))
            && (HasPayload(other, pins) ==> stored[PinKey(other.pin)] == pins[PinKey(other.pin)]))
  {
    PinKeyInjective(position.pin, other.pin);
  }

  /** The popover is shown for the selected pin when it has a payload and
      a layout button; it is given the first such button and the payload. */
  function PopoverTarget(
    selected: Option<nat>, pins: map<string, MaskPayload>, buttons: seq<ButtonPosition>)
    : (target: Option<(ButtonPosition, MaskPayload)>)
    ensures target.Some? <==>
      && selected.Some?
      && PinKey(selected.value) in pins
      && exists i :: 0 <= i < |buttons| && buttons[i].pin == selected.value
    ensures target.Some? ==>
      && target.value.1 == pins[PinKey(selected.value)]
      && exists i :: 0 <= i < |buttons| && buttons[i] == target.value.0
           && buttons[i].pin == selected.value
           && forall j :: 0 <= j < i ==> buttons[j].pin != selected.value
  {
    match selected
    case None => None
    case Some(pin) =>
      var pinKey := PinKey(pin);
      if pinKey !in pins then None
      else
        match FindIndex(buttons, (b: ButtonPosition) => b.pin == pin)
        case None => None
        case Some(i) => Some((buttons[i], pins[pinKey]))
  }
}
