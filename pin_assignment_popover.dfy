/** The pin selector's change handler: how the options a user has picked
    collapse into the payload written back for the pin, and how the
    selector is configured for the pin's current action. */
module PinAssignmentPopover {
  import opened Wrappers
  import opened Pins

  /** What the selector hands to its change handler: nothing (cleared), a
      single option, or the ordered list of a multi-select. */
  datatype Selected =
    | NoSelection
    | SingleValue(option: PinOption)
    | MultiValue(options: seq<PinOption>)

  /** The one `onChange(pinKey, payload)` call the handler makes. */
  datatype PinChange = PinChange(pinKey: string, payload: MaskPayload)

  const Cleared := MaskPayload(ActionNone, 0, 0)

  /** The `reduce` seed: a button combo with both masks empty. */
  const ComboSeed := MaskPayload(CustomButtonCombo, 0, 0)

  predicate IsEmptySelection(selected: Selected) {
    selected.NoSelection? || (selected.MultiValue? && |selected.options| == 0)
  }

  /** A multi-select of two or more options whose newest option is a plain action. */
  predicate EndsWithAction(selected: Selected) {
    selected.MultiValue? && |selected.options| > 1
    && selected.options[|selected.options| - 1].ActionOpt?
  }

  /** A multi-select of two or more options whose newest option is a mask bit. */
  predicate IsCombo(selected: Selected) {
    selected.MultiValue? && |selected.options| > 1
    && !selected.options[|selected.options| - 1].ActionOpt?
  }

  /** The bit an option toggles in the button mask (0 for the other variants). */
  function ButtonBit(option: PinOption): Mask {
    if option.ButtonMaskOpt? then option.bit else 0
  }

  /** The bit an option toggles in the dpad mask (0 for the other variants). */
  function DpadBit(option: PinOption): Mask {
    if option.DpadMaskOpt? then option.bit else 0
  }

  /** Reference definition: the exclusive-or of `bit(o)` over the options. */
  function XorOf(bit: PinOption -> Mask, options: seq<PinOption>): Mask {
    if options == [] then 0 else bit(options[0]) ^ XorOf(bit, options[1..])
  }

  /** One step of the handler's `reduce`: copy the accumulator and toggle
      the option's bit in the mask its variant names. */
  function FoldStep(masks: MaskPayload, option: PinOption): MaskPayload {
    masks.(
      customButtonMask :=
        if option.ButtonMaskOpt? then masks.customButtonMask ^ option.bit else masks.customButtonMask,
      customDpadMask :=
        if option.DpadMaskOpt? then masks.customDpadMask ^ option.bit else masks.customDpadMask)
  }

  /** One step keeps the action and XORs each mask with the option's bit
      for that mask (zero for the other variants). */
  lemma FoldStepToggles(acc: MaskPayload, option: PinOption)
    ensures FoldStep(acc, option).action == acc.action
    ensures FoldStep(acc, option).customButtonMask == acc.customButtonMask ^ ButtonBit(option)
    ensures FoldStep(acc, option).customDpadMask == acc.customDpadMask ^ DpadBit(option)
  {
    if !option.ButtonMaskOpt? {
      XorZero(acc.customButtonMask);
    }
    if !option.DpadMaskOpt? {
      XorZero(acc.customDpadMask);
    }
  }

  /** `options.reduce(FoldStep, acc)`: a left fold, which never changes
      the seed's action. */
  function Reduce(acc: MaskPayload, options: seq<PinOption>): (folded: MaskPayload)
    ensures folded.action == acc.action
    decreases |options|
  {
    if options == [] then acc
    else
      FoldStepToggles(acc, options[0]);
      Reduce(FoldStep(acc, options[0]), options[1..])
  }

  /** The handler's fold keeps the seed's action and XORs every button-mask
      bit into the button mask and every dpad-mask bit into the dpad mask. */
  lemma ReduceIsXor(acc: MaskPayload, options: seq<PinOption>)
    ensures Reduce(acc, options)
      == MaskPayload(acc.action,
                     acc.customButtonMask ^ XorOf(ButtonBit, options),
                     acc.customDpadMask ^ XorOf(DpadBit, options))
  {
    ReduceButtonMask(acc, options);
    ReduceDpadMask(acc, options);
  }

  lemma {:induction false} ReduceButtonMask(acc: MaskPayload, options: seq<PinOption>)
    ensures Reduce(acc, options).customButtonMask == acc.customButtonMask ^ XorOf(ButtonBit, options)
    decreases |options|
  {
    if options == [] {
      XorZero(acc.customButtonMask);
    } else {
      var o, rest := options[0], options[1..];
      ReduceButtonMask(FoldStep(acc, o), rest);
      FoldStepToggles(acc, o);
      XorOfCons(ButtonBit, options);
      XorAssociates(acc.customButtonMask, ButtonBit(o), XorOf(ButtonBit, rest));
    }
  }

  lemma {:induction false} ReduceDpadMask(acc: MaskPayload, options: seq<PinOption>)
    ensures Reduce(acc, options).customDpadMask == acc.customDpadMask ^ XorOf(DpadBit, options)
    decreases |options|
  {
    if options == [] {
      XorZero(acc.customDpadMask);
    } else {
      var o, rest := options[0], options[1..];
      ReduceDpadMask(FoldStep(acc, o), rest);
      FoldStepToggles(acc, o);
      XorOfCons(DpadBit, options);
      XorAssociates(acc.customDpadMask, DpadBit(o), XorOf(DpadBit, rest));
    }
  }

  lemma XorOfCons(bit: PinOption -> Mask, options: seq<PinOption>)
    requires options != []
    ensures XorOf(bit, options) == bit(options[0]) ^ XorOf(bit, options[1..])
  {
  }

  lemma XorAssociates(a: Mask, b: Mask, c: Mask)
    ensures (a ^ b) ^ c == a ^ (b ^ c)
  {
  }

  lemma XorSwap(a: Mask, b: Mask, c: Mask)
    ensures a ^ (b ^ c) == b ^ (a ^ c)
  {
  }

  lemma XorZero(a: Mask)
    ensures a ^ 0 == a && a ^ a == 0
  {
  }

  /** The payload a selection encodes to (the body of `handleChange`). */
  function Encode(selected: Selected): (p: MaskPayload)
    ensures IsEmptySelection(selected) ==> p == MaskPayload(ActionNone, 0, 0)
    ensures EndsWithAction(selected) ==>
      p == MaskPayload(selected.options[|selected.options| - 1].value, 0, 0)
    ensures IsCombo(selected) ==>
      p == MaskPayload(CustomButtonCombo,
                       XorOf(ButtonBit, selected.options),
                       XorOf(DpadBit, selected.options))
    ensures selected.SingleValue? ==> p == MaskPayload(selected.option.value, 0, 0)
    ensures selected.MultiValue? && |selected.options| == 1 ==>
      p == MaskPayload(selected.options[0].value, 0, 0)
  {
    match selected
    case NoSelection => Cleared
    case MultiValue(options) =>
      if |options| == 0 then Cleared
      else if |options| > 1 then
        var last := options[|options| - 1];
        if last.ActionOpt? then MaskPayload(last.value, 0, 0)
        else
          ReduceIsXor(ComboSeed, options);
          Reduce(ComboSeed, options)
      else MaskPayload(options[0].value, 0, 0)
    case SingleValue(option) => MaskPayload(option.value, 0, 0)
  }

  /** The handler: every selection, empty ones included, yields exactly one
      change, addressed to the pin's own store key. */
  function HandleChange(pin: nat, selected: Selected): (change: PinChange)
    ensures change.pinKey == PinKey(pin)
    ensures PinNumber(change.pinKey) == Some(pin)
    ensures change.payload == Encode(selected)
  {
    PinKeyRoundTrip(pin);
    PinChange(PinKey(pin), Encode(selected))
  }

  // ---------------------------------------------------------------------
  // Properties of the XOR fold
  // ---------------------------------------------------------------------

  /** The selection with the option at index `i` taken out. */
  function Without(options: seq<PinOption>, i: nat): (rest: seq<PinOption>)
    requires i < |options|
    ensures |rest| == |options| - 1
    ensures multiset(rest) == multiset(options) - multiset{options[i]}
  {
    assert options == options[..i] + [options[i]] + options[i + 1..];
    options[..i] + options[i + 1..]
  }

  lemma WithoutCons(options: seq<PinOption>, i: nat)
    requires 0 < i < |options|
    ensures Without(options, i) == [options[0]] + Without(options[1..], i - 1)
  {
    assert options[..i] == [options[0]] + options[1..][..i - 1];
    assert options[i + 1..] == options[1..][i..];
  }

  /** Any one option's bit can be taken out of the XOR first. */
  lemma {:induction false} XorOfWithout(bit: PinOption -> Mask, options: seq<PinOption>, i: nat)
    requires i < |options|
    ensures XorOf(bit, options) == bit(options[i]) ^ XorOf(bit, Without(options, i))
    decreases i
  {
    if i > 0 {
      var tail := options[1..];
      XorOfWithout(bit, tail, i - 1);
      var rest := Without(options, i);
      WithoutCons(options, i);
      assert rest[0] == options[0] && rest[1..] == Without(tail, i - 1);
      XorOfCons(bit, options);
      XorOfCons(bit, rest);
      XorSwap(bit(options[0]), bit(options[i]), XorOf(bit, Without(tail, i - 1)));
    } else {
      assert Without(options, 0) == options[1..];
    }
  }

  /** The XOR depends only on which options occur how often, not on their order. */
  lemma {:induction false} XorOfPermutation(bit: PinOption -> Mask, s: seq<PinOption>, t: seq<PinOption>)
    requires multiset(s) == multiset(t)
    ensures XorOf(bit, s) == XorOf(bit, t)
    decreases |s|
  {
    if s == [] {
      assert |t| == |multiset(t)| == 0;
    } else {
      assert s[0] in multiset(t);
      var i :| 0 <= i < |t| && t[i] == s[0];
      assert s == [s[0]] + s[1..];
      assert multiset(s[1..]) == multiset(s) - multiset{s[0]};
      XorOfPermutation(bit, s[1..], Without(t, i));
      XorOfWithout(bit, t, i);
    }
  }

  /** Two occurrences of one option cancel each other in the XOR. */
  lemma {:induction false} XorOfPairCancels(bit: PinOption -> Mask, options: seq<PinOption>, i: nat, j: nat)
    requires i < j < |options| && options[i] == options[j]
    ensures XorOf(bit, options) == XorOf(bit, Without(Without(options, j), i))
  {
    XorOfWithout(bit, options, j);
    XorOfWithout(bit, Without(options, j), i);
    assert Without(options, j)[i] == options[i];
  }

  // ---------------------------------------------------------------------
  // Properties of the encoder
  // ---------------------------------------------------------------------

  /** When the newest of two or more options is a plain action, it replaces
      whatever came before it. */
  lemma LastActionWins(earlier: seq<PinOption>, action: Action, labelText: Option<string>)
    requires |earlier| >= 1
    ensures Encode(MultiValue(earlier + [ActionOpt(action, labelText)])) == MaskPayload(action, 0, 0)
  {
    assert EndsWithAction(MultiValue(earlier + [ActionOpt(action, labelText)]));
  }

  /** Reordering a combo selection (keeping a mask option last) does not change its payload. */
  lemma EncodeIgnoresOrder(s: seq<PinOption>, t: seq<PinOption>)
    requires IsCombo(MultiValue(s)) && IsCombo(MultiValue(t))
    requires multiset(s) == multiset(t)
    ensures Encode(MultiValue(s)) == Encode(MultiValue(t))
  {
    XorOfPermutation(ButtonBit, s, t);
    XorOfPermutation(DpadBit, s, t);
  }

  /** Selecting the same option twice in a combo leaves no trace of it. */
  lemma RepeatedOptionCancels(s: seq<PinOption>, i: nat, j: nat)
    requires IsCombo(MultiValue(s))
    requires i < j < |s| && s[i] == s[j]
    ensures var rest := Without(Without(s, j), i);
      Encode(MultiValue(s)) == MaskPayload(CustomButtonCombo, XorOf(ButtonBit, rest), XorOf(DpadBit, rest))
  {
    XorOfPairCancels(ButtonBit, s, i, j);
    XorOfPairCancels(DpadBit, s, i, j);
  }

  /** A mask option picked twice and nothing else gives a combo with both masks empty. */
  lemma SameOptionTwiceIsEmptyCombo(option: PinOption)
    requires !option.ActionOpt?
    ensures Encode(MultiValue([option, option])) == MaskPayload(CustomButtonCombo, 0, 0)
  {
    var s := [option, option];
    assert IsCombo(MultiValue(s));
    assert s[1..] == [option] && s[1..][1..] == [];
    XorOfCons(ButtonBit, s);
    XorOfCons(ButtonBit, s[1..]);
    XorZero(ButtonBit(option));
    XorOfCons(DpadBit, s);
    XorOfCons(DpadBit, s[1..]);
    XorZero(DpadBit(option));
  }

  /** An action option that is not the newest one changes nothing: the
      combo is the one the selection without it encodes to. */
  lemma EarlierActionContributesNothing(s: seq<PinOption>, i: nat)
    requires |s| > 2 && i < |s| - 1 && s[i].ActionOpt?
    requires !s[|s| - 1].ActionOpt?
    ensures Encode(MultiValue(s)) == Encode(MultiValue(Without(s, i)))
  {
    XorOfWithout(ButtonBit, s, i);
    XorOfWithout(DpadBit, s, i);
    var rest := Without(s, i);
    assert rest[|rest| - 1] == s[|s| - 1];
  }

  /** A combo of dpad directions only is still tagged as a button combo,
      with an empty button mask. */
  lemma DpadOnlyComboIsTaggedButtonCombo(s: seq<PinOption>)
    requires |s| > 1 && forall k :: 0 <= k < |s| ==> s[k].DpadMaskOpt?
    ensures Encode(MultiValue(s)).action == CustomButtonCombo
    ensures Encode(MultiValue(s)).customButtonMask == 0
  {
    NoButtonBits(s);
  }

  lemma {:induction false} NoButtonBits(s: seq<PinOption>)
    requires forall k :: 0 <= k < |s| ==> s[k].DpadMaskOpt?
    ensures XorOf(ButtonBit, s) == 0
  {
    if s != [] {
      NoButtonBits(s[1..]);
    }
  }

  /** Button and dpad options selected together fill both masks. */
  lemma MixedComboFillsBothMasks(button: Action, dpad: Action, a: Mask, b: Mask)
    ensures Encode(MultiValue([ButtonMaskOpt(button, None, a), DpadMaskOpt(dpad, None, b)]))
      == MaskPayload(CustomButtonCombo, a, b)
  {
    var s := [ButtonMaskOpt(button, None, a), DpadMaskOpt(dpad, None, b)];
    assert IsCombo(MultiValue(s));
    assert s[1..] == [s[1]] && s[1..][1..] == [];
    XorOfCons(ButtonBit, s);
    XorOfCons(ButtonBit, s[1..]);
    XorZero(a);
    XorOfCons(DpadBit, s);
    XorOfCons(DpadBit, s[1..]);
    XorZero(b);
  }

  // ---------------------------------------------------------------------
  // Selector configuration
  // ---------------------------------------------------------------------

  /** How the selector is set up for a pin. */
  datatype SelectorConfig = SelectorConfig(isClearable: bool, isMulti: bool, isDisabled: bool)

  /** The selector for a pin: always clearable, disabled exactly when the
      pin's action is locked, and multi-select exactly when it is not
      disabled. `isPinDisabled` is the locking rule of the pin-mapping page,
      which is not part of this model. */
  function Selector(pinData: MaskPayload, isPinDisabled: Action -> bool): (config: SelectorConfig)
    ensures config.isClearable
    ensures config.isDisabled == isPinDisabled(pinData.action)
    ensures config.isMulti == !config.isDisabled
  {
    SelectorConfig(true, !isPinDisabled(pinData.action), isPinDisabled(pinData.action))
  }
}
