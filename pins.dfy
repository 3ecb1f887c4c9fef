/** The per-pin data both components share: the action enumeration, the
    persisted `MaskPayload`, the options the pin selector offers, and the
    `pinNN` key under which a pin's payload is stored. */
module Pins {
  import opened Wrappers
  import opened Text

  /** The values of `BUTTON_ACTIONS` the core names; every other action
      (the button presses, the directions, the dpad combo, ...) is carried
      by its numeric code. */
  datatype Action =
    | ActionNone
    | Reserved
    | AssignedToAddon
    | CustomButtonCombo
    | OtherAction(code: int)

  /** A combo bitfield; JavaScript's `^` works on 32-bit integers. */
  type Mask = bv32

  /** The persisted assignment of one pin. */
  datatype MaskPayload = MaskPayload(action: Action, customButtonMask: Mask, customDpadMask: Mask)

  /** An entry of the selector's option list, tagged by its `type`. Every
      variant carries the action it stands for and its (possibly
      undefined) label; the mask variants carry their bit. */
  datatype PinOption =
    | ActionOpt(value: Action, labelText: Option<string>)
    | ButtonMaskOpt(value: Action, labelText: Option<string>, bit: Mask)
    | DpadMaskOpt(value: Action, labelText: Option<string>, bit: Mask)

  const KeyPrefix := "pin"

  /** The store key of a pin: `pin` and the pin number, left-padded with
      `0` to at least two digits. */
  function PinKey(pin: nat): (key: string)
    ensures |key| >= |KeyPrefix| + 2 && key[..|KeyPrefix|] == KeyPrefix
  {
    KeyPrefix + PadStart(NatToString(pin), 2, '0')
  }

  /** Reads the pin number back out of a store key, when it has the form
      `pin` followed by one or more decimal digits. */
  function PinNumber(key: string): Option<nat>
  {
    if |key| > |KeyPrefix| && key[..|KeyPrefix|] == KeyPrefix && IsDigits(key[|KeyPrefix|..])
    then Some(ParseDigits(key[|KeyPrefix|..]))
    else None
  }

  /** The key of a pin names that pin and no other. */
  lemma PinKeyRoundTrip(pin: nat)
    ensures PinNumber(PinKey(pin)) == Some(pin)
  {
    var digits := NatToString(pin);
    var padded := PadStart(digits, 2, '0');
    var zeros := padded[..|padded| - |digits|];
    assert padded == zeros + digits;
    LeadingZerosAreIgnored(zeros, digits);
    assert PinKey(pin)[|KeyPrefix|..] == padded;
  }

  lemma PinKeyInjective(p: nat, q: nat)
    ensures PinKey(p) == PinKey(q) ==> p == q
  {
    PinKeyRoundTrip(p);
    PinKeyRoundTrip(q);
  }

  /** Pins below 10 gain one `0`; larger pins are written as they are. */
  lemma PinKeyPadding(pin: nat)
    ensures pin < 10 ==> PinKey(pin) == "pin0" + NatToString(pin)
    ensures pin >= 10 ==> PinKey(pin) == "pin" + NatToString(pin)
  {
  }

  lemma PinKeyExamples()
    ensures PinKey(3) == "pin03"
    ensures PinKey(12) == "pin12"
  {
    PinKeyPadding(3);
    PinKeyPadding(12);
    assert NatToString(3) == "3";
    assert NatToString(12) == "12";
  }
}
