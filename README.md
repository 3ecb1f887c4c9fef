# GP2040-CE visual pin mapping — a Dafny model

GP2040-CE is gamepad firmware with a web configurator. This project models
four pieces of that system and proves properties about them:

- **The pin selector's change handler** (`handleChange` of the pin
  assignment popover). It turns whatever the user picked in the selector
  into the `MaskPayload` stored for a pin. A cleared selection gives
  `NONE`. A multi-select whose newest option is a plain action gives that
  action. A multi-select whose newest option is a mask bit gives a
  `CUSTOM_BUTTON_COMBO` whose two masks XOR every picked button bit and
  every picked d-pad bit. One option gives that option's action. The
  payload is always addressed to the pin's `pinNN` store key.
- **The visual layout view.** This covers the short label drawn on each
  pin, the label of each selector option, the locked actions, which layout
  buttons get a spot, the selected-pin toggle, and which pin the popover
  opens for.
- **The board-layout lookup** (`getBoardLayout`): the first catalog entry
  with a given board label, or nothing.
- **The board-layout macro generator** (`tools/gen_board_layout.py`). It
  maps a size to a radius, formats one initializer line per button, splits
  the buttons at x = 64 into two lists that keep input order, and formats
  each list as a C `#define` macro.

Modules, one per source file plus shared ones:

| file | module | models |
|---|---|---|
| `wrappers.dfy` | `Wrappers` | `Option` |
| `text.dfy` | `Text` | decimal rendering, `padStart`/`:>3`/`:<3`, `join`, JavaScript `split`, reading numbers back |
| `sequences.dfy` | `Sequences` | the first element passing a test (behind `find`), the elements passing a test (what a `map` returning `null` for the rest renders, and what the generator's append loop collects), an element-wise map, and their laws |
| `pins.dfy` | `Pins` | actions, `MaskPayload`, selector options, the `pinNN` key |
| `pin_assignment_popover.dfy` | `PinAssignmentPopover` | `handleChange`, the selector configuration |
| `visual_pin_layout.dfy` | `VisualPinLayout` | labels, locked actions, spots, `PinSelection` (the `selectedPin` state), popover target |
| `board_layouts.dfy` | `BoardLayouts` | layout types, `getBoardLayout` |
| `gen_board_layout.dfy` | `GenBoardLayout` | the macro generator |

Three functions of the configurator are passed in as function-typed
parameters because their code is not part of this model:
- `getMultiValue`, which decodes a payload into selector options;
- `t`, the translation function;
- `isDisabled` of the pin-mapping page (`isPinDisabled` in the popover).

Masks are `bv32`, the width JavaScript's `^` works on. An action is one of
the four the core names (`NONE`, `RESERVED`, `ASSIGNED_TO_ADDON`,
`CUSTOM_BUTTON_COMBO`) or another action carried by its numeric code.

In the handler, the mask fold runs when the newest option of a
multi-select is not a plain action. An earlier plain action does not stop
the fold; it contributes no bits. The model follows the code here, and
`EarlierActionContributesNothing` states it.

A single selected option, mask option or not, is stored as its action
with both masks zero (`Encode`'s last two clauses).

## Model

| member | source | states |
|---|---|---|
| Pins.PinKey | www/src/Components/PinAssignmentPopover.tsx:32 | a pin's key is `pin` followed by at least two characters |
| Pins.PinKeyRoundTrip | www/src/Components/PinAssignmentPopover.tsx:32 | reading the digits after `pin` in a pin's key gives the pin back, so the zero padding loses nothing |
| Pins.PinKeyInjective | www/src/Components/VisualPinLayout.tsx:85-86 | two different pins never share a store key |
| Pins.PinKeyPadding | www/src/Components/VisualPinLayout.tsx:100 | pins below 10 gain one leading `0`, larger pins are written as they are |
| Pins.PinKeyExamples | www/src/Components/VisualPinLayout.tsx:100 | pin 3 is stored under `pin03`, pin 12 under `pin12` |
| PinAssignmentPopover.Encode | www/src/Components/PinAssignmentPopover.tsx:34-85 | a cleared or empty selection gives `NONE` with zero masks; two or more options ending in a plain action give that action with zero masks; two or more ending in a mask bit give `CUSTOM_BUTTON_COMBO` with the XOR of the button bits and of the d-pad bits; one option gives its action with zero masks |
| PinAssignmentPopover.HandleChange | www/src/Components/PinAssignmentPopover.tsx:32-85 | every selection yields one change carrying the encoded payload. The change is addressed to the pin's `pinNN` key, the same key the layout reads, and that key reads back as the pin |
| PinAssignmentPopover.FoldStepToggles | www/src/Components/PinAssignmentPopover.tsx:54-64 | one step of the `reduce` keeps the action and XORs each mask with the option's bit for that mask, or with zero when the option is of the other kind or a plain action |
| PinAssignmentPopover.Reduce | www/src/Components/PinAssignmentPopover.tsx:53-70 | the `reduce` never changes the seed's action |
| PinAssignmentPopover.ReduceIsXor | www/src/Components/PinAssignmentPopover.tsx:53-70 | the `reduce` keeps the seed's action and XORs each button-mask option's bit into the button mask and each d-pad option's bit into the d-pad mask |
| PinAssignmentPopover.XorOfPermutation | www/src/Components/PinAssignmentPopover.tsx:53-64 | the XOR of a list of options depends only on which options occur how often |
| PinAssignmentPopover.XorOfPairCancels | www/src/Components/PinAssignmentPopover.tsx:56-63 | two occurrences of one option cancel in the XOR |
| PinAssignmentPopover.LastActionWins | www/src/Components/PinAssignmentPopover.tsx:42-49 | whatever precedes it, a newest plain action replaces the whole selection |
| PinAssignmentPopover.EncodeIgnoresOrder | www/src/Components/PinAssignmentPopover.tsx:50-71 | two combos made of the same options in any order encode to the same payload |
| PinAssignmentPopover.RepeatedOptionCancels | www/src/Components/PinAssignmentPopover.tsx:53-64 | picking an option twice in a combo is the same as not picking it |
| PinAssignmentPopover.SameOptionTwiceIsEmptyCombo | www/src/Components/PinAssignmentPopover.tsx:53-70 | the same mask option picked twice gives a combo with both masks zero |
| PinAssignmentPopover.EarlierActionContributesNothing | www/src/Components/PinAssignmentPopover.tsx:53-64 | in a combo, a plain action before the newest option can be removed without changing the payload |
| PinAssignmentPopover.DpadOnlyComboIsTaggedButtonCombo | www/src/Components/PinAssignmentPopover.tsx:65-69 | a combo of d-pad options only is still tagged `CUSTOM_BUTTON_COMBO`, with an empty button mask |
| PinAssignmentPopover.MixedComboFillsBothMasks | www/src/Components/PinAssignmentPopover.tsx:54-64 | a button option followed by a d-pad option sets each mask to its own option's bit |
| PinAssignmentPopover.Selector | www/src/Components/PinAssignmentPopover.tsx:100-104 | the selector is clearable, disabled exactly when the pin's action is disabled, and multi-select exactly when it is not disabled |
| VisualPinLayout.IsDisabledAction | www/src/Components/VisualPinLayout.tsx:22-25 | an action is locked exactly when it is `RESERVED` or `ASSIGNED_TO_ADDON` |
| VisualPinLayout.ButtonNames | www/src/Components/VisualPinLayout.tsx:35 | the name table has no `label` or `value` entry and keeps every other entry of the current button labels unchanged |
| VisualPinLayout.LastPart | www/src/Components/VisualPinLayout.tsx:58 | the key split off a label holds no `BUTTON_PRESS_`, ends the label, follows the label's last `BUTTON_PRESS_`, and is the whole label exactly when the label has none |
| VisualPinLayout.LabelKey | www/src/Components/VisualPinLayout.tsx:58 | an undefined label gives the empty key; a defined one gives its part after the last `BUTTON_PRESS_` |
| VisualPinLayout.PressLabelKey | www/src/Components/VisualPinLayout.tsx:69 | `BUTTON_PRESS_` followed by a name is keyed by that name |
| VisualPinLayout.ActionLabel | www/src/Components/VisualPinLayout.tsx:47-65 | the pin label is `---`, `Addon` or `Rsvd` for the special actions, checked in that order. Otherwise it is `---` for no decoded options, `Combo` for several, and for one option its button name, else its key, else `?`. It is never empty |
| VisualPinLayout.OptionLabel | www/src/Components/VisualPinLayout.tsx:67-76 | an option with a named key shows the name; any other option shows the translation of `Proto:GpioAction.` followed by its label, with `undefined` for a missing label |
| VisualPinLayout.PressOptionShowsButtonName | www/src/Components/VisualPinLayout.tsx:35-72 | a `BUTTON_PRESS_` option named after a current button other than `label` and `value` shows that button's display name in the selector and on a pin holding it alone |
| VisualPinLayout.OmittedKeysAreNotNames | www/src/Components/VisualPinLayout.tsx:35-72 | an option keyed `label` or `value` gets no display name: the selector shows its translation and a pin holding it alone shows the bare key |
| VisualPinLayout.NamedLabelsAgree | www/src/Components/VisualPinLayout.tsx:57-72 | a pin decoding to one option with a named key shows on its spot the same text that option shows in the selector |
| VisualPinLayout.SpotFor | www/src/Components/VisualPinLayout.tsx:117-121 | a spot shows its button, the pin's label (never empty), is selected exactly when its pin is the selected one, and is disabled exactly when the pin's action is `RESERVED` or `ASSIGNED_TO_ADDON` |
| VisualPinLayout.Spots | www/src/Components/VisualPinLayout.tsx:99-121 | one spot per layout button whose pin has a payload, in layout order. Each spot shows that pin's label, is selected exactly when its pin is the selected one, and is disabled exactly when the pin's action is locked |
| VisualPinLayout.WithPayloadMembers | www/src/Components/VisualPinLayout.tsx:101-102 | a layout button gets a spot exactly when its pin's key is in the profile |
| VisualPinLayout.WithPayloadAppend | www/src/Components/VisualPinLayout.tsx:99-102 | skipping buttons without a payload keeps layout order: the spots of two runs of buttons are the spots of each run |
| VisualPinLayout.Toggle | www/src/Components/VisualPinLayout.tsx:122-126 | clicking a pin selects it unless it was the selected one, which is deselected |
| VisualPinLayout.ToggleTwice | www/src/Components/VisualPinLayout.tsx:122-126 | clicking a pin twice from no selection or from that pin returns to where it started |
| VisualPinLayout.PinSelection.constructor | www/src/Components/VisualPinLayout.tsx:44 | nothing is selected at first |
| VisualPinLayout.PinSelection.Click | www/src/Components/VisualPinLayout.tsx:122-126 | a click on a pin's spot sets the selection to the toggle of the old selection |
| VisualPinLayout.PinSelection.Close | www/src/Components/VisualPinLayout.tsx:138 | closing the popover clears the selection |
| VisualPinLayout.ChangeReachesSpot | www/src/Components/PinAssignmentPopover.tsx:32 | once the profile holds the change a button's popover writes, that button's spot finds the encoded payload, and a button of any other pin finds what it found before |
| VisualPinLayout.PopoverTarget | www/src/Components/VisualPinLayout.tsx:85-91 | the popover opens exactly when a pin is selected, has a payload and has a layout button. It gets the first layout button of that pin and the pin's payload |
| Sequences.FindIndex | www/src/Data/BoardLayouts.ts:28 | the index returned is that of the first element that passes the test; there is none exactly when no element passes |
| BoardLayouts.GetBoardLayout | www/src/Data/BoardLayouts.ts:27-29 | the layout returned has the requested label and is the first of the catalog that does; there is none exactly when no layout has that label |
| BoardLayouts.FirstOfSharedLabelWins | www/src/Data/BoardLayouts.ts:28 | when several layouts share a label, the earliest is returned |
| GenBoardLayout.Radius | tools/gen_board_layout.py:13-24 | a missing size counts as `md`; a named size gets the table's radius; the radius is 5 exactly for a `null` or an unknown size |
| GenBoardLayout.RadiusTable | tools/gen_board_layout.py:13-24 | `sm` is 3, `md` is 6, `lg` is 7, missing is 6, unknown or `null` is 5 |
| GenBoardLayout.EntryFields | tools/gen_board_layout.py:25-28 | a button's line has nine fields, none holding a comma or a newline |
| GenBoardLayout.Entry | tools/gen_board_layout.py:25-28 | a button's line holds no newline |
| GenBoardLayout.EntryReadsBack | tools/gen_board_layout.py:25-28 | splitting an entry at its commas gives nine fields: the element tag, x, y, the radius twice, two unit scales, the pin and the ellipse shape. Each number reads back as the button's own value |
| GenBoardLayout.AlignedWidth | tools/gen_board_layout.py:27 | a number of at most three characters fills exactly three columns: right-aligned it ends at the right edge with a digit, left-aligned it starts at the left edge |
| GenBoardLayout.EntryColumns | tools/gen_board_layout.py:27 | splitting an entry at its commas gives x and y right-aligned to three columns, after ` {` and after a space, and the pin left-aligned to three columns after a space |
| GenBoardLayout.EntryColumnWidths | tools/gen_board_layout.py:27 | for x, y and pin from -99 to 999, the x field is ` {` and three columns ending in a digit, the y field is a space and three columns ending in a digit, and the pin field is a space and three columns starting with the number |
| GenBoardLayout.Generate | tools/gen_board_layout.py:20-32 | the loop's two lists are the entries of the buttons with x < 64 and of the rest, each in input order |
| GenBoardLayout.PartitionIsExact | tools/gen_board_layout.py:29-32 | every button lands in exactly one of the two lists |
| GenBoardLayout.PartitionMembers | tools/gen_board_layout.py:29-32 | a button is in the first list exactly when its x is below 64, in the second exactly when it is not |
| GenBoardLayout.PartitionKeepsOrder | tools/gen_board_layout.py:23-32 | both lists keep input order: the lists of two runs of buttons are the lists of each run, one after the other |
| GenBoardLayout.FormatMacro | tools/gen_board_layout.py:34-38 | the macro text is its lines joined by newlines: the single line `#define NAME {}` without entries, otherwise the opening line, each entry with its continuation and the closing line |
| GenBoardLayout.MacroLayout | tools/gen_board_layout.py:34-38 | a macro without entries is the single line `#define NAME {}`. Otherwise its lines are the opening `#define NAME {\`, each entry followed by `,\` (the last by `\`), and the closing `  }` |
| GenBoardLayout.GeneratedMacroLines | tools/gen_board_layout.py:34-42 | the two printed macros hold, line by line, the entries of their half of the buttons in input order |

## Left out

- Decoding a payload into selector options (`getMultiValue`) is a parameter. So the round trip between the handler's encoding and that decoding is not stated.
- The translation function `t` and the page's `isDisabled` test are parameters; their tables are not modelled.
- Writing the change to the profile store (`setProfilePin`, `handlePinChange`) is left out. The handler's single `onChange` call is returned as a `PinChange` value, and the store's update is taken to be a write under the change's key.
- Rendering is left out: the JSX, the percentage positions and aspect ratio (floating point), the React keys, the popover header text, `buttonRefs` and the overlay placement.
- The behaviour of `ButtonSpot` and `CustomSelect` is left out, including whether a disabled spot ignores clicks; their code is not part of this model.
- The numeric values of `BUTTON_ACTIONS` are not part of this model; actions other than the four named ones are carried by an opaque code.
- Masks are 32-bit patterns; the sign JavaScript gives a result with the top bit set is not modelled.
- The button-name table is a map from strings to strings; lookups of JavaScript prototype keys such as `constructor` are not modelled.
- Pins.PinKey: pins are natural numbers; keys of negative or fractional pin numbers are not modelled.
- Stored payloads are present values; a `null` entry in the profile map is not modelled.
- In the generator, reading the JSON file, `print`, the usage message and the exit status are left out. The blank line printed between the two macros is left out too.
- GenBoardLayout.Radius: a JSON `size` that is a number or a boolean also gets radius 5, but only `null` is modelled. A list or object size raises an error in the generator and is not modelled.
- GenBoardLayout.Entry: x, y and pin are integers; fractional or string coordinates are not modelled.
