/** The generator that turns a board-layout JSON file into the two C
    macros of the OLED display: one for the buttons on the left half of
    the screen, one for the right half. */
module GenBoardLayout {
  import opened Wrappers
  import opened Text
  import opened Sequences

  /** The `size` field of a JSON button: absent, a string, or `null`. */
  datatype SizeField = Missing | SizeName(name: string) | SizeNull

  /** One button of the JSON file, with integer coordinates and pin. */
  datatype JsonButton = JsonButton(x: int, y: int, pin: int, size: SizeField)

  /** The radius of each named size. */
  const SizeRadius: map<string, nat> := map["sm" := 3, "md" := 6, "lg" := 7]

  /** The size a button without one is drawn at. */
  const DefaultSize := "md"

  /** The radius of a size the table does not name. */
  const UnknownRadius: nat := 5

  const LeftMacro := "DEFAULT_BOARD_LAYOUT_A"
  const RightMacro := "DEFAULT_BOARD_LAYOUT_B"

  // ---------------------------------------------------------------------
  // Radius
  // ---------------------------------------------------------------------

  function NamedRadius(name: string): nat {
    if name in SizeRadius then SizeRadius[name] else UnknownRadius
  }

  /** The radius a button is drawn with: a missing size counts as the
      default size, and anything the table does not name (including
      `null`) gets the fallback radius. */
  function Radius(size: SizeField): (r: nat)
    ensures size.Missing? ==> r == SizeRadius[DefaultSize]
    ensures size.SizeName? && size.name in SizeRadius ==> r == SizeRadius[size.name]
    ensures r == UnknownRadius <==> size.SizeNull? || (size.SizeName? && size.name !in SizeRadius)
    ensures 1 <= r <= 9
  {
    match size
    case Missing => NamedRadius(DefaultSize)
    case SizeName(name) => NamedRadius(name)
    case SizeNull => UnknownRadius
  }

  lemma RadiusTable()
    ensures Radius(SizeName("sm")) == 3
    ensures Radius(SizeName("md")) == 6
    ensures Radius(SizeName("lg")) == 7
    ensures Radius(Missing) == 6
    ensures Radius(SizeName("xl")) == 5 && Radius(SizeName("")) == 5 && Radius(SizeNull) == 5
  {
  }

  // ---------------------------------------------------------------------
  // One entry
  // ---------------------------------------------------------------------

  const ElementTag := "    {GP_ELEMENT_PIN_BUTTON"
  const ShapeTag := " GP_SHAPE_ELLIPSE}}"

  /** A number right-aligned in three columns. */
  function RightAligned(v: int): string {
    PadStart(IntToString(v), 3, ' ')
  }

  /** A number left-aligned in three columns. */
  function LeftAligned(v: int): string {
    PadEnd(IntToString(v), 3, ' ')
  }

  /** The comma-separated fields of an initializer line, given the
      rendered x, y, radius and pin. */
  function Fields(x: string, y: string, r: string, pin: string): seq<string>
  {
    [ElementTag, " {" + x, " " + y, " " + r, " " + r, " 1", " 1", " " + pin, ShapeTag]
  }

  /** The fields of one button's line: element kind, x and y
      right-aligned, the radius twice, unit scale, the pin left-aligned
      and the ellipse shape. No field holds a comma or a newline, so the
      line can be cut back into them. */
  function EntryFields(btn: JsonButton): (fields: seq<string>)
    ensures |fields| == 9
    ensures forall k :: 0 <= k < |fields| ==> ',' !in fields[k] && '\n' !in fields[k]
  {
    var x, y, pin := RightAligned(btn.x), RightAligned(btn.y), LeftAligned(btn.pin);
    var r := NatToString(Radius(btn.size));
    NumberFieldChars(btn.x);
    NumberFieldChars(btn.y);
    NumberFieldChars(btn.pin);
    IsDigitsHasNoComma(r);
    FieldsLackSeparators(x, y, r, pin);
    Fields(x, y, r, pin)
  }

  /** The initializer line of one button; it fits on one line. */
  function Entry(btn: JsonButton): (line: string)
    ensures SingleLine(line)
  {
    JoinLacks(EntryFields(btn), ",", '\n');
    Join(EntryFields(btn), ",")
  }

  /** A number of at most three characters fills its three columns
      exactly: against their right edge when right-aligned, from their
      left edge when left-aligned. */
  lemma AlignedWidth(v: int)
    requires -99 <= v <= 999
    ensures |RightAligned(v)| == 3 && IsDigit(RightAligned(v)[2])
    ensures |LeftAligned(v)| == 3 && LeftAligned(v)[0] != ' '
  {
    ShortRendering(v);
    PaddedToThree(IntToString(v));
  }

  /** A word of one to three characters padded to three columns. */
  lemma PaddedToThree(s: string)
    requires 1 <= |s| <= 3 && IsDigit(s[|s| - 1]) && s[0] != ' '
    ensures |PadStart(s, 3, ' ')| == 3 && IsDigit(PadStart(s, 3, ' ')[2])
    ensures |PadEnd(s, 3, ' ')| == 3 && PadEnd(s, 3, ' ')[0] != ' '
  {
    var a := PadStart(s, 3, ' ');
    assert a[|a| - |s|..] == s;
    assert a[2] == s[|s| - 1];
    var b := PadEnd(s, 3, ' ');
    assert b[..|s|] == s;
    assert b[0] == s[0];
  }

  /** A number from -99 to 999 is one to three characters long, ends in a
      digit and does not start with a space. */
  lemma ShortRendering(v: int)
    requires -99 <= v <= 999
    ensures 1 <= |IntToString(v)| <= 3
    ensures IsDigit(IntToString(v)[|IntToString(v)| - 1])
    ensures IntToString(v)[0] != ' '
  {
    if v < 0 {
      ShortNumber(-v);
    } else {
      ShortNumber(v);
    }
    IntToStringChars(v);
  }

  lemma {:induction false} ShortNumber(n: nat)
    ensures n < 100 ==> |NatToString(n)| <= 2
    ensures n < 1000 ==> |NatToString(n)| <= 3
  {
    if n >= 10 {
      ShortNumber(n / 10);
    }
  }

  // ---------------------------------------------------------------------
  // Reading an entry back
  // ---------------------------------------------------------------------

  /** A rendered number and the spaces that pad it hold no comma and no newline. */
  lemma NumberFieldChars(v: int)
    ensures ',' !in RightAligned(v) && '\n' !in RightAligned(v)
    ensures ',' !in LeftAligned(v) && '\n' !in LeftAligned(v)
  {
    var s := IntToString(v);
    IntToStringChars(v);
    forall k | 0 <= k < |s| ensures s[k] != ',' && s[k] != '\n' {
    }
    PaddingLacks(s, ',');
    PaddingLacks(s, '\n');
  }

  /** Padding with spaces adds no character other than the space. */
  lemma PaddingLacks(s: string, c: char)
    requires c != ' ' && c !in s
    ensures c !in PadStart(s, 3, ' ') && c !in PadEnd(s, 3, ' ')
  {
    var a := PadStart(s, 3, ' ');
    forall k | 0 <= k < |a| ensures a[k] != c {
      if k >= |a| - |s| {
        assert a[k] == a[|a| - |s|..][k - (|a| - |s|)];
      }
    }
    var b := PadEnd(s, 3, ' ');
    forall k | 0 <= k < |b| ensures b[k] != c {
      if k < |s| {
        assert b[k] == b[..|s|][k];
      }
    }
  }

  lemma SpacesAppend(a: string, b: string)
    requires IsSpaces(a) && IsSpaces(b)
    ensures IsSpaces(a + b)
  {
  }

  lemma ConcatAssoc(a: string, b: string, c: string)
    ensures a + (b + c) == (a + b) + c
  {
  }

  lemma RightAlignedReads(pre: string, v: int)
    requires IsSpaces(pre)
    ensures ReadInt(pre + RightAligned(v)) == Some(v)
  {
    var s := IntToString(v);
    var a := RightAligned(v);
    var gap := a[..|a| - |s|];
    assert a == gap + s;
    SpacesAppend(pre, gap);
    ReadRightAligned(pre + gap, v);
    ConcatAssoc(pre, gap, s);
  }

  lemma LeftAlignedReads(pre: string, v: int)
    requires IsSpaces(pre)
    ensures ReadInt(pre + LeftAligned(v)) == Some(v)
  {
    var s := IntToString(v);
    var b := LeftAligned(v);
    var gap := b[|s|..];
    assert b == b[..|s|] + gap;
    assert pre + b == pre + s + gap;
    ReadAligned(pre, v, gap);
  }

  lemma FieldsSplitBack(x: string, y: string, r: string, pin: string)
    requires ',' !in x && ',' !in y && ',' !in r && ',' !in pin
    ensures Split(Join(Fields(x, y, r, pin), ","), ",") == Fields(x, y, r, pin)
  {
    var f := Fields(x, y, r, pin);
    forall k | 0 <= k < |f| ensures ',' !in f[k] {
    }
    SplitOfJoin(f, ",");
  }

  lemma IsDigitsHasNoComma(s: string)
    requires IsDigits(s)
    ensures ',' !in s && '\n' !in s
  {
    forall k | 0 <= k < |s| ensures s[k] != ',' && s[k] != '\n' {
      assert IsDigit(s[k]);
    }
  }

  /** What splitting a line built from rendered fields gives back. */
  predicate ReadsBackAs(f: seq<string>, x: int, y: int, r: int, pin: int)
  {
    && |f| == 9
    && f[0] == "    {GP_ELEMENT_PIN_BUTTON"
    && |f[1]| >= 2 && f[1][..2] == " {" && ReadInt(f[1][2..]) == Some(x)
    && ReadInt(f[2]) == Some(y)
    && ReadInt(f[3]) == Some(r)
    && f[4] == f[3]
    && f[5] == " 1" && f[6] == " 1"
    && ReadInt(f[7]) == Some(pin)
    && f[8] == " GP_SHAPE_ELLIPSE}}"
  }

  lemma FieldsReadBack(xs: string, ys: string, rs: string, pins: string, x: int, y: int, r: int, pin: int)
    requires ',' !in xs && ',' !in ys && ',' !in rs && ',' !in pins
    requires ReadInt(xs) == Some(x) && ReadInt(" " + ys) == Some(y)
    requires ReadInt(" " + rs) == Some(r) && ReadInt(" " + pins) == Some(pin)
    ensures ReadsBackAs(Split(Join(Fields(xs, ys, rs, pins), ","), ","), x, y, r, pin)
  {
    FieldsSplitBack(xs, ys, rs, pins);
    assert (" {" + xs)[2..] == xs;
  }

  /** Splitting an entry at its commas gives back nine fields: the element
      tag, x, y, the radius twice, the two unit scales, the pin and the
      shape, each number reading back as the button's own value. */
  lemma EntryReadsBack(btn: JsonButton)
    ensures ReadsBackAs(Split(Entry(btn), ","), btn.x, btn.y, Radius(btn.size), btn.pin)
  {
    var x, y, pin := RightAligned(btn.x), RightAligned(btn.y), LeftAligned(btn.pin);
    var r := NatToString(Radius(btn.size));
    NumberFieldChars(btn.x);
    NumberFieldChars(btn.y);
    NumberFieldChars(btn.pin);
    IsDigitsHasNoComma(r);
    BlankIsSpaces();
    RightAlignedReads("", btn.x);
    ConcatEmpty(x);
    RightAlignedReads(" ", btn.y);
    RadiusReads(Radius(btn.size));
    LeftAlignedReads(" ", btn.pin);
    FieldsReadBack(x, y, r, pin, btn.x, btn.y, Radius(btn.size), btn.pin);
  }

  /** The x, y and pin fields of a split line, as rendered. */
  predicate HasColumns(f: seq<string>, x: string, y: string, pin: string)
  {
    |f| == 9 && f[1] == " {" + x && f[2] == " " + y && f[7] == " " + pin
  }

  lemma FieldsColumns(x: string, y: string, r: string, pin: string)
    requires ',' !in x && ',' !in y && ',' !in r && ',' !in pin
    ensures HasColumns(Split(Join(Fields(x, y, r, pin), ","), ","), x, y, pin)
  {
    FieldsSplitBack(x, y, r, pin);
  }

  /** Splitting an entry at its commas gives back x and y right-aligned
      in three columns (`RightAligned` is `PadStart` of the number to
      width 3) and the pin left-aligned in three columns (`PadEnd`). */
  lemma EntryColumns(btn: JsonButton)
    ensures HasColumns(Split(Entry(btn), ","), RightAligned(btn.x), RightAligned(btn.y), LeftAligned(btn.pin))
  {
    var x, y, pin := RightAligned(btn.x), RightAligned(btn.y), LeftAligned(btn.pin);
    var r := NatToString(Radius(btn.size));
    NumberFieldChars(btn.x);
    NumberFieldChars(btn.y);
    NumberFieldChars(btn.pin);
    IsDigitsHasNoComma(r);
    FieldsColumns(x, y, r, pin);
  }

  /** For numbers of at most three characters the columns are exact: the
      x field is ` {` and three columns ending in a digit, the y field a
      space and three columns ending in a digit, the pin field a space and
      three columns starting with the number. */
  lemma EntryColumnWidths(btn: JsonButton)
    requires -99 <= btn.x <= 999 && -99 <= btn.y <= 999 && -99 <= btn.pin <= 999
    ensures var f := Split(Entry(btn), ",");
      && |f| == 9
      && |f[1]| == 5 && IsDigit(f[1][4])
      && |f[2]| == 4 && IsDigit(f[2][3])
      && |f[7]| == 4 && f[7][1] != ' '
  {
    EntryColumns(btn);
    var x, y, pin := RightAligned(btn.x), RightAligned(btn.y), LeftAligned(btn.pin);
    AlignedWidth(btn.x);
    AlignedWidth(btn.y);
    AlignedWidth(btn.pin);
    ColumnWidths(Split(Entry(btn), ","), x, y, pin);
  }

  lemma ColumnWidths(f: seq<string>, x: string, y: string, pin: string)
    requires HasColumns(f, x, y, pin)
    requires |x| == 3 && IsDigit(x[2]) && |y| == 3 && IsDigit(y[2]) && |pin| == 3 && pin[0] != ' '
    ensures |f[1]| == 5 && IsDigit(f[1][4])
    ensures |f[2]| == 4 && IsDigit(f[2][3])
    ensures |f[7]| == 4 && f[7][1] != ' '
  {
  }

  lemma BlankIsSpaces()
    ensures IsSpaces("") && IsSpaces(" ")
  {
  }

  lemma ConcatEmpty(s: string)
    ensures "" + s == s
  {
  }

  /** The one-digit radius reads back after its leading space. */
  lemma RadiusReads(r: nat)
    requires r < 10
    ensures ReadInt(" " + NatToString(r)) == Some(r)
  {
    assert NatToString(r) == IntToString(r);
    ReadRightAligned(" ", r);
  }

  // ---------------------------------------------------------------------
  // Splitting the buttons between the two macros
  // ---------------------------------------------------------------------

  predicate OnLeft(btn: JsonButton) {
    btn.x < 64
  }

  /** Reference definition: the buttons of the first macro, in input order. */
  function LeftButtons(buttons: seq<JsonButton>): seq<JsonButton> {
    Filter(buttons, (btn: JsonButton) => OnLeft(btn))
  }

  /** Reference definition: the buttons of the second macro, in input order. */
  function RightButtons(buttons: seq<JsonButton>): seq<JsonButton> {
    Filter(buttons, (btn: JsonButton) => !OnLeft(btn))
  }

  function Entries(buttons: seq<JsonButton>): seq<string> {
    Map(buttons, Entry)
  }

  /** Every button lands in exactly one of the two lists. */
  lemma PartitionIsExact(buttons: seq<JsonButton>)
    ensures multiset(LeftButtons(buttons)) + multiset(RightButtons(buttons)) == multiset(buttons)
    ensures |LeftButtons(buttons)| + |RightButtons(buttons)| == |buttons|
  {
    FilterPartition(buttons, (btn: JsonButton) => OnLeft(btn), (btn: JsonButton) => !OnLeft(btn));
    assert |multiset(LeftButtons(buttons)) + multiset(RightButtons(buttons))| == |multiset(buttons)|;
  }

  /** A button is in the first list exactly when it is left of the split
      line, and in the second exactly when it is not. */
  lemma PartitionMembers(buttons: seq<JsonButton>, btn: JsonButton)
    ensures btn in LeftButtons(buttons) <==> btn in buttons && btn.x < 64
    ensures btn in RightButtons(buttons) <==> btn in buttons && btn.x >= 64
  {
    FilterMembers(buttons, (b: JsonButton) => OnLeft(b), btn);
    FilterMembers(buttons, (b: JsonButton) => !OnLeft(b), btn);
  }

  /** Both lists keep the input order: the lists of two runs of buttons
      are the lists of each run, one after the other. */
  lemma PartitionKeepsOrder(a: seq<JsonButton>, b: seq<JsonButton>)
    ensures LeftButtons(a + b) == LeftButtons(a) + LeftButtons(b)
    ensures RightButtons(a + b) == RightButtons(a) + RightButtons(b)
  {
    FilterAppend(a, b, (btn: JsonButton) => OnLeft(btn));
    FilterAppend(a, b, (btn: JsonButton) => !OnLeft(btn));
  }

  lemma PartitionOfOne(btn: JsonButton)
    ensures LeftButtons([btn]) == if btn.x < 64 then [btn] else []
    ensures RightButtons([btn]) == if btn.x < 64 then [] else [btn]
  {
    assert [btn][1..] == [];
  }

  lemma EntriesAppend(a: seq<JsonButton>, b: seq<JsonButton>)
    ensures Entries(a + b) == Entries(a) + Entries(b)
  {
    MapAppend(a, b, Entry);
  }

  lemma EntriesOfOne(btn: JsonButton)
    ensures Entries([btn]) == [Entry(btn)]
  {
  }

  lemma GenerateStep(done: seq<JsonButton>, btn: JsonButton)
    ensures Entries(LeftButtons(done + [btn]))
         == Entries(LeftButtons(done)) + if btn.x < 64 then [Entry(btn)] else []
    ensures Entries(RightButtons(done + [btn]))
         == Entries(RightButtons(done)) + if btn.x < 64 then [] else [Entry(btn)]
  {
    PartitionKeepsOrder(done, [btn]);
    PartitionOfOne(btn);
    EntriesAppend(LeftButtons(done), LeftButtons([btn]));
    EntriesAppend(RightButtons(done), RightButtons([btn]));
    EntriesOfOne(btn);
  }

  /** The loop of the generator: each button's entry is appended to the
      first list when the button lies left of x = 64 and to the second
      otherwise. */
  method Generate(buttons: seq<JsonButton>) returns (left: seq<string>, right: seq<string>)
    ensures left == Entries(LeftButtons(buttons))
    ensures right == Entries(RightButtons(buttons))
  {
    left := [];
    right := [];
    for i := 0 to |buttons|
      invariant left == Entries(LeftButtons(buttons[..i]))
      invariant right == Entries(RightButtons(buttons[..i]))
    {
      var btn := buttons[i];
      PrefixGrows(buttons, i);
      GenerateStep(buttons[..i], btn);
      var entry := Entry(btn);
      if btn.x < 64 {
        left := left + [entry];
      } else {
        right := right + [entry];
      }
    }
    WholePrefix(buttons);
  }

  // ---------------------------------------------------------------------
  // The macro
  // ---------------------------------------------------------------------

  /** A C macro named `name` whose value is an initializer list of
      `entries`: the empty braces when there are none, otherwise one entry
      per line, every line continued with a backslash. Its text is its
      lines joined by newlines. */
  function FormatMacro(name: string, entries: seq<string>): (text: string)
    ensures text == Join(MacroLines(name, entries), "\n")
  {
    if entries == [] then
      assert Join(MacroLines(name, entries), "\n") == "#define " + name + " {}";
      "#define " + name + " {}"
    else
      MacroIsJoinOfLines(name, entries);
      "#define " + name + " {\\\n" + Join(entries, ",\\\n") + "\\\n  }"
  }

  /** Reference definition: the lines of the macro. */
  function MacroLines(name: string, entries: seq<string>): seq<string>
  {
    if entries == [] then ["#define " + name + " {}"]
    else ["#define " + name + " {\\"] + ContinuedLines(entries) + ["  }"]
  }

  /** Each entry on its own line, followed by a comma except the last,
      and by the line-continuation backslash. */
  function ContinuedLines(entries: seq<string>): seq<string>
  {
    seq(|entries|, k requires 0 <= k < |entries| =>
      if k < |entries| - 1 then entries[k] + ",\\" else entries[k] + "\\")
  }

  predicate SingleLine(s: string) {
    '\n' !in s
  }

  const Continuation := "\\"
  const EntrySeparator := ",\\\n"

  lemma ContinuedLinesCons(entries: seq<string>)
    requires |entries| >= 2
    ensures ContinuedLines(entries) == [entries[0] + ",\\"] + ContinuedLines(entries[1..])
  {
  }

  lemma ConcatAssoc4(a: string, b: string, c: string, d: string)
    ensures a + b + c + d == a + (b + c + d)
  {
  }

  /** The entries joined by comma-backslash-newline, with a final
      backslash, are the continued lines joined by newlines. */
  lemma {:induction false} ContinuedJoin(entries: seq<string>)
    requires |entries| >= 1
    ensures Join(entries, EntrySeparator) + Continuation == Join(ContinuedLines(entries), "\n")
    decreases |entries|
  {
    if |entries| == 1 {
      assert ContinuedLines(entries) == [entries[0] + Continuation];
    } else {
      var rest := entries[1..];
      ContinuedJoin(rest);
      ContinuedLinesCons(entries);
      var lines := ContinuedLines(entries);
      assert lines[1..] == ContinuedLines(rest);
      JoinCons(entries, EntrySeparator);
      JoinCons(lines, "\n");
      ContinuedStep(entries[0], Join(rest, EntrySeparator));
    }
  }

  lemma JoinCons(parts: seq<string>, sep: string)
    requires |parts| >= 2
    ensures Join(parts, sep) == parts[0] + sep + Join(parts[1..], sep)
  {
  }

  /** One entry and its separator in front of the rest, regrouped as the
      entry's continued line, a newline and the rest's lines. */
  lemma ContinuedStep(entry: string, tail: string)
    ensures entry + EntrySeparator + tail + Continuation
         == (entry + ",\\") + "\n" + (tail + Continuation)
  {
    ConcatAssoc4(entry, EntrySeparator, tail, Continuation);
    ConcatAssoc4(entry + ",\\", "\n", tail, Continuation);
    assert EntrySeparator == ",\\" + "\n";
  }

  lemma MacroText(name: string, middle: string)
    ensures "#define " + name + " {\\\n" + middle + "\\\n  }"
         == ("#define " + name + " {\\") + "\n" + (middle + Continuation) + "\n" + "  }"
  {
  }

  lemma MacroIsJoinOfLines(name: string, entries: seq<string>)
    requires entries != []
    ensures "#define " + name + " {\\\n" + Join(entries, ",\\\n") + "\\\n  }"
         == Join(MacroLines(name, entries), "\n")
  {
    var head := "#define " + name + " {\\";
    var body := ContinuedLines(entries);
    ContinuedJoin(entries);
    assert Join([head], "\n") == head;
    JoinAppend([head], body, "\n");
    assert Join(["  }"], "\n") == "  }";
    JoinAppend([head] + body, ["  }"], "\n");
    assert MacroLines(name, entries) == ([head] + body) + ["  }"];
    MacroText(name, Join(entries, EntrySeparator));
  }

  /** Splitting a macro at its newlines gives its lines: the single line
      `#define NAME {}` when there are no entries, otherwise the opening
      line, one line per entry and the closing brace. */
  lemma MacroLayout(name: string, entries: seq<string>)
    requires SingleLine(name)
    requires forall k :: 0 <= k < |entries| ==> SingleLine(entries[k])
    ensures Split(FormatMacro(name, entries), "\n") == MacroLines(name, entries)
  {
    var lines := MacroLines(name, entries);
    forall k | 0 <= k < |lines| ensures '\n' !in lines[k] {
      if 1 <= k < |lines| - 1 {
        assert lines[k] == ContinuedLines(entries)[k - 1];
      }
    }
    SplitOfJoin(lines, "\n");
  }

  lemma FieldsLackSeparators(x: string, y: string, r: string, pin: string)
    requires ',' !in x && ',' !in y && ',' !in r && ',' !in pin
    requires '\n' !in x && '\n' !in y && '\n' !in r && '\n' !in pin
    ensures forall k :: 0 <= k < |Fields(x, y, r, pin)| ==>
      ',' !in Fields(x, y, r, pin)[k] && '\n' !in Fields(x, y, r, pin)[k]
  {
  }

  /** The two macros the generator prints, line by line: each holds the
      entries of its half of the buttons, in input order. */
  lemma GeneratedMacroLines(buttons: seq<JsonButton>)
    ensures Split(FormatMacro(LeftMacro, Entries(LeftButtons(buttons))), "\n")
         == MacroLines(LeftMacro, Entries(LeftButtons(buttons)))
    ensures Split(FormatMacro(RightMacro, Entries(RightButtons(buttons))), "\n")
         == MacroLines(RightMacro, Entries(RightButtons(buttons)))
  {
    MacroLayout(LeftMacro, Entries(LeftButtons(buttons)));
    MacroLayout(RightMacro, Entries(RightButtons(buttons)));
  }
}
