/** The board-layout catalog: where each physical button sits, and the
    lookup of a layout by its board label. */
module BoardLayouts {
  import opened Wrappers
  import opened Sequences

  datatype Group = Dpad | Main | Aux | Trigger | Addon

  datatype Size = Sm | Md | Lg

  /** One button of a layout: its GPIO pin, its position and how it is drawn. */
  datatype ButtonPosition = ButtonPosition(
    pin: nat, x: int, y: int, labelText: string, group: Group, size: Option<Size>)

  datatype BoardLayout = BoardLayout(
    boardLabel: string, width: int, height: int, buttons: seq<ButtonPosition>)

  /** `getBoardLayout`: the first layout of the catalog whose board label
      is `boardLabel`, or None when no layout has it. The catalog is a
      value, so the lookup cannot change it. */
  function GetBoardLayout(catalog: seq<BoardLayout>, boardLabel: string): (r: Option<BoardLayout>)
    ensures r.None? <==> forall i :: 0 <= i < |catalog| ==> catalog[i].boardLabel != boardLabel
    ensures r.Some? ==> r.value.boardLabel == boardLabel
    ensures r.Some? ==>
      exists i :: 0 <= i < |catalog| && catalog[i] == r.value
        && forall j :: 0 <= j < i ==> catalog[j].boardLabel != boardLabel
  {
    match FindIndex(catalog, (l: BoardLayout) => l.boardLabel == boardLabel)
    case None => None
    case Some(i) => Some(catalog[i])
  }

  /** When several layouts share a label, the earliest one is returned. */
  lemma FirstOfSharedLabelWins(catalog: seq<BoardLayout>, i: nat, j: nat)
    requires i < j < |catalog| && catalog[i].boardLabel == catalog[j].boardLabel
    requires forall k :: 0 <= k < i ==> catalog[k].boardLabel != catalog[i].boardLabel
    ensures GetBoardLayout(catalog, catalog[j].boardLabel) == Some(catalog[i])
  {
    var r := GetBoardLayout(catalog, catalog[j].boardLabel);
    var k :| 0 <= k < |catalog| && catalog[k] == r.value
      && forall m :: 0 <= m < k ==> catalog[m].boardLabel != catalog[j].boardLabel;
  }
}
