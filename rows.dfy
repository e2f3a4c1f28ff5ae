/**
 * The two positionally paired row lists of the scoreboard and the total
 * calculator. A fixed row holds the player's name and the text of the total
 * cell; the scrollable row at the same position holds one score cell per hole,
 * each with a plus and a minus div.
 */
module Rows {
  import opened JsText

  /** The number input that edit mode puts inside a score div: what the user has
      typed so far, and what the closure captured when editing began. */
  datatype Input = Input(value: string, captured: string, wasEditable: bool)

  /** A `.score-plus` or `.score-minus` div: its `textContent`, its
      `contentEditable` flag, and the number input attached inside it, if any.
      Entering edit mode clears the text as it attaches the input. */
  datatype Div = Div(text: string, editable: bool, input: Option<Input>)

  /** A `.score-cell`: the plus div and the minus div of one hole. */
  datatype ScoreCell = ScoreCell(plus: Div, minus: Div)

  /** A row of the fixed table: the `.player-name` text and the `.total-score`
      text. */
  datatype FixedRow = FixedRow(name: string, total: string)

  datatype Side = Plus | Minus

  function DivAt(c: ScoreCell, side: Side): Div {
    match side
    case Plus => c.plus
    case Minus => c.minus
  }

  function WithDiv(c: ScoreCell, side: Side, d: Div): ScoreCell {
    match side
    case Plus => c.(plus := d)
    case Minus => c.(minus := d)
  }

  /** The row with the div on `side` of cell `j` replaced by `d`. */
  function ReplaceDiv(row: seq<ScoreCell>, j: nat, side: Side, d: Div): seq<ScoreCell>
    requires j < |row|
  {
    row[j := WithDiv(row[j], side, d)]
  }

  /** Where a score div sits: scrollable row, hole, and plus or minus. */
  datatype CellRef = CellRef(row: nat, hole: nat, side: Side)

  predicate IsCell(rows: seq<seq<ScoreCell>>, c: CellRef) {
    c.row < |rows| && c.hole < |rows[c.row]|
  }

  function DivOf(rows: seq<seq<ScoreCell>>, c: CellRef): Div
    requires IsCell(rows, c)
  {
    DivAt(rows[c.row][c.hole], c.side)
  }

  /** The rows with the div at `c` replaced by `d`. */
  function SetDiv(rows: seq<seq<ScoreCell>>, c: CellRef, d: Div): seq<seq<ScoreCell>>
    requires IsCell(rows, c)
  {
    rows[c.row := ReplaceDiv(rows[c.row], c.hole, c.side, d)]
  }

  /** Assigning `textContent`: the text is replaced and any child, in
      particular an attached input, is dropped; editability is kept. */
  function SetText(d: Div, s: string): Div {
    Div(s, d.editable, None)
  }

  /** The sum over a row of `parseInt(text, 10) || 0` for the divs of one side. */
  function SideSum(row: seq<ScoreCell>, side: Side): int {
    if row == [] then 0
    else SideSum(row[..|row| - 1], side) + CellValue(DivAt(row[|row| - 1], side).text)
  }

  /** The total of a row: plus scores count up, minus scores count down. */
  function RowTotal(row: seq<ScoreCell>): int {
    SideSum(row, Plus) - SideSum(row, Minus)
  }

  /** What `updateTotalScore` writes into the total cell. */
  function TotalText(row: seq<ScoreCell>): string {
    NumberText(RowTotal(row))
  }

  /** Every paired row shows the total of its own score cells. */
  ghost predicate TotalsAgree(fixed: seq<FixedRow>, scrollable: seq<seq<ScoreCell>>) {
    forall i :: 0 <= i < |fixed| && i < |scrollable| ==> fixed[i].total == TotalText(scrollable[i])
  }

  /** Every paired row except row `r` shows the total of its own score cells:
      what holds while a div of row `r` is being edited. */
  ghost predicate TotalsAgreeExcept(fixed: seq<FixedRow>, scrollable: seq<seq<ScoreCell>>, r: nat) {
    forall i :: 0 <= i < |fixed| && i < |scrollable| && i != r ==> fixed[i].total == TotalText(scrollable[i])
  }

  /** `updateTotalScore`: two passes over the row, first adding every plus
      value, then subtracting every minus value. */
  method ComputeTotal(row: seq<ScoreCell>) returns (total: int)
    ensures total == RowTotal(row)
    ensures NumberText(total) == TotalText(row)
  {
    total := 0;
    var i := 0;
    while i < |row|
      invariant 0 <= i <= |row|
      invariant total == SideSum(row[..i], Plus)
    {
      assert row[..i + 1][..i] == row[..i];
      total := total + CellValue(row[i].plus.text);
      i := i + 1;
    }
    assert row[..|row|] == row;
    var j := 0;
    while j < |row|
      invariant 0 <= j <= |row|
      invariant total == SideSum(row, Plus) - SideSum(row[..j], Minus)
    {
      assert row[..j + 1][..j] == row[..j];
      total := total - CellValue(row[j].minus.text);
      j := j + 1;
    }
    assert row[..|row|] == row;
  }

  // ---------------------------------------------------------------------------
  // How the total reacts to changes of single divs

  /** Replacing one div changes that side's sum by the difference of the two
      cell values and leaves the other side's sum alone. */
  lemma {:induction false} SideSumUpdate(row: seq<ScoreCell>, j: nat, side: Side, d: Div)
    requires j < |row|
    ensures SideSum(ReplaceDiv(row, j, side, d), side)
         == SideSum(row, side) - CellValue(DivAt(row[j], side).text) + CellValue(d.text)
    ensures forall other: Side :: other != side ==>
              SideSum(ReplaceDiv(row, j, side, d), other) == SideSum(row, other)
  {
    var row' := ReplaceDiv(row, j, side, d);
    var n := |row| - 1;
    assert row'[..n] == if j < n then row[..n][j := WithDiv(row[j], side, d)] else row[..n];
    if j < n {
      SideSumUpdate(row[..n], j, side, d);
    }
  }

  /** A row's total, after one div is replaced, moves by the change of that
      div's value: up for a plus div, down for a minus div. */
  lemma RowTotalUpdate(row: seq<ScoreCell>, j: nat, side: Side, d: Div)
    requires j < |row|
    ensures var delta := CellValue(d.text) - CellValue(DivAt(row[j], side).text);
      RowTotal(ReplaceDiv(row, j, side, d))
        == RowTotal(row) + (if side == Plus then delta else -delta)
  {
    SideSumUpdate(row, j, side, d);
  }

  /** Rows whose divs count for the same values, position by position, have
      the same sums. */
  lemma {:induction false} SideSumCongruent(a: seq<ScoreCell>, b: seq<ScoreCell>, side: Side)
    requires |a| == |b|
    requires forall j :: 0 <= j < |a| ==> CellValue(DivAt(a[j], side).text) == CellValue(DivAt(b[j], side).text)
    ensures SideSum(a, side) == SideSum(b, side)
  {
    if a != [] {
      var n := |a| - 1;
      SideSumCongruent(a[..n], b[..n], side);
    }
  }

  lemma RowTotalCongruent(a: seq<ScoreCell>, b: seq<ScoreCell>)
    requires |a| == |b|
    requires forall j :: 0 <= j < |a| ==>
      && CellValue(a[j].plus.text) == CellValue(b[j].plus.text)
      && CellValue(a[j].minus.text) == CellValue(b[j].minus.text)
    ensures RowTotal(a) == RowTotal(b)
  {
    SideSumCongruent(a, b, Plus);
    SideSumCongruent(a, b, Minus);
  }

  // ---------------------------------------------------------------------------
  // Filling a whole side with one text, as the reset buttons do

  /** Every div of one side given the same text. */
  function FilledSide(row: seq<ScoreCell>, side: Side, s: string): seq<ScoreCell> {
    seq(|row|, j requires 0 <= j < |row| => WithDiv(row[j], side, SetText(DivAt(row[j], side), s)))
  }

  /** `divs.forEach(div => div.textContent = s)` over one side of a row. */
  method FillSide(row: seq<ScoreCell>, side: Side, s: string) returns (r: seq<ScoreCell>)
    ensures r == FilledSide(row, side, s)
  {
    r := row;
    var j := 0;
    while j < |r|
      invariant 0 <= j <= |r| == |row|
      invariant forall k :: 0 <= k < |r| ==>
        r[k] == if k < j then WithDiv(row[k], side, SetText(DivAt(row[k], side), s)) else row[k]
    {
      r := r[j := WithDiv(r[j], side, SetText(DivAt(r[j], side), s))];
      j := j + 1;
    }
  }

  /** Both sides of a row set to "0", plus divs first. */
  function ZeroRow(row: seq<ScoreCell>): seq<ScoreCell> {
    FilledSide(FilledSide(row, Plus, "0"), Minus, "0")
  }

  /** A side whose every div holds the same text sums to that many copies of
      its value. */
  lemma {:induction false} SideSumOfUniform(row: seq<ScoreCell>, side: Side, s: string)
    requires forall j :: 0 <= j < |row| ==> DivAt(row[j], side).text == s
    ensures SideSum(row, side) == |row| * CellValue(s)
  {
    if row != [] {
      SideSumOfUniform(row[..|row| - 1], side, s);
    }
  }

  /** The text "0" counts for zero. */
  lemma ZeroTextIsZero()
    ensures NumberText(0) == "0" && CellValue("0") == 0
  {
    ParseIntOfNumberText(0);
  }

  /** After both sides are filled with "0", the row's total is 0 and its
      total cell reads "0". */
  lemma ZeroedRowTotal(row: seq<ScoreCell>)
    ensures RowTotal(ZeroRow(row)) == 0 && TotalText(ZeroRow(row)) == "0"
  {
    var z := ZeroRow(row);
    ZeroTextIsZero();
    SideSumOfUniform(z, Plus, "0");
    SideSumOfUniform(z, Minus, "0");
  }

  // ---------------------------------------------------------------------------
  // Positional pairing

  /** `getAssociatedRows`: the fixed row paired with the scrollable row at
      position `r` is the fixed row at the same position, when there is one. */
  function AssociatedFixedRow(r: nat, fixedCount: nat): Option<nat> {
    if r < fixedCount then Some(r) else None
  }

  /** When the cells of scrollable row `r` change while every other paired row
      agrees with its total, writing the new total into the row's associated
      fixed row, if there is one, makes every paired row agree again. */
  lemma AssociatedUpdateRestoresAgreement(fixed: seq<FixedRow>, scrollable: seq<seq<ScoreCell>>, r: nat)
    requires r < |scrollable| && TotalsAgreeExcept(fixed, scrollable, r)
    ensures var f := match AssociatedFixedRow(r, |fixed|)
                     case Some(i) => fixed[i := fixed[i].(total := TotalText(scrollable[i]))]
                     case None => fixed;
      TotalsAgree(f, scrollable)
  {
  }
}
