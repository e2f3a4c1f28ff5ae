/**
 * The edit-mode state machine of one score div. A div is in display state when
 * no input is attached to it and in editing state while one is. Clicking
 * enters editing; Enter or a blur of the still-attached input commits the typed
 * value; Escape reverts to the value captured on entry. Leaving editing always
 * detaches the input, and a blur of a detached input does nothing. Under the
 * model's assumption that a blur arrives as its own event after the detaching
 * handler has finished, a session therefore ends exactly once.
 */
module EditMode {
  import opened JsText
  import opened Rows

  predicate Editing(d: Div) {
    d.input.Some?
  }

  /** `enterEditMode`: unless an input is already attached, capture the trimmed
      text and the editability, clear the text, make the div non-editable and
      attach a number input whose value is set to the captured text, which the
      input sanitises. */
  function EnterEdit(d: Div): Div {
    if Editing(d) then d
    else
      var current := Trim(d.text);
      Div("", false, Some(Input(Sanitize(current), current, d.editable)))
  }

  /** The user edits the attached number input to show `v`; its value is `v`
      if that is a valid floating-point number and empty otherwise. */
  function TypeInto(d: Div, v: string): Div {
    match d.input
    case None => d
    case Some(i) => d.(input := Some(i.(value := Sanitize(v))))
  }

  /** `finishEditing`: the input's value becomes the text (`newValue || ""` is
      the value itself, the empty string included), editability is restored
      and the input is gone. */
  function Commit(d: Div): Div {
    match d.input
    case None => d
    case Some(i) => Div(if i.value == "" then "" else i.value, i.wasEditable, None)
  }

  /** The Escape branch of `handleKeyDown`: the captured text and the captured
      editability come back and the input is gone. */
  function Revert(d: Div): Div {
    match d.input
    case None => d
    case Some(i) => Div(i.captured, i.wasEditable, None)
  }

  /** `handleBlur`: commit only while the input is still in the document. This
      is the div-level effect of `Page.Scoreboard.Blur`, whose contract states
      its new rows through this function. */
  function Blur(d: Div): Div {
    if Editing(d) then Commit(d) else d
  }

  // ---------------------------------------------------------------------------
  // Properties of one session

  /** Clicking a div that is already editing changes nothing. */
  lemma EnterEditIdempotent(d: Div)
    ensures EnterEdit(EnterEdit(d)) == EnterEdit(d)
  {
  }

  /** Escape right after entering gives back the trimmed text (not the
      sanitised input value) and the original editability, and the div counts
      for the same value as before. */
  lemma EscapeRestores(d: Div)
    requires !Editing(d)
    ensures Revert(EnterEdit(d)) == Div(Trim(d.text), d.editable, None)
    ensures CellValue(Revert(EnterEdit(d)).text) == CellValue(d.text)
  {
    ParseIntOfTrim(d.text);
  }

  /** Escape after typing discards what was typed: the same div as Escape
      right after entering. */
  lemma EscapeAfterTyping(d: Div, v: string)
    requires !Editing(d)
    ensures Revert(TypeInto(EnterEdit(d), v)) == Div(Trim(d.text), d.editable, None)
    ensures CellValue(Revert(TypeInto(EnterEdit(d), v)).text) == CellValue(d.text)
  {
    EscapeRestores(d);
  }

  /** Typing `v` and committing leaves the sanitised `v` as the text (`v`
      itself when it is a valid number, the empty string included), with the
      original editability and no input. */
  lemma TypeThenCommit(d: Div, v: string)
    requires !Editing(d)
    ensures Commit(TypeInto(EnterEdit(d), v)) == Div(Sanitize(v), d.editable, None)
    ensures IsValidFloat(v) ==> Commit(TypeInto(EnterEdit(d), v)).text == v
  {
  }

  /** Committing without typing keeps the trimmed text when it is a valid
      number, and so keeps the value it counts for; any other text, such as
      "3x", is emptied by the number input and then counts as 0. */
  lemma CommitUntouched(d: Div)
    requires !Editing(d)
    ensures Commit(EnterEdit(d)) == Div(Sanitize(Trim(d.text)), d.editable, None)
    ensures IsValidFloat(Trim(d.text)) ==> CellValue(Commit(EnterEdit(d)).text) == CellValue(d.text)
    ensures !IsValidFloat(Trim(d.text)) ==> CellValue(Commit(EnterEdit(d)).text) == 0
  {
    ParseIntOfTrim(d.text);
    EmptyCountsZero();
  }

  /** A div showing "3x", which counts as 3, counts as 0 after it is clicked
      and committed unchanged. */
  lemma UntouchedCommitDropsInvalidText(e: bool)
    ensures CellValue("3x") == 3
    ensures Commit(EnterEdit(Div("3x", e, None))) == Div("", e, None)
  {
    DigitThenLetterCountsDigit();
    InvalidNumberTextsSanitizeToEmpty();
    assert Trim("3x") == "3x" by {
      assert TrimStart("3x") == "3x";
      assert TrimEnd("3x") == "3x";
    }
  }

  /** Commit and Escape both end the session. The model delivers a blur as a
      separate event after the handler that detached the input has finished;
      under that assumption the blur that follows removal is a no-op, so the
      session commits at most once and Escape is not turned into a commit. */
  lemma SessionEndsOnce(d: Div)
    ensures !Editing(Commit(d)) && !Editing(Revert(d))
    ensures Blur(Commit(d)) == Commit(d)
    ensures Blur(Revert(d)) == Revert(d)
    ensures Editing(d) ==> Blur(d) == Commit(d)
  {
  }

  // ---------------------------------------------------------------------------
  // Effect of a session on the row total

  /** Entering edit mode, typing `v` and committing moves the row total by the
      difference between the new and the old value: up for a plus div, down for
      a minus div. Typing "12" over "5" in a plus div adds 7. */
  lemma CommitMovesTotal(row: seq<ScoreCell>, j: nat, side: Side, v: string)
    requires j < |row| && !Editing(DivAt(row[j], side))
    ensures var before := DivAt(row[j], side).text;
      var delta := CellValue(Sanitize(v)) - CellValue(before);
      RowTotal(ReplaceDiv(row, j, side, Commit(TypeInto(EnterEdit(DivAt(row[j], side)), v))))
        == RowTotal(row) + (if side == Plus then delta else -delta)
  {
    var d := DivAt(row[j], side);
    TypeThenCommit(d, v);
    RowTotalUpdate(row, j, side, Div(Sanitize(v), d.editable, None));
  }

  /** Entering edit mode and pressing Escape leaves the row total unchanged
      (which is why Escape does not recompute it). */
  lemma EscapeKeepsTotal(row: seq<ScoreCell>, j: nat, side: Side)
    requires j < |row| && !Editing(DivAt(row[j], side))
    ensures RowTotal(ReplaceDiv(row, j, side, Revert(EnterEdit(DivAt(row[j], side))))) == RowTotal(row)
  {
    var d := DivAt(row[j], side);
    EscapeRestores(d);
    RowTotalUpdate(row, j, side, Revert(EnterEdit(d)));
  }

  /** Entering edit mode, typing and then pressing Escape leaves the row
      total unchanged. */
  lemma EscapeAfterTypingKeepsTotal(row: seq<ScoreCell>, j: nat, side: Side, v: string)
    requires j < |row| && !Editing(DivAt(row[j], side))
    ensures RowTotal(ReplaceDiv(row, j, side, Revert(TypeInto(EnterEdit(DivAt(row[j], side)), v)))) == RowTotal(row)
  {
    var d := DivAt(row[j], side);
    EscapeAfterTyping(d, v);
    RowTotalUpdate(row, j, side, Revert(TypeInto(EnterEdit(d), v)));
  }

  /** If every paired row agrees with its total, clicking a div, typing and
      pressing Escape leaves every paired row agreeing again, although Escape
      recomputes nothing. */
  lemma EscapeRestoresAgreement(fixed: seq<FixedRow>, scrollable: seq<seq<ScoreCell>>, c: CellRef, v: string)
    requires TotalsAgree(fixed, scrollable) && IsCell(scrollable, c) && !Editing(DivOf(scrollable, c))
    ensures var entered := SetDiv(scrollable, c, EnterEdit(DivOf(scrollable, c)));
      var typed := SetDiv(entered, c, TypeInto(DivOf(entered, c), v));
      var reverted := SetDiv(typed, c, Revert(DivOf(typed, c)));
      TotalsAgree(fixed, reverted)
  {
    var d := DivOf(scrollable, c);
    var row := scrollable[c.row];
    var entered := SetDiv(scrollable, c, EnterEdit(d));
    var typed := SetDiv(entered, c, TypeInto(DivOf(entered, c), v));
    var reverted := SetDiv(typed, c, Revert(DivOf(typed, c)));
    assert reverted[c.row] == ReplaceDiv(row, c.hole, c.side, Revert(TypeInto(EnterEdit(d), v))) by {
      assert DivOf(entered, c) == EnterEdit(d);
      assert DivOf(typed, c) == TypeInto(EnterEdit(d), v);
    }
    EscapeAfterTypingKeepsTotal(row, c.hole, c.side, v);
  }
}
