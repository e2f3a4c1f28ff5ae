# Mini-golf scoreboard: a verified model of the page script

The page shows scores for a group of players as two positionally paired
tables. The fixed table has one row per player, with an editable name and a
total cell. The scrollable table has one row per player, with one score cell
per hole; each cell holds a "plus" div and a "minus" div. A row's total is the
sum of its plus values minus the sum of its minus values. Each value is read
with `parseInt(text, 10) || 0`.

Clicking a score div opens an inline number input. Enter, or a blur while the
input is still attached, commits the typed value. Escape restores the text
captured on entry. Every commit, reset and name edit is saved to browser
local storage under `miniGolfScoreData`, and the saved record is restored on
the next visit. Entering edit mode, Escape and start-up do not save. Two reset buttons are
provided: one clears the scores, the other clears the scores and the names.
The row heights of the two tables are equalised in four situations:
- at start-up;
- after a name edit;
- after a committed score edit whose row has a fixed partner;
- on window resize and on scrolling of the score container.

The reset buttons and Escape do not equalise them.

The model is organised as follows.

- `JsText` covers the browser string semantics the script relies on:
  - `String.prototype.trim` over the JavaScript white-space set;
  - `parseInt(s, 10)`, with NaN as `None`, and the `|| 0` fallback (`CellValue`);
  - how an integral Number is rendered into a total cell (`NumberText`);
  - the value sanitisation of a number input (`Sanitize`).
- `Rows` holds the data model and the total calculator:
  - a div has its text, its editability and the input attached to it, if any;
  - each row has its cells and each fixed row has a name and a total text;
  - `SideSum`, `RowTotal` and `TotalText` define the totals, and `ComputeTotal`
    is the two-pass loop;
  - `ZeroRow` zeroes a row and `AssociatedFixedRow` gives the positional pairing.
- `EditMode` is the edit session of one div: `EnterEdit`, `TypeInto`, `Commit`,
  `Revert` and `Blur`.
- `Persistence` holds the stored record (`Snapshot`) and the two directions
  between it and the rows:
  - `SnapshotOf` is what saving writes;
  - `LoadedFixed` and `LoadedScrollable` are what loading produces.
- `Layout` covers row-height equalisation over given natural heights: `Synced`
  for the rows and `SyncedHeaders` for the two header rows.
- `Reset` gives the rows after each reset button: `ResetScrollable` and
  `ResetFixed`.
- `Page.Scoreboard` is the page as one object. Its fields are:
  - the two row lists;
  - the storage slot;
  - the height override of every row and header.

  Each event handler is a method. Each method is proved to leave exactly the
  state the functions above describe.

The whole DOM is these fields, and each div is located by a `CellRef`: its row,
its hole, and plus or minus. Assigning `textContent` to a div drops its children
(`SetText`), so the attached input is detached exactly when the script detaches
it. "Still in the document" in the blur handler is therefore "still attached".
A blur is delivered as a separate event after the handler that detached the
input has finished.

The model uses these inputs in place of browser facilities:
- Natural row heights (`offsetHeight` after the override is cleared) are a
  `Layout.Natural` parameter.
- The storage read is the field `storage`. It is `Absent` (no item, or the
  empty string), `Unparseable` (text that `JSON.parse` rejects) or
  `Json(snapshot)`.
- What the user types into the number input is a parameter of
  `Page.Scoreboard.TypeIntoInput`, sanitised as above.
- A name edit made by the browser is a parameter of `Page.Scoreboard.NameInput`.

`finishEditing` writes `newValue || ""`. That is the input's value itself,
including the empty string (`EditMode.Commit`).

The editor is an `<input type="number">`, so its value is sanitised as the
HTML standard prescribes (`JsText.Sanitize`). A string that is not a valid
floating-point number reads back as the empty string. This applies both to
the trimmed text the script assigns on entry and to what the user types.

The server-rendered page (`main.py`) is used only as an example initial state:
six players named `이름입력`, 17 holes, every score "0". The "everything" reset
writes a different placeholder, `이름 입력`, with a space
(`Reset.PlaceholdersDiffer`).

## Model

| member | source | states |
|---|---|---|
| JsText.TrimStartShape | static/js/script.js:233 | trim removes exactly the leading JavaScript white space: the result is a suffix, everything removed is white space, and the result does not start with white space |
| JsText.TrimEndShape | static/js/script.js:233 | trim removes exactly the trailing white space: the result is a prefix, everything removed is white space, and the result does not end with white space |
| JsText.TrimShape | static/js/script.js:24-25 | a trimmed text neither starts nor ends with white space |
| JsText.TrimIdempotent | static/js/script.js:17 | trimming twice is trimming once, so saved names and scores are stable under re-trimming |
| JsText.DigitPrefix | static/js/script.js:189 | the digits parseInt reads are the longest all-digit prefix of the text |
| JsText.ParseIntSkipsLeadingSpace | static/js/script.js:189 | parseInt reads exactly what remains after the leading white space is stripped |
| JsText.NoLeadingDigitCountsZero | static/js/script.js:189 | text with no digit after the white space and optional sign is NaN and counts as 0 |
| JsText.EmptyCountsZero | static/js/script.js:189 | an empty div counts as 0 |
| JsText.LetterCountsZero | static/js/script.js:189 | "x" is NaN and counts as 0 |
| JsText.DigitThenLetterCountsDigit | static/js/script.js:189 | "3x" counts as 3; parsing stops at the first non-digit |
| JsText.PaddedNegativeCountsNegative | static/js/script.js:189 | " -12 " counts as -12; the sign and surrounding white space are honoured |
| JsText.ParseIntOfTrim | static/js/script.js:233 | trimming a text never changes the number it counts for |
| JsText.NatText | static/js/script.js:199 | the rendering of a natural number is a non-empty digit string with no leading zero |
| JsText.NumberText | static/js/script.js:199 | the rendering of any integer is non-empty and does not start with white space |
| JsText.ParseIntOfNumberThen | static/js/script.js:189 | a rendered number followed by anything that does not continue the numeral parses back to that number |
| JsText.ParseIntOfNumberText | static/js/script.js:199 | a total written into a cell reads back as the same integer |
| Rows.ComputeTotal | static/js/script.js:183-201 | the two-pass loop yields the plus sum minus the minus sum of the row, and its rendering is the row's total text |
| Rows.SideSumUpdate | static/js/script.js:188-196 | replacing one div changes that side's sum by the change in its value and leaves the other side's sum unchanged |
| Rows.RowTotalUpdate | static/js/script.js:188-196 | replacing one div moves the total by the change in its value: up for a plus div, down for a minus div |
| Rows.SideSumCongruent | static/js/script.js:188-196 | two rows whose divs count for the same values position by position have equal side sums |
| Rows.RowTotalCongruent | static/js/script.js:188-196 | rows whose divs count for the same values have the same total |
| Rows.FillSide | static/js/script.js:102-103 | the loop sets every div of one side to the given text and leaves the other side unchanged |
| Rows.SideSumOfUniform | static/js/script.js:188-191 | a side whose divs all hold the same text sums to the number of divs times that text's value |
| Rows.ZeroTextIsZero | static/js/script.js:102 | "0" counts as 0, and the total 0 renders as "0" |
| Rows.ZeroedRowTotal | static/js/script.js:98-108 | a row zeroed on both sides totals 0 and shows "0" |
| Rows.AssociatedUpdateRestoresAgreement | static/js/script.js:203-212 | when every paired row except r agrees and the new total of row r is written into its associated fixed row (if any), every paired row agrees |
| JsText.SanitizeIdempotent | static/js/script.js:237 | a number input's value, once sanitised, is empty or a valid floating-point number and stays as it is |
| JsText.NumberTextIsValidFloat | static/js/script.js:242 | any integer as the script renders it is a valid number and survives being put into the number input |
| JsText.InvalidNumberTextsSanitizeToEmpty | static/js/script.js:242 | "3x", "+3" and "3." are not valid numbers and become empty in the number input |
| JsText.DecimalAndExponentSurvive | static/js/script.js:242 | "-1.5" and "2e3" are valid numbers and are kept by the number input |
| EditMode.EnterEditIdempotent | static/js/script.js:226-228 | a second click during an edit changes nothing |
| EditMode.EscapeRestores | static/js/script.js:275-279 | Escape right after entering gives back the trimmed text and the original editability, and the div counts for the same value |
| EditMode.EscapeAfterTyping | static/js/script.js:275-279 | Escape after typing discards what was typed: the trimmed text and the original editability come back and the div counts for the same value |
| EditMode.TypeThenCommit | static/js/script.js:255-261 | typing v and committing leaves the sanitised v as the text (v itself when it is a valid number, the empty string included), with the original editability and no input |
| EditMode.CommitUntouched | static/js/script.js:236-261 | committing without typing leaves the sanitised trimmed text: a valid number keeps its text and value, any other text is emptied and counts as 0 |
| EditMode.UntouchedCommitDropsInvalidText | static/js/script.js:236-261 | a div showing "3x" counts as 3, and clicking it and committing unchanged leaves it empty |
| EditMode.SessionEndsOnce | static/js/script.js:282-287 | after a commit or an Escape the input is detached and a blur delivered afterwards is a no-op; while attached, a blur commits |
| EditMode.CommitMovesTotal | static/js/script.js:255-266 | a completed edit of one div moves the row total by the value of the sanitised typed text minus the old value, with the sign of the div's side |
| EditMode.EscapeKeepsTotal | static/js/script.js:275-279 | an edit cancelled with Escape right after entering leaves the row total unchanged |
| EditMode.EscapeAfterTypingKeepsTotal | static/js/script.js:275-279 | an edit cancelled with Escape after typing leaves the row total unchanged |
| EditMode.EscapeRestoresAgreement | static/js/script.js:275-279 | if every paired total agreed before a click, typing and Escape on a div, every paired total agrees afterwards without recomputation |
| Persistence.LoadedRowsAgree | static/js/script.js:59-60 | after loading, every restored fixed row shows the total of its merged score cells |
| Persistence.LoadIgnoresSurplus | static/js/script.js:45-57 | records beyond the existing rows and scores beyond the existing cells have no effect on loading |
| Persistence.MergeOwnScores | static/js/script.js:51-57 | restoring a row's own saved scores trims its texts, keeps its total and saves back to the same scores |
| Persistence.SaveThenLoad | static/js/script.js:10-62 | loading what was just saved changes paired rows only by trimming their names and texts, keeps every total, and leaves unpaired rows unchanged |
| Persistence.SaveLoadSave | static/js/script.js:10-34 | saving right after such a load writes the identical record |
| Layout.Max | static/js/script.js:156 | the larger height is at least each input and equals one of them |
| Layout.SyncedRowsMatch | static/js/script.js:147-160 | after equalisation each paired row has the same pixel height on both sides, no lower than either natural height and equal to one of them; unpaired rows keep their override |
| Layout.SyncedIdempotent | static/js/script.js:151-159 | equalising twice with the same measurements gives the same overrides as equalising once |
| Layout.SyncedHeadersIdempotent | static/js/script.js:162-180 | equalising the header rows twice gives the same result as once |
| Reset.PlaceholdersDiffer | static/js/script.js:130 | the name written by the "everything" reset differs from the server's initial name |
| Reset.ResetOutcome | static/js/script.js:94-133 | after either reset every div reads "0", keeps its editability and has no input; paired totals read "0" and agree with their rows; names are kept by "scores only" and replaced by "everything"; unpaired fixed rows are unchanged |
| Reset.ResetIdempotent | static/js/script.js:94-133 | pressing a reset button twice leaves the same rows as pressing it once |
| Page.Scoreboard.UpdateTotalScore | static/js/script.js:183-201 | writes the row's total text into the fixed row at the same position when one exists, and changes nothing else |
| Page.Scoreboard.SynchronizeRowHeights | static/js/script.js:142-181 | leaves the row and header overrides equal to their equalised values over the given measurements |
| Page.Scoreboard.SaveData | static/js/script.js:10-34 | the storage slot afterwards holds exactly the snapshot of the current rows |
| Page.Scoreboard.SaveRow | static/js/script.js:22-27 | yields the trimmed plus and minus text of every cell, in order |
| Page.Scoreboard.LoadData | static/js/script.js:36-67 | with nothing stored or an unparseable record the rows are unchanged; otherwise they become the loaded rows of the stored players |
| Page.Scoreboard.MergeRow | static/js/script.js:51-57 | cell j takes stored score j when both exist; other cells are untouched |
| Page.Scoreboard.ResetRows | static/js/script.js:98-111 | zeroes every row, recomputes every paired total (and resets the names when asked), then saves the result |
| Page.Scoreboard.ResetScoreOnly | static/js/script.js:94-113 | the rows become the "scores only" reset of the old rows, and the result is saved |
| Page.Scoreboard.ResetAll | static/js/script.js:115-137 | the rows become the "everything" reset of the old rows, and the result is saved |
| Page.Scoreboard.EnterEditMode | static/js/script.js:215-253 | only the clicked div changes, to its edit-mode form; every other paired row still agrees with its total |
| Page.Scoreboard.TypeIntoInput | static/js/script.js:242 | only the value of the clicked div's input changes |
| Page.Scoreboard.FinishEditing | static/js/script.js:255-269 | commits the div; when a fixed partner exists, recomputes its total and equalises the layout, otherwise leaves both unchanged; always saves; if all other paired rows agreed before, every paired row agrees afterwards |
| Page.Scoreboard.KeyDown | static/js/script.js:271-280 | Enter finishes editing; Escape reverts the div without touching totals, storage or layout; any other key, or a div with no input, changes nothing |
| Page.Scoreboard.Blur | static/js/script.js:282-287 | the clicked div becomes `EditMode.Blur` of itself; editing finishes exactly when the input is still attached, otherwise nothing changes |
| Page.Scoreboard.NameInput | static/js/script.js:294-299 | the edited name is kept, the layout is equalised and the page is saved |
| Page.Scoreboard.Startup | static/js/script.js:301-315 | the storage is untouched; each row becomes its loaded form, every paired total agrees with its row, unpaired fixed rows keep their loaded form, and the layout is equalised |
| Page.ServerPageAgrees | main.py:16-23 | the server-rendered page (six players, 17 holes, all scores and totals "0") already has every total agreeing with its row |

## Left out

- Event wiring is not modelled: listener registration, delegation through `closest`, `preventDefault`, focus and selection, and the window resize and container scroll triggers of the height equalisation. Each handler is a method invoked directly.
- The reset dialog's show and hide (its open button, close button and overlay click) only toggle a CSS class and are not modelled.
- The name cells' click-to-focus and the Enter-to-blur key listener, with its IME composition check, only move focus and are not modelled.
- JSON text and the `localStorage` API are not modelled. Storage holds the parsed record directly, and a record that fails to parse is one `Unparseable` value.
- A stored record is modelled as strings only: a name per player and a plus and a minus text per score. The script assigns whatever it finds to `textContent`, which converts a number to its text and a null or missing value to the empty string; a record whose leaf fields are not strings is therefore loaded as their text, and that conversion is not modelled. A record whose structure is wrong is not modelled either. When `players` is missing, or the parsed value is not an object, `data.players.forEach` throws before any row is touched, and the rows stay as they are. When a `scores` is not an array, or a player or score entry is null, the script throws at that entry (static/js/script.js:48, 52, 54-55). The rows restored before it keep their new contents, so the page is only partly restored.
- Real layout is not modelled: natural heights are inputs, and a missing header row is a `None` override. The script would throw if a table body had no preceding sibling.
- JavaScript Number semantics are not modelled: floating point, loss of precision above 2^53, and exponent notation when rendering very large totals. Totals are unbounded integers rendered as decimal numerals.
- The number input's `min`, `max` and `pattern` attributes are not modelled. They affect only validity, not the value. Browser-specific handling of partly typed input beyond the standard's sanitisation rule is not modelled either.
- Console logging in `loadData` is not modelled.
- Page.Scoreboard.KeyDown / EditMode.SessionEndsOnce: a blur is modelled only as a separate event (`Page.Scoreboard.Blur`) delivered after the handler that detached the input has finished, and then it finds the input gone. Some browsers may dispatch the blur synchronously from inside the `textContent` assignment that removes the focused input, while the input is still in the document. That nested `finishEditing` is not modelled. In such a browser an Escape after typing would recompute the total with the typed value and save it, and the outer assignment would then put the old text back. An Enter would run `finishEditing` twice.
- The script takes `children` and `querySelectorAll(".player-row")` of a table body to be the same list; the model makes that assumption too. A score div is always inside a player row, so `getAssociatedRows` never returns a null row.
- The HTTP handling and template rendering in `main.py` are not part of this model. Only the initial rows they render appear, as `Page.ServerFixed` and `Page.ServerScrollable`.
