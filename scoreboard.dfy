/**
 * The scoreboard page as one object. The page's two table bodies, the
 * row-height overrides and the local-storage slot become fields; each event
 * handler of the page becomes a method that updates them.
 */
module Page {
  import opened JsText
  import opened Rows
  import opened EditMode
  import opened Persistence
  import opened Layout
  import opened Reset

  datatype Key = Enter | Escape | OtherKey

  class Scoreboard {
    /** `#fixed-scoreboard-body`: one name/total row per player. */
    var fixed: seq<FixedRow>
    /** `#scrollable-scoreboard-body`: the per-hole score cells, paired with
        `fixed` by position. */
    var scrollable: seq<seq<ScoreCell>>
    /** The local-storage item under the key "miniGolfScoreData". */
    var storage: Stored
    /** The `style.height` override of every body row. */
    var fixedHeights: seq<Style>
    var scrollHeights: seq<Style>
    /** The override of each table's header row; `None` when the table has no
        header row. */
    var fixedHeader: Option<Style>
    var scrollHeader: Option<Style>

    ghost predicate Valid()
      reads this
    {
      |fixedHeights| == |fixed| && |scrollHeights| == |scrollable|
    }

    /** A measurement of natural heights taken on this page. */
    predicate Fits(m: Natural)
      reads this
    {
      |m.fixedRows| == |fixed| && |m.scrollRows| == |scrollable|
    }

    twostate predicate LayoutUnchanged()
      reads this
    {
      && fixedHeights == old(fixedHeights) && scrollHeights == old(scrollHeights)
      && fixedHeader == old(fixedHeader) && scrollHeader == old(scrollHeader)
    }

    twostate predicate LayoutSynced(m: Natural)
      reads this
    {
      && |m.fixedRows| == |old(fixedHeights)| && |m.scrollRows| == |old(scrollHeights)|
      && fixedHeights == Synced(old(fixedHeights), m.fixedRows, m.scrollRows)
      && scrollHeights == Synced(old(scrollHeights), m.scrollRows, m.fixedRows)
      && (fixedHeader, scrollHeader) == SyncedHeaders(old(fixedHeader), old(scrollHeader), m.fixedHeader, m.scrollHeader)
    }

    /** The page as the server rendered it, before any script ran. */
    constructor (fixed0: seq<FixedRow>, scrollable0: seq<seq<ScoreCell>>, stored: Stored,
                 hasFixedHeader: bool, hasScrollHeader: bool)
      ensures Valid()
      ensures fixed == fixed0 && scrollable == scrollable0 && storage == stored
      ensures fixedHeights == seq(|fixed0|, _ => Auto) && scrollHeights == seq(|scrollable0|, _ => Auto)
      ensures fixedHeader == (if hasFixedHeader then Some(Auto) else None)
      ensures scrollHeader == (if hasScrollHeader then Some(Auto) else None)
    {
      fixed := fixed0;
      scrollable := scrollable0;
      storage := stored;
      fixedHeights := seq(|fixed0|, _ => Auto);
      scrollHeights := seq(|scrollable0|, _ => Auto);
      fixedHeader := if hasFixedHeader then Some(Auto) else None;
      scrollHeader := if hasScrollHeader then Some(Auto) else None;
    }

    // -------------------------------------------------------------------------
    // Total calculator

    /** `updateTotalScore(scrollableRows[r], fixedRows[r])`: the total of
        scrollable row `r` is written into the fixed row at the same position,
        if there is one. */
    method UpdateTotalScore(r: nat)
      requires r < |scrollable|
      modifies this`fixed
      ensures |fixed| == |old(fixed)|
      ensures fixed == if r < |old(fixed)| then old(fixed)[r := old(fixed)[r].(total := TotalText(scrollable[r]))]
                       else old(fixed)
    {
      var total := ComputeTotal(scrollable[r]);
      if r < |fixed| {
        fixed := fixed[r := fixed[r].(total := NumberText(total))];
      }
    }

    // -------------------------------------------------------------------------
    // Layout synchroniser

    /** `synchronizeRowHeights`, given the natural heights measured once the
        overrides are cleared: every fixed row with a scrollable partner and
        that partner get the larger of their two heights, and so do the two
        header rows when both exist. */
    method SynchronizeRowHeights(m: Natural)
      requires Valid() && Fits(m)
      modifies this`fixedHeights, this`scrollHeights, this`fixedHeader, this`scrollHeader
      ensures Valid() && LayoutSynced(m)
    {
      var fh, sh := fixedHeights, scrollHeights;
      var i := 0;
      while i < |fixed|
        invariant 0 <= i <= |fixed|
        invariant |fh| == |fixedHeights| && |sh| == |scrollHeights|
        invariant forall k :: 0 <= k < |fh| ==>
          fh[k] == if k < i then Synced(fixedHeights, m.fixedRows, m.scrollRows)[k] else fixedHeights[k]
        invariant forall k :: 0 <= k < |sh| ==>
          sh[k] == if k < i then Synced(scrollHeights, m.scrollRows, m.fixedRows)[k] else scrollHeights[k]
      {
        if i < |scrollable| {
          var maxHeight := Max(m.fixedRows[i], m.scrollRows[i]);
          fh := fh[i := Px(maxHeight)];
          sh := sh[i := Px(maxHeight)];
        }
        i := i + 1;
      }
      fixedHeights, scrollHeights := fh, sh;
      if fixedHeader.Some? && scrollHeader.Some? {
        var maxHeaderHeight := Max(m.fixedHeader, m.scrollHeader);
        fixedHeader, scrollHeader := Some(Px(maxHeaderHeight)), Some(Px(maxHeaderHeight));
      }
    }

    // -------------------------------------------------------------------------
    // Persistence adapter

    /** `saveData`: one record per fixed row, in order, with the trimmed name
        and the trimmed plus/minus text of every cell of the scrollable row at
        the same position; the previous stored value is overwritten. */
    method SaveData()
      modifies this`storage
      ensures storage == Json(SnapshotOf(fixed, scrollable))
    {
      var players: seq<PlayerRecord> := [];
      var i := 0;
      while i < |fixed|
        invariant 0 <= i <= |fixed|
        invariant players == SnapshotOf(fixed[..i], scrollable).players
      {
        var name := Trim(fixed[i].name);
        var scores: seq<ScoreRecord> := [];
        if i < |scrollable| {
          scores := SaveRow(scrollable[i]);
        }
        assert SnapshotOf(fixed[..i + 1], scrollable).players
            == SnapshotOf(fixed[..i], scrollable).players + [PlayerRecord(name, scores)];
        players := players + [PlayerRecord(name, scores)];
        i := i + 1;
      }
      assert fixed[..i] == fixed;
      storage := Json(Snapshot(players));
    }

    /** The inner `scoreCells.forEach` of `saveData`. */
    static method SaveRow(cells: seq<ScoreCell>) returns (scores: seq<ScoreRecord>)
      ensures scores == ScoresOf(cells)
    {
      scores := [];
      var j := 0;
      while j < |cells|
        invariant 0 <= j <= |cells|
        invariant scores == ScoresOf(cells[..j])
      {
        var plus := Trim(cells[j].plus.text);
        var minus := Trim(cells[j].minus.text);
        assert ScoresOf(cells[..j + 1]) == ScoresOf(cells[..j]) + [ScoreRecord(plus, minus)];
        scores := scores + [ScoreRecord(plus, minus)];
        j := j + 1;
      }
      assert cells[..j] == cells;
    }

    /** `loadData`: with nothing stored, or with a record that does not parse,
        the rows stay as they are. Otherwise player `i` is restored only when
        both rows exist at position `i`: the name is overwritten, cell `j` takes
        score `j` when that cell exists, and the row's total is recomputed. */
    method LoadData()
      requires Valid()
      modifies this`fixed, this`scrollable
      ensures Valid() && |fixed| == |old(fixed)| && |scrollable| == |old(scrollable)|
      ensures old(storage).Json? ==>
        && fixed == LoadedFixed(old(fixed), old(scrollable), storage.snapshot.players)
        && scrollable == LoadedScrollable(old(fixed), old(scrollable), storage.snapshot.players)
      ensures !old(storage).Json? ==> fixed == old(fixed) && scrollable == old(scrollable)
    {
      if !storage.Json? {
        // Absent: nothing to do. Unparseable: the exception is caught and logged.
        return;
      }
      var players := storage.snapshot.players;
      var f0, s0 := fixed, scrollable;
      var fx, sc := fixed, scrollable;
      var i := 0;
      while i < |players|
        invariant 0 <= i <= |players|
        invariant |fx| == |f0| && |sc| == |s0|
        invariant forall k :: 0 <= k < |fx| ==> fx[k] == if k < i then LoadedFixed(f0, s0, players)[k] else f0[k]
        invariant forall k :: 0 <= k < |sc| ==> sc[k] == if k < i then LoadedScrollable(f0, s0, players)[k] else s0[k]
      {
        if i < |fx| && i < |sc| {
          var cells := MergeRow(sc[i], players[i].scores);
          var total := ComputeTotal(cells);
          sc := sc[i := cells];
          fx := fx[i := FixedRow(players[i].name, NumberText(total))];
        }
        i := i + 1;
      }
      fixed, scrollable := fx, sc;
    }

    /** The inner `player.scores.forEach` of `loadData`. */
    static method MergeRow(cells: seq<ScoreCell>, scores: seq<ScoreRecord>) returns (r: seq<ScoreCell>)
      ensures r == MergeCells(cells, scores)
    {
      r := cells;
      var j := 0;
      while j < |scores|
        invariant 0 <= j <= |scores|
        invariant |r| == |cells|
        invariant forall k :: 0 <= k < |r| ==> r[k] == if k < j then MergeCells(cells, scores)[k] else cells[k]
      {
        if j < |r| {
          r := r[j := ScoreCell(SetText(r[j].plus, scores[j].plus), SetText(r[j].minus, scores[j].minus))];
        }
        j := j + 1;
      }
    }

    // -------------------------------------------------------------------------
    // Reset controller

    /** The body shared by both reset buttons: every scrollable row is zeroed,
        plus divs first, and its partner's total recomputed (and, for
        "everything", its partner's name reset); then the page is saved. */
    method ResetRows(names: bool)
      requires Valid()
      modifies this`fixed, this`scrollable, this`storage
      ensures Valid()
      ensures scrollable == ResetScrollable(old(scrollable))
      ensures fixed == ResetFixed(old(fixed), old(scrollable), names)
      ensures storage == Json(SnapshotOf(fixed, scrollable))
    {
      var f0, s0 := fixed, scrollable;
      var fx, sc := fixed, scrollable;
      var i := 0;
      while i < |sc|
        invariant 0 <= i <= |sc| == |s0|
        invariant |fx| == |f0|
        invariant forall k :: 0 <= k < |sc| ==> sc[k] == if k < i then ResetScrollable(s0)[k] else s0[k]
        invariant forall k :: 0 <= k < |fx| ==> fx[k] == if k < i then ResetFixed(f0, s0, names)[k] else f0[k]
      {
        var row := FillSide(sc[i], Plus, "0");
        row := FillSide(row, Minus, "0");
        sc := sc[i := row];
        if i < |fx| {
          var name := if names then ResetPlaceholder else fx[i].name;
          var total := ComputeTotal(row);
          fx := fx[i := FixedRow(name, NumberText(total))];
        }
        i := i + 1;
      }
      fixed, scrollable := fx, sc;
      SaveData();
    }

    /** The "scores only" button. */
    method ResetScoreOnly()
      requires Valid()
      modifies this`fixed, this`scrollable, this`storage
      ensures Valid()
      ensures scrollable == ResetScrollable(old(scrollable))
      ensures fixed == ResetFixed(old(fixed), old(scrollable), false)
      ensures storage == Json(SnapshotOf(fixed, scrollable))
    {
      ResetRows(false);
    }

    /** The "everything" button. */
    method ResetAll()
      requires Valid()
      modifies this`fixed, this`scrollable, this`storage
      ensures Valid()
      ensures scrollable == ResetScrollable(old(scrollable))
      ensures fixed == ResetFixed(old(fixed), old(scrollable), true)
      ensures storage == Json(SnapshotOf(fixed, scrollable))
    {
      ResetRows(true);
    }

    // -------------------------------------------------------------------------
    // Edit-mode controller

    /** A click on score div `c` (`enterEditMode`). */
    method EnterEditMode(c: CellRef)
      requires Valid() && IsCell(scrollable, c)
      modifies this`scrollable
      ensures Valid()
      ensures scrollable == SetDiv(old(scrollable), c, EnterEdit(DivOf(old(scrollable), c)))
      ensures TotalsAgree(old(fixed), old(scrollable)) ==> TotalsAgreeExcept(fixed, scrollable, c.row)
    {
      scrollable := SetDiv(scrollable, c, EnterEdit(DivOf(scrollable, c)));
    }

    /** The user types into the input attached to `c`; with no input attached
        there is nothing to type into. */
    method TypeIntoInput(c: CellRef, v: string)
      requires Valid() && IsCell(scrollable, c)
      modifies this`scrollable
      ensures Valid()
      ensures scrollable == SetDiv(old(scrollable), c, TypeInto(DivOf(old(scrollable), c), v))
    {
      scrollable := SetDiv(scrollable, c, TypeInto(DivOf(scrollable, c), v));
    }

    /** The state after `finishEditing` on `c`: the committed div, the
        recomputed total and synchronised layout when a fixed row is paired with
        the div's row, and a fresh save in every case. */
    twostate predicate Finished(c: CellRef, m: Natural)
      reads this
      requires old(IsCell(scrollable, c))
    {
      && scrollable == SetDiv(old(scrollable), c, Commit(DivOf(old(scrollable), c)))
      && (if AssociatedFixedRow(c.row, |old(fixed)|).Some?
          then fixed == old(fixed)[c.row := old(fixed)[c.row].(total := TotalText(scrollable[c.row]))]
               && LayoutSynced(m)
          else fixed == old(fixed) && LayoutUnchanged())
      && storage == Json(SnapshotOf(fixed, scrollable))
    }

    /** `finishEditing`, reached only while the input is attached. */
    method FinishEditing(c: CellRef, m: Natural)
      requires Valid() && IsCell(scrollable, c) && Fits(m) && Editing(DivOf(scrollable, c))
      modifies this`fixed, this`scrollable, this`storage
      modifies this`fixedHeights, this`scrollHeights, this`fixedHeader, this`scrollHeader
      ensures Valid() && Finished(c, m)
      ensures TotalsAgreeExcept(old(fixed), old(scrollable), c.row) ==> TotalsAgree(fixed, scrollable)
    {
      scrollable := SetDiv(scrollable, c, Commit(DivOf(scrollable, c)));
      var paired := AssociatedFixedRow(c.row, |fixed|);
      if paired.Some? {
        UpdateTotalScore(c.row);
        SynchronizeRowHeights(m);
      }
      SaveData();
    }

    /** `handleKeyDown` on the input attached to `c`: Enter commits, Escape
        restores the captured text and editability without recomputing the
        total or saving, any other key changes nothing here. With no input
        attached there is no listener, so nothing happens. */
    method KeyDown(c: CellRef, key: Key, m: Natural)
      requires Valid() && IsCell(scrollable, c) && Fits(m)
      modifies this`fixed, this`scrollable, this`storage
      modifies this`fixedHeights, this`scrollHeights, this`fixedHeader, this`scrollHeader
      ensures Valid()
      ensures Editing(DivOf(old(scrollable), c)) && key == Enter ==> Finished(c, m)
      ensures Editing(DivOf(old(scrollable), c)) && key == Escape ==>
        && scrollable == SetDiv(old(scrollable), c, Revert(DivOf(old(scrollable), c)))
        && fixed == old(fixed) && storage == old(storage) && LayoutUnchanged()
      ensures !Editing(DivOf(old(scrollable), c)) || key == OtherKey ==>
        && scrollable == old(scrollable) && fixed == old(fixed) && storage == old(storage) && LayoutUnchanged()
    {
      if !Editing(DivOf(scrollable, c)) {
        return;
      }
      match key
      case Enter =>
        FinishEditing(c, m);
      case Escape =>
        scrollable := SetDiv(scrollable, c, Revert(DivOf(scrollable, c)));
      case OtherKey =>
    }

    /** `handleBlur` for `c`: commit only while the input is still attached.
        Committing or reverting detaches it; a blur is delivered here as its
        own event after the detaching handler has finished, so the blur that
        follows removal does nothing and a session commits at most once. */
    method Blur(c: CellRef, m: Natural)
      requires Valid() && IsCell(scrollable, c) && Fits(m)
      modifies this`fixed, this`scrollable, this`storage
      modifies this`fixedHeights, this`scrollHeights, this`fixedHeader, this`scrollHeader
      ensures Valid()
      ensures scrollable == SetDiv(old(scrollable), c, EditMode.Blur(DivOf(old(scrollable), c)))
      ensures Editing(DivOf(old(scrollable), c)) ==> Finished(c, m)
      ensures !Editing(DivOf(old(scrollable), c)) ==>
        && scrollable == old(scrollable) && fixed == old(fixed) && storage == old(storage) && LayoutUnchanged()
    {
      if Editing(DivOf(scrollable, c)) {
        FinishEditing(c, m);
      } else {
        assert WithDiv(scrollable[c.row][c.hole], c.side, DivOf(scrollable, c)) == scrollable[c.row][c.hole];
        assert scrollable[c.row][c.hole := scrollable[c.row][c.hole]] == scrollable[c.row];
      }
    }

    // -------------------------------------------------------------------------
    // Name edits and start-up

    /** The `input` listener on a player name: the browser has changed the
        name of fixed row `i`; the layout is resynchronised and the page
        saved. */
    method NameInput(i: nat, name: string, m: Natural)
      requires Valid() && i < |fixed| && Fits(m)
      modifies this`fixed, this`storage
      modifies this`fixedHeights, this`scrollHeights, this`fixedHeader, this`scrollHeader
      ensures Valid()
      ensures fixed == old(fixed)[i := old(fixed)[i].(name := name)]
      ensures LayoutSynced(m)
      ensures storage == Json(SnapshotOf(fixed, scrollable))
    {
      fixed := fixed[i := fixed[i].(name := name)];
      SynchronizeRowHeights(m);
      SaveData();
    }

    /** The start-up sequence: load what is stored, recompute the total of
        every scrollable row that has a fixed partner, and synchronise the
        layout with the heights measured afterwards. */
    method Startup(m: Natural)
      requires Valid() && Fits(m)
      modifies this`fixed, this`scrollable
      modifies this`fixedHeights, this`scrollHeights, this`fixedHeader, this`scrollHeader
      ensures Valid() && storage == old(storage)
      ensures TotalsAgree(fixed, scrollable)
      ensures scrollable == if storage.Json? then LoadedScrollable(old(fixed), old(scrollable), storage.snapshot.players)
                            else old(scrollable)
      ensures |fixed| == |old(fixed)|
      ensures var loaded := if storage.Json? then LoadedFixed(old(fixed), old(scrollable), storage.snapshot.players)
                            else old(fixed);
        forall i :: |scrollable| <= i < |fixed| ==> fixed[i] == loaded[i]
      ensures forall i :: 0 <= i < |fixed| ==>
        fixed[i].name == (if storage.Json? then LoadedFixed(old(fixed), old(scrollable), storage.snapshot.players)
                          else old(fixed))[i].name
      ensures LayoutSynced(m)
    {
      LoadData();
      ghost var loaded := fixed;
      ghost var rows := scrollable;
      var i := 0;
      while i < |scrollable|
        invariant 0 <= i <= |scrollable|
        invariant Valid() && |fixed| == |loaded| && scrollable == rows && LayoutUnchanged()
        invariant forall k :: 0 <= k < |fixed| ==> fixed[k].name == loaded[k].name
        invariant forall k :: 0 <= k < |fixed| && k >= i ==> fixed[k] == loaded[k]
        invariant forall k :: 0 <= k < |fixed| && k < i && k < |scrollable| ==> fixed[k].total == TotalText(scrollable[k])
      {
        if i < |fixed| {
          UpdateTotalScore(i);
        }
        i := i + 1;
      }
      SynchronizeRowHeights(m);
    }
  }

  // ---------------------------------------------------------------------------
  // The page the server renders

  /** Six players named with the server placeholder, total "0". */
  function ServerFixed(): seq<FixedRow> {
    seq(6, _ => FixedRow(ServerPlaceholder, "0"))
  }

  /** Seventeen holes per player, every plus and minus "0". */
  function ServerScrollable(editable: bool): seq<seq<ScoreCell>> {
    seq(6, _ => seq(17, _ => ScoreCell(Div("0", editable, None), Div("0", editable, None))))
  }

  /** The server-rendered totals already agree with their rows. */
  lemma ServerPageAgrees(editable: bool)
    ensures TotalsAgree(ServerFixed(), ServerScrollable(editable))
  {
    var s := ServerScrollable(editable);
    forall i | 0 <= i < 6
      ensures TotalText(s[i]) == "0"
    {
      ZeroTextIsZero();
      SideSumOfUniform(s[i], Plus, "0");
      SideSumOfUniform(s[i], Minus, "0");
    }
  }
}
