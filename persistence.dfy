/**
 * The record kept in browser-local storage and the two directions between it
 * and the rows: what saving produces from the rows, and how loading merges a
 * record back into them by position.
 */
module Persistence {
  import opened JsText
  import opened Rows

  datatype ScoreRecord = ScoreRecord(plus: string, minus: string)

  datatype PlayerRecord = PlayerRecord(name: string, scores: seq<ScoreRecord>)

  /** `{ players: [ { name, scores: [ { plus, minus }, ... ] }, ... ] }` */
  datatype Snapshot = Snapshot(players: seq<PlayerRecord>)

  /** What `localStorage.getItem` yields for the key: nothing (null or the empty
      string), text that `JSON.parse` rejects, or a parsed record. */
  datatype Stored = Absent | Unparseable | Json(snapshot: Snapshot)

  // ---------------------------------------------------------------------------
  // Saving

  /** The trimmed plus and minus text of every score cell of a row, in order. */
  function ScoresOf(cells: seq<ScoreCell>): seq<ScoreRecord> {
    seq(|cells|, j requires 0 <= j < |cells| => ScoreRecord(Trim(cells[j].plus.text), Trim(cells[j].minus.text)))
  }

  /** The record of fixed row `i`: its trimmed name, and the scores of the
      scrollable row at the same position (none when there is no such row). */
  function PlayerOf(fixed: seq<FixedRow>, scrollable: seq<seq<ScoreCell>>, i: nat): PlayerRecord
    requires i < |fixed|
  {
    PlayerRecord(Trim(fixed[i].name), if i < |scrollable| then ScoresOf(scrollable[i]) else [])
  }

  /** The record `saveData` builds: one player per fixed row, in order. */
  function SnapshotOf(fixed: seq<FixedRow>, scrollable: seq<seq<ScoreCell>>): Snapshot {
    Snapshot(seq(|fixed|, i requires 0 <= i < |fixed| => PlayerOf(fixed, scrollable, i)))
  }

  // ---------------------------------------------------------------------------
  // Loading

  /** The score cells of one row after restoring `scores` into them: cell `j`
      takes record `j` when both exist; surplus records are ignored and cells
      without a record are untouched. */
  function MergeCells(cells: seq<ScoreCell>, scores: seq<ScoreRecord>): seq<ScoreCell> {
    seq(|cells|, j requires 0 <= j < |cells| =>
      if j < |scores| then ScoreCell(SetText(cells[j].plus, scores[j].plus), SetText(cells[j].minus, scores[j].minus))
      else cells[j])
  }

  /** Player `i` is restored only when a fixed and a scrollable row both exist
      at position `i`. */
  predicate Restores(fixedCount: nat, scrollCount: nat, players: seq<PlayerRecord>, i: nat) {
    i < |players| && i < fixedCount && i < scrollCount
  }

  /** The scrollable rows after `loadData` with the given players. */
  function LoadedScrollable(fixed: seq<FixedRow>, scrollable: seq<seq<ScoreCell>>, players: seq<PlayerRecord>)
    : seq<seq<ScoreCell>>
  {
    seq(|scrollable|, i requires 0 <= i < |scrollable| =>
      if Restores(|fixed|, |scrollable|, players, i) then MergeCells(scrollable[i], players[i].scores)
      else scrollable[i])
  }

  /** The fixed rows after `loadData`: a restored row takes the stored name as
      it is and the total of its merged score cells. */
  function LoadedFixed(fixed: seq<FixedRow>, scrollable: seq<seq<ScoreCell>>, players: seq<PlayerRecord>)
    : seq<FixedRow>
  {
    seq(|fixed|, i requires 0 <= i < |fixed| =>
      if Restores(|fixed|, |scrollable|, players, i)
      then FixedRow(players[i].name, TotalText(MergeCells(scrollable[i], players[i].scores)))
      else fixed[i])
  }

  // ---------------------------------------------------------------------------
  // Properties

  /** Loading leaves every restored row showing the total of its own cells. */
  lemma LoadedRowsAgree(fixed: seq<FixedRow>, scrollable: seq<seq<ScoreCell>>, players: seq<PlayerRecord>)
    ensures var f := LoadedFixed(fixed, scrollable, players);
      var s := LoadedScrollable(fixed, scrollable, players);
      forall i :: 0 <= i < |fixed| && Restores(|fixed|, |scrollable|, players, i) ==>
        f[i].total == TotalText(s[i])
  {
  }

  /** Only the part of the record that fits the current rows and cells
      matters: cutting the record down to it changes nothing. */
  function Fitted(players: seq<PlayerRecord>, fixedCount: nat, scrollable: seq<seq<ScoreCell>>): seq<PlayerRecord> {
    var n := if |players| < fixedCount then |players| else fixedCount;
    var n := if n < |scrollable| then n else |scrollable|;
    seq(n, i requires 0 <= i < n =>
      var m := if |players[i].scores| < |scrollable[i]| then |players[i].scores| else |scrollable[i]|;
      players[i].(scores := players[i].scores[..m]))
  }

  lemma LoadIgnoresSurplus(fixed: seq<FixedRow>, scrollable: seq<seq<ScoreCell>>, players: seq<PlayerRecord>)
    ensures var p := Fitted(players, |fixed|, scrollable);
      && LoadedFixed(fixed, scrollable, p) == LoadedFixed(fixed, scrollable, players)
      && LoadedScrollable(fixed, scrollable, p) == LoadedScrollable(fixed, scrollable, players)
  {
    var p := Fitted(players, |fixed|, scrollable);
    forall i | 0 <= i < |fixed| && Restores(|fixed|, |scrollable|, players, i)
      ensures MergeCells(scrollable[i], p[i].scores) == MergeCells(scrollable[i], players[i].scores)
    {
    }
    assert forall i :: Restores(|fixed|, |scrollable|, players, i) <==> Restores(|fixed|, |scrollable|, p, i);
  }

  /** A row with every plus and minus text trimmed in place. */
  function TrimmedCells(cells: seq<ScoreCell>): seq<ScoreCell> {
    seq(|cells|, j requires 0 <= j < |cells| =>
      ScoreCell(SetText(cells[j].plus, Trim(cells[j].plus.text)), SetText(cells[j].minus, Trim(cells[j].minus.text))))
  }

  /** Restoring a row's own saved scores trims its texts, keeps its total and
      saves back to the same scores. */
  lemma MergeOwnScores(cells: seq<ScoreCell>)
    ensures MergeCells(cells, ScoresOf(cells)) == TrimmedCells(cells)
    ensures RowTotal(TrimmedCells(cells)) == RowTotal(cells)
    ensures ScoresOf(TrimmedCells(cells)) == ScoresOf(cells)
  {
    var t := TrimmedCells(cells);
    forall j | 0 <= j < |cells|
      ensures CellValue(t[j].plus.text) == CellValue(cells[j].plus.text)
      ensures CellValue(t[j].minus.text) == CellValue(cells[j].minus.text)
      ensures ScoresOf(t)[j] == ScoresOf(cells)[j]
    {
      ParseIntOfTrim(cells[j].plus.text);
      ParseIntOfTrim(cells[j].minus.text);
      TrimIdempotent(cells[j].plus.text);
      TrimIdempotent(cells[j].minus.text);
    }
    RowTotalCongruent(t, cells);
  }

  /** Saving, then loading what was saved, leaves every restored name and
      score text equal to its trimmed original and every restored total equal
      to the total before; rows without a partner are untouched. */
  lemma SaveThenLoad(fixed: seq<FixedRow>, scrollable: seq<seq<ScoreCell>>)
    ensures var players := SnapshotOf(fixed, scrollable).players;
      var f := LoadedFixed(fixed, scrollable, players);
      var s := LoadedScrollable(fixed, scrollable, players);
      && |f| == |fixed| && |s| == |scrollable|
      && (forall i :: 0 <= i < |fixed| && i < |scrollable| ==>
            f[i] == FixedRow(Trim(fixed[i].name), TotalText(scrollable[i])) && s[i] == TrimmedCells(scrollable[i]))
      && (forall i :: |scrollable| <= i < |fixed| ==> f[i] == fixed[i])
      && (forall i :: |fixed| <= i < |scrollable| ==> s[i] == scrollable[i])
  {
    var players := SnapshotOf(fixed, scrollable).players;
    forall i | 0 <= i < |fixed| && i < |scrollable|
      ensures players[i].scores == ScoresOf(scrollable[i])
      ensures MergeCells(scrollable[i], players[i].scores) == TrimmedCells(scrollable[i])
      ensures TotalText(MergeCells(scrollable[i], players[i].scores)) == TotalText(scrollable[i])
    {
      MergeOwnScores(scrollable[i]);
    }
  }

  /** Saving again right after such a load produces the identical record. */
  lemma SaveLoadSave(fixed: seq<FixedRow>, scrollable: seq<seq<ScoreCell>>)
    ensures var snap := SnapshotOf(fixed, scrollable);
      SnapshotOf(LoadedFixed(fixed, scrollable, snap.players), LoadedScrollable(fixed, scrollable, snap.players))
        == snap
  {
    var snap := SnapshotOf(fixed, scrollable);
    var f := LoadedFixed(fixed, scrollable, snap.players);
    var s := LoadedScrollable(fixed, scrollable, snap.players);
    SaveThenLoad(fixed, scrollable);
    forall i | 0 <= i < |fixed|
      ensures PlayerOf(f, s, i) == snap.players[i]
    {
      TrimIdempotent(fixed[i].name);
      if i < |scrollable| {
        MergeOwnScores(scrollable[i]);
      }
    }
    assert SnapshotOf(f, s).players == snap.players;
  }
}
