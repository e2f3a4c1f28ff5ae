/**
 * Row-height equalisation between the fixed table and the scrollable table.
 * Real layout is not modelled: the natural height of every row, measured after
 * its explicit height override has been cleared, is an input.
 */
module Layout {
  import opened JsText

  /** The `style.height` override of a row: none (`""`) or a pixel height. */
  datatype Style = Auto | Px(height: nat)

  /** Natural (`offsetHeight`) heights of the body rows of both tables and of
      their header rows. */
  datatype Natural = Natural(fixedRows: seq<nat>, scrollRows: seq<nat>, fixedHeader: nat, scrollHeader: nat)

  /** `Math.max` on two heights. */
  function Max(a: nat, b: nat): (m: nat)
    ensures m >= a && m >= b
    ensures m == a || m == b
  {
    if a < b then b else a
  }

  /** The overrides of one table's rows after equalisation against the other
      table: every row with a counterpart gets the larger of the two natural
      heights, every row without one keeps its override. */
  function Synced(styles: seq<Style>, own: seq<nat>, other: seq<nat>): seq<Style>
    requires |own| == |styles|
  {
    seq(|styles|, i requires 0 <= i < |styles| => if i < |other| then Px(Max(own[i], other[i])) else styles[i])
  }

  /** The two header rows are equalised only when both exist. */
  function SyncedHeaders(fixedHeader: Option<Style>, scrollHeader: Option<Style>, fixedNatural: nat, scrollNatural: nat)
    : (Option<Style>, Option<Style>)
  {
    if fixedHeader.Some? && scrollHeader.Some? then
      var h := Px(Max(fixedNatural, scrollNatural));
      (Some(h), Some(h))
    else (fixedHeader, scrollHeader)
  }

  /** After equalisation each paired row has the same height on both sides, no
      lower than either natural height; unpaired rows are untouched. */
  lemma SyncedRowsMatch(fixedStyles: seq<Style>, scrollStyles: seq<Style>, fixedNatural: seq<nat>, scrollNatural: seq<nat>)
    requires |fixedNatural| == |fixedStyles| && |scrollNatural| == |scrollStyles|
    ensures var f := Synced(fixedStyles, fixedNatural, scrollNatural);
      var s := Synced(scrollStyles, scrollNatural, fixedNatural);
      && (forall i :: 0 <= i < |fixedStyles| && i < |scrollStyles| ==>
            && f[i] == s[i] && f[i].Px?
            && f[i].height >= fixedNatural[i] && f[i].height >= scrollNatural[i]
            && (f[i].height == fixedNatural[i] || f[i].height == scrollNatural[i]))
      && (forall i :: |scrollStyles| <= i < |fixedStyles| ==> f[i] == fixedStyles[i])
      && (forall i :: |fixedStyles| <= i < |scrollStyles| ==> s[i] == scrollStyles[i])
  {
  }

  /** The overrides in place before equalisation do not matter for paired rows
      (they are cleared before measuring), so equalising twice with the same
      measurements gives the same overrides as equalising once. */
  lemma SyncedIdempotent(styles: seq<Style>, own: seq<nat>, other: seq<nat>)
    requires |own| == |styles|
    ensures Synced(Synced(styles, own, other), own, other) == Synced(styles, own, other)
  {
  }

  lemma SyncedHeadersIdempotent(fixedHeader: Option<Style>, scrollHeader: Option<Style>, fixedNatural: nat, scrollNatural: nat)
    ensures var (f, s) := SyncedHeaders(fixedHeader, scrollHeader, fixedNatural, scrollNatural);
      SyncedHeaders(f, s, fixedNatural, scrollNatural) == (f, s)
  {
  }
}
