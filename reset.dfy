/**
 * The two destructive buttons of the reset dialog: "scores only" zeroes every
 * plus and minus div; "everything" also puts the reset placeholder into the
 * name of every fixed row that has a scrollable partner.
 */
module Reset {
  import opened JsText
  import opened Rows

  /** The name the "everything" button writes (with a space)... */
  const ResetPlaceholder: string := "이름 입력"

  /** ...which is not the name the server renders into a fresh page. */
  const ServerPlaceholder: string := "이름입력"

  lemma PlaceholdersDiffer()
    ensures ResetPlaceholder != ServerPlaceholder
  {
    assert |ResetPlaceholder| == 5 && |ServerPlaceholder| == 4;
  }

  /** Every scrollable row with both sides set to "0". */
  function ResetScrollable(scrollable: seq<seq<ScoreCell>>): seq<seq<ScoreCell>> {
    seq(|scrollable|, i requires 0 <= i < |scrollable| => ZeroRow(scrollable[i]))
  }

  /** The fixed rows after a reset: each row with a scrollable partner gets the
      recomputed total of the zeroed partner and, when `names` is set, the
      reset placeholder as its name; the other rows are untouched. */
  function ResetFixed(fixed: seq<FixedRow>, scrollable: seq<seq<ScoreCell>>, names: bool): seq<FixedRow> {
    seq(|fixed|, i requires 0 <= i < |fixed| =>
      if i < |scrollable| then
        FixedRow(if names then ResetPlaceholder else fixed[i].name, TotalText(ZeroRow(scrollable[i])))
      else fixed[i])
  }

  /** After either reset every plus and minus text is "0" with no input left
      attached and editability kept, every paired total reads "0" and agrees
      with its row, names are kept by "scores only" and replaced by
      "everything", and unpaired fixed rows are untouched. */
  lemma ResetOutcome(fixed: seq<FixedRow>, scrollable: seq<seq<ScoreCell>>, names: bool)
    ensures var f := ResetFixed(fixed, scrollable, names);
      var s := ResetScrollable(scrollable);
      && |f| == |fixed| && |s| == |scrollable|
      && TotalsAgree(f, s)
      && (forall i :: 0 <= i < |fixed| && i < |scrollable| ==>
            f[i].total == "0" && f[i].name == (if names then ResetPlaceholder else fixed[i].name))
      && (forall i :: |scrollable| <= i < |fixed| ==> f[i] == fixed[i])
      && (forall i, j :: 0 <= i < |scrollable| && 0 <= j < |scrollable[i]| ==>
            && |s[i]| == |scrollable[i]|
            && s[i][j].plus == Div("0", scrollable[i][j].plus.editable, None)
            && s[i][j].minus == Div("0", scrollable[i][j].minus.editable, None))
  {
    forall i | 0 <= i < |scrollable|
      ensures TotalText(ZeroRow(scrollable[i])) == "0"
    {
      ZeroedRowTotal(scrollable[i]);
    }
  }

  /** Pressing a reset button twice leaves the same rows as pressing it once. */
  lemma ResetIdempotent(fixed: seq<FixedRow>, scrollable: seq<seq<ScoreCell>>, names: bool)
    ensures ResetScrollable(ResetScrollable(scrollable)) == ResetScrollable(scrollable)
    ensures ResetFixed(ResetFixed(fixed, scrollable, names), ResetScrollable(scrollable), names)
         == ResetFixed(fixed, scrollable, names)
  {
    var s := ResetScrollable(scrollable);
    forall i | 0 <= i < |scrollable|
      ensures ZeroRow(s[i]) == s[i]
      ensures TotalText(ZeroRow(s[i])) == "0" && TotalText(ZeroRow(scrollable[i])) == "0"
    {
      ZeroedRowTotal(scrollable[i]);
      ZeroedRowTotal(s[i]);
    }
  }
}
