/** The row selections shown in the last two tabs: the two-week window around
    the cutoff with its tags (app_analisis_rem.py lines 487-488 and 525-526)
    and the date-range filter of the detail table (line 585). */
module Views {
  import opened Metrics
  import opened Filters
  import opened Segments

  function Between(start: int, end: int): int -> bool
  {
    d => start <= d <= end
  }

  /** `df[(df['fecha'] >= start) & (df['fecha'] <= end)]`, both ends included. */
  function InRange(rows: seq<Enriched>, start: int, end: int): (r: seq<Enriched>)
    ensures forall x :: x in r <==> x in rows && start <= x.obs.date <= end
  {
    FilterMembership(rows, Between(start, end));
    Filter(rows, Between(start, end))
  }

  /** An inverted range selects nothing; filtering again by the same range
      changes nothing; and filtering by two ranges in turn is filtering by
      their intersection. */
  lemma RangeAlgebra(rows: seq<Enriched>, start: int, end: int, start': int, end': int)
    ensures start > end ==> InRange(rows, start, end) == []
    ensures InRange(InRange(rows, start, end), start, end) == InRange(rows, start, end)
    ensures InRange(InRange(rows, start, end), start', end') ==
      InRange(rows, if start < start' then start' else start, if end < end' then end else end')
  {
    if start > end {
      FilterDropsAll(rows, Between(start, end));
    }
    var lo, hi := if start < start' then start' else start, if end < end' then end else end';
    FilterOfFilter(rows, Between(start, end), Between(start, end), Between(start, end));
    FilterOfFilter(rows, Between(start, end), Between(start', end'), Between(lo, hi));
  }

  /** On a date-ordered series the range is a contiguous run of rows. */
  lemma RangeIsContiguous(rows: seq<Enriched>, start: int, end: int) returns (i: nat, j: nat)
    requires InDateOrder(rows)
    ensures i <= j <= |rows|
    ensures InRange(rows, start, end) == rows[i..j]
  {
    var front, kept, back := ThreePieces(rows, start, end);
    RangeOnPieces(front, kept, back, start, end);
    i, j := |front|, |front| + |kept|;
    assert rows[i..j] == kept;
  }

  /** A date-ordered series is the rows before `start`, then the rows up to
      `end`, then the rows after it. */
  lemma ThreePieces(rows: seq<Enriched>, start: int, end: int) returns (front: seq<Enriched>, kept: seq<Enriched>, back: seq<Enriched>)
    requires InDateOrder(rows)
    ensures rows == front + kept + back
    ensures forall x :: x in front ==> x.obs.date < start
    ensures forall x :: x in kept ==> start <= x.obs.date <= end
    ensures forall x :: x in back ==> x.obs.date > end
  {
    SplitConcatenates(rows, start);
    var tail := After(rows, start);
    front := Before(rows, start);
    FilterKeepsDateOrder(rows, AtOrAfter(start));
    SplitConcatenates(tail, end + 1);
    kept, back := Before(tail, end + 1), After(tail, end + 1);
  }

  lemma RangeOnPieces(front: seq<Enriched>, kept: seq<Enriched>, back: seq<Enriched>, start: int, end: int)
    requires forall x :: x in front ==> x.obs.date < start
    requires forall x :: x in kept ==> start <= x.obs.date <= end
    requires forall x :: x in back ==> x.obs.date > end
    ensures InRange(front + kept + back, start, end) == kept
  {
    var keep := Between(start, end);
    FilterAppend(front + kept, back, keep);
    FilterAppend(front, kept, keep);
    FilterDropsAll(front, keep);
    FilterKeepsAll(kept, keep);
    FilterDropsAll(back, keep);
    assert [] + kept + [] == kept;
  }

  // ---------------------------------------------------------------------------
  // The window around the cutoff

  /** Days on each side of the cutoff (`timedelta(days=7)`). */
  const WindowRadius: nat := 7

  /** `ventana`: the rows at most `WindowRadius` days from the cutoff. */
  function Window(rows: seq<Enriched>, cutoff: int): (r: seq<Enriched>)
    ensures forall x :: x in r <==> x in rows && cutoff - WindowRadius <= x.obs.date <= cutoff + WindowRadius
  {
    InRange(rows, cutoff - WindowRadius, cutoff + WindowRadius)
  }

  /** `Período` on line 525. */
  datatype Period = BeforeCutoff | FromCutoff

  /** A row of the window table: the row with its period and the
      `Es reducción` flag of line 526. */
  datatype TaggedRow = TaggedRow(row: Enriched, period: Period, isCutoffDay: bool)

  function TagRow(row: Enriched, cutoff: int): TaggedRow
  {
    TaggedRow(row, if row.obs.date < cutoff then BeforeCutoff else FromCutoff, row.obs.date == cutoff)
  }

  /** The window table: every window row, in order, with its tags. */
  function TagWindow(rows: seq<Enriched>, cutoff: int): (t: seq<TaggedRow>)
    ensures |t| == |Window(rows, cutoff)|
    ensures forall k :: 0 <= k < |t| ==> t[k].row == Window(rows, cutoff)[k]
  {
    var w := Window(rows, cutoff);
    seq(|w|, k requires 0 <= k < |w| => TagRow(w[k], cutoff))
  }

  /** The tags agree with the segment split: on a date-ordered series the
      window table is the part of the before-segment in the window, tagged
      before, followed by the part of the after-segment in it, tagged after.
      The cutoff day is flagged only in the after part, and when dates are
      distinct only on its first row; some row is flagged exactly when the
      series has a row dated on the cutoff. */
  lemma TagsFollowSplit(rows: seq<Enriched>, cutoff: int)
    requires InDateOrder(rows)
    ensures var w, t := Window(rows, cutoff), TagWindow(rows, cutoff);
      var k := |Before(w, cutoff)|;
      && (forall i :: 0 <= i < |t| ==> (t[i].period == BeforeCutoff <==> i < k))
      && (forall i :: 0 <= i < |t| && t[i].isCutoffDay ==> k <= i)
      && (StrictlyInDateOrder(rows) ==> forall i :: 0 <= i < |t| && t[i].isCutoffDay ==> i == k)
    ensures var t := TagWindow(rows, cutoff);
      (exists i :: 0 <= i < |t| && t[i].isCutoffDay) <==> (exists j :: 0 <= j < |rows| && rows[j].obs.date == cutoff)
  {
    CutoffDayFlagged(rows, cutoff);
    var w, t := Window(rows, cutoff), TagWindow(rows, cutoff);
    FilterKeepsDateOrder(rows, Between(cutoff - WindowRadius, cutoff + WindowRadius));
    SplitIsPartition(w, cutoff);
    var k := |Before(w, cutoff)|;
    forall i | 0 <= i < |t|
      ensures t[i].period == BeforeCutoff <==> i < k
      ensures t[i].isCutoffDay ==> k <= i
    {
      if i < k {
        assert w[i] in Before(w, cutoff);
      } else {
        assert w[i] in After(w, cutoff);
      }
    }
    if StrictlyInDateOrder(rows) {
      StrictOrderOfFilter(rows, Between(cutoff - WindowRadius, cutoff + WindowRadius));
      assert k < |w| ==> w[k] in After(w, cutoff);
    }
  }

  lemma CutoffDayFlagged(rows: seq<Enriched>, cutoff: int)
    ensures var t := TagWindow(rows, cutoff);
      (exists i :: 0 <= i < |t| && t[i].isCutoffDay) <==> (exists j :: 0 <= j < |rows| && rows[j].obs.date == cutoff)
  {
    var w, t := Window(rows, cutoff), TagWindow(rows, cutoff);
    if exists j :: 0 <= j < |rows| && rows[j].obs.date == cutoff {
      var j :| 0 <= j < |rows| && rows[j].obs.date == cutoff;
      assert rows[j] in w;
      var i :| 0 <= i < |w| && w[i] == rows[j];
      assert t[i].isCutoffDay;
    }
    if exists i :: 0 <= i < |t| && t[i].isCutoffDay {
      var i :| 0 <= i < |t| && t[i].isCutoffDay;
      assert w[i] in rows;
    }
  }

  ghost predicate StrictlyInDateOrder(rows: seq<Enriched>)
  {
    forall i, j :: 0 <= i < j < |rows| ==> rows[i].obs.date < rows[j].obs.date
  }

  lemma {:induction false} StrictOrderOfFilter(rows: seq<Enriched>, keep: int -> bool)
    requires StrictlyInDateOrder(rows)
    ensures StrictlyInDateOrder(Filter(rows, keep))
  {
    if rows != [] {
      var init, last := rows[..|rows| - 1], rows[|rows| - 1];
      StrictOrderOfFilter(init, keep);
      FilterMembership(init, keep);
      var f := Filter(init, keep);
      forall x | x in f
        ensures x.obs.date < last.obs.date
      {
        var i :| 0 <= i < |init| && init[i] == x;
      }
    }
  }
}
