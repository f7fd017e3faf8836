/** The split around the rate-reduction date (app_analisis_rem.py lines
    138-139), the per-segment summaries of the impact tab (lines 397-418) and
    the measured impact (lines 429-447). */
module Segments {
  import opened Optional
  import opened Stats
  import opened Records
  import opened Metrics
  import opened Filters

  function Below(cutoff: int): int -> bool
  {
    d => d < cutoff
  }

  function AtOrAfter(cutoff: int): int -> bool
  {
    d => d >= cutoff
  }

  /** `df_antes`: the rows dated strictly before the cutoff. */
  function Before(rows: seq<Enriched>, cutoff: int): (r: seq<Enriched>)
    ensures forall x :: x in r <==> x in rows && x.obs.date < cutoff
  {
    FilterMembership(rows, Below(cutoff));
    Filter(rows, Below(cutoff))
  }

  /** `df_despues`: the rows dated on or after the cutoff. */
  function After(rows: seq<Enriched>, cutoff: int): (r: seq<Enriched>)
    ensures forall x :: x in r <==> x in rows && x.obs.date >= cutoff
  {
    FilterMembership(rows, AtOrAfter(cutoff));
    Filter(rows, AtOrAfter(cutoff))
  }

  /** On a date-ordered series the split cuts it in two: the rows before the
      cutoff followed by the rows from it on. */
  lemma {:induction false} SplitConcatenates(rows: seq<Enriched>, cutoff: int)
    requires InDateOrder(rows)
    ensures Before(rows, cutoff) + After(rows, cutoff) == rows
  {
    if rows != [] {
      var init, last := rows[..|rows| - 1], rows[|rows| - 1];
      assert InDateOrder(init);
      if last.obs.date < cutoff {
        LastBelowCutoff(rows, cutoff);
      } else {
        SplitConcatenates(init, cutoff);
        assert rows == init + [last];
        ExtendSplit(init, last, cutoff);
      }
    }
  }

  /** A row from the cutoff on, appended to a series the split cuts in two,
      joins the second piece. */
  lemma ExtendSplit(init: seq<Enriched>, last: Enriched, cutoff: int)
    requires Before(init, cutoff) + After(init, cutoff) == init && last.obs.date >= cutoff
    ensures Before(init + [last], cutoff) + After(init + [last], cutoff) == init + [last]
  {
    var rows := init + [last];
    assert rows[..|rows| - 1] == init;
    LastFromCutoff(rows, cutoff);
    var b, a := Before(init, cutoff), After(init, cutoff);
    assert b + (a + [last]) == (b + a) + [last];
  }

  /** When even the last row precedes the cutoff, every row does. */
  lemma LastBelowCutoff(rows: seq<Enriched>, cutoff: int)
    requires InDateOrder(rows) && rows != [] && rows[|rows| - 1].obs.date < cutoff
    ensures Before(rows, cutoff) == rows && After(rows, cutoff) == []
  {
    FilterKeepsAll(rows, Below(cutoff));
    FilterDropsAll(rows, AtOrAfter(cutoff));
  }

  lemma LastFromCutoff(rows: seq<Enriched>, cutoff: int)
    requires rows != [] && rows[|rows| - 1].obs.date >= cutoff
    ensures var init := rows[..|rows| - 1];
      && Before(rows, cutoff) == Before(init, cutoff)
      && After(rows, cutoff) == After(init, cutoff) + [rows[|rows| - 1]]
  {
  }

  /** Lines 138-139: the two segments partition the series. No row is lost or
      duplicated, every row before the cutoff is in the first segment and every
      other row in the second, and on a date-ordered series the first segment
      is a prefix and the second the remaining suffix. */
  lemma SplitIsPartition(rows: seq<Enriched>, cutoff: int)
    ensures |Before(rows, cutoff)| + |After(rows, cutoff)| == |rows|
    ensures multiset(Before(rows, cutoff)) + multiset(After(rows, cutoff)) == multiset(rows)
    ensures forall x, y :: x in Before(rows, cutoff) && y in After(rows, cutoff) ==> x.obs.date < y.obs.date
    ensures InDateOrder(rows) ==>
      var k := |Before(rows, cutoff)|;
      Before(rows, cutoff) == rows[..k] && After(rows, cutoff) == rows[k..]
  {
    FilterComplement(rows, Below(cutoff), AtOrAfter(cutoff));
    if InDateOrder(rows) {
      SplitConcatenates(rows, cutoff);
    }
  }

  /** A series whose rows up to `front` precede the cutoff and whose remaining
      rows do not is split exactly there. */
  lemma SplitAtPieces(front: seq<Enriched>, back: seq<Enriched>, cutoff: int)
    requires forall i :: 0 <= i < |front| ==> front[i].obs.date < cutoff
    requires forall i :: 0 <= i < |back| ==> back[i].obs.date >= cutoff
    ensures Before(front + back, cutoff) == front
    ensures After(front + back, cutoff) == back
  {
    var below, after := Below(cutoff), AtOrAfter(cutoff);
    FilterAppend(front, back, below);
    FilterAppend(front, back, after);
    FilterKeepsAll(front, below);
    FilterDropsAll(back, below);
    FilterDropsAll(front, after);
    FilterKeepsAll(back, after);
    assert front + [] == front;
    assert [] + back == back;
  }

  // ---------------------------------------------------------------------------
  // Segment summaries

  /** What the impact tab reports for one segment. */
  datatype Summary = Summary(
    days: nat,                   // dias_*
    firstBalance: real,          // saldo_inicial_*
    lastBalance: real,           // saldo_final_*
    totalGrowthPct: Option<real>, // crecimiento_*
    meanDelta: Option<real>,     // velocidad_diaria_*
    meanPct: Option<real>)       // velocidad_pct_*

  /** `((to / from) - 1) * 100`, NaN (or infinite) when `from` is zero. */
  function RelativeChangePct(from: real, to: real): (r: Option<real>)
    ensures r.Some? <==> from != 0.0
    ensures r.Some? ==> from * (1.0 + r.value / 100.0) == to
  {
    if from == 0.0 then None
    else
      PctAlgebra(from, to, (to / from - 1.0) * 100.0);
      Some((to / from - 1.0) * 100.0)
  }

  /** Line 416: the after-segment growth, 0 unless the first balance is positive. */
  function GuardedGrowthPct(from: real, to: real): (r: real)
    ensures from > 0.0 ==> from * (1.0 + r / 100.0) == to
    ensures from <= 0.0 ==> r == 0.0
  {
    if from > 0.0 then RelativeChangePct(from, to).value else 0.0
  }

  /** The summary of a non-empty segment with the given total growth. */
  function Summarize(seg: seq<Enriched>, growth: Option<real>): (s: Summary)
    requires |seg| > 0
    ensures s.days == |seg| && s.totalGrowthPct == growth
    ensures s.firstBalance == seg[0].obs.balance && s.lastBalance == seg[|seg| - 1].obs.balance
    ensures s.meanDelta == MeanDefined(Deltas(seg)) && s.meanPct == MeanDefined(Pcts(seg))
  {
    Summary(|seg|, seg[0].obs.balance, seg[|seg| - 1].obs.balance, growth,
            MeanDefined(Deltas(seg)), MeanDefined(Pcts(seg)))
  }

  /** Lines 397-402. The total growth is not guarded: a zero first balance
      gives a non-finite value, modelled as undefined. */
  function SummarizeBefore(seg: seq<Enriched>): (s: Summary)
    requires |seg| > 0
    ensures s.days == |seg|
    ensures s.firstBalance == seg[0].obs.balance && s.lastBalance == seg[|seg| - 1].obs.balance
    ensures s.totalGrowthPct.Some? <==> s.firstBalance != 0.0
    ensures s.totalGrowthPct.Some? ==> s.firstBalance * (1.0 + s.totalGrowthPct.value / 100.0) == s.lastBalance
    ensures s.meanDelta.None? <==> forall i :: 0 <= i < |seg| ==> seg[i].delta1d.None?
    ensures s.meanDelta == MeanDefined(Deltas(seg)) && SpreadsEvenly(s.meanDelta, Deltas(seg))
    ensures s.meanPct.None? <==> forall i :: 0 <= i < |seg| ==> seg[i].pct1d.None?
    ensures s.meanPct == MeanDefined(Pcts(seg)) && SpreadsEvenly(s.meanPct, Pcts(seg))
  {
    var first, last := seg[0].obs.balance, seg[|seg| - 1].obs.balance;
    MeanTimesCount(Deltas(seg));
    MeanTimesCount(Pcts(seg));
    Summarize(seg, RelativeChangePct(first, last))
  }

  /** Lines 413-418: as before, but the total growth is always a number. */
  function SummarizeAfter(seg: seq<Enriched>): (s: Summary)
    requires |seg| > 0
    ensures s.days == |seg|
    ensures s.firstBalance == seg[0].obs.balance && s.lastBalance == seg[|seg| - 1].obs.balance
    ensures s.totalGrowthPct.Some?
    ensures s.firstBalance > 0.0 ==> s.firstBalance * (1.0 + s.totalGrowthPct.value / 100.0) == s.lastBalance
    ensures s.firstBalance <= 0.0 ==> s.totalGrowthPct == Some(0.0)
    ensures s.meanDelta.None? <==> forall i :: 0 <= i < |seg| ==> seg[i].delta1d.None?
    ensures s.meanDelta == MeanDefined(Deltas(seg)) && SpreadsEvenly(s.meanDelta, Deltas(seg))
    ensures s.meanPct.None? <==> forall i :: 0 <= i < |seg| ==> seg[i].pct1d.None?
    ensures s.meanPct == MeanDefined(Pcts(seg)) && SpreadsEvenly(s.meanPct, Pcts(seg))
  {
    var first, last := seg[0].obs.balance, seg[|seg| - 1].obs.balance;
    MeanTimesCount(Deltas(seg));
    MeanTimesCount(Pcts(seg));
    Summarize(seg, Some(GuardedGrowthPct(first, last)))
  }

  // ---------------------------------------------------------------------------
  // Impact

  /** The measured impact of the cutoff (lines 432, 433 and 447). */
  datatype Impact = Impact(
    velocityChange: Option<real>,    // cambio_velocidad_diaria
    velocityChangePct: Option<real>, // cambio_velocidad_pct
    rateChangePp: Option<real>)      // cambio_tasa_diaria

  /** Both changes are after minus before; the relative change divides the
      mean daily percentages (not the absolute velocities) and is undefined
      when the before-segment's mean percentage is zero or undefined. */
  function Compare(before: Summary, after: Summary): (im: Impact)
    ensures im.velocityChange.Some? <==> before.meanDelta.Some? && after.meanDelta.Some?
    ensures im.velocityChange.Some? ==> after.meanDelta.value == before.meanDelta.value + im.velocityChange.value
    ensures im.rateChangePp.Some? <==> before.meanPct.Some? && after.meanPct.Some?
    ensures im.rateChangePp.Some? ==> after.meanPct.value == before.meanPct.value + im.rateChangePp.value
    ensures im.velocityChangePct.Some? <==>
      before.meanPct.Some? && after.meanPct.Some? && before.meanPct.value != 0.0
    ensures im.velocityChangePct.Some? ==>
      before.meanPct.value * (1.0 + im.velocityChangePct.value / 100.0) == after.meanPct.value
  {
    Impact(
      Minus(after.meanDelta, before.meanDelta),
      if before.meanPct.Some? && after.meanPct.Some?
      then RelativeChangePct(before.meanPct.value, after.meanPct.value)
      else None,
      Minus(after.meanPct, before.meanPct))
  }

  /** Line 456: the warning shows when the velocity change is negative.
      An undefined change compares false, so it reads as "kept or grew". */
  predicate VelocityDecreased(im: Impact)
  {
    im.velocityChange.Some? && im.velocityChange.value < 0.0
  }

  /** The warning shows exactly when both velocities are defined and the
      velocity after the cutoff is below the one before it. */
  lemma DecreaseWarning(before: Summary, after: Summary)
    ensures VelocityDecreased(Compare(before, after)) <==>
      before.meanDelta.Some? && after.meanDelta.Some? && after.meanDelta.value < before.meanDelta.value
  {
  }

  // ---------------------------------------------------------------------------
  // The impact tab as a whole

  /** `df_antes['saldo_rem'].iloc[0]` on an empty segment raises (line 398). */
  datatype AnalysisError = EmptyBeforeSegment

  datatype Report = Report(before: Summary, after: Option<Summary>, impact: Option<Impact>)

  /** Lines 397-447: the before-summary is computed unconditionally; the
      after-summary and the impact only when the after-segment has rows. */
  function Analyze(rows: seq<Enriched>, cutoff: int): (r: Result<Report, AnalysisError>)
    ensures r.Failure? <==> forall i :: 0 <= i < |rows| ==> rows[i].obs.date >= cutoff
    ensures r.Success? ==> (r.value.after.None? <==> forall i :: 0 <= i < |rows| ==> rows[i].obs.date < cutoff)
    ensures r.Success? ==> |Before(rows, cutoff)| > 0 && r.value.before == SummarizeBefore(Before(rows, cutoff))
    ensures r.Success? && |After(rows, cutoff)| > 0 ==> r.value.after == Some(SummarizeAfter(After(rows, cutoff)))
    ensures r.Success? ==> (r.value.impact.Some? <==> r.value.after.Some?)
    ensures r.Success? && r.value.after.Some? ==> r.value.impact == Some(Compare(r.value.before, r.value.after.value))
    ensures r.Success? ==> r.value.before.days + (if r.value.after.Some? then r.value.after.value.days else 0) == |rows|
  {
    var before, after := Before(rows, cutoff), After(rows, cutoff);
    SplitIsPartition(rows, cutoff);
    EmptyIffNoneSelected(rows, before, cutoff, true);
    EmptyIffNoneSelected(rows, after, cutoff, false);
    if |before| == 0 then Failure(EmptyBeforeSegment)
    else
      var b := SummarizeBefore(before);
      if |after| == 0 then Success(Report(b, None, None))
      else
        var a := SummarizeAfter(after);
        Success(Report(b, Some(a), Some(Compare(b, a))))
  }

  lemma EmptyIffNoneSelected(rows: seq<Enriched>, seg: seq<Enriched>, cutoff: int, below: bool)
    requires forall x :: x in seg <==> x in rows && (x.obs.date < cutoff) == below
    ensures |seg| == 0 <==> forall i :: 0 <= i < |rows| ==> (rows[i].obs.date < cutoff) != below
  {
    if |seg| != 0 {
      assert seg[0] in seg;
    }
    if exists i :: 0 <= i < |rows| && (rows[i].obs.date < cutoff) == below {
      var i :| 0 <= i < |rows| && (rows[i].obs.date < cutoff) == below;
      assert rows[i] in seg;
    }
  }

  /** On a date-ordered series whose deltas are those of its own balances,
      with at least two rows before the cutoff and one from it on: the
      measured velocity change is the after velocity minus the before
      velocity, each the balance change across its segment spread over the
      days it spans (`SegmentVelocities`). `k` is the length of the before
      segment. */
  lemma VelocityChangeOfSplit(rows: seq<Enriched>, cutoff: int) returns (k: nat, before: real, after: real)
    requires DeltasOfOwnBalances(rows) && InDateOrder(rows)
    requires 2 <= |Before(rows, cutoff)| < |rows|
    ensures k == |Before(rows, cutoff)|
    ensures before == (rows[k - 1].obs.balance - rows[0].obs.balance) / ((k - 1) as real)
    ensures after == (rows[|rows| - 1].obs.balance - rows[k - 1].obs.balance) / ((|rows| - k) as real)
    ensures Analyze(rows, cutoff).Success? && Analyze(rows, cutoff).value.impact.Some?
    ensures Analyze(rows, cutoff).value.impact.value.velocityChange == Some(after - before)
  {
    k := |Before(rows, cutoff)|;
    var vc := ChangeOfSegmentMeans(rows, cutoff);
    before, after := ChangeOfVelocities(rows, k, vc);
  }


  /** With a single row before the cutoff the before velocity is undefined
      (its one delta looks back past the first row), and so is the change. */
  lemma OneDayBeforeHasNoVelocityChange(rows: seq<Enriched>, cutoff: int)
    requires DeltasOfOwnBalances(rows) && InDateOrder(rows)
    ensures |Before(rows, cutoff)| == 1 < |rows| ==>
      && Analyze(rows, cutoff).Success? && Analyze(rows, cutoff).value.impact.Some?
      && Analyze(rows, cutoff).value.impact.value.velocityChange.None?
  {
    if |Before(rows, cutoff)| == 1 < |rows| {
      var vc := ChangeOfSegmentMeans(rows, cutoff);
      SegmentVelocities(rows, 1);
    }
  }

  lemma ChangeOfVelocities(rows: seq<Enriched>, k: nat, vc: Option<real>) returns (before: real, after: real)
    requires DeltasOfOwnBalances(rows) && 2 <= k < |rows|
    requires vc == Minus(MeanDefined(Deltas(rows[k..])), MeanDefined(Deltas(rows[..k])))
    ensures before == (rows[k - 1].obs.balance - rows[0].obs.balance) / ((k - 1) as real)
    ensures after == (rows[|rows| - 1].obs.balance - rows[k - 1].obs.balance) / ((|rows| - k) as real)
    ensures vc == Some(after - before)
  {
    after, before := VelocitiesOfPieces(rows, k);
    DifferenceOfDefined(vc, MeanDefined(Deltas(rows[k..])), MeanDefined(Deltas(rows[..k])), after, before);
  }

  lemma VelocitiesOfPieces(rows: seq<Enriched>, k: nat) returns (after: real, before: real)
    requires DeltasOfOwnBalances(rows) && 2 <= k < |rows|
    ensures MeanDefined(Deltas(rows[k..])) == Some(after)
    ensures MeanDefined(Deltas(rows[..k])) == Some(before)
    ensures after == (rows[|rows| - 1].obs.balance - rows[k - 1].obs.balance) / ((|rows| - k) as real)
    ensures before == (rows[k - 1].obs.balance - rows[0].obs.balance) / ((k - 1) as real)
  {
    BeforeVelocity(rows, k);
    AfterVelocity(rows, k);
    after := (rows[|rows| - 1].obs.balance - rows[k - 1].obs.balance) / ((|rows| - k) as real);
    before := (rows[k - 1].obs.balance - rows[0].obs.balance) / ((k - 1) as real);
  }

  lemma DifferenceOfDefined(d: Option<real>, a: Option<real>, b: Option<real>, x: real, y: real)
    requires d == Minus(a, b) && a == Some(x) && b == Some(y)
    ensures d == Some(x - y)
  {
  }

  /** The velocity change of a two-segment report is the after mean delta
      minus the before mean delta. */
  lemma ChangeOfSegmentMeans(rows: seq<Enriched>, cutoff: int) returns (vc: Option<real>)
    requires InDateOrder(rows) && 0 < |Before(rows, cutoff)| < |rows|
    ensures Analyze(rows, cutoff).Success? && Analyze(rows, cutoff).value.impact.Some?
    ensures vc == Analyze(rows, cutoff).value.impact.value.velocityChange
    ensures var k := |Before(rows, cutoff)|;
      vc == Minus(MeanDefined(Deltas(rows[k..])), MeanDefined(Deltas(rows[..k])))
  {
    SplitConcatenates(rows, cutoff);
    SplitIsPartition(rows, cutoff);
    var r := Analyze(rows, cutoff);
    assert r.Success? && r.value.after == Some(SummarizeAfter(After(rows, cutoff)));
    vc := r.value.impact.value.velocityChange;
  }

  // ---------------------------------------------------------------------------
  // What the segment velocities measure

  /** The daily deltas of `rows` are those of its own balance column, as
      `Enrich` computes them. */
  ghost predicate DeltasOfOwnBalances(rows: seq<Enriched>)
  {
    Deltas(rows) == DiffColumn(Balances(Observations(rows)), 1)
  }

  lemma EnrichedDeltasOfOwnBalances(obs: seq<Observation>)
    ensures DeltasOfOwnBalances(Enrich(obs))
  {
    EnrichColumns(obs);
    assert Observations(Enrich(obs)) == obs;
  }

  /** Cut at `k` (`SplitIsPartition` shows the segments of a date-ordered
      series are such a prefix and suffix), a series whose deltas are those of
      its own balances has segment velocities that are balance changes spread
      over days. Before the cut: from the first to the last row of the
      segment, over the days after the first, whose delta is undefined. After
      the cut the first delta still reaches back across it: from the last row
      before the cut to the last row, over the days after the cut. */
  lemma SegmentVelocities(rows: seq<Enriched>, k: nat)
    requires DeltasOfOwnBalances(rows) && k <= |rows|
    ensures k == 1 ==> MeanDefined(Deltas(rows[..k])).None?
    ensures k >= 2 ==>
      MeanDefined(Deltas(rows[..k])) == Some((rows[k - 1].obs.balance - rows[0].obs.balance) / ((k - 1) as real))
    ensures 1 <= k < |rows| ==>
      MeanDefined(Deltas(rows[k..])) == Some((rows[|rows| - 1].obs.balance - rows[k - 1].obs.balance) / ((|rows| - k) as real))
  {
    if k == 1 {
      assert Deltas(rows[..k])[0] == None;
      assert AllUndefined(Deltas(rows[..k]));
    }
    if k >= 2 {
      BeforeVelocity(rows, k);
    }
    if 1 <= k < |rows| {
      AfterVelocity(rows, k);
    }
  }

  lemma BeforeVelocity(rows: seq<Enriched>, k: nat)
    requires DeltasOfOwnBalances(rows) && 2 <= k <= |rows|
    ensures MeanDefined(Deltas(rows[..k])) == Some((rows[k - 1].obs.balance - rows[0].obs.balance) / ((k - 1) as real))
  {
    var xs := PrefixOfBalances(rows, k);
    PrefixVelocity(xs, k, rows[0].obs.balance, rows[k - 1].obs.balance);
  }

  lemma AfterVelocity(rows: seq<Enriched>, k: nat)
    requires DeltasOfOwnBalances(rows) && 1 <= k < |rows|
    ensures MeanDefined(Deltas(rows[k..])) == Some((rows[|rows| - 1].obs.balance - rows[k - 1].obs.balance) / ((|rows| - k) as real))
  {
    var xs := SuffixOfBalances(rows, k);
    SuffixVelocityOfRows(xs, rows, k);
  }

  lemma SuffixVelocityOfRows(xs: seq<real>, rows: seq<Enriched>, k: nat)
    requires 1 <= k < |rows| == |xs|
    requires xs[|xs| - 1] == rows[|rows| - 1].obs.balance && xs[k - 1] == rows[k - 1].obs.balance
    ensures MeanDefined(DiffColumn(xs, 1)[k..]) == Some((rows[|rows| - 1].obs.balance - rows[k - 1].obs.balance) / ((|rows| - k) as real))
  {
    SuffixVelocity(xs, k, rows[|rows| - 1].obs.balance, rows[k - 1].obs.balance, |rows| - k);
  }

  /** The prefix up to `k` in terms of the balance column. */
  lemma PrefixOfBalances(rows: seq<Enriched>, k: nat) returns (xs: seq<real>)
    requires DeltasOfOwnBalances(rows) && 2 <= k <= |rows|
    ensures |xs| == |rows| && Deltas(rows[..k]) == DiffColumn(xs, 1)[..k]
    ensures xs[0] == rows[0].obs.balance && xs[k - 1] == rows[k - 1].obs.balance
  {
    xs := Balances(Observations(rows));
    DeltasOfSlices(rows, k);
  }

  /** The suffix from `k` in terms of the balance column. */
  lemma SuffixOfBalances(rows: seq<Enriched>, k: nat) returns (xs: seq<real>)
    requires DeltasOfOwnBalances(rows) && 1 <= k < |rows|
    ensures |xs| == |rows| && MeanDefined(Deltas(rows[k..])) == MeanDefined(DiffColumn(xs, 1)[k..])
    ensures xs[|xs| - 1] == rows[|rows| - 1].obs.balance && xs[k - 1] == rows[k - 1].obs.balance
  {
    xs := Balances(Observations(rows));
    DeltasOfSlices(rows, k);
  }

  /** The deltas of a prefix or suffix are that part of the deltas. */
  lemma DeltasOfSlices(rows: seq<Enriched>, k: nat)
    requires k <= |rows|
    ensures Deltas(rows[..k]) == Deltas(rows)[..k]
    ensures Deltas(rows[k..]) == Deltas(rows)[k..]
  {
    assert forall i :: 0 <= i < k ==> Deltas(rows[..k])[i] == rows[i].delta1d;
    assert forall i :: 0 <= i < |rows| - k ==> Deltas(rows[k..])[i] == rows[k + i].delta1d;
  }

  /** The mean of the defined daily deltas of rows `0..b-1`; row 0 has none. */
  lemma PrefixVelocity(xs: seq<real>, b: nat, first: real, last: real)
    requires 2 <= b <= |xs| && xs[0] == first && xs[b - 1] == last
    ensures MeanDefined(DiffColumn(xs, 1)[..b]) == Some((last - first) / ((b - 1) as real))
  {
    var part := DiffColumn(xs, 1)[0..b];
    DeltaSumTelescopes(xs, 0, b);
    assert DiffColumn(xs, 1)[..b] == part;
    MeanOfNonEmpty(part);
    MeanOfKnownParts(MeanDefined(part), Sum(Defined(part)), |Defined(part)|, last - first, b - 1);
  }

  /** The mean of the defined daily deltas from row `a > 0` to the end. */
  lemma SuffixVelocity(xs: seq<real>, a: nat, last: real, prev: real, days: nat)
    requires 0 < a < |xs| && xs[|xs| - 1] == last && xs[a - 1] == prev && days == |xs| - a
    ensures MeanDefined(DiffColumn(xs, 1)[a..]) == Some((last - prev) / (days as real))
  {
    var part := DiffColumn(xs, 1)[a..|xs|];
    DeltaSumTelescopes(xs, a, |xs|);
    assert DiffColumn(xs, 1)[a..] == part;
    MeanOfNonEmpty(part);
    MeanOfKnownParts(MeanDefined(part), Sum(Defined(part)), |Defined(part)|, last - prev, days);
  }
}
