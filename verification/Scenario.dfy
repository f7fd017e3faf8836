/** A worked ten-day series around a rate cut on day 9. */
module Scenario {
  import opened Optional
  import opened Records
  import opened Metrics
  import opened Filters
  import opened Segments
  import opened Ranking

  function TenDays(): seq<Observation>
  {
    [Observation(1, 100.0, 10, 1), Observation(2, 110.0, 10, 1), Observation(3, 105.0, 10, 1),
     Observation(4, 120.0, 10, 1), Observation(5, 130.0, 10, 1), Observation(6, 125.0, 10, 1),
     Observation(7, 140.0, 10, 1), Observation(8, 150.0, 10, 1), Observation(9, 90.0, 10, 1),
     Observation(10, 200.0, 10, 1)]
  }

  /** On the enriched ten-day series (any rows carrying these observations,
      in this order, with their own daily deltas, as `Enrich` produces): eight
      days fall before the cut and two after; the before-segment grows by 50%
      (150 over 100), the after-segment by 1100/9% (200 over 90), and the cut
      day's delta is -60. */
  lemma RateCutScenario(rows: seq<Enriched>)
    requires Observations(rows) == TenDays() && DeltasOfOwnBalances(rows)
    ensures Before(rows, 9) == rows[..8] && After(rows, 9) == rows[8..]
    ensures SummarizeBefore(Before(rows, 9)).totalGrowthPct == Some(50.0)
    ensures SummarizeAfter(After(rows, 9)).totalGrowthPct == Some(1100.0 / 9.0)
    ensures rows[8].delta1d == Some(-60.0)
  {
    var obs := TenDays();
    assert |rows| == 10;
    assert forall i :: 0 <= i < 10 ==> rows[i].obs == obs[i];
    assert rows == rows[..8] + rows[8..];
    SplitAtPieces(rows[..8], rows[8..], 9);
    var xs := Balances(obs);
    assert xs[7] == 150.0 && xs[8] == 90.0;
    assert rows[8].delta1d == DiffColumn(xs, 1)[8] == Diff(xs, 1, 8);
  }

  /** The enriched ten-day series meets the requirements above. */
  lemma ScenarioIsEnriched()
    ensures Observations(Enrich(TenDays())) == TenDays()
    ensures DeltasOfOwnBalances(Enrich(TenDays()))
  {
    var obs := TenDays();
    EnrichedDeltasOfOwnBalances(obs);
    assert Observations(Enrich(obs)) == obs;
  }

  function ThreeDays(): seq<Observation>
  {
    [Observation(1, 100.0, 10, 1), Observation(2, 105.0, 10, 1), Observation(3, 103.0, 10, 1)]
  }

  function ThreeDeltas(): seq<Option<real>>
  {
    [None, Some(5.0), Some(-2.0)]
  }

  /** The three-day series 100, 105, 103 has the daily deltas undefined, +5
      and -2. */
  lemma ThreeDaysDeltas(rows: seq<Enriched>)
    requires Observations(rows) == ThreeDays() && DeltasOfOwnBalances(rows)
    ensures |rows| == 3 && Deltas(rows) == ThreeDeltas()
  {
    var xs := Balances(ThreeDays());
    assert |rows| == 3 && xs == [100.0, 105.0, 103.0];
    var col := Deltas(rows);
    assert col == DiffColumn(xs, 1);
    assert col[0] == None && col[1] == Some(5.0) && col[2] == Some(-2.0);
  }

  lemma ThreeRowCandidates(col: seq<Option<real>>)
    requires |col| == 3 && col[0] == None && col[1] == Some(5.0) && col[2] == Some(-2.0)
    ensures |Candidates(col)| == 2
  {
    var two := col[..2];
    var one := two[..1];
    assert one[..0] == [] && one[0] == None;
    assert Candidates(one) == [];
    assert two[..1] == one && two[1] == Some(5.0);
    assert Candidates(two) == [Ranked(1, 5.0)];
  }

  /** Both top-10 tables of a delta column undefined, +5, -2 list every
      day: the growth table days 2, 3, 1 and the decrease table days 3, 2, 1,
      the first day, which has no delta, last in both. */
  lemma ThreeRowTable(col: seq<Option<real>>, dir: Direction)
    requires |col| == 3 && col[0] == None && col[1] == Some(5.0) && col[2] == Some(-2.0)
    ensures Table(col, TopCount, dir) == if dir == Largest then [1, 2, 0] else [2, 1, 0]
  {
    ThreeRowCandidates(col);
    ThreeRowOrder(col, dir, Table(col, TopCount, dir), Min(TopCount, |Candidates(col)|));
  }

  /** Three distinct positions of such a column, the first two defined and
      in rank order, the third undefined, are one of the two tables. */
  lemma ThreeRowOrder(col: seq<Option<real>>, dir: Direction, sel: seq<nat>, m: nat)
    requires |col| == 3 && col[0] == None && col[1] == Some(5.0) && col[2] == Some(-2.0)
    requires m == 2 && |sel| == Min(TopCount, |col|)
    requires forall k :: 0 <= k < |sel| ==> sel[k] < |col|
    requires forall i, j :: 0 <= i < j < |sel| ==> sel[i] != sel[j]
    requires forall k :: 0 <= k < |sel| ==> (col[sel[k]].Some? <==> k < m)
    requires forall i, j :: 0 <= i < j < m ==> StrictlyOutranks(dir, At(col, sel[i]), At(col, sel[j]))
    ensures sel == if dir == Largest then [1, 2, 0] else [2, 1, 0]
  {
    assert |sel| == 3 && sel[0] != sel[1];
    assert col[sel[0]].Some? && col[sel[1]].Some? && col[sel[2]].None?;
    assert StrictlyOutranks(dir, At(col, sel[0]), At(col, sel[1]));
  }
}
