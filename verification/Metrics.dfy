/** The derived columns computed once over the date-sorted series
    (app_analisis_rem.py lines 124-135) and the series-wide growth averages
    shown on the velocity tab (lines 271-284). */
module Metrics {
  import opened Optional
  import opened Stats
  import opened Records

  /** Lookback of the weekly columns and width of both rolling windows. */
  const Week: nat := 7
  /** Lookback of the monthly averages. */
  const Month: nat := 30
  /** The balance is in millions; balance per MAU is reported in units. */
  const PerMauScale: real := 1000000.0

  /** An observation with its derived columns; `None` is the source's NaN. */
  datatype Enriched = Enriched(
    obs: Observation,
    delta1d: Option<real>,       // saldo_crecimiento_absoluto_diario
    pct1d: Option<real>,         // saldo_crecimiento_pct_diario
    delta7d: Option<real>,       // saldo_crecimiento_absoluto_semanal
    pct7d: Option<real>,         // saldo_crecimiento_pct_semanal
    ma7: Option<real>,           // saldo_ma7
    growthMa7: Option<real>,     // crecimiento_diario_ma7
    balancePerMau: Option<real>, // saldo_por_mau
    dauMauRatio: Option<real>)   // dau_mau_ratio

  function Balances(obs: seq<Observation>): (xs: seq<real>)
    ensures |xs| == |obs|
    ensures forall i :: 0 <= i < |obs| ==> xs[i] == obs[i].balance
  {
    seq(|obs|, i requires 0 <= i < |obs| => obs[i].balance)
  }

  /** `diff(lag)` at row `i`. */
  function Diff(xs: seq<real>, lag: nat, i: nat): (d: Option<real>)
    requires i < |xs|
    ensures d.Some? <==> i >= lag
    ensures d.Some? ==> xs[i - lag] + d.value == xs[i]
  {
    if i < lag then None else Some(xs[i] - xs[i - lag])
  }

  /** `x / x.shift(lag) - 1` at row `i`; a zero predecessor gives NaN. */
  function Ratio(xs: seq<real>, lag: nat, i: nat): Option<real>
    requires i < |xs|
  {
    if i < lag || xs[i - lag] == 0.0 then None else Some(xs[i] / xs[i - lag] - 1.0)
  }

  /** `pct_change(lag) * 100` at row `i`: undefined where the lookback row is
      missing or zero; otherwise the delta relative to the earlier balance, so
      that applying it to that balance gives back the current one. */
  function PctChange(xs: seq<real>, lag: nat, i: nat): (p: Option<real>)
    requires i < |xs|
    ensures p.Some? <==> i >= lag && xs[i - lag] != 0.0
    ensures p.Some? ==> p.value == (xs[i] - xs[i - lag]) / xs[i - lag] * 100.0
    ensures p.Some? ==> xs[i - lag] * (1.0 + p.value / 100.0) == xs[i]
  {
    var p := Times(Ratio(xs, lag, i), 100.0);
    if p.Some? then
      PctAlgebra(xs[i - lag], xs[i], p.value);
      p
    else p
  }

  function DiffColumn(xs: seq<real>, lag: nat): (col: seq<Option<real>>)
    ensures |col| == |xs|
  {
    seq(|xs|, i requires 0 <= i < |xs| => Diff(xs, lag, i))
  }

  function RatioColumn(xs: seq<real>, lag: nat): (col: seq<Option<real>>)
    ensures |col| == |xs|
  {
    seq(|xs|, i requires 0 <= i < |xs| => Ratio(xs, lag, i))
  }

  function PctColumn(xs: seq<real>, lag: nat): (col: seq<Option<real>>)
    ensures |col| == |xs|
  {
    seq(|xs|, i requires 0 <= i < |xs| => PctChange(xs, lag, i))
  }

  /** First index of the width-`w` window that ends at row `i`. */
  function WindowStart(w: nat, i: nat): nat
  {
    if i + 1 >= w then i + 1 - w else 0
  }

  /** The width-`w` window of `col` ending at row `i` (shorter at the start). */
  function Trailing(col: seq<Option<real>>, w: nat, i: nat): seq<Option<real>>
    requires i < |col|
  {
    col[WindowStart(w, i)..i + 1]
  }

  /** `rolling(window=w, min_periods=1).mean()` at row `i`: the mean of the
      defined entries of the window, NaN only when it holds none. */
  function RollingMean(col: seq<Option<real>>, w: nat, i: nat): Option<real>
    requires i < |col|
  {
    MeanDefined(Trailing(col, w, i))
  }

  /** `saldo_por_mau`: undefined exactly on a zero MAU; scaling it back by the
      MAU recovers the balance. */
  function PerMau(o: Observation): (r: Option<real>)
    ensures r.None? <==> o.mau == 0
    ensures r.Some? ==> r.value * (o.mau as real) / PerMauScale == o.balance
  {
    if o.mau == 0 then None
    else
      PerMauAlgebra(o.balance, o.mau as real);
      Some(o.balance / (o.mau as real) * PerMauScale)
  }

  lemma PerMauAlgebra(balance: real, m: real)
    requires m != 0.0
    ensures balance / m * PerMauScale * m / PerMauScale == balance
  {
    var q := balance / m;
    assert q * m == balance;
  }

  function DauMauRatio(o: Observation): Option<real>
  {
    if o.mau == 0 then None else Some((o.dau as real) / (o.mau as real) * 100.0)
  }

  function EnrichAt(obs: seq<Observation>, i: nat): Enriched
    requires i < |obs|
  {
    var xs := Balances(obs);
    Enriched(
      obs[i],
      Diff(xs, 1, i), PctChange(xs, 1, i),
      Diff(xs, Week, i), PctChange(xs, Week, i),
      RollingMean(Lift(xs), Week, i), RollingMean(PctColumn(xs, 1), Week, i),
      PerMau(obs[i]), DauMauRatio(obs[i]))
  }

  /** The derived columns of lines 128-135, one enriched row per observation. */
  function Enrich(obs: seq<Observation>): (rows: seq<Enriched>)
    ensures |rows| == |obs|
    ensures forall i :: 0 <= i < |obs| ==> rows[i].obs == obs[i]
  {
    seq(|obs|, i requires 0 <= i < |obs| => EnrichAt(obs, i))
  }

  /** The enriched rows in ascending date order: their observations are
      `Chronological`. */
  ghost predicate InDateOrder(rows: seq<Enriched>)
  {
    Chronological(Observations(rows))
  }

  /** Lines 124-135: sort by date, then derive every column from the sorted
      observations themselves. */
  function Prepare(raw: seq<Observation>): (rows: seq<Enriched>)
    ensures |rows| == |raw|
    ensures InDateOrder(rows)
    ensures multiset(Observations(rows)) == multiset(raw)
    ensures rows == Enrich(Observations(rows))
  {
    var obs := SortByDate(raw);
    var rows := Enrich(obs);
    assert Observations(rows) == obs;
    rows
  }

  function Observations(rows: seq<Enriched>): (obs: seq<Observation>)
    ensures |obs| == |rows|
    ensures forall i :: 0 <= i < |rows| ==> obs[i] == rows[i].obs
  {
    seq(|rows|, i requires 0 <= i < |rows| => rows[i].obs)
  }

  function Deltas(rows: seq<Enriched>): (col: seq<Option<real>>)
    ensures |col| == |rows|
    ensures forall i :: 0 <= i < |rows| ==> col[i] == rows[i].delta1d
  {
    seq(|rows|, i requires 0 <= i < |rows| => rows[i].delta1d)
  }

  function Pcts(rows: seq<Enriched>): (col: seq<Option<real>>)
    ensures |col| == |rows|
    ensures forall i :: 0 <= i < |rows| ==> col[i] == rows[i].pct1d
  {
    seq(|rows|, i requires 0 <= i < |rows| => rows[i].pct1d)
  }

  /** Each derived field of a row is its column function at that row. */
  lemma EnrichFields(obs: seq<Observation>, i: nat)
    requires i < |obs|
    ensures var r, xs := Enrich(obs)[i], Balances(obs);
      && r.delta1d == Diff(xs, 1, i) && r.pct1d == PctChange(xs, 1, i)
      && r.delta7d == Diff(xs, Week, i) && r.pct7d == PctChange(xs, Week, i)
      && r.ma7 == RollingMean(Lift(xs), Week, i)
      && r.growthMa7 == RollingMean(PctColumn(xs, 1), Week, i)
      && r.balancePerMau == PerMau(obs[i]) && r.dauMauRatio == DauMauRatio(obs[i])
  {
  }

  lemma EnrichColumns(obs: seq<Observation>)
    ensures Deltas(Enrich(obs)) == DiffColumn(Balances(obs), 1)
    ensures Pcts(Enrich(obs)) == PctColumn(Balances(obs), 1)
  {
  }

  // ---------------------------------------------------------------------------
  // Period-over-period columns

  lemma PctAlgebra(prev: real, cur: real, p: real)
    requires prev != 0.0
    requires p == (cur / prev - 1.0) * 100.0
    ensures p == (cur - prev) / prev * 100.0
    ensures prev * (1.0 + p / 100.0) == cur
  {
    var q := cur / prev;
    assert q * prev == cur;
    var t := (cur - prev) / prev;
    assert t * prev == cur - prev;
    assert (q - 1.0) * prev == cur - prev;
    Cancel(t, q - 1.0, prev);
  }

  lemma Cancel(a: real, b: real, c: real)
    requires c != 0.0 && a * c == b * c
    ensures a == b
  {
    assert (a - b) * c == 0.0;
  }

  /** Lines 128 and 130 on the enriched series: the daily and weekly deltas. */
  lemma DeltasOfSeries(obs: seq<Observation>, i: nat)
    requires i < |obs|
    ensures Enrich(obs)[i].delta1d.Some? <==> i >= 1
    ensures i >= 1 ==> obs[i - 1].balance + Enrich(obs)[i].delta1d.value == obs[i].balance
    ensures Enrich(obs)[i].delta7d.Some? <==> i >= Week
    ensures i >= Week ==> obs[i - Week].balance + Enrich(obs)[i].delta7d.value == obs[i].balance
  {
    EnrichFields(obs, i);
  }

  // ---------------------------------------------------------------------------
  // Rolling means

  /** A min-period-1 rolling mean is undefined exactly when its window holds no
      defined entry, and otherwise lies between any bounds of the defined
      entries of the window: undefined entries are skipped, not read as 0. */
  lemma RollingMeanSkipsUndefined(col: seq<Option<real>>, w: nat, i: nat, lo: real, hi: real)
    requires i < |col|
    requires forall j :: WindowStart(w, i) <= j <= i && col[j].Some? ==> lo <= col[j].value <= hi
    ensures RollingMean(col, w, i).None? <==> forall j :: WindowStart(w, i) <= j <= i ==> col[j].None?
    ensures RollingMean(col, w, i).Some? ==> lo <= RollingMean(col, w, i).value <= hi
  {
    var start := WindowStart(w, i);
    var t := Trailing(col, w, i);
    assert forall j :: start <= j <= i ==> t[j - start] == col[j];
    if RollingMean(col, w, i).Some? {
      MeanBounded(t, lo, hi);
    }
  }

  /** Over a column with no undefined entry (the balances, line 132) the rolling
      mean is always defined: it is the plain mean of the up to `w` values
      ending at row `i`, so on the first row it is that row's value. */
  lemma RollingMeanOfBalances(xs: seq<real>, w: nat, i: nat)
    requires w >= 1 && i < |xs|
    ensures var lo := WindowStart(w, i);
      RollingMean(Lift(xs), w, i) == Some(Sum(xs[lo..i + 1]) / ((i + 1 - lo) as real))
    ensures i == 0 ==> RollingMean(Lift(xs), w, i) == Some(xs[0])
  {
    var lo := WindowStart(w, i);
    assert Trailing(Lift(xs), w, i) == Lift(xs[lo..i + 1]);
    MeanOfLift(xs[lo..i + 1]);
    if i == 0 {
      SingletonMean(xs[0..1]);
    }
  }

  lemma SingletonMean(xs: seq<real>)
    requires |xs| == 1
    ensures Sum(xs) / (|xs| as real) == xs[0]
  {
    assert xs[..0] == [];
  }

  /** Line 133 on the enriched series: the 7-row average of the daily
      percentage change is undefined on the first row, whose own percentage
      change is undefined. */
  lemma GrowthAverageStartsUndefined(obs: seq<Observation>)
    requires |obs| > 0
    ensures Enrich(obs)[0].growthMa7.None?
  {
    EnrichFields(obs, 0);
    var pct := PctColumn(Balances(obs), 1);
    assert Trailing(pct, Week, 0) == [pct[0]];
  }

  /** Line 132 on the enriched series: `saldo_ma7` is defined on every row and
      on the first row equals its balance. */
  lemma MovingAverageOfSeries(obs: seq<Observation>, i: nat)
    requires i < |obs|
    ensures Enrich(obs)[i].ma7.Some?
    ensures i == 0 ==> Enrich(obs)[i].ma7.value == obs[0].balance
  {
    EnrichFields(obs, i);
    RollingMeanOfBalances(Balances(obs), Week, i);
  }

  /** `saldo_ma7` lies between any bounds of the balances in its window: the
      up to seven rows ending at row `i`. */
  lemma MovingAverageWithinWindow(obs: seq<Observation>, i: nat, lo: real, hi: real)
    requires i < |obs|
    requires forall j :: WindowStart(Week, i) <= j <= i ==> lo <= obs[j].balance <= hi
    ensures Enrich(obs)[i].ma7.Some? && lo <= Enrich(obs)[i].ma7.value <= hi
  {
    EnrichFields(obs, i);
    LiftedWindowBounded(Balances(obs), i, lo, hi);
  }

  lemma LiftedWindowBounded(xs: seq<real>, i: nat, lo: real, hi: real)
    requires i < |xs|
    requires forall j :: WindowStart(Week, i) <= j <= i ==> lo <= xs[j] <= hi
    ensures RollingMean(Lift(xs), Week, i).Some? && lo <= RollingMean(Lift(xs), Week, i).value <= hi
  {
    RollingMeanSkipsUndefined(Lift(xs), Week, i, lo, hi);
    assert Lift(xs)[i].Some?;
  }

  // ---------------------------------------------------------------------------
  // Ratios

  /** `dau_mau_ratio` is undefined exactly on a zero MAU; otherwise it is
      the percentage of DAU in MAU, so scaling it back by the MAU recovers
      100 times the DAU; it is non-negative, and at most 100 exactly when DAU
      does not exceed MAU. */
  lemma DauMauRatioRange(o: Observation)
    ensures DauMauRatio(o).None? <==> o.mau == 0
    ensures DauMauRatio(o).Some? ==> DauMauRatio(o).value * (o.mau as real) == (o.dau as real) * 100.0
    ensures DauMauRatio(o).Some? ==> 0.0 <= DauMauRatio(o).value
    ensures DauMauRatio(o).Some? ==> (DauMauRatio(o).value <= 100.0 <==> o.dau <= o.mau)
  {
    if o.mau != 0 {
      var m, d := o.mau as real, o.dau as real;
      var q := d / m;
      assert q * m == d;
      assert q * 100.0 * m == q * m * 100.0;
      if o.dau <= o.mau {
        assert q <= 1.0;
      } else {
        assert q > 1.0;
      }
    }
  }

  // ---------------------------------------------------------------------------
  // Telescoping of the daily deltas

  lemma {:induction false} DiffSlicesTelescope(xs: seq<real>, a: nat, b: nat)
    requires 1 <= a <= b <= |xs|
    ensures |Defined(DiffColumn(xs, 1)[a..b])| == b - a
    ensures Sum(Defined(DiffColumn(xs, 1)[a..b])) == xs[b - 1] - xs[a - 1]
  {
    var col := DiffColumn(xs, 1);
    if a < b {
      DiffSlicesTelescope(xs, a, b - 1);
      var v := xs[b - 1] - xs[b - 2];
      assert col[b - 1] == Some(v);
      assert col[a..b] == col[a..b - 1] + [Some(v)];
      AppendDefinedEntry(col[a..b - 1], v);
    } else {
      assert col[a..b] == [];
    }
  }

  /** Appending a defined entry adds one to the count of defined entries and
      its value to their sum. */
  lemma AppendDefinedEntry(c: seq<Option<real>>, v: real)
    ensures |Defined(c + [Some(v)])| == |Defined(c)| + 1
    ensures Sum(Defined(c + [Some(v)])) == Sum(Defined(c)) + v
  {
    DefinedAppend(c, [Some(v)]);
    var one := [Some(v)];
    assert one[..0] == [];
    assert Defined(one) == [v];
    SumAppend(Defined(c), [v]);
    assert [v][..0] == [];
  }

  /** Summing the defined daily deltas of rows `a..b-1` gives the balance change
      across them, counted from the row before `a` (from row 0 when `a` is 0,
      whose delta is undefined). */
  lemma DeltaSumTelescopes(xs: seq<real>, a: nat, b: nat)
    requires a < b <= |xs|
    ensures var d := Defined(DiffColumn(xs, 1)[a..b]);
      && |d| == (if a == 0 then b - 1 else b - a)
      && Sum(d) == xs[b - 1] - xs[if a == 0 then 0 else a - 1]
  {
    var col := DiffColumn(xs, 1);
    if a == 0 {
      assert col[0..b] == [None] + col[1..b];
      DefinedAppend([None], col[1..b]);
      var one: seq<Option<real>> := [None];
      assert one[..0] == [];
      assert Defined(one) == [];
      assert Defined(col[0..b]) == Defined(col[1..b]);
      DiffSlicesTelescope(xs, 1, b);
    } else {
      DiffSlicesTelescope(xs, a, b);
    }
  }

  // ---------------------------------------------------------------------------
  // Series-wide averages (velocity tab, lines 268-289)

  /** The six averages on the velocity tab, each NaN-skipping. */
  datatype Overview = Overview(
    dailyAbs: Option<real>, dailyPct: Option<real>,
    weeklyAbs: Option<real>, weeklyPct: Option<real>,
    monthlyAbs: Option<real>, monthlyPct: Option<real>)

  /** Lines 271-284 over the balance column `xs` of the sorted series. The
      monthly percentage averages the 30-step ratios and then scales by 100. */
  function GrowthOverview(xs: seq<real>): Overview
  {
    Overview(
      MeanDefined(DiffColumn(xs, 1)), MeanDefined(PctColumn(xs, 1)),
      MeanDefined(DiffColumn(xs, Week)), MeanDefined(PctColumn(xs, Week)),
      MeanDefined(DiffColumn(xs, Month)),
      Times(MeanDefined(RatioColumn(xs, Month)), 100.0))
  }

  /** The mean of the `lag`-step deltas is defined exactly when some row has a
      lookback row, that is when the series is longer than `lag`. */
  lemma DiffMeanDefinedness(xs: seq<real>, lag: nat)
    ensures MeanDefined(DiffColumn(xs, lag)).Some? <==> |xs| > lag
  {
    if |xs| > lag {
      assert DiffColumn(xs, lag)[lag].Some?;
    }
  }

  /** The averages of the velocity tab: each absolute average needs a row with
      a lookback; the mean daily growth is the change from the first to the
      last balance spread over the elapsed steps; and scaling after averaging
      (line 284) equals averaging the 30-step percentage changes. */
  lemma OverviewProperties(xs: seq<real>)
    ensures GrowthOverview(xs).dailyAbs.Some? <==> |xs| >= 2
    ensures GrowthOverview(xs).weeklyAbs.Some? <==> |xs| > Week
    ensures GrowthOverview(xs).monthlyAbs.Some? <==> |xs| > Month
    ensures |xs| >= 2 ==>
      GrowthOverview(xs).dailyAbs == Some((xs[|xs| - 1] - xs[0]) / ((|xs| - 1) as real))
    ensures GrowthOverview(xs).monthlyPct == MeanDefined(PctColumn(xs, Month))
  {
    DiffMeanDefinedness(xs, 1);
    DiffMeanDefinedness(xs, Week);
    DiffMeanDefinedness(xs, Month);
    if |xs| >= 2 {
      MeanDailyDelta(xs);
    }
    var ratios := RatioColumn(xs, Month);
    assert Scale(ratios, 100.0) == PctColumn(xs, Month);
    MeanOfScale(ratios, 100.0);
  }

  lemma MeanDailyDelta(xs: seq<real>)
    requires |xs| >= 2
    ensures MeanDefined(DiffColumn(xs, 1)) == Some((xs[|xs| - 1] - xs[0]) / ((|xs| - 1) as real))
  {
    var col := DiffColumn(xs, 1);
    DeltaSumTelescopes(xs, 0, |xs|);
    assert col[0..|xs|] == col;
    MeanOfNonEmpty(col);
    MeanOfKnownParts(MeanDefined(col), Sum(Defined(col)), |Defined(col)|, xs[|xs| - 1] - xs[0], |xs| - 1);
  }
}
