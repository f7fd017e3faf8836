# Deposit-balance growth analysis: the metrics pipeline

`app_analisis_rem.py` is a dashboard over a daily series of a remunerated-deposit
product: for each date, the total balance (in millions), the month-to-date active
users (MAU) and the users active that day (DAU). Beneath the page layout it runs
one batch computation. This project models that computation and proves
properties of it:

- the series is sorted by date, and derived columns are added: daily and weekly
  deltas and percentage changes, a 7-row moving average of the balance, a 7-row
  moving average of the daily percentage change, balance per MAU, and DAU/MAU;
- the velocity tab averages those columns, plus 30-step ones, over the whole
  series;
- the series is split at the rate-cut date. Each segment is summarised (days,
  first and last balance, total growth, mean daily delta, mean daily percentage
  change), and the two summaries are compared;
- a window of 7 days on each side of the cut is tagged before/after, and the cut
  day is flagged;
- the ten largest and ten smallest daily deltas are ranked;
- the detail table is filtered by an inclusive date range.

Representation:

- Dates are day numbers (`int`), balances are `real`, and user counts are `nat`.
- Every value that pandas leaves as NaN is `None` in an `Option<real>`: a missing lookback row or a mean over nothing. A division by zero, which pandas turns into ±inf (or NaN for 0/0), is `None` as well.
- Means skip `None` entries. pandas `mean()` skips NaN in the same way, but it does not skip ±inf: see `Stats.MeanDefined` under "Left out".
- The rate-cut date is a parameter (`cutoff`) rather than the constant of line 52.

Modules:

- `Optional`: `Option` and `Result`.
- `Stats`: sums and NaN-skipping means.
- `Sorting`: insertion sort over a total preorder.
- `Records`: the observation and its date order.
- `Metrics`: derived columns and series-wide averages.
- `Filters`: mask selection by date.
- `Segments`: the cut, the summaries and the impact.
- `Views`: the window, tags and range filter.
- `Ranking`: `nlargest`/`nsmallest`.
- `Scenario`: a worked ten-day example and a three-day ranking example.

Behaviour worth noting:

- The before-segment summary reads `iloc[0]` without a guard (line 398). An empty before-segment, which happens when the cutoff is on or before the first date, therefore raises in the code; it does not yield "undefined" fields. `Segments.Analyze` returns `Failure(EmptyBeforeSegment)` for it.
- The relative velocity change (line 433) divides the mean daily percentage changes, not the mean absolute velocities.
- Cut on its ninth day, the ten-day series 100, 110, 105, 120, 130, 125, 140, 150, 90, 200 grows (150/100 − 1)·100 = 50% before the cut (`Scenario.RateCutScenario`).
- `nlargest`/`nsmallest` (lines 547, 561) do not drop undefined values. When fewer than 10 daily deltas are defined, the rows without one, always including the first row, fill the rest of the table in row order (`Ranking.Table`).
- No duplicate-date or negative-balance check exists in the code, so no such error is modelled.

## Model

| member | source | states |
|---|---|---|
| Records.SortByDate | app_analisis_rem.py:125 | The sorted series is a permutation of the raw records (same multiset) in non-decreasing date order. |
| Sorting.SortBy | app_analisis_rem.py:125 | Sorting by any total preorder returns a permutation of the input that is sorted by that preorder. |
| Metrics.Prepare | app_analisis_rem.py:124-135 | The prepared series has one enriched row per raw record, carries exactly the raw observations (as a multiset), and is in date order. Its derived columns are those computed from its own sorted observations, so every delta, change and rolling mean looks back along the sorted series. |
| Metrics.Diff | app_analisis_rem.py:128-130 | A lag-step delta is defined exactly when row `i - lag` exists. Adding it to that row's balance gives the current balance. |
| Metrics.PctChange | app_analisis_rem.py:129-131 | A lag-step percentage change is defined exactly when the lookback row exists and is non-zero. It equals the delta divided by the earlier balance, times 100. Applying it to the earlier balance gives back the current one. |
| Metrics.DeltasOfSeries | app_analisis_rem.py:128-130 | On the enriched series, the daily delta is undefined only on row 0 and the weekly delta only on rows 0-6. Elsewhere each carries the lookback balance onto the current one. |
| Metrics.RollingMeanSkipsUndefined | app_analisis_rem.py:132-133 | A min-period-1 rolling mean is undefined exactly when its window holds no defined entry. Otherwise it lies within any bounds of the window's defined entries. |
| Metrics.RollingMeanOfBalances | app_analisis_rem.py:132 | Over a column with no gaps, the rolling mean is the plain mean of the up to `w` values ending at row `i`. On row 0 it is that row's value. |
| Metrics.MovingAverageOfSeries | app_analisis_rem.py:132 | `saldo_ma7` is defined on every row, and on row 0 it equals the first balance. |
| Metrics.MovingAverageWithinWindow | app_analisis_rem.py:132 | `saldo_ma7` lies between any lower and upper bound of the balances in its window. |
| Metrics.GrowthAverageStartsUndefined | app_analisis_rem.py:129-133 | The 7-row average of the daily percentage change is undefined on row 0, whose window holds only the undefined first change. |
| Metrics.PerMau | app_analisis_rem.py:134 | Balance per MAU is undefined exactly when MAU is zero. Scaling it back by MAU and the 10^6 factor gives the balance. |
| Metrics.DauMauRatioRange | app_analisis_rem.py:135 | DAU/MAU is undefined exactly when MAU is zero. Otherwise it is DAU as a percentage of MAU: the ratio times MAU is 100 times DAU. It is non-negative, and it is at most 100 exactly when DAU does not exceed MAU. |
| Metrics.DeltaSumTelescopes | app_analisis_rem.py:128 | The defined daily deltas of rows `a..b-1` sum to the balance change across them, counted from the row before `a`. Their number is the number of steps. |
| Metrics.DiffMeanDefinedness | app_analisis_rem.py:271-283 | The mean of a lag-step delta column is defined exactly when the series is longer than the lag. |
| Metrics.OverviewProperties | app_analisis_rem.py:271-284 | Each absolute average on the velocity tab is defined exactly when the series is longer than its lag. The mean daily growth is (last − first)/(n − 1). Averaging the 30-step ratios and then scaling by 100 equals averaging the 30-step percentage changes. |
| Stats.MeanDefined | app_analisis_rem.py:271 | A NaN-skipping mean is undefined exactly when every entry is undefined. |
| Stats.NaNIsSkipped | app_analisis_rem.py:401-402 | Appending an undefined entry leaves the mean unchanged: NaN is skipped, not counted as zero. |
| Stats.MeanBounded | app_analisis_rem.py:401-402 | The mean of the defined entries lies within any bounds of those entries. |
| Stats.MeanOfLift | app_analisis_rem.py:132 | The mean of a column with no gaps is its sum divided by its length. |
| Stats.MeanOfScale | app_analisis_rem.py:284 | Scaling every entry by `c` scales the NaN-skipping mean by `c`, and leaves its definedness unchanged. |
| Filters.FilterMembership | app_analisis_rem.py:138-139 | A row is selected exactly when it is in the input and its date passes the mask. |
| Filters.FilterComplement | app_analisis_rem.py:138-139 | A mask and its negation split the rows: sizes add up and multisets add up. |
| Filters.FilterOfFilter | app_analisis_rem.py:585 | Filtering by one mask and then another is filtering by their conjunction. |
| Filters.FilterKeepsDateOrder | app_analisis_rem.py:138-139 | A selection from a date-ordered series is date-ordered. |
| Segments.Before | app_analisis_rem.py:138 | `df_antes` holds exactly the rows dated before the cutoff. |
| Segments.After | app_analisis_rem.py:139 | `df_despues` holds exactly the rows dated on or after the cutoff. |
| Segments.SplitIsPartition | app_analisis_rem.py:138-139 | The segments' sizes and multisets add up to the series, and every before-row is dated earlier than every after-row. On a date-ordered series they are a prefix and the remaining suffix. |
| Segments.SplitConcatenates | app_analisis_rem.py:138-139 | On a date-ordered series, the before-segment followed by the after-segment is the series. |
| Segments.SplitAtPieces | app_analisis_rem.py:138-139 | When every row of a prefix precedes the cutoff and no later row does, the segments are exactly that prefix and that suffix. |
| Segments.RelativeChangePct | app_analisis_rem.py:400 | `((to/from) − 1)·100` is defined exactly when `from` is non-zero. Applying it to `from` gives `to`. |
| Segments.GuardedGrowthPct | app_analisis_rem.py:416 | The after-segment growth round-trips from a positive first balance to the last one, and is 0 when the first balance is not positive. |
| Segments.SummarizeBefore | app_analisis_rem.py:397-402 | The before-summary counts the rows, and its first and last balances are those of the segment's first and last rows. Its growth is defined exactly when the first balance is non-zero, and then carries the first balance to the last. Each mean is the NaN-skipping mean of the segment's daily deltas or daily percentage changes: undefined exactly when every entry is, and otherwise times the number of defined entries it gives their sum. |
| Segments.SummarizeAfter | app_analisis_rem.py:413-418 | The after-summary counts the rows and takes its first and last balances from the segment's first and last rows. Its growth is always a number: it round-trips first to last for a positive first balance and is 0 otherwise. The means are the segment's NaN-skipping means, as before. |
| Segments.Compare | app_analisis_rem.py:432-433 | Velocity change and rate change are each defined exactly when both sides are, and each is after minus before. The relative change is defined exactly when the before mean percentage is defined and non-zero, and scales it to the after one. |
| Segments.DecreaseWarning | app_analisis_rem.py:456-459 | The "velocity decreased" warning shows exactly when both velocities are defined and the after velocity is lower. |
| Segments.Analyze | app_analisis_rem.py:397-447 | The impact tab fails exactly when no row precedes the cutoff. Otherwise its before-summary is the summary of the rows before the cutoff, and its after-summary is the summary of the rows from the cutoff on when there are any and is absent exactly when there are none. The impact is present exactly when the after-summary is, and is then the comparison of the two summaries. The two segments' day counts cover the series. |
| Segments.VelocityChangeOfSplit | app_analisis_rem.py:397-432 | On a date-ordered series whose daily deltas are those of its own balances (as on every prepared series, by `Segments.EnrichedDeltasOfOwnBalances`), cut after `k >= 2` rows, with rows left after the cut, the velocity change is (b[n−1] − b[k−1])/(n − k) − (b[k−1] − b[0])/(k − 1), where `b` are the balances and `n` the number of rows. |
| Segments.OneDayBeforeHasNoVelocityChange | app_analisis_rem.py:397-432 | With a single row before the cutoff and rows after it, the impact is shown but its velocity change is undefined, since the lone before-row has no daily delta. |
| Segments.EnrichedDeltasOfOwnBalances | app_analisis_rem.py:128 | The enriched series' daily deltas are those of its own balance column. |
| Segments.SegmentVelocities | app_analisis_rem.py:401-417 | With the series cut at `k`: the before velocity is undefined for a one-row segment, and is otherwise (last − first)/(k − 1). The after velocity is (last − balance before the cut)/(number of after rows), because the first after-delta reaches back across the cut. |
| Views.InRange | app_analisis_rem.py:585 | The date-range filter keeps exactly the rows whose date is in `[start, end]`. |
| Views.RangeAlgebra | app_analisis_rem.py:585 | An inverted range is empty, reapplying a range changes nothing, and two ranges applied in turn equal their intersection. |
| Views.RangeIsContiguous | app_analisis_rem.py:585 | On a date-ordered series, the range is a contiguous slice of the rows. |
| Views.Window | app_analisis_rem.py:487-488 | The window keeps exactly the rows within 7 days of the cutoff, both ends included. |
| Views.TagWindow | app_analisis_rem.py:524-526 | The window table has one tagged row per window row, in order. |
| Views.TagsFollowSplit | app_analisis_rem.py:525-526 | On a date-ordered series, the rows tagged before form a prefix whose length is that of the window's before-segment. The cutoff day is flagged only after that prefix, and with distinct dates only on its first row. Some row is flagged exactly when the series has a row dated on the cutoff. |
| Views.CutoffDayFlagged | app_analisis_rem.py:487-526 | On any series, the window table flags some row as the cutoff day exactly when the series has a row dated on the cutoff. |
| Ranking.Candidates | app_analisis_rem.py:547 | The ranked entries are exactly the defined entries of the column, in row order. |
| Ranking.TopN | app_analisis_rem.py:547 | The ranked part of a table: `min(n, #defined)` defined entries, listed strictly best-first (a tie goes to the earlier row). Each selected entry strictly outranks every defined entry left out. With `n` at least the number of defined entries, the result is all of them. |
| Ranking.Undefined | app_analisis_rem.py:547 | The rows whose value is undefined are exactly the listed positions, in row order. |
| Ranking.RankedOrUndefined | app_analisis_rem.py:547 | Every row is either a ranked entry or an undefined row. |
| Ranking.Table | app_analisis_rem.py:547-561 | `nlargest(n)` / `nsmallest(n)` list `min(n, rows)` distinct rows. The first `min(n, #defined)` of them are exactly the defined ones, strictly best-first with a tie going to the earlier row, and each beats every defined row left out. The undefined rows follow in row order, and they are the earliest ones: any undefined row left out comes after each of them. A defined row is left out only when the defined rows fill the table, and any row is left out only when the series has more than `n` rows. |
| Ranking.RankingEverything | app_analisis_rem.py:547-561 | Asking either direction for at least as many entries as there are rows ranks exactly the defined entries, and the table then lists every row. |
| Ranking.TopDays | app_analisis_rem.py:547-561 | Each table lists min(10, number of rows) rows of the series, the rows at the positions `Table` picks from the daily-delta column. Rows with a defined delta come first, ordered by it (non-increasing for the largest table, non-decreasing for the smallest), and no row left out has a delta that beats any of them. The rows without a delta, such as the first row, fill the rest. |
| Scenario.RateCutScenario | app_analisis_rem.py:397-418 | On the ten-day example cut on day 9: the segments are the first 8 rows and the last 2. The before growth is 50%, the after growth is 1100/9%, and the cut day's delta is −60. |
| Scenario.ThreeDaysDeltas | app_analisis_rem.py:128 | The three-day series 100, 105, 103 has the daily deltas undefined, +5 and −2. |
| Scenario.ThreeRowTable | app_analisis_rem.py:547-561 | On the daily deltas undefined, +5, −2, the growth table lists days 2, 3, 1 and the decrease table days 3, 2, 1. Every day is listed, and the first day, which has no delta, comes last in both. |

## Left out

- Page layout, sidebar, CSS and tabs (lines 10-51, 142), and the headline cards of the overview tab (lines 145-190): user interface over first/last values.
- The plotly figures (lines 191-259, 296-332, 349-370, 464-521): rendering. The per-bar colours of the window chart (line 492) repeat the period tag, which is modelled.
- BigQuery loading and the CSV cache (lines 56-121): external I/O. The series arrives as a parameter.
- Date parsing with `pd.to_datetime` (line 124): dates arrive as day numbers.
- CSV export and the download button (lines 605-611): serialisation and I/O.
- IEEE floating point: rounding, `round()` and format strings are not modelled; infinities and NaN are both `None`.
- The monthly summary table (lines 337-346): a calendar-month groupby, which needs calendar arithmetic the day-number representation does not carry.
- Records.SortByDate: pandas' default quicksort is not stable. The model only promises sortedness and permutation, so the order among equal dates is not modelled.
- Views.Window: in the code, the window is shown only when the after-segment is non-empty (inside the `if` of line 429); the model defines it unconditionally.
- Stats.MeanDefined: merges NaN and ±inf into `None` and skips both, while pandas `mean()` and `rolling().mean()` skip NaN but propagate ±inf. For balances 0, 5, 6 the code's `velocidad_pct` is inf (the 0 → 5 change divides by zero), while the model gives `Some(20.0)`. This affects `meanPct` of the summaries, `crecimiento_diario_ma7` and the percentage means of the velocity tab whenever a balance of 0 is followed by a non-zero one.
- Ranking.Table: when the table asks for at least as many rows as the series has, which is any series of at most 10 rows, pandas takes the `sort_values(...).head(n)` route. Its default quicksort does not promise an order among equal deltas. The model lists equal deltas earlier row first on both routes.
- Metrics.OverviewProperties: on an empty series, the overview tab's unguarded `df['saldo_rem'].iloc[0]` (line 151) raises an uncaught exception and the page run stops there. The code then never computes the velocity-tab averages (lines 271-284), the impact tab (lines 397-447), the ±7-day window (lines 487-526), the two top-10 tables (lines 547, 561) or the range filter (line 585). The model defines these members on the empty series anyway, where every average is undefined, and does not model this early exit.
- Segments.Analyze: when no row precedes the cutoff, the unguarded `iloc[0]` of line 398 raises an uncaught exception and the whole page run stops there. The code then never builds the ±7-day window (lines 487-526), the two top-10 tables (lines 547, 561), or the range filter and export (lines 585-611). The model gives `Views.Window`, `Views.TagWindow`, `Ranking.TopDays` and `Views.InRange` for every cutoff, and does not model this early exit.
- Segments.Compare: the colour choice `delta_color` (line 438) is display only; its condition is the one `Segments.DecreaseWarning` states.
