# Stock volatility and weekly-change statistics

A Dafny model of the statistics behind a small Streamlit app (`tests.py`)
that looks at a stock's weekly history. The app builds a weekly frame with a
rolling annualised volatility and the weekly percent change of the adjusted
close. It then takes a band of one standard deviation around the current
week's volatility, keeps the weeks whose volatility lies in that band, and
reports two things about their weekly changes: a table of symmetric quantile
bounds, and the share of weeks whose change falls in a range the user picks.

Modules:

- `Common` (`common.dfy`): pandas' missing value (`Option`, `None` is NaN),
  the exceptions raised (`Result`/`Error`), the NaN-aware range test, and
  `count()`/`dropna()`.
- `PriceFrame` (`price_frame.dfy`): the weekly frame of `get_data`, with
  `pct_change() * 100` and its inverse (compounding the changes rebuilds
  the prices).
- `VolatilityBand` (`volatility_band.dfy`): `get_volatility_range` and
  `filter_volatility_range`.
- `Quantiles` (`quantiles.dfy`): pandas' `Series.quantile` with linear
  interpolation, over an insertion sort proved to sort and to permute.
- `RunningProb` (`running_prob.dfy`): the loop of
  `get_bounds_for_running_prob`, a `method` proved equal to the table
  function `BoundsTable`; `get_percent_for_bound`; and the corrected
  percentage described under Findings.

Numbers are mathematical reals. A NaN cell is `None`. Every comparison with
NaN is false, so a NaN cell or a NaN bound never counts as in range.

## Model

| member | source | states |
|---|---|---|
| Common.PresentCount | tests.py:39 | The number of non-NaN cells never exceeds the number of cells |
| Common.InRange | tests.py:24 | A cell is in range only when it and both bounds are present (every comparison with NaN is false), and then the bounds are not inverted |
| Common.Present | tests.py:31 | The values `dropna` keeps are exactly as many as the present cells |
| Common.PresentMultiplicity | tests.py:31 | `dropna` keeps every present cell exactly once: each value occurs in the result as often as cells holding it occur in the column |
| Common.PresentCountPositions | tests.py:39 | The present count is the number of positions holding a value |
| Common.MissingCellNotCounted | tests.py:39 | A column with a NaN cell has fewer present cells than rows |
| PriceFrame.PctChange | tests.py:15 | One change per week; the first week's change is NaN; a later week's change is present exactly when the previous price is non-zero |
| PriceFrame.ApplyChange | tests.py:95 | The price moved by `pct` percent, as the dollar range computes it: the weekly change from the old price to it is `pct` again, and from a positive price it is higher exactly when `pct` is positive |
| PriceFrame.Compound | tests.py:15 | The inverse of the weekly change: compounding percent changes from a start price gives a path one longer than the changes, starting at that price |
| PriceFrame.GetData | tests.py:8-16 | The frame has one row per week, its volatility column is the given one and its weekly-change column is `PctChange` of the prices |
| PriceFrame.ChangeRoundTrip | tests.py:15 | Applying a week's percent change to the previous price gives back that week's price |
| PriceFrame.WeeklyChangeSign | tests.py:15 | For a positive previous price the change is positive exactly when the price rose, and zero exactly when it did not move |
| PriceFrame.PctChangePrefix | tests.py:15 | The changes of a prefix of the prices are the prefix of the changes |
| PriceFrame.PresentChangesStep | tests.py:15 | The present changes of a series are those of its prefix followed by the last week's change |
| PriceFrame.CompoundAppend | tests.py:15 | Unfolding step of `Compound` for the inversion proof: compounding one more change extends the path by the last price moved by that change |
| PriceFrame.CompoundStep | tests.py:15 | If compounding some changes rebuilds a path, one more change rebuilds that path followed by the moved last price |
| PriceFrame.CompoundInvertsStep | tests.py:15 | If compounding the present changes rebuilds every price but the last, it rebuilds the last one too |
| PriceFrame.CompoundInvertsPctChange | tests.py:15 | Compounding the present weekly changes from the first price rebuilds the whole price series, when no price except possibly the last is zero |
| VolatilityBand.GetVolatilityRange | tests.py:18-21 | Raises on an empty frame; otherwise the bounds are NaN exactly when the current volatility or the standard deviation is; when present they are centred on the current volatility, `2 * k * std` apart, and enclose it for non-negative `k` and `std` |
| VolatilityBand.FilterVolatilityRange | tests.py:23-24 | No more rows than the frame; every kept row comes from the frame and has its volatility in `[a, b]` |
| VolatilityBand.KeptIndices | tests.py:23-24 | The kept positions are valid and strictly increasing |
| VolatilityBand.FilterAtKeptIndices | tests.py:23-24 | The k-th kept row is the frame's row at the k-th kept position |
| VolatilityBand.KeptIndicesExact | tests.py:24 | A position is kept exactly when its volatility is in `[a, b]` |
| VolatilityBand.FilterKeepsExactlyInRangeRows | tests.py:23-24 | The filter returns exactly the in-band rows, in their original order |
| VolatilityBand.FilterKeepsAllInRange | tests.py:23-24 | A frame whose rows are all in the band is returned unchanged |
| VolatilityBand.FilterIdempotent | tests.py:23-24 | Filtering twice with the same band is the same as filtering once |
| VolatilityBand.FilterSnoc | tests.py:24 | Unfolding step of `FilterVolatilityRange` for `FilterConcat`: adding a row at the end adds it to the result exactly when it is in the band |
| VolatilityBand.FilterConcat | tests.py:24 | Filtering a concatenation concatenates the filtered parts |
| VolatilityBand.MissingBoundKeepsNothing | tests.py:24 | With a NaN bound no row is kept |
| VolatilityBand.CurrentWeekKept | tests.py:19-24 | With a present band from non-negative `k` and `std`, the filtered frame is non-empty and ends with the current week |
| VolatilityBand.ZeroSpreadKeepsExactMatches | tests.py:18-24 | With zero standard deviations the band is the current volatility alone, and a week is kept exactly when its volatility equals it |
| Quantiles.Insert | tests.py:31 | Inserting into the sample lengthens it by one (`InsertPermutes` and `InsertSorted` state what it keeps) |
| Quantiles.SortAsc | tests.py:31 | The sort inside `quantile` keeps the length (`SortAscSorts` states that it sorts and permutes) |
| Quantiles.InsertPermutes | tests.py:31 | Inserting a value adds exactly that value to the multiset |
| Quantiles.InsertSorted | tests.py:31 | Inserting into a sorted sequence keeps it sorted |
| Quantiles.LeastThenSorted | tests.py:31 | A sorted sequence stays sorted under a new first element no larger than all of its elements |
| Quantiles.SortAscSorts | tests.py:31 | The sort returns a sorted permutation of its input |
| Quantiles.RankInRange | tests.py:31 | The rank `q * (n - 1)` lies between the first and the last position |
| Quantiles.LerpOrdered | tests.py:31 | Interpolating between ordered values stays between them and moves forward as the fraction grows |
| Quantiles.LowerPosition | tests.py:31 | The position just below the rank is a valid position and is the floor of the rank |
| Quantiles.Interpolate | tests.py:31 | Linear interpolation at rank `q * (n - 1)`: at a whole-number rank the result is the order statistic at that rank |
| Quantiles.InterpolateAffineOnSegment | tests.py:31 | Between two consecutive order statistics the result is linear in `q`: it moves by the change in rank times the gap between them |
| Quantiles.InterpolateMidpointExample | tests.py:31 | Halfway between 1 and 3 the interpolation gives 2, not the lower value |
| Quantiles.InterpolateBetween | tests.py:31 | The interpolated value lies between the order statistics around the rank |
| Quantiles.InterpolateMonotone | tests.py:31 | Over sorted values the interpolated quantile does not decrease as `q` grows |
| Quantiles.InterpolateEnds | tests.py:31 | The quantile at 0 is the smallest value and at 1 the largest |
| Quantiles.Quantile | tests.py:31 | The quantile is NaN exactly when no value is present |
| Quantiles.SortedSampleCounts | tests.py:31 | The sorted sample the quantile interpolates over holds each present cell exactly once |
| Quantiles.QuantileExample | tests.py:31 | Over the cells 3, NaN, 1, 4 the median is 3 and the first quartile 2: NaN dropped, values sorted, linear interpolation between neighbours |
| Quantiles.QuantileWithinObservations | tests.py:31 | The quantiles at 0 and 1 are observed values, the minimum and the maximum, and every quantile lies between them |
| Quantiles.QuantileMonotone | tests.py:31 | Quantiles are NaN together, and do not decrease as `q` grows |
| RunningProb.StepRow | tests.py:30-31 | The row for one step holds that step, and its two quantiles are NaN exactly when no weekly change is present |
| RunningProb.BoundsTable | tests.py:27-36 | The table the loop builds has nine rows, the k-th for step `5 * (k + 1)` |
| RunningProb.GetBoundsForRunningProb | tests.py:27-36 | The loop produces exactly `BoundsTable`: one row per step 5, 10, ..., 45, holding the quantiles at the step and at its complement |
| RunningProb.BoundsTableSteps | tests.py:29 | The table has nine rows, with steps 5 to 45 ascending by 5 |
| RunningProb.TableRowStep | tests.py:29-33 | Unfolding step of `BoundsTable` for the row lemmas: the row at position `k` is the row for step `5 * (k + 1)` |
| RunningProb.StepRowOrdered | tests.py:31 | For a step of at most 50 the lower bound is at most the upper bound |
| RunningProb.StepRowsNested | tests.py:31 | A row for a smaller step encloses the row for a larger step |
| RunningProb.BoundsRowOrdered | tests.py:29-33 | Every row is an interval with lower at most upper, and its bounds are NaN exactly when no weekly change is present |
| RunningProb.BoundsTableNested | tests.py:29-33 | The table's intervals are nested: each row encloses every later row |
| RunningProb.CountInRange | tests.py:39 | The number of changes in `[lo, hi]` is at most the number present, and zero when `lo > hi` |
| RunningProb.CountMatchesPositions | tests.py:39 | The count equals the number of positions whose change is in `[lo, hi]` |
| RunningProb.CountWidening | tests.py:39 | Widening the range never lowers the count |
| RunningProb.CountAllInRange | tests.py:39 | When every cell is in range the count is the number of cells |
| RunningProb.CountAllPresentInRange | tests.py:39 | When every present cell is in range the count is the number present |
| RunningProb.ShareBounds | tests.py:39 | A share `c / n * 100` lies in 0..100, grows with `c`, and is 100 exactly when `c == n` |
| RunningProb.GetPercentForBound | tests.py:38-39 | Raises `ZeroDivisionError` exactly on an empty column; otherwise a percentage in 0..100, and 0 for an inverted range |
| RunningProb.PercentWidening | tests.py:38-39 | Widening the range never lowers the percentage |
| RunningProb.PercentMissingNotCounted | tests.py:38-39 | The percentage is at most the share of present cells, and below 100 when a cell is NaN |
| RunningProb.PercentAllInRange | tests.py:38-39 | When every cell is in range the percentage is 100 |
| RunningProb.PercentExample | tests.py:38-39 | Three of the changes 1..5 lie in `[2, 4]`, giving 60 percent |
| RunningProb.FilteredPercentDefined | tests.py:86 | When the band is present (the current volatility and the standard deviation are not NaN) and `k` and `std` are non-negative, the percentage on the filtered frame never raises, since the current week is kept |
| RunningProb.NanBandPercentRaises | tests.py:86 | When the current volatility is NaN the band is NaN, the filter keeps no week, and the percentage on the filtered frame raises `ZeroDivisionError` |
| RunningProb.UnconditionalPercentBelowHundred | tests.py:87 | On the unfiltered frame the percentage is always below 100, whatever the range |
| RunningProb.UnconditionalPercentExample | tests.py:87 | Prices 100 then 102 give changes NaN then 2, and the range -1000..1000 gives 50 percent |
| RunningProb.PercentOfPresent | tests.py:38-39 | Raises exactly when no change is present; otherwise a percentage in 0..100 of the present changes, 0 for an inverted range |
| RunningProb.PercentOfPresentCoversAll | tests.py:38-39 | When every present change is in range the percentage is 100 |
| RunningProb.PercentOfPresentAgrees | tests.py:38-39 | On a column without NaN the corrected percentage equals the original one |
| RunningProb.PercentOfPresentWidening | tests.py:38-39 | Widening the range never lowers the corrected percentage |
| RunningProb.PercentOfPresentExample | tests.py:87 | Prices 100 then 102 with the range -1000..1000 give 100 percent |

## Left out

- The download from Yahoo Finance (tests.py:9) is network I/O. The adjusted-close prices are a parameter of `GetData`.
- The rolling volatility (tests.py:10-14) uses logarithms, a square root and a rolling standard deviation. These are floating point, so the `Volatility` column is an input.
- The column's standard deviation (tests.py:20) is an input of `GetVolatilityRange` for the same reason.
- Floating point: every number is a mathematical real, so rounding error is not modelled.
- PriceFrame.PctChange: the adjusted closes are never NaN in the model. pandas' `pct_change` pads a NaN price with the previous one by default, so the following week gets a change of 0. That padding is not modelled.
- PriceFrame.PctChange: a zero previous price gives an infinity or NaN in pandas. The model makes it NaN (`None`), so an infinite change is not modelled.
- The current volatility is the column's last cell, as the code indexes it, not its last non-NaN cell.
- Quantiles.Quantile: when no value is present it returns NaN, as pandas does, and raises nothing.
- RunningProb.GetBoundsForRunningProb: the rows are keyed by the step in percent. The float label `int((1 - 2p) * 100)` is not modelled (floating point makes it 19 and 9 for the steps 40 and 45). The `round(..., 2)` of each bound is not modelled either.
- The dictionary of bounds is a sequence in insertion order. The keys are distinct, so no entry is overwritten. Turning it into a two-column DataFrame (tests.py:35) only changes the display.
- `main` (tests.py:42-97) is user interface and session state. The calls it makes are modelled by `FilteredPercentDefined`, `NanBandPercentRaises` and `UnconditionalPercentBelowHundred`. The dollar range at tests.py:95 is `ApplyChange` of the current price at each bound. Its formatting is left out.
- Python's integer width is unbounded, so nothing overflows, and none is modelled.

## Findings

| source | as written | input that shows it | evidently intended | confidence | as-written member | corrected member |
|---|---|---|---|---|---|---|
| tests.py:87 | The unconditional percentage divides by the length of the `weekly_change` column. That column always begins with the NaN of `pct_change`, which can never be in range, so the percentage is always below 100. | Prices 100 then 102 with the range -1000..1000: changes NaN then 2, giving 50 instead of 100 | Divide by the number of weeks that have a change | not executed | RunningProb.UnconditionalPercentBelowHundred, RunningProb.UnconditionalPercentExample | RunningProb.PercentOfPresent, RunningProb.PercentOfPresentCoversAll, RunningProb.PercentOfPresentExample |
