# Quantauri alpha signal — a verified Dafny model

This project models the numeric core of Quantauri, a small tool that turns a
daily close-price series into a mean-reversion "alpha" signal and reads
buy/sell events and trade profits off it.

- `src/main.rs` holds the trailing-window statistics. `ts_mean`, `ts_std_dev`
  and `ts_diff` have a cold-start rule for `i < interval`. Past it,
  `ts_mean` and `ts_std_dev` work over the half-open window
  `v[i-interval .. i]`, which leaves out the current sample. `ts_diff`
  subtracts `v[i-interval]` from the current sample `v[i]`.
  `ts_gaussian_smoothing` is a truncated Gaussian average.
- `main`, lines 13-28, chains them. It computes the deviation from the
  5-sample trailing mean and `alpha = -dev / (std + 1e-6)`. It then takes the
  running sum of alpha, detrends it against its own 20-sample trailing mean,
  takes a first difference, and smooths with bandwidth 5.
- `pq_plot.py` finds buys where `sign(calpha)` drops by two between
  neighbouring samples and sells where it rises by two. It then pairs the
  i-th sell with the i-th buy to get a profit.
- `script/plot.py` reads buy and sell rows from a `buy_sell` column. It
  builds a full-length profit column that is zero except at sell rows. Its
  running sum is rebased to zero at the first row of a 365-day display
  window.

Files:

- `series.dfy` (module `Series`): shared pieces. These are the left-to-right
  sum, the running-sum scan (`iter().scan`, `np.cumsum`), `np.where` on a
  boolean mask, and the facts assumed of `sqrt` and `exp`.
- `windowed.dfy` (module `Windowed`): `ts_mean`, `ts_std_dev`, `ts_diff`.
- `smoothing.dfy` (module `Smoothing`): `ts_gaussian_smoothing`.
- `alpha.dfy` (module `AlphaPipeline`): the pipeline of `main`.
- `crossings.dfy` (module `Crossings`): `pq_plot.py` lines 19-29.
- `profit_plot.dfy` (module `ProfitPlot`): `script/plot.py` lines 42-43 and
  55-67.

The Rust functions fill a zeroed buffer index by index. Each is a method that
allocates an `array<real>`, fills it in a `for` loop with invariants, and
returns its contents. Each method is proved against a ghost predicate stating
the rule for every index (`IsTrailingMean`, `IsTrailingStdDev`,
`IsTrailingDiff`, `IsGaussianSmooth`). The lemmas are stated over those
predicates. The nested loops of `ts_std_dev` and `ts_gaussian_smoothing` have
their inner loops as separate methods (`WindowSumSq`, `KernelSums`). The
Python profit loops are methods over an array too.

Samples are `real`, and integers are unbounded.

`sqrt` and `exp` are passed in as function parameters. Only these facts are
assumed of them:
- `IsSqrt`: on non-negative arguments, `sqrt` is non-negative and squares
  back to its argument, and `sqrt(0) = 0`.
- `IsExp`: `exp(0) = 1` and `exp` is positive.

The smoother's specification sums `v[j] * w(j)` and `w(j)` over all
samples, with a weight `w(j)` of zero for the samples its `continue` guard
skips. Over exact reals this equals the loop's sums, which leave those samples
out. `KernelSums` keeps the `continue`. Under the facts above the smoother's
denominator is at least one, so its division is always defined. Dates in `script/plot.py` are integer day
numbers. Today's date is a parameter.

Notes on the code:
- `ts_gaussian_smoothing` adds no epsilon to its denominator.
- The buy/sell detector of `pq_plot.py` is stateless. It compares the signs
  of neighbouring samples and keeps no state between them.
- Alpha during cold start is exactly zero, because the deviation is zero
  there.
- The smoothed `calpha` that `main` writes out is exactly zero on its first
  five samples (`ColdStartSignalIsZero`). For this reason the crossing
  lemmas allow a leading run of exact zeros (`ZeroRunThenNonZero`) and
  take the sign of the first non-zero sample in place of the first sample.
- `main` produces no `calpha2` or `buy_sell` column.

## Model

| member | source | states |
|---|---|---|
| `Series.PrefixSumsAt` | src/main.rs:20-24 | element k of the running-sum scan `PrefixSums` equals the sum of samples 0 through k |
| `Series.PrefixSumsStep` | src/main.rs:20-24 | the scan starts at the first sample, and consecutive elements differ by exactly the new sample |
| `Series.WhereOfAllFalse` | pq_plot.py:21-23 | `np.where` of a mask with no true entry is empty |
| `Series.WhereAt` | pq_plot.py:21-23 | a position is in `np.where(mask)[0]` iff it is inside the mask and true there |
| `Series.Where` | pq_plot.py:21-23 | `np.where(mask)[0]` lists every true position, only true positions, each below the mask length, in strictly increasing order |
| `Windowed.TsMean` | src/main.rs:44-54 | the result has the input's length; it copies `v[i]` for `i < interval` and is the average of `v[i-interval .. i)` (current sample excluded) otherwise |
| `Windowed.TrailingMeanOfConstant` | src/main.rs:50 | a constant sequence is its own trailing mean |
| `Windowed.WindowSumSq` | src/main.rs:63-66 | the inner loop yields the sum of squared deviations of the window from the given mean |
| `Windowed.TsStdDev` | src/main.rs:56-71 | the result has the input's length; it is 0 for `i < interval`, and otherwise sqrt of the population variance of `v[i-interval .. i)` about that window's own recomputed mean |
| `Windowed.StdDevSquaredIsVariance` | src/main.rs:62-67 | every entry is non-negative, and past cold start its square equals the population variance (divided by `interval`) of its window |
| `Windowed.StdDevOfConstantWindow` | src/main.rs:62-67 | an entry whose window holds equal samples is exactly 0 |
| `Windowed.TsDiff` | src/main.rs:73-83 | the result has the input's length; it is 0 for `i < interval` and `v[i] - v[i-interval]` otherwise |
| `Windowed.TrailingDiffOfConstantPrefix` | src/main.rs:76-80 | on a prefix where the input is constant, the trailing difference is 0 |
| `Smoothing.KernelFacts` | src/main.rs:87 | every kernel weight is positive; it is 1 on the diagonal, symmetric in `(i, j)`, and unchanged when both indices shift |
| `Smoothing.WeightFacts` | src/main.rs:87-95 | the weight a sample adds for output `i` is positive exactly when the `continue` guard lets it through and zero otherwise; the `j == i` sample adds exactly 1 |
| `Smoothing.TotalWeightBounds` | src/main.rs:91-97 | a running total of non-negative weights is non-negative, and at least 1 once a weight of at least 1 is included |
| `Smoothing.RowTotalAtLeastOne` | src/main.rs:91-98 | the weight total of every output is non-negative, and at least 1 once the `j == i` term is included, so the division needs no epsilon |
| `Smoothing.WeightedSumOfConstant` | src/main.rs:95-96 | on a constant input the weighted sum is that constant times the weight total |
| `Smoothing.WeightedSumUpdate` | src/main.rs:94-96 | replacing sample `j` by `x` moves the weighted sum by exactly `(x - v[j])` times the weight of `j` once `j` has been summed, and not at all before |
| `Smoothing.KernelSums` | src/main.rs:89-98 | the inner loop, with its `continue` guard, yields the weighted sum and the weight total over the samples not skipped |
| `Smoothing.TsGaussianSmoothing` | src/main.rs:85-102 | the result has the input's length, and each output is the weighted sum divided by the weight total over its truncated support |
| `Smoothing.SmoothAtOfConstant` | src/main.rs:95-99 | each output on a constant input is that constant |
| `Smoothing.WeightedSumVanishes` | src/main.rs:94-96 | a weighted sum whose every term has a zero sample or a zero weight is 0 |
| `Smoothing.SmoothAtOfZeroSupport` | src/main.rs:89-99 | an output whose whole truncated support holds zero samples is 0 |
| `Smoothing.SmoothingOfConstant` | src/main.rs:95-99 | a constant input is smoothed to the same constant |
| `Smoothing.SampleContributesIff` | src/main.rs:91-97 | changing sample `j` changes output `i` if and only if abs(i - j) <= 3 * bandwidth (inclusive) |
| `AlphaPipeline.SubV` | src/main.rs:15 | the element-wise difference has the length of its operands |
| `AlphaPipeline.Alpha` | src/main.rs:17 | alpha times (std + 1e-6) is minus the deviation; alpha is positive exactly where the price is below its mean and zero exactly where it equals it |
| `AlphaPipeline.ComputeAlpha` | src/main.rs:13-28 | every column is aligned with `close`, and each is the named transform of the previous ones (mean, std, dev, alpha, scan, 20-sample detrend, lag-1 difference, bandwidth-5 smooth) |
| `AlphaPipeline.ColdStartAlphaIsZero` | src/main.rs:13-24 | for `i < 5`: mean equals close, std is 0, dev is 0, alpha is exactly 0, and the cumulative alpha is 0 |
| `AlphaPipeline.EarlyGradientIsZero` | src/main.rs:25-27 | for `i < 20` the detrended cumulative alpha and its first difference are 0 |
| `AlphaPipeline.ColdStartSignalIsZero` | src/main.rs:25-28 | the smoothed `calpha` is exactly 0 for its first 5 samples, so any leading zero run of it is at least 5 long |
| `AlphaPipeline.FlatPriceGivesZeroSignal` | src/main.rs:13-28 | a constant price gives zero std, dev, alpha, cumulative alpha and smoothed `calpha` everywhere |
| `Crossings.SignJump` | pq_plot.py:21-23 | the sign falls by two exactly from a positive to a negative sample, and rises by two exactly from a negative to a positive one |
| `Crossings.BuyAt` | pq_plot.py:21 | one index is in `idx_buy` iff `calpha` is positive there and negative at the next sample |
| `Crossings.SellAt` | pq_plot.py:23 | one index is in `idx_sell` iff `calpha` is negative there and positive at the next sample |
| `Crossings.BuyIndicesExact` | pq_plot.py:21 | `k` is in `BuyIndices` (`idx_buy`) iff `calpha[k] > 0` and `calpha[k+1] < 0`; the list is strictly increasing and every index is below `len(calpha) - 1` |
| `Crossings.SellIndicesExact` | pq_plot.py:23 | `k` is in `SellIndices` (`idx_sell`) iff `calpha[k] < 0` and `calpha[k+1] > 0`; the list is strictly increasing and every index is below `len(calpha) - 1` |
| `Crossings.CrossingsDisjoint` | pq_plot.py:21-23 | no index is both a buy and a sell |
| `Crossings.ZeroBlocksCrossing` | pq_plot.py:21-23 | an exact zero sample produces no buy or sell at itself or at the index before it, so `+, 0, -` yields no event |
| `Crossings.ZeroRunHasNoCrossings` | pq_plot.py:21-23 | a signal that is zero everywhere except possibly at its last sample has no buys and no sells |
| `Crossings.SellBetweenCrossings` | pq_plot.py:21-23 | past a leading run of exact zeros, a negative-to-positive crossing lies strictly between two positive-to-negative ones |
| `Crossings.BuyBetweenCrossings` | pq_plot.py:21-23 | past a leading run of exact zeros, a positive-to-negative crossing lies strictly between two negative-to-positive ones |
| `Crossings.SellBetweenBuys` | pq_plot.py:21-23 | when the only exact zeros of `calpha` form a leading run, there is a sell index strictly between any two buy indices |
| `Crossings.BuyBetweenSells` | pq_plot.py:21-23 | when the only exact zeros of `calpha` form a leading run, there is a buy index strictly between any two sell indices |
| `Crossings.CrossingsAlternate` | pq_plot.py:21-23 | when the only exact zeros of `calpha` form a leading run, between two buys there is a sell, and between two sells there is a buy |
| `Crossings.CrossingBalance` | pq_plot.py:21-24 | when the only exact zeros of `calpha` form a leading run ending at `m`, buy count minus sell count is `[calpha[m] > 0] - [last > 0]` |
| `Crossings.PairProfits` | pq_plot.py:27-29 | the loop completes iff every index it reads is in range, and then `profit[i] = close[idx_sell[i]] - close[idx_buy[i]]` with `len(idx_sell)` entries; otherwise it raises at the first out-of-range iteration |
| `Crossings.ProfitDefinedIff` | pq_plot.py:27-29 | for columns of one frame, the profit loop completes iff `len(idx_buy) >= len(idx_sell)` |
| `Crossings.ProfitDefinedBySigns` | pq_plot.py:21-29 | when the only exact zeros of `calpha` form a leading run ending at `m`: if `calpha[m] > 0` the loop completes; if `calpha[m] < 0` and the last sample is positive there is one sell more than there are buys and the loop raises; if `calpha[m] < 0` and the last sample is negative the counts are equal and the loop completes |
| `ProfitPlot.DisplayWindowExact` | script/plot.py:42-43 | `DisplayWindow` (`idx`) is exactly the ascending rows dated within `[today - 365, today]`, both ends included |
| `ProfitPlot.EventRowsExact` | script/plot.py:55-56 | `BuyRows` (`idx_buy`) is exactly the ascending rows with `buy_sell == 1`, and `SellRows` (`idx_sell`) those with `-1`; the two are disjoint |
| `ProfitPlot.SparseProfit` | script/plot.py:59-62 | the loop completes iff `len(idx_buy) >= len(idx_sell)`; the profit column then has `len(date)` entries, is 0 off sell rows, and is `close[idx_sell[i]] - close[idx_buy[i]]` at the i-th sell row; otherwise it raises at iteration `len(idx_buy)` |
| `ProfitPlot.RebasedCumProfit` | script/plot.py:65-67 | the rebased running sum exists iff `idx` is non-empty and starts inside the column, and then has the column's length |
| `ProfitPlot.RebasedCumProfitSums` | script/plot.py:66-67 | the rebased sum is 0 at `idx[0]`; for `k > idx[0]` it is the sum of profit over `(idx[0], k]`, and for `k < idx[0]` it is minus the sum over `(k, idx[0]]` |

## Left out

- Parquet reading and writing, `DataFrame` construction and printing in `main` (src/main.rs:6-11, 30-41): these are I/O through a library that is not part of this model.
- `script/observe.py`: a network price download and a file write.
- All plotting: styles, annotations, `savefig`, `argparse` and `os.makedirs` (script/plot.py:9-23, 68-153; pq_plot.py:31-86). The axis limit arithmetic is left out too: the y-axis limits (script/plot.py:37-38, 45-53, 63, 68) and the x-axis limit extended by five days (script/plot.py:70). It only sizes the plots.
- The wall-clock read `np.datetime64('today')` (script/plot.py:41): `today` is a parameter of `DisplayWindow`.
- IEEE-754 rounding, NaN and infinities: samples are exact reals. `sqrt` and `exp` are parameters that carry only the facts listed above. `powi(2)` is exact multiplication.
- `interval == 0`: `ts_mean` and `ts_std_dev` would then average an empty window and divide by zero, and `ts_gaussian_smoothing` would divide by zero inside its kernel. So the model requires `interval >= 1` of them. `ts_diff(v, 0)` would be defined and all zero. `TsDiff` still requires `interval >= 1`, because its only caller passes 1 (src/main.rs:27).
- The scripts' data preparation: the parquet reading and column extraction (pq_plot.py:7-17, script/plot.py:17, 25-35) and the `strptime` date parsing (pq_plot.py:11, script/plot.py:26). These are file I/O and library calls. The model takes the columns as sequences, and `DisplayWindow` takes dates as integer day numbers.
- Columns that nothing in the modelled code produces: `buy_sell` (taken as an input of `SparseProfit`), `calpha2`, `high` and `low`.
- The `print` of the buy and sell counts (pq_plot.py:24, script/plot.py:57): console output only. The counts are `|BuyIndices|`, `|SellIndices|`, `|BuyRows|` and `|SellRows|`.
- `Windowed.TsStdDev`: says only what `sqrt` is applied to. The value of the root comes from `StdDevSquaredIsVariance`, under the `IsSqrt` facts.
- `AlphaPipeline.SubV`: its contract gives only the length. The element values are used through `IsPipeline` and the lemmas about it.
