# Leveraged-ETF portfolio simulation and all-time-high forward returns, in Dafny

This project models the computational core of a small toolkit for investing
with leveraged ETFs:

- **The single-asset simulator** (`SimulateData`). It takes one downloaded
  daily history and adds three columns:
  - the daily return (pandas `pct_change`);
  - the leveraged return, which is the scalar times the daily return, forced
    to 0 on the first row;
  - a simulated leveraged price, which starts at the first adjusted close and
    is filled row by row in a loop.
- **The portfolio compositor** (`Portfolio`, with `Series`, `Assets` and
  `Merge`). It works in these steps:
  1. Checks that tickers, leverage scalars and weights have equal lengths.
  2. Checks that the weights sum to 1 within 1e-6.
  3. Finds the common start date, which is the latest of the assets' first
     dates.
  4. Truncates each asset to that date and computes its columns. The
     simulated price compounds the weighted leveraged return and is scaled
     by the asset's own first close.
  5. Outer-merges the asset tables on Date.
  6. Adds `TotalPortfolioReturn`, the sum of the leveraged returns, and
     `TotalPortfolioPrice`, the sum of the simulated prices.
  7. Drops every row that still has a missing value.
- **All-time-high detection** (`Peaks`). It scans a column left to right with
  a running maximum that starts at the sentinel -9999. A row is a new high
  when its value is strictly greater than the running maximum. Each high can
  optionally be widened by ±window rows. The widened rows are clipped to the
  table, deduplicated and sorted.
- **Forward returns** (`ForwardReturns`). For each anchor row, or for each
  row that is not an anchor, it computes one value per holding period of 91,
  182, 365, 730 and 1460 rows:
  - the relative move of the total portfolio price over that period, when
    row `i + h` exists;
  - no value otherwise.

Prices and returns are exact `real`s and dates are `int`s. Tables are
sequences of records. A downloaded history is a parameter: a sequence of
`Quote(date, adjClose)` with strictly increasing dates and positive closes.
The single-asset price loop and the all-time-high and forward-return loops
are methods with loop invariants. Each is proved against a specification
function or a closed-form property. The portfolio's per-asset columns are
whole-column operations in the source, so they are functions here, as is
the outer merge.

Two behaviours of the code are kept as written:

- **Total return.** `TotalPortfolioReturn` sums the columns whose names start
  with `LeveragedReturn`. Those are the *unweighted* leveraged returns,
  because the weighted columns start with `WeightedLeveragedReturn`
  (utilities.py:83-84). `Portfolio.TotalReturnIsUnweighted` shows the
  consequence: when every asset moves by the same x, the total return is n·x
  for n assets, while the weighted returns add up to x.
- **Empty download.** An empty download ends in an IndexError at
  utilities.py:49. The model reports it as `NoRowsFromStart`.

## Model

| member | source | states |
|---|---|---|
| Series.PctChange | simulate_data.py:26-27 | the daily return has no value exactly on row 0 and a value on every later row |
| Series.PctChangeIsRelativeMove | simulate_data.py:27 | for i > 0, the previous close times (1 + daily return) is the close |
| Series.LeveragedReturns | simulate_data.py:29-31 | the leveraged-return column has one entry per row and is exactly 0 on row 0 |
| Series.LeveragedReturnIsScaledMove | simulate_data.py:30 | for i > 0, the previous close times the leveraged return is the scalar times the move of the close |
| Series.CumProdRecurrence | utilities.py:55-56 | the cumulative-product column starts at the starting price when the first return is 0, and each row is the previous row times (1 + its return) |
| Series.RecurrenceIsCumProd | simulate_data.py:34-41 | any column that starts at the first close and follows the loop's recurrence equals the cumulative-product closed form |
| Series.ZeroLeverageStaysFlat | simulate_data.py:27-41 | with leverage 0 every simulated price equals the first close |
| Series.ConstantPricesStayFlat | simulate_data.py:27-41 | a constant price series is reproduced exactly for any leverage |
| Series.UnitLeverageReproducesPrices | simulate_data.py:27-41 | with leverage 1 the product of (1 + daily return) telescopes and the simulated series equals the closes |
| SimulateData.ProcessLeveragedData | simulate_data.py:26-43 | fails exactly on an empty history; otherwise it keeps every row's date and close, adds pct_change and the leveraged return (0 on row 0), starts the price at the first close, makes every row compound the previous one, and equals the cumulative-product closed form |
| SimulateData.FillLeveragedPrices | simulate_data.py:34-41 | starting from a column that holds the first close on every row, the in-place loop leaves row 0 alone and makes each row the previous one times (1 + its leveraged return) |
| SimulateData.UnitLeverageReproducesCloses | simulate_data.py:27-41 | a simulator output with leverage 1 has every simulated price equal to that row's adjusted close |
| Assets.EarliestDate | utilities.py:28 | the result is the date of some row and no row is earlier (the index minimum) |
| Assets.Truncate | utilities.py:41 | the truncated history holds exactly the rows dated on or after the start, and stays sorted by date |
| Assets.TruncateKeepsLaterHistory | utilities.py:41 | a start date no later than every row keeps the whole history |
| Assets.AssetColumns | utilities.py:44-56 | one row per kept row with its date and close; the daily return is pct_change of the closes, missing only on row 0; the leveraged return is the simulator's and is 0 on row 0; the weighted return is weight times the leveraged return; the simulated price starts at the first close, compounds the weighted return, and equals the first close times the cumulative product of (1 + weighted return) |
| Assets.ConstantAssetStaysFlat | utilities.py:45-56 | an asset whose close never moves keeps its simulated price at its first close, for any scalar and weight |
| Assets.FullWeightMatchesSimulator | utilities.py:52-56 | with weight 1 an asset's simulated price column is the single-asset simulator's closed form |
| Merge.OuterMergeCorrect | utilities.py:76-80 | the outer merge on Date is sorted; its dates are the union of both sides' dates; each row holds the left table's cells on its date (or missing cells) followed by the new asset's row on that date (or a missing cell) |
| Portfolio.NoWeightsRejected | utilities.py:21-22 | an empty weight list never passes the weight check |
| Portfolio.LatestFirstDate | utilities.py:25-30 | the common start date is no earlier than any asset's first date and is some asset's first date |
| Portfolio.CommonStart | utilities.py:25-30 | the loop over the downloads finds a start date exactly when no download is empty, and then finds the latest first date |
| Portfolio.TruncateNonEmpty | utilities.py:41-49 | truncation leaves rows exactly when the history has a row on or after the start date |
| Portfolio.AssetTable | utilities.py:40-56 | an asset's table is sorted by date and no row is dated before the start |
| Portfolio.AccumulateStep | utilities.py:76-80 | merging the next asset table into the merged table keeps it sorted, with one row per date of any asset so far, and cell j equal to asset j's row on that date |
| Portfolio.TotalReturnIsUnweighted | utilities.py:83-84 | when every asset has leveraged return x and weighted return weight times x, with weights summing to 1, the total return is the number of assets times x while the weighted returns sum to x; the two differ whenever there are at least two assets and x is not 0 |
| Portfolio.DropNaSound | utilities.py:90 | every kept row comes from a merged row without a missing value |
| Portfolio.DropNaComplete | utilities.py:90 | every merged row without a missing value is kept |
| Portfolio.DropNaIncrease | utilities.py:90 | dropna keeps the rows in date order |
| Portfolio.KeptRow | utilities.py:82-90 | a kept row holds every asset's own row on its date, the sum of their leveraged returns and the sum of their simulated prices |
| Portfolio.ComposeFinish | utilities.py:82-90 | after totals and dropna the table is sorted; every row holds each asset's row and the two sums; a date is present exactly when every asset has a row on it that is not its first |
| Portfolio.StartDateDropped | utilities.py:41-90 | every date that survives dropna is strictly after the common start date, because the asset that starts latest has its first row, with no daily return, on that date |
| Portfolio.ProcessLeveragedData | utilities.py:5-90 | fails with LengthMismatch exactly when the list lengths differ, with WeightsDoNotSumToOne exactly when they match but the weights miss 1 by 1e-6 or more, and with NoRowsFromStart exactly when some asset has no row from the common start date on; on success the rows are the composed table of the assets' tables truncated to the latest first date, every row dated after it |
| Peaks.FindAthIndices | utilities.py:94-125 | the result is strictly increasing and within the table. With window <= 0 it holds exactly the new-high rows, and their values increase. With window > 0 it holds exactly the rows within the window of a new high. Every new high is always included |
| Peaks.Highs | utilities.py:106-113 | the scan returns exactly the rows above the sentinel and strictly above every earlier value, in increasing order of row and of value |
| Peaks.HighsRise | utilities.py:106-113 | new highs listed in increasing order of row have strictly increasing values |
| Peaks.Dilate | utilities.py:116-122 | the expanded set holds exactly the rows inside the table within ±window of one of the given indices |
| Peaks.Ascending | utilities.py:123 | the sorted list of a set of rows is strictly increasing and has the same members |
| Peaks.TieIsNotAHigh | utilities.py:111 | on the column 1, 3, 2, 5, 4, 5 the highs are rows 0, 1 and 3; the second 5 only ties the maximum |
| ForwardReturns.ForwardReturn | utilities.py:141-147 | the return over h rows is present exactly when row i + h exists, and then the entry price times (1 + return) is the exit price |
| ForwardReturns.MissingReturnsTrail | utilities.py:129-147 | once a holding period runs past the end of the table, every longer one does too |
| ForwardReturns.ReturnsNearTheEnd | utilities.py:129-147 | within the last 91 rows every return is missing; 1460 or more rows before the end every return is present |
| ForwardReturns.ReturnsAt | utilities.py:139-147 | the loop over the holding periods builds the row's index, date and one forward return per period |
| ForwardReturns.AthReturns | utilities.py:128-150 | fails exactly when some anchor is not a row of the table, naming the first such anchor; otherwise it gives one row per anchor, in the anchors' order |
| ForwardReturns.ComplementFacts | utilities.py:166-167 | the non-anchor rows are listed in ascending order and are exactly the rows of the table that are not anchors |
| ForwardReturns.NonAthReturns | utilities.py:155-179 | one row per non-anchor row of the table, in ascending order of row |
| ForwardReturns.Partition | utilities.py:155-179 | distinct in-range anchors and their complement split the rows: each row is in exactly one, and together they have one entry per row |
| ForwardReturns.HighsSplitTheRows | utilities.py:155-179 | the indices returned by the all-time-high search split the rows with their complement |
| ForwardReturns.EveryRowReportedOnce | utilities.py:128-179 | for distinct in-range anchors, the two calculators together report each row of the table exactly once |

## Left out

- Downloads (utilities.py:27, 38; simulate_data.py:15) are network I/O. Each
  asset's history is a parameter instead. The source downloads each ticker
  twice, and the model assumes both downloads return the same history.
- The leverage prompt and its retry loop (simulate_data.py:17-24), and the
  progress messages, are console I/O. The leverage is a parameter.
- Column renaming and selection (utilities.py:58-72), `reset_index` and
  DataFrame construction are not modelled. Tables are sequences of records,
  and an output row refers to its position in the table.
- Floating-point rounding is not modelled. Prices are exact reals, so the
  loop and the cumulative product agree exactly, which floats do not promise.
- Non-finite values are not modelled:
  - Closes must be positive, so that `pct_change` never divides by zero.
  - Dates must be strictly increasing, as in a downloaded index.
- ForwardReturns.AthReturns and ForwardReturns.NonAthReturns require a
  nonzero total price on every row. A zero entry price would give an
  infinite or undefined float result in the source.
- Portfolio.ProcessLeveragedData reports an empty download, or an asset with
  no row on or after the start date, as `NoRowsFromStart`. In the source
  these surface as an IndexError at utilities.py:49, when the asset's
  truncated table is empty. The model reports the error in the same cases,
  but not at the same point in the loop.
- Portfolio.CommonStart stops at the first empty download. In the source, an
  empty first download leaves the start date NaT, because every later
  comparison with NaT at utilities.py:29 is false. The mask at
  utilities.py:41 is then false on every row, so every truncated table is
  empty. An empty later download loses that `>` test and
  the start date keeps its earlier value. Either way the empty asset's
  truncated table raises IndexError at utilities.py:49.
- Ticker names play no part in the merge. Repeating a ticker, which makes
  pandas suffix the column names, is not modelled.
- The chained assignment in simulate_data.py:31 and 38-41 is read as
  updating the frame in place. Under pandas copy-on-write it would update a
  temporary copy.
- `sorted(set)` (utilities.py:123) is modelled by a scan over the table's
  rows in ascending order. The result is the same, but no sorting algorithm
  is modelled.
- The ATH-anchor calculator treats any anchor outside `[0, len)` as a
  KeyError. In pandas, a negative label is also a KeyError because the
  index is a 0-based RangeIndex.
