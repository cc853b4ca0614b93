# Indicator engine of the trading-chart helpers, in Dafny

This project models the indicator engine of `TRUONG_package/myFunc.py`:
the simple moving average (`SMA_cal`), the exponential moving average
(`EMA_cal`), the MACD composite (`MACD_cal`) with its signal line and the
histogram the MACD chart draws, and the price geometry of the take-profit /
stop-loss bands (`add_SL_or_TP` over `add_parallel_line`).

A data-frame column is a `seq<Option<real>>` with one cell per row; `None`
stands for pandas' NaN/None. Arithmetic is exact over the reals. Every
operation is a pure function that returns new columns instead of writing
into a shared frame.

- `wrappers.dfy` — `Option` and `Result`.
- `columns.dfy` — the column type, NaN-propagating sum and difference,
  the count and sum of defined cells, the first defined row.
- `sma.dfy` — `rolling(n).mean()` with pandas' default `min_periods = n`,
  and pandas' one-pass running-sum algorithm, proved to compute the same
  column.
- `ema.dfy` — the EMA as a two-state machine (`Waiting` until the first
  defined seed cell, then `Running` with the last written cell). `Ema` is
  the column `EMA_cal` writes, defined through the functional `Scan`; the
  imperative loop `EmaLoop`, with the source's `isStart` flag, is proved
  equal to it.
- `macd.dfy` — `MACD_cal`: EMA(12) and EMA(26) of the close, each seeded by
  the SMA of the same window, their difference, a 9-row SMA of that
  difference, and the signal EMA(9).
- `bands.dfy` — band placement and percentage labels of `add_SL_or_TP`.

The signal line is kept exactly as the source writes it (line 121): an
EMA(9) whose seed and whose reference column are both `SMA_of_MACD(9)`.
A textbook signal line would be driven by the MACD column itself.
`Macd.SignalOfSmoothedMacd` states the behaviour as written.

Two consequences of the source's loop are stated as proved properties.
First, once the EMA has started it never looks at the seed column again
(`ExponentialAverage.SeedOnlyAtStart`). Second, a single missing reference
cell after the seed leaves every later EMA cell missing (`ExponentialAverage.EmaDefinedAt`).

No indicator looks ahead: computed from the first m rows, the SMA, EMA,
MACD and signal columns are the first m rows of those computed from the
whole series (`SimpleAverage.SmaCausal`, `ExponentialAverage.EmaCausal`,
`Macd.MacdCausal`).

## Model

| member | source | states |
|---|---|---|
| Columns.NanSum | TRUONG_package/myFunc.py:97 | the window sum is defined exactly when every cell of the window is defined, and then equals the sum of the cells |
| Columns.Diff | TRUONG_package/myFunc.py:119 | a cell difference is defined exactly when both operands are, and then adds back to the minuend |
| Columns.FirstDefined | TRUONG_package/myFunc.py:104-105 | returns the first row whose cell is defined (every earlier row is missing), or nothing when no row is defined |
| SimpleAverage.Sma | TRUONG_package/myFunc.py:95-97 | output has the input's length; row i is defined exactly when i >= n-1 and every cell of the window [i-n+1, i] is defined; a defined value times n is the window's sum, i.e. the window mean |
| SimpleAverage.SmaRolling | TRUONG_package/myFunc.py:97 | the one-pass rolling algorithm computes exactly the SMA column: it adds the entering cell, drops the leaving one, and emits sum/count once n observations are in the window |
| SimpleAverage.SmaWithin | TRUONG_package/myFunc.py:97 | if every defined input cell lies in [lo, hi], every defined SMA cell does too |
| SimpleAverage.SmaFromRow | TRUONG_package/myFunc.py:97 | an input defined exactly from row f yields an SMA defined exactly from row f+n-1 |
| SimpleAverage.SmaCausal | TRUONG_package/myFunc.py:95-97 | the SMA of the first m rows is the first m rows of the SMA: the trailing window never looks ahead |
| ExponentialAverage.Smoothing | TRUONG_package/myFunc.py:110 | k = 2/(n+1) is a weight in (0, 1], equal to 1 only for n = 1 |
| ExponentialAverage.Blend | TRUONG_package/myFunc.py:109-111 | one recurrence step is defined exactly when both the reference cell and the previous EMA cell are defined, and then moves the previous value the fraction k of the way to the reference value |
| ExponentialAverage.Scan | TRUONG_package/myFunc.py:102-111 | after m rows the pass has written m cells; it is running exactly when some seed cell among them was defined, and then it holds the last cell written |
| ExponentialAverage.ScanCausal | TRUONG_package/myFunc.py:103-111 | the pass over the first m rows of the seed and reference columns goes through the same phases and writes the same cells as the pass over the whole columns |
| ExponentialAverage.EmaCell | TRUONG_package/myFunc.py:104-111 | row i of the EMA: while no earlier seed was seen, it is the seed cell; afterwards it is ref[i]*k + EMA[i-1]*(1-k) |
| ExponentialAverage.EmaSeed | TRUONG_package/myFunc.py:102-107 | the EMA is missing before the first defined seed row, equals the seed exactly at that row, and is missing everywhere when no seed cell is defined |
| ExponentialAverage.EmaRecurrence | TRUONG_package/myFunc.py:108-111 | every row after the seed row is ref[i]*k + EMA[i-1]*(1-k), and is missing if either operand is missing |
| ExponentialAverage.SeedOnlyAtStart | TRUONG_package/myFunc.py:104-111 | two seed columns with the same first defined row and the same value there give the same EMA column: after the seed row the seed column is never read |
| ExponentialAverage.EmaDefinedAt | TRUONG_package/myFunc.py:102-111 | row i is defined exactly when a first seed row f <= i exists and every reference cell in (f, i] is defined |
| ExponentialAverage.EmaFromRow | TRUONG_package/myFunc.py:102-111 | a seed defined exactly from row f and a reference defined from f yield an EMA defined exactly from row f |
| ExponentialAverage.EmaWithin | TRUONG_package/myFunc.py:110-111 | if every defined seed and reference cell lies in [lo, hi], every defined EMA cell does too |
| ExponentialAverage.EmaLoop | TRUONG_package/myFunc.py:99-111 | the imperative loop with its isStart flag computes exactly the functional EMA column |
| ExponentialAverage.EmaCausal | TRUONG_package/myFunc.py:99-111 | the EMA of the first m rows is the first m rows of the EMA: row i depends on rows up to i only |
| Macd.SmaSeedRow | TRUONG_package/myFunc.py:95-97 | the first defined SMA row is never before row n-1 |
| Macd.ShortSeries | TRUONG_package/myFunc.py:95-107 | a series shorter than the window has every SMA and EMA cell missing |
| Macd.SeededEmaEarly | TRUONG_package/myFunc.py:115-118 | an EMA seeded by the SMA of the same window is missing on every row below n-1 |
| Macd.SeededEmaFullSeries | TRUONG_package/myFunc.py:115-118 | on a series without gaps the seeded EMA is defined exactly from row n-1 |
| Macd.ConstantSeries | TRUONG_package/myFunc.py:95-111 | on a constant series every defined SMA and EMA cell equals the constant |
| Macd.Subtract | TRUONG_package/myFunc.py:119 | the row-wise difference has the operands' length, is defined exactly where both operands are, and then adds back to the minuend |
| Macd.MacdOf | TRUONG_package/myFunc.py:114-121 | all seven columns have the close's length; MACD is defined exactly where EMA(12) and EMA(26) both are, and is then their difference |
| Macd.MacdCausal | TRUONG_package/myFunc.py:114-121 | MACD and signal computed from the first m closes are the first m rows of those computed from the whole series |
| Macd.MacdEarly | TRUONG_package/myFunc.py:114-119 | MACD is missing on every row below 25 |
| Macd.SignalEarly | TRUONG_package/myFunc.py:114-121 | the signal is missing on every row below 33 |
| Macd.SignalOfSmoothedMacd | TRUONG_package/myFunc.py:120-121 | the signal is missing before the first defined SMA_of_MACD(9) row, equals SMA_of_MACD(9) there, and afterwards blends SMA_of_MACD(9), not MACD, into its previous value with k = 2/10 |
| Macd.MacdFullSeries | TRUONG_package/myFunc.py:114-121 | on a close series without gaps MACD is defined exactly from row 25 and the signal exactly from row 33 |
| Macd.MacdConstant | TRUONG_package/myFunc.py:114-121 | on a constant close series every defined MACD, signal and histogram cell is 0 |
| Macd.FlatHundredScenario | TRUONG_package/myFunc.py:115-116 | thirty closes of 100: SMA(12) and EMA(12) are missing on rows 0-10 and equal 100 from row 11 |
| Macd.Histogram | TRUONG_package/myFunc.py:145 | the histogram is defined exactly where MACD and signal both are, and is then MACD minus signal |
| Bands.ParallelBand | TRUONG_package/myFunc.py:21-48 | one edge of the band is the given segment and the other lies exactly `height` below it at both ends |
| Bands.PercentChange | TRUONG_package/myFunc.py:52 | the label value p satisfies p*price == (target-price)*100 |
| Bands.SlOrTp | TRUONG_package/myFunc.py:50-64 | fails exactly when the entry price is 0 (division error, checked first) or a date string does not parse (date error); otherwise the take-profit band spans [price, take-profit], the stop-loss band spans [stop-loss, price], and each label is the percentage move from the entry |
| Bands.PercentSigns | TRUONG_package/myFunc.py:50-64 | for a positive entry price the take-profit label is positive exactly when the target is above the entry, and the stop-loss label is negative exactly when the stop is below it |
| Bands.EntryHundredScenario | TRUONG_package/myFunc.py:50-64 | entry 100, target 110, stop 95: bands [100, 110] and [95, 100] with heights 10 and 5, labelled 10 and -5 |

## Left out

- Drawing is not modelled: `add_line`, the traces of `add_parallel_line`, `add_text`, `volume_chart` and the figure built by `MACD_chart`. They hand coordinates to a plotting library whose code is not part of this model. Only the band geometry and the histogram column are kept.
- Date parsing (`datetime.strptime` with `%Y-%m-%d`) belongs to a foreign library. Band segments carry prices only; the dates are passed through unchanged in the source.
- Bands.SlOrTp: whether the two date strings parse is an input flag rather than a check of the strings. The model keeps the outcome and its order: a zero price raises first, then a malformed date raises before any band is drawn.
- Floating-point rounding is not modelled: all arithmetic is exact over the reals. This includes pandas' running-sum round-off in the rolling mean.
- Bands.SlOrTp: the labels are the exact percentage moves. They are not rounded to two decimals by `round(..., 2)`, and the label strings (including the fixed `+` prefix on the take-profit label) are not built.
- Bands.SlOrTp: a zero entry price is modelled as Python's ZeroDivisionError on float division. A numpy scalar price would instead give an infinite label, or NaN when the target or stop is also 0, and draw the bands.
- In-place mutation of the shared data frame is not modelled: every operation returns new columns. pandas' object-dtype and None-versus-NaN distinctions collapse into `None`.
- The model assumes the frame's default 0..N-1 row index, so `df.loc[i-1, ...]` is the previous row. Other indexes are not modelled.
- Window sizes n <= 0 are excluded by a precondition (`n >= 1`).
- The source recomputes k = 2/(n+1) on every iteration, while the model computes it once. The value is the same.
