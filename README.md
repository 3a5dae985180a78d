# Multi-factor equity ranking, modelled in Dafny

This project models the factor pipeline of `factor_engine.py`, a
cross-sectional equity ranking built on pandas. It has three stages:

- **Returns** (`compute_returns`). Daily percentage changes of a price table
  (trading days as rows, tickers as columns). Rows in which every ticker's
  return is missing are dropped.
- **Factor table** (`compute_factor_table`). Five raw factors per ticker:
  - 6-month momentum;
  - 3-month sample volatility of the returns;
  - the two value factors, the negated P/E and P/B;
  - size, the log of the market cap.

  Tickers with fewer than three present factors are dropped. A z-scored copy
  of each factor is then appended (`zscore`: the distance from the mean in
  units of the population standard deviation).
- **Ranking** (`rank_stocks`). A weighted sum of the `_z` columns, appended as
  `composite_score`. The rows are then sorted by it, highest first, with
  missing scores last.

A table is a value: row labels, column labels, and one sequence of cells per
column. A cell is `Option<real>`, where `None` stands for pandas' NaN. The
NaN-skipping aggregates (`count`, `sum`, `mean`, `std(ddof)`) are defined
once in module `Cells` and used by the returns, z-score and factor stages;
the ranking stage uses only the cell-wise `Add` and `Scale`.

Two parts of the code are imperative and are modelled as methods with loop
invariants:
- the loop that appends the `_z` columns;
- the loop that accumulates the composite.

The two entry points `compute_factor_table` and `rank_stocks` are methods
without loops of their own that call those two loop methods. Everything
else is pure functions with lemmas. The modules follow the
pipeline:
- `Cells`: cells and aggregates;
- `Frames`: tables, column assignment, row selection, `dropna`;
- `Returns`;
- `ZScores`;
- `Factors`;
- `Ranking`.

Points where the code's behaviour is easy to misread, and which the model
follows exactly:
- **Missing scores.** `composite += weight * factors[col]` carries NaN
  through, so one missing z-score makes the whole composite missing instead
  of counting as 0 (`Ranking.CompositePresence`).
- **Tie order.** `sort_values` uses pandas' default quicksort, which is not
  stable, so the order of tied rows is not specified. The model promises
  only that the result is sorted and is a permutation of the rows.
- **Volatility direction.** The docstring says "lower is better" for
  volatility. Unlike the two value factors, though, `vol_3m` is not negated,
  so a higher volatility gives a higher z-score. The model keeps the sign the
  code has.
- **Momentum lag.** `prices.iloc[-126]` is the row 125 rows before the last
  one. The model reads exactly that row.

## Model

| member | source | states |
|---|---|---|
| Cells.Std | factor_engine.py:10 | `std(ddof)` over the present values: present exactly when more than `ddof` values are present; non-negative; its square times `n - ddof` is the sum of squared deviations from the mean; zero exactly when all present values are equal |
| Cells.Count | factor_engine.py:104 | the number of present cells in a row, which `dropna(thresh)` compares with the threshold; `Cells.CountBounds` states what it means |
| Cells.CountBounds | factor_engine.py:104 | the count of present cells is at most the length, is 0 exactly when every cell is missing, and is the length exactly when none is |
| Cells.Mean | factor_engine.py:10 | `series.mean()`: the sum of the present values divided by their number; `Cells.MeanOfConstant` and `ZScores.CenteredSum` state what it means |
| Cells.MeanOfConstant | factor_engine.py:10 | present values that all equal `c` have mean `c` |
| Frames.SetColumnEffect | factor_engine.py:108 | `df[name] = col` leaves the labels unchanged if `name` exists and appends `name` otherwise; afterwards column `name` holds `col` and every other column keeps its cells |
| Frames.SetColumn | factor_engine.py:138 | assigning a column keeps the table well formed and its row labels; it replaces the cells of an existing column in place, or appends a new column last |
| Frames.DenseRows | factor_engine.py:104 | the rows `dropna(thresh)` keeps are increasing positions, and a row is among them exactly when it has at least `thresh` present cells |
| Frames.DropNa | factor_engine.py:104 | `dropna(thresh)` keeps all columns and exactly the rows of `DenseRows`, in their original order, with their labels and cells |
| Frames.SelectRows | factor_engine.py:139 | taking rows at given positions keeps every column, and row `k` of the result is row `ks[k]` of the input |
| Frames.Column | factor_engine.py:108 | `df[col]`: one cell per row, the cells of the column with that label (`Frames.ColumnAt`) |
| Frames.ColumnAt | factor_engine.py:108 | looking up the label of the j-th column gives the j-th column's cells (labels are distinct) |
| Returns.Ratio | factor_engine.py:81 | `cur / prev - 1` is present exactly when both prices are, and `(r + 1) * prev == cur` |
| Returns.PctChange | factor_engine.py:168 | `pct_change`: same length, the first cell missing, and cell `t` is the ratio of prices `t` and `t - 1` |
| Returns.PctChangeTable | factor_engine.py:168 | `pct_change` on a table keeps its labels and applies to every column |
| Returns.ReturnRows | factor_engine.py:169 | the surviving rows are increasing and never row 0; a row survives exactly when some ticker has prices on it and on the previous row |
| Returns.ComputeReturns | factor_engine.py:166-169 | the result has the same columns, one row per surviving row in order and with its label, and each cell is the ratio of that ticker's price on that row and the row before |
| ZScores.ZScore | factor_engine.py:8-10 | `zscore(series)`: one value per input cell; `ZScorePresence`, `ZScoreValue`, `ZScoreZeroSpread`, `ZScoreSumZero` and `ZScoreMoments` state what the values are |
| ZScores.ZScorePresence | factor_engine.py:10 | a missing input stays missing; every z-score is missing exactly when the present inputs all have the same value; otherwise a z-score is present exactly where the input is |
| ZScores.ZScoreStandardizes | factor_engine.py:10 | where the spread is not zero, there are present values and a nonzero population standard deviation, and the z-scores are the values standardized by the mean and that deviation |
| ZScores.ZScoreValue | factor_engine.py:10 | where the spread is not zero, a present `x` becomes `(x - mean) / std(ddof=0)`, with both taken over the present values |
| ZScores.ZScoreZeroSpread | factor_engine.py:10 | with zero spread (0 / 0 in floating point) every z-score is missing |
| ZScores.ZScoreSumZero | factor_engine.py:10 | the present z-scores always sum to 0 |
| ZScores.ZScoreMoments | factor_engine.py:10 | where the spread is not zero, the z-scores have as many present values as the input, mean 0, and squared deviations summing to their count (population variance 1) |
| ZScores.CenteredSum | factor_engine.py:10 | values centred on their own mean and divided by any nonzero number sum to 0 |
| ZScores.StandardizedSumSq | factor_engine.py:10 | dividing the deviations by `d` divides their sum of squares by `d * d` |
| ZScores.StandardizedCount | factor_engine.py:10 | standardizing keeps the number of present values |
| Factors.Reindex | factor_engine.py:68 | `fundamentals.reindex(tickers)`: one row per ticker, in order; a known ticker gets its row and an unknown one all-missing fundamentals |
| Factors.Momentum | factor_engine.py:78-81 | per ticker, the ratio of the last price (row `len - 1`) to the price at row `len - 126`, missing when either is |
| Factors.Tail | factor_engine.py:84 | `tail(k)` is the last `min(k, len)` cells |
| Factors.Volatility | factor_engine.py:84 | per ticker, the sample standard deviation of the last 63 returns: present exactly when at least two are present, non-negative, and its square times `n - 1` is their sum of squared deviations |
| Factors.Negated | factor_engine.py:87-88 | unary minus keeps missing cells missing and negates present ones |
| Factors.ValuePe | factor_engine.py:87 | `value_pe` per ticker is present exactly when the ticker's trailing P/E is, and is its negation |
| Factors.ValuePb | factor_engine.py:88 | `value_pb` per ticker is present exactly when the ticker's price-to-book is, and is its negation |
| Factors.LogCap | factor_engine.py:91 | `ln` of a present, positive market cap; missing otherwise |
| Factors.Size | factor_engine.py:91 | `size` per ticker is `ln` of its market cap when that is present and positive, and missing otherwise |
| Factors.RawFactors | factor_engine.py:93-101 | one row per ticker of the price table, in its order, and exactly the five factor columns, in this order, holding momentum, volatility of the returns, `value_pe`, `value_pb` and size |
| Factors.FactorNamesPlain | factor_engine.py:93-101 | the five factor labels are distinct and none ends in `_z` |
| Factors.ZName | factor_engine.py:108 | `col + "_z"`; `ZNameEndsWithZ` and `ZNameInjective` state that it ends in `_z` and that different labels get different names |
| Factors.EndsWithZ | factor_engine.py:121 | `c.endswith("_z")`; `EndsWithZIsZName` states that it holds exactly of the `_z` names |
| Factors.EndsWithZIsZName | factor_engine.py:121 | a label ends in `_z` exactly when it is `p + "_z"` for some label `p` |
| Factors.ZNameInjective | factor_engine.py:108 | different columns get different `_z` labels |
| Factors.ZNameEndsWithZ | factor_engine.py:108 | every `c + "_z"` ends in `_z` |
| Factors.WithZNamesDistinct | factor_engine.py:107-108 | labels without repeats, none ending in `_z`, stay without repeats once their `_z` labels are appended |
| Factors.ComputeFactorTable | factor_engine.py:54-110 | fails exactly when the price table has fewer than 126 + 5 rows; otherwise the result keeps the rows of `dropna(thresh=3)` on the raw factors, keeps their raw factors, and has the five factor columns followed by their five `_z` columns, each the z-score of its factor over the kept rows |
| Factors.AddZScores | factor_engine.py:107-108 | over the columns present when the loop starts: the columns kept with their cells, followed by one `c + "_z"` column per column `c`, holding `zscore` of `c` |
| Factors.NextZName | factor_engine.py:108 | the label each pass adds is new and extends the labels added so far |
| Factors.AddZScoreStep | factor_engine.py:108 | one pass of the loop appends the z-scores of the next column, keeping everything done so far |
| Ranking.ZColumns | factor_engine.py:121 | `z_cols`: no more labels than the table has; `ZColumnsMembers` states which ones |
| Ranking.EqualWeights | factor_engine.py:125 | `{c: 1.0 for c in z_cols}`: one entry per column, in order, each with weight 1.0 |
| Ranking.KeepKnown | factor_engine.py:130 | the dict filtered to keys among the z columns is no longer than the given one; `KeepKnownMembers` states its entries |
| Ranking.EffectiveWeights | factor_engine.py:123-130 | the weights used: no more entries than the supplied dict, or than the z columns when none is supplied; `EffectiveWeightsMembers` states its entries |
| Ranking.ZColumnsMembers | factor_engine.py:121 | `z_cols` holds exactly the labels ending in `_z`, each once |
| Ranking.EqualWeightsMembers | factor_engine.py:125 | the default weights give weight 1.0 to each z column, once each |
| Ranking.KeepKnownMembers | factor_engine.py:130 | the filtered dict holds exactly the given weights whose key is a z column, and has no key twice |
| Ranking.EffectiveWeightsMembers | factor_engine.py:123-130 | without weights, every z column with weight 1.0; with weights, exactly those on z columns; only z-column keys, each once |
| Ranking.WeightsOnColumns | factor_engine.py:130 | every effective weight is on a column of the table |
| Ranking.Composite | factor_engine.py:133-135 | the composite after every weight has been added: one cell per row; `CompositePresence` and `CompositeValue` state when it is present and what it is |
| Ranking.WeightedSum | factor_engine.py:133-135 | the accumulated composite is the weighted sum of the weighted columns, added in order |
| Ranking.CompositePresence | factor_engine.py:133-135 | a row's composite is missing exactly when one of the weighted columns is missing in that row |
| Ranking.CompositeValue | factor_engine.py:133-135 | where a row's composite is present it equals the sum, over the weights, of weight times that row's value in the weighted column |
| Ranking.EqualWeightsSum | factor_engine.py:125 | with weight 1.0 on every column, the composite is the plain sum of the columns |
| Ranking.DefaultWeightsSumZColumns | factor_engine.py:123-125 | with `weights=None` the composite is the sum of all `_z` columns |
| Ranking.KeepKnownAppend | factor_engine.py:130 | filtering a dict filters each part of it separately |
| Ranking.UnknownKeyIgnored | factor_engine.py:130 | a supplied key that is not a z column is ignored: the weights used are those without it |
| Ranking.UnweightedColumnIgnored | factor_engine.py:133-135 | a column absent from the weights contributes nothing: changing its cells leaves the composite unchanged |
| Ranking.NoKnownWeightsGiveZero | factor_engine.py:130-135 | weights none of which names a `_z` column of the table (a dict of unknown keys, even ones ending in `_z`) give a composite of 0 in every row |
| Ranking.KeepNoneKnown | factor_engine.py:130 | with no key among the z columns, the filtered dict is empty |
| Ranking.BeforeTotal | factor_engine.py:139 | any two scores, missing or not, can be put in some order |
| Ranking.Insert | factor_engine.py:139 | putting one more position into a descending order, missing scores last, gives a descending order of the same positions and that one |
| Ranking.SortOrder | factor_engine.py:139 | the sort order is a permutation of the row positions, with the scores non-increasing and missing scores last |
| Ranking.FirstBeforeInserted | factor_engine.py:139 | a score that may not come before the first score can be placed after it |
| Ranking.PrependSorted | factor_engine.py:139 | a score that may come before every score of a sorted order can lead it |
| Ranking.PermutationBelow | factor_engine.py:139 | a permutation of the row positions only names existing rows |
| Ranking.SortedCopy | factor_engine.py:137-139 | the sorted copy keeps every original column with its cells and adds `composite_score`, each moved with its row, and its scores come out sorted |
| Ranking.RankStocks | factor_engine.py:115-141 | the output rows are a permutation of the input rows, with their labels; the columns are the original ones, unchanged, and `composite_score` (replaced if it existed, appended otherwise); the score is the composite of the effective weights; scores are non-increasing, with missing scores last |

## Left out

- `download_price_history` and `fetch_fundamentals` (network calls to the data provider) and the `__main__` block (example data and printing) are not part of this model.
- Floating point: cells hold exact reals. Rounding, `inf` and float-level equality of z-scores are not modelled.
- `sqrt` and `ln` are parameters. The model assumes only that `sqrt` gives a non-negative root of a non-negative number, and nothing about `ln`.
- Factors.LogCap: `np.log` of a zero market cap is `-inf`, a present value, and of a negative one NaN. The model makes both missing rather than model `-inf`.
- Returns.Ratio: a zero price would give `inf` in pandas. The model requires every present price to be positive (`PositivePrices`).
- Returns.PctChange: older pandas versions forward-fill missing prices in `pct_change` before dividing. The model makes a return missing whenever either price is missing.
- Ranking.RankStocks: the order of rows with equal scores is not specified, because the default sort is not stable. The contract promises only that the output is sorted and is a permutation. The model also returns `order`, the input position of each output row, which the code does not. It is there to state the permutation.
- Ranking.RankStocks: a weight dict is modelled as a sequence of (key, weight) pairs in insertion order. `DistinctKeys` states when such a sequence is a dict. Duplicate keys, which a dict cannot have, would be counted twice.
- Factors.ComputeFactorTable: the exception for a short price history is the `Failure(InsufficientHistory)` result. The code computes the returns and reindexes the fundamentals before checking the length; neither has any effect on the result.
- Factors.Reindex: the fundamentals table is a map from ticker to its three fields. A fundamentals frame with a repeated ticker (where `reindex` raises) or a missing field column (a `KeyError`) is not modelled.
- Frames.WellFormed: column labels are distinct in every table. Repeated labels, for which `df[name]` returns a frame, are not modelled.
- Factors.AddZScores: requires that no column already ends in `_z`. Otherwise `factors[col + "_z"] = ...` could overwrite a column the loop still has to read. The factor table always meets this (`FactorNamesPlain`).
- Ranking.WeightedSum: the composite is summed in the dict's order. With exact reals the order makes no difference, so float rounding across orders is not modelled.
