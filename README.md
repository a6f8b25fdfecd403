# Flow-cytometry preprocessing and cluster bookkeeping, in Dafny

This project models two parts of a flow-cytometry analysis package:

- The event-table filters of `analyzer/preprocessing.py`:
  - debris removal;
  - dead-cell removal;
  - min-max and z-score normalisation;
  - interquartile and z-score outlier removal;
  - doublet removal;
  - the step pipeline that chains them.
- The per-cluster bookkeeping of `analyzer/analysis.py`:
  - cluster proportions;
  - per-cluster mean and median;
  - z-score outlier identification.

An event table is a `Table`. It has a sequence of column names and a sequence of rows. Each row maps every column name to a `real`. Selecting rows with a boolean mask (`frame[mask]`) is `Masks.Masked`. `Masks.Selects` states what such a selection returns: exactly the rows whose mask entry is true, in their original order.

Pandas raises an exception where a column is missing or a method name is unknown. In the model this is `Result.Err`, carrying `MissingColumn` or `UnsupportedMethod`. Where a normalisation divides by a zero or undefined scale, pandas raises nothing and yields a NaN column; the model reports that case as `Result.Err` carrying `DegenerateColumn` (see "Left out").

Only `remove_doublets` changes its argument in place: it writes two ratio columns into the caller's DataFrame. It therefore works on a `Frame` object. `preprocess_pipeline` also takes a `Frame`, because its first step may be `remove_doublets`. It only rebinds its own local variable to each step's result; the caller's frame changes only through a leading `remove_doublets`.

All other operations are functions over values.

Statistics follow pandas:

- The mean is the arithmetic mean.
- The standard deviation is the sample one (`ddof = 1`).
- Quantiles use linear interpolation between the sorted values at position `q·(n−1)`.
- The median is the 0.5 quantile.

A z-score comparison `|x − mean| / sd < t` is decided exactly, without a square root, in its squared form `(x − mean)²·(n − 1) < t²·Σ(x − mean)²`. The form is valid for `t > 0`. The lemmas `Stats.ZScoreSquaredForm`, `Preprocessing.ZScoreRowKept` and `Analysis.OutlierRowMeaning` show it equals the division form whenever an actual standard deviation is supplied.

With fewer than two rows, or a column whose values are all equal, pandas gets a NaN z-score, and every comparison with NaN is false. The model gives the same outcome:

- `remove_outliers(method='zscore')` keeps a row only when every column's z-score is below the threshold. A NaN z-score in any column therefore drops the row, and a table with such a column keeps no row.
- `identify_outliers` flags a row when some column's z-score is above the threshold. A NaN z-score never makes a row an outlier, but another column of the same row still can.

Facts about the code that the model keeps:

- `debris_removal` raises on a table without `FSC-A` or `SSC-A`, because the column lookup fails.
- `remove_doublets` raises when a height column is missing, as its code does, although its docstring says it returns the input.
- `remove_doublets` leaves its ratio columns in the caller's table.
- `remove_outliers` is not idempotent. It recomputes means, deviations and quartiles on the smaller table, so a second pass can drop more rows.

## Model

| member | source | states |
|---|---|---|
| Masks.MaskedSelects | analyzer/preprocessing.py:15 | boolean-mask indexing returns exactly the rows whose mask entry is true, in their original order |
| Masks.SelectsMembers | analyzer/preprocessing.py:34 | a mask selection never grows the table; every selected row comes from a marked position and every marked row is selected |
| Tables.Table.Filter | analyzer/preprocessing.py:34 | `frame[mask]` keeps the column list and selects exactly the marked rows in order |
| Tables.Table.DropColumns | analyzer/preprocessing.py:112 | dropping columns removes exactly those names from the column set and from every row, keeping the row count |
| Tables.Frame.SetColumn | analyzer/preprocessing.py:101-102 | writing a column into a DataFrame in place changes its value to the table with that column assigned |
| Tables.WithColumnValid | analyzer/preprocessing.py:101 | a table with a column written is still well formed, and its column set gains that name |
| Preprocessing.DebrisRemoval | analyzer/preprocessing.py:15 | fails exactly when `FSC-A` or `SSC-A` is missing, naming the column; otherwise selects exactly the rows with both scatter areas strictly above their thresholds, same columns |
| Preprocessing.DebrisRemovalRows | analyzer/preprocessing.py:15 | every kept event has both areas strictly above the thresholds, every such event is kept, and the row count never grows |
| Preprocessing.RemoveDead | analyzer/preprocessing.py:31-34 | fails with a missing-column error exactly when `Viability` is absent; otherwise selects exactly the rows with viability strictly above the threshold, same columns |
| Preprocessing.RemoveDeadRows | analyzer/preprocessing.py:34 | every kept event is viable above the threshold, every such event is kept, the column set is unchanged and the table does not grow |
| Preprocessing.NormalizeMinMax | analyzer/preprocessing.py:53 | min-max scaling keeps columns and row count; on a non-empty table it is the per-column rescaling, and it fails only by naming a constant column |
| Preprocessing.MinMaxCell | analyzer/preprocessing.py:53 | for a non-constant column every scaled value lies in [0, 1], the minimum maps to 0, the maximum to 1, and scaling back recovers the input value |
| Preprocessing.MinMaxOrder | analyzer/preprocessing.py:53 | min-max scaling preserves the order between any two rows of a column, in both directions |
| Preprocessing.MinMaxEndpoints | analyzer/preprocessing.py:53 | after scaling a non-constant column its minimum is exactly 0 and its maximum exactly 1 |
| Preprocessing.UnitScale | analyzer/preprocessing.py:53 | `(x − min)/(max − min)` of a value within a non-empty range lies in [0, 1], is 0 at the minimum and 1 at the maximum, and is inverted by `y·(max − min) + min` |
| Preprocessing.ScaleOrder | analyzer/preprocessing.py:53 | rescaling by a positive range is order preserving and order reflecting |
| Preprocessing.NormalizeZScore | analyzer/preprocessing.py:50 | z-score scaling keeps columns and row count; it fails only by naming a column with no usable standard deviation |
| Preprocessing.Normalize | analyzer/preprocessing.py:49-56 | fails with an unsupported-method error exactly when the method is neither `zscore` nor `minmax`; a success keeps columns and row count |
| Preprocessing.RemoveOutliers | analyzer/preprocessing.py:71-82 | fails exactly when the method is neither `zscore` nor `iqr`; `zscore` selects exactly the rows whose every column has \|z\| strictly below the threshold, `iqr` exactly the rows whose every value lies within the inclusive fences, both with the same columns |
| Preprocessing.RemoveOutliersRows | analyzer/preprocessing.py:71-79 | both supported methods return a well-formed table with the same columns whose rows are input rows, never more of them |
| Preprocessing.ZScoreRowKept | analyzer/preprocessing.py:72-73 | given each column's standard deviation, a row is kept exactly when every \|x − mean\| / sd is below the threshold |
| Preprocessing.IqrKeepsCentralRows | analyzer/preprocessing.py:76-79 | a row whose every value lies between its column's first and third quartiles passes the interquartile rule |
| Preprocessing.ZScoreNonPositiveThreshold | analyzer/preprocessing.py:73 | with a threshold of zero or less, no \|z\| is strictly below it, and a table with a column loses every row |
| Stats.QuantileWithinRange | analyzer/preprocessing.py:76-77 | a linearly interpolated quantile lies between the column's minimum and maximum |
| Stats.QuantileMonotone | analyzer/preprocessing.py:76-77 | a lower quantile never exceeds a higher one, so Q1 ≤ Q3 and the interquartile range is not negative |
| Stats.ZScoreSquaredForm | analyzer/preprocessing.py:72-73 | the squared comparison `(x − mean)²·(n − 1) < t²·Σ(x − mean)²` agrees with `\|x − mean\| / sd < t` (and likewise for `>`) for the sample standard deviation |
| Stats.ZExclusive | analyzer/analysis.py:39 | no value has \|z\| both below and above one threshold; a value whose \|z\| equals it is neither |
| Preprocessing.WithRatios | analyzer/preprocessing.py:101-102 | the widened table is well formed, has the input's columns plus `FSC_Ratio` and `SSC_Ratio`, and the same row count |
| Preprocessing.WithRatiosRow | analyzer/preprocessing.py:101-102 | each row of the widened table is the input row with its two height-to-area ratios written in |
| Preprocessing.KeepsEvent | analyzer/preprocessing.py:104-110 | an event kept by the doublet rule has non-zero forward and side scatter areas |
| Preprocessing.Doublets | analyzer/preprocessing.py:98-112 | fails exactly when a height or area column is missing; the model's error names the first missing column in lookup order, where the code's height check raises one `KeyError` that names no column; a success is well formed and its column set is the input's without the two ratio columns |
| Preprocessing.DoubletMaskIsKeep | analyzer/preprocessing.py:104-110 | the mask computed on the widened table is the per-event test of both ratios within [0.8, 1.2] on the input |
| Preprocessing.DoubletsRows | analyzer/preprocessing.py:104-112 | `remove_doublets` returns exactly the events with both ratios within [0.8, 1.2], in order, each without the ratio columns; the table never grows |
| Preprocessing.DropWritten | analyzer/preprocessing.py:112 | dropping the two ratio keys undoes writing them, leaving the original event |
| Preprocessing.DoubletsSideEffect | analyzer/preprocessing.py:98-102 | the caller's table after the call is well formed, with the ratio columns written up to the point where the code fails |
| Preprocessing.DoubletsSideEffectRows | analyzer/preprocessing.py:101-102 | with all columns present, the caller's table gains the two ratio columns, with each event's ratios as values, and keeps every other value |
| Preprocessing.RemoveDoublets | analyzer/preprocessing.py:98-113 | on the caller's frame: returns `Doublets` of the frame as it was, and leaves the frame as `DoubletsSideEffect` describes |
| Preprocessing.RunStep | analyzer/preprocessing.py:129-131 | a successful step never adds columns or rows |
| Preprocessing.DebrisStepDefaults | analyzer/preprocessing.py:130 | a debris-removal step given no keyword arguments behaves as one given the defaults 500 and 500 |
| Preprocessing.DeadStepDefaults | analyzer/preprocessing.py:130 | a dead-cell step given no keyword arguments behaves as one given the default threshold 1500 |
| Preprocessing.NormalizeStepDefaults | analyzer/preprocessing.py:130 | a normalisation step given no keyword arguments behaves as one given the default method `zscore` |
| Preprocessing.OutliersStepDefaults | analyzer/preprocessing.py:130 | an outlier step given no keyword arguments behaves as one given the defaults `zscore` and 3 |
| Preprocessing.RunStepsShrink | analyzer/preprocessing.py:128-132 | a successful pipeline never has more columns or rows than its input |
| Preprocessing.ApplyStep | analyzer/preprocessing.py:131 | one step on a frame returns that step's result and changes the frame only for `remove_doublets` |
| Preprocessing.PreprocessPipeline | analyzer/preprocessing.py:128-132 | the loop returns the steps run left to right on each previous output, the first error unchanged, the caller's own frame when there are no steps, and the caller's table changed only by a leading `remove_doublets` |
| Chains.ChainAppend | analyzer/preprocessing.py:128-131 | running `a + b` is running `a` and then, if that succeeded, `b` on its result |
| Chains.ChainFirstFailure | analyzer/preprocessing.py:128-131 | when every step before `k` succeeds and step `k` fails, the pipeline's error is step `k`'s, whatever steps follow |
| Chains.ChainFailureHasFirstStep | analyzer/preprocessing.py:128-131 | a failing pipeline has a first failing step, all earlier steps having succeeded, and returns that step's error |
| Chains.ChainPreserves | analyzer/preprocessing.py:128-131 | a property every successful step preserves holds of a successful pipeline's result |
| Chains.RunChain | analyzer/preprocessing.py:128-132 | the loop that rebinds its value to each step's result returns exactly the chained result: the last output, or the first error |
| Analysis.Distinct | analyzer/analysis.py:23 | the unique cluster ids are exactly the labels that occur, each listed once |
| Analysis.Count | analyzer/analysis.py:49 | a label's count is at most the number of events and is positive exactly when the label occurs |
| Analysis.ClusterProportions | analyzer/analysis.py:48-49 | the keys are exactly the labels that occur; each value is the label's count over the total, and lies in (0, 1] |
| Analysis.Share | analyzer/analysis.py:49 | a count between 1 and the total, as a fraction of the total, lies in (0, 1] |
| Analysis.DistinctCountsEverything | analyzer/analysis.py:49 | the counts of the distinct labels add up to the number of events |
| Analysis.SumOverProportions | analyzer/analysis.py:49 | the proportions summed over some labels are their total count over the number of events |
| Analysis.ProportionsSumToOne | analyzer/analysis.py:48-49 | the proportions of the distinct labels sum to exactly 1 |
| Analysis.Group | analyzer/analysis.py:24 | a cluster's table keeps the columns and selects exactly the rows labelled with its id, in order |
| Analysis.KeptLabelCount | analyzer/analysis.py:24 | the mask for a cluster id marks as many events as the id occurs |
| Analysis.GroupRows | analyzer/analysis.py:24 | a cluster's table has one row per event with that id, every such event's row and no other |
| Analysis.Summarize | analyzer/analysis.py:26-28 | the mean and median dictionaries have one entry per column of the cluster's table |
| Analysis.SummaryWithinRange | analyzer/analysis.py:26-28 | for every cluster and column, the mean and median lie between the cluster's minimum and maximum, and the median of an even count is the average of the two middle values |
| Stats.MeanWithinRange | analyzer/analysis.py:26 | a mean lies between the minimum and the maximum |
| Stats.MedianMiddle | analyzer/analysis.py:28 | the median is the middle sorted value of an odd count and the average of the two middle sorted values of an even count |
| Stats.MedianWithinRange | analyzer/analysis.py:28 | a median lies between the minimum and the maximum |
| Analysis.FillByKey | analyzer/analysis.py:22-30 | the loop enters the ids one at a time into an empty dictionary, ending with exactly the dictionary `Fill` describes |
| Analysis.FillEntries | analyzer/analysis.py:23-25 | filling a dictionary gives one entry per key entered and no other, each key's value being the one computed for it |
| Analysis.PopulationStatistics | analyzer/analysis.py:22-32 | the returned dictionary has every distinct cluster id entered with its cluster's summary |
| Analysis.ClusterStatsEntries | analyzer/analysis.py:22-30 | the statistics have one entry per cluster id that occurs and no other, each the mean and median summary of exactly the rows carrying that id, never an empty group |
| Analysis.IdentifyOutliers | analyzer/analysis.py:38-42 | returns exactly the rows, in order, where some column has \|z\| strictly above the threshold, with the same columns |
| Analysis.IdentifyOutliersRows | analyzer/analysis.py:39-42 | every returned row has a column with \|z\| above the threshold, and every such row is returned |
| Analysis.OutlierRowMeaning | analyzer/analysis.py:38-39 | given each column's standard deviation, a row is an outlier exactly when some \|x − mean\| / sd exceeds the threshold |
| Analysis.OutliersDisjoint | analyzer/analysis.py:39 | no event is both kept by the z-score outlier removal and reported as an outlier for the same threshold; an event with some \|z\| equal to the threshold and none above it is in neither |
| Analysis.OutlierTablesDisjoint | analyzer/analysis.py:42 | no row returned by `identify_outliers` is among the rows `remove_outliers(method='zscore')` keeps with the same threshold |

## Left out

- `clustering` (analyzer/analysis.py:4-16) is not modelled. It is a call into scikit-learn's k-means with random initialisation.
- Cluster labels are modelled as a sequence aligned with the table's rows, label `i` belonging to row `i`. Pandas aligns the label column by index, and the model assumes the two indexes coincide.
- `marker_pair_correlation` and the `std` entry of each cluster's statistics are not modelled. Both need square roots over floating point.
- Analysis.Summarize: holds the mean and median only. `std` is left out for the reason above.
- The `print` diagnostics, the `__main__` blocks, the parser, plotting and reporting modules are not modelled. None of them affects a returned value.
- Floating point is modelled by exact reals. Rounding, infinities and NaN are not represented.
- Preprocessing.NormalizeMinMax: a constant column, where pandas divides by zero and yields a NaN column, is reported as a `DegenerateColumn` error instead.
- Preprocessing.NormalizeZScore: a column with fewer than two values or no spread, where pandas yields NaN, is reported as a `DegenerateColumn` error instead. The square root is a parameter `sqrt`. Only the shape of the result is stated. The mean 0 and standard deviation 1 of the output hold only up to floating-point tolerance in the original.
- Preprocessing.DoubletsSideEffectRows: an event with a zero area gets the ratio 0.0 in the caller's table, where pandas stores ±inf or NaN. The filtering outcome is the same: +inf fails the 1.2 upper bound, and −inf, NaN and the model's 0.0 fail the 0.8 lower bound.
- Preprocessing.Doublets: also fails on a missing `FSC-A` or `SSC-A`. Both are looked up by the code, so this is what pandas does, beyond the height-column check it raises explicitly. When a height column is missing, the code raises one `KeyError` whose message names no column. The model's `MissingColumn` error names the first missing height column instead.
- Steps of the pipeline are the five preprocessing functions with optional keyword arguments. An arbitrary callable, or a keyword the function does not accept (a `TypeError` in Python), is not modelled.
- Preprocessing.PreprocessPipeline: only the first step runs on the caller's frame. Every later step receives the previous step's fresh result, which no caller holds, so the model runs those steps on table values in `Chains.RunChain`. The in-place column writes of a later `remove_doublets` land on that private object and are not represented.
- Analysis.PopulationStatistics: the Python dictionary lists cluster ids in `unique()` order, that is, by first appearance. The model's `map` has no order, so that order is not represented.
- Analysis.ClusterProportions: the Python dictionary follows `value_counts()` order, largest cluster first. The model's `map` has no order, so that order is not represented.
- Analysis.IdentifyOutliers: the threshold is always passed. The default of 3 is not modelled.
- Idempotence of `remove_outliers` is not stated. It does not hold, as explained above.
