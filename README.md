# Fraud-detection feature engineering and threshold search, in Dafny

This project models two parts of the `ml2` insurance-fraud pipeline.

The first is the **threshold search** in `ml2/src/threshold_search.py`.

- A CatBoost model's out-of-fold fraud probabilities are collected into one vector. The fold predictions themselves are inputs here.
- That vector is turned into a decision threshold. Two strategies exist:
  - the *positive quota* strategy: for each requested number of positives `q`, take the q-th largest probability, score it by macro-F1, and pick the first best row of the grid;
  - the *max-F1* strategy: sweep the distinct probabilities in ascending order and keep the first one with the best macro-F1.

The second is the **feature builder** in `ml2/src/features.py`, shared by training and inference. `FeatureBuilder._base` does three things in order:

- adds `month_num` and `claim_day_of_week_num` calendar codes;
- adds two safe ratios, an age difference and a liability product, each only when its two source columns exist;
- fills the remaining missing cells with `0` (numeric) or `"Unknown"` (string).

`fit_transform` runs `_base` and then records which output columns are numeric and which are categorical. `transform` runs `_base` alone.

Modules:

- `Common` (`common.dfy`): `Option` for a cell that may be missing (NaN), and `Result` for an operation that can raise.
- `Metrics` (`metrics.dfy`): `(proba >= t)` predictions, confusion counts, per-class F1 and `f1_score(..., average='macro')`. The fraud class is `true`.
- `OrderStatistics` (`order_statistics.dfy`): counting over a probability vector. Also the q-th largest value (`np.partition(proba, -q)[-q]`) and `np.unique`.
- `ThresholdSearch` (`threshold_search.dfy`): the quota threshold, the max-F1 sweep, and the grid with its best-row choice. Also the strategy switch and the out-of-fold scatter into an array.
- `Features` (`features.dfy`):
  - a table: a height and a map from column name to a numeric or string column;
  - the calendar tables, the derived-column steps and the fill pass;
  - the `FeatureBuilder` class, whose `fitStats` field `FitTransform` updates.

Where the intended behaviour and the code differ, the model follows the code:

- **Positive quota with an empty vector.** The quota is clamped with `max(1, min(n - 1, q))`. A one-row vector therefore uses quota 1, so its threshold is its only value. An empty vector makes `np.partition` raise, which the model returns as `Failure(EmptyProbabilities)`.
- **Max-F1 versus the reference threshold 0.5.** The max-F1 threshold is claimed never to score below 0.5. That holds only when some probability reaches 0.5 (`BestBeatsReference`). When every probability is below 0.5, 0.5 is not a candidate, and it can beat every candidate (`ReferenceCanBeatEveryCandidate`).
- **The feature transform can raise.** It is described as having no error conditions, but arithmetic between a string column and another column can raise a `TypeError`. pandas retries such an operation on the rows where both operands are present, so it raises only when some row holds a value in both columns. The model returns this as `Failure(NonNumericOperand(target))`. With no such row, `a - b`, `a * b` and `a / b` give an object column of NaN, which the fill pass turns into `"Unknown"`. The ratio columns differ there: `safe_ratio`'s `np.where` writes 0 where the denominator is 0 or missing, which the model does not reproduce (see `Features.DerivedColumn` under "## Left out"). Missing source columns never raise, and neither does a table with no rows.
- **An empty quota grid.** `max()` over an empty grid raises. The model returns `Failure(EmptyGrid)`.

## Model

| member | source | states |
|---|---|---|
| Metrics.Predict | ml2/src/threshold_search.py:19 | one prediction per row; a row is positive exactly when its probability is at least the threshold |
| Metrics.PredictSameClassification | ml2/src/threshold_search.py:19 | two thresholds that classify every row alike give identical predictions |
| Metrics.Tally | ml2/src/threshold_search.py:20 | the four confusion counts sum to the number of rows; tp+fn is the number of true frauds, tp+fp the number of predicted frauds |
| Metrics.NoErrorsIffExact | ml2/src/threshold_search.py:20 | no false positives and no false negatives exactly when the predictions equal the labels |
| Metrics.ClassF1 | ml2/src/threshold_search.py:20 | a class's F1 lies in [0, 1]; it is 1 exactly when the class has a true positive and no errors |
| Metrics.MacroF1 | ml2/src/threshold_search.py:20 | the macro-F1 lies in [0, 1] |
| Metrics.MacroF1PerfectExactly | ml2/src/threshold_search.py:20 | on non-empty data the macro-F1 is 1 exactly when every prediction is right |
| Metrics.ScorePerfectAt | ml2/src/threshold_search.py:19-20 | on non-empty data the macro-F1 at a threshold is 1 exactly when the threshold separates the labels: every fraud reaches it and no legitimate row does |
| OrderStatistics.KthLargest | ml2/src/threshold_search.py:11 | the k-th largest value is an entry of the vector; fewer than k entries exceed it, and at least k reach it |
| OrderStatistics.KthLargestUnique | ml2/src/threshold_search.py:11 | any value meeting those two counting bounds is the k-th largest |
| OrderStatistics.KthLargestAntitone | ml2/src/threshold_search.py:11 | a larger k never gives a larger value |
| OrderStatistics.Insert | ml2/src/threshold_search.py:16 | inserting into a strictly increasing sequence keeps it strictly increasing and adds exactly the new value |
| OrderStatistics.Unique | ml2/src/threshold_search.py:16 | the distinct values are strictly increasing, have the same members as the input, and are no more numerous than the input |
| OrderStatistics.CountEqualDistinct | ml2/src/threshold_search.py:11 | in a vector without repeats, each entry occurs exactly once |
| ThresholdSearch.EffectiveQuota | ml2/src/threshold_search.py:10 | the clamped quota lies in [1, n-1] (1 when n < 2). It is the requested quota when that is in range, 1 below the range, and n-1 above it |
| ThresholdSearch.EffectiveQuotaMonotone | ml2/src/threshold_search.py:10 | clamping preserves the order of requested quotas |
| ThresholdSearch.PositiveQuotaThreshold | ml2/src/threshold_search.py:9-12 | fails exactly on an empty vector. Otherwise the threshold is an entry; fewer than q entries exceed it and at least q reach it, for the clamped q |
| ThresholdSearch.QuotaThresholdAntitone | ml2/src/threshold_search.py:9-12 | a larger requested quota never gives a larger threshold |
| ThresholdSearch.PositivesAtThreshold | ml2/src/threshold_search.py:63 | the number of positive predictions at a threshold is the number of probabilities reaching it |
| ThresholdSearch.QuotaExactWithoutTies | ml2/src/threshold_search.py:9-12 | without tied probabilities, the quota threshold predicts exactly the clamped quota of positives |
| ThresholdSearch.MaxF1Threshold | ml2/src/threshold_search.py:14-23 | returns 0.5 on an empty vector. Otherwise it returns a probability whose macro-F1 is at least that of every probability, and the smallest such among ties |
| ThresholdSearch.FirstBestCandidate | ml2/src/threshold_search.py:17-22 | the running-best loop over any non-negative score: 0.5 for no candidates; otherwise a candidate scoring at least every candidate, with every earlier candidate scoring strictly less |
| ThresholdSearch.SweepIsFirstBest | ml2/src/threshold_search.py:18-22 | the state at the end of the sweep makes the kept candidate maximal over all probabilities, and the smallest among ties |
| ThresholdSearch.BestBeatsReference | ml2/src/threshold_search.py:14-23 | a threshold maximal over the probabilities scores at least as well as 0.5 when some probability reaches 0.5 |
| ThresholdSearch.ReferenceCanBeatEveryCandidate | ml2/src/threshold_search.py:55-57 | for labels [0, 0] with probabilities [0.1, 0.2], the threshold 0.5 scores strictly above every candidate |
| ThresholdSearch.FirstBest | ml2/src/threshold_search.py:67 | the chosen row has the maximal macro-F1, and every earlier row scores strictly less, so the first maximum wins |
| ThresholdSearch.QuotaRowMeetsQuota | ml2/src/threshold_search.py:61-64 | a grid row's threshold is one of the probabilities; fewer than the clamped quota exceed it and at least that many reach it; without tied probabilities it predicts exactly the clamped quota of positives |
| ThresholdSearch.QuotaGrid | ml2/src/threshold_search.py:59-64 | fails with EmptyProbabilities exactly when the grid is non-empty and the vector empty; otherwise one row per grid entry, in grid order, each holding its quota, the quota threshold and the macro-F1 there |
| ThresholdSearch.QuotaSearch | ml2/src/threshold_search.py:59-68 | on success there is one row per grid entry, in order, each the row for its quota, and the selection is the first best row with its threshold. It fails with EmptyGrid exactly on an empty grid, and with EmptyProbabilities exactly on a non-empty grid with no probabilities |
| ThresholdSearch.SelectThreshold | ml2/src/threshold_search.py:54-68 | "max_f1": one row without a quota, at the sweep's threshold and its score: 0.5 on an empty vector, otherwise a probability, maximal over all probabilities and the smallest among ties. Any other strategy: fails exactly on an empty grid or empty vector; otherwise one row per grid entry, each the row for its quota, and the first row with the maximal macro-F1 with its threshold |
| ThresholdSearch.CollectOutOfFold | ml2/src/threshold_search.py:41-51 | a fresh array of n entries in which each fold's held-out prediction lands at its row index, and each row is written exactly once for a partition of the rows |
| Features.MonthNumber | ml2/src/features.py:17-18 | the month code lies in [0, 12] and is non-zero exactly for a present cell that names a month |
| Features.DayNumber | ml2/src/features.py:19-20 | the weekday code lies in [0, 7] and is non-zero exactly for a present cell that names a weekday |
| Features.CodeRange | ml2/src/features.py:17-20 | for a table whose codes lie in [1, hi], a cell's code lies in [0, hi] and is non-zero exactly when the cell names an entry of the table |
| Features.MonthMapInjective | ml2/src/features.py:5 | no two month names share a code |
| Features.MonthMapOnto | ml2/src/features.py:5 | every code 1..12 names a month |
| Features.DowMapInjective | ml2/src/features.py:6 | no two weekday names share a code |
| Features.DowMapOnto | ml2/src/features.py:6 | every code 1..7 names a weekday |
| Features.Encode | ml2/src/features.py:17-20 | the encoded column is numeric, row for row, with the table's code for each string cell and 0 for everything else, including every cell of a numeric column |
| Features.WithLookup | ml2/src/features.py:16-20 | adding a calendar column keeps every column one cell per row |
| Features.WithCalendar | ml2/src/features.py:16-20 | the two calendar encodings keep the table well formed, with the same rows |
| Features.CalendarFacts | ml2/src/features.py:16-20 | month_num is added exactly when month exists and claim_day_of_week_num exactly when claim_day_of_week exists, each the encoding of its source; no other column changes |
| Features.ApplyOpInverse | ml2/src/features.py:23-38 | a ratio cell times a usable denominator gives back the numerator and is missing only for a missing numerator over a usable denominator; a difference cell plus the right operand gives the left one; a product is symmetric; both are defined exactly when both operands are |
| Features.DerivedColumn | ml2/src/features.py:23-38 | the column a non-raising step writes has one cell per row; it is numeric exactly when both sources are, and otherwise a string column with every cell missing |
| Features.Combine | ml2/src/features.py:23-38 | a derived column is the cell-wise operation over its two sources, row for row |
| Features.Derive | ml2/src/features.py:26-38 | one derived column fails exactly when both sources exist, one is a string column, and some row holds a value in both; on success the table stays well formed with the same rows |
| Features.ApplySteps | ml2/src/features.py:26-38 | a successful run of derived columns keeps the table well formed with the same rows |
| Features.FailurePersists | ml2/src/features.py:26-38 | once a derived column raises, later columns do not change the outcome |
| Features.StepsKeepOthers | ml2/src/features.py:26-38 | a successful run of derived columns adds exactly the targets whose sources exist and leaves every other column unchanged |
| Features.StepsFailExactly | ml2/src/features.py:26-38 | a run of derived columns fails exactly when one whose sources exist has a string source and a row holding values in both |
| Features.StepsComputeTargets | ml2/src/features.py:26-38 | after a successful run, each step whose sources exist did not raise, and its target holds its column over the input's own source columns |
| Features.FillColumn | ml2/src/features.py:40-44 | filling keeps the column's kind and length, leaves no cell missing, keeps present cells, and puts 0 or "Unknown" in missing ones |
| Features.FillMissing | ml2/src/features.py:40-44 | the fill pass keeps the column names and the rows; each column keeps its kind and is left with no missing cell |
| Features.EngineeredFailsExactly | ml2/src/features.py:14-46 | the transform raises exactly when some derived column whose sources exist has a string source and a row holding values in both |
| Features.Engineered | ml2/src/features.py:14-46 | a successful transform is a well-formed table with the input's rows |
| Features.EngineeredSchema | ml2/src/features.py:14-46 | the output keeps the input's rows; its columns are the input's plus exactly the calendar and derived columns whose sources exist |
| Features.EngineeredComplete | ml2/src/features.py:40-44 | no cell of the output is missing |
| Features.EngineeredKeepsOriginals | ml2/src/features.py:14-46 | every input column the transform does not write is kept, with only its missing cells filled |
| Features.EngineeredCalendar | ml2/src/features.py:16-20 | month_num and claim_day_of_week_num hold each row's month and weekday code, in [0, 12] and [0, 7] |
| Features.EngineeredDerived | ml2/src/features.py:26-38 | each derived column whose sources exist did not raise, and is its column over the input's source columns, then filled |
| Features.EngineeredStringOperand | ml2/src/features.py:30-38 | a derived column over a string source that did not raise has no row holding both values, and is a string column of "Unknown" in every row |
| Features.EngineeredRatio | ml2/src/features.py:23-32 | over numeric sources, a ratio cell is 0 where the denominator is 0 or missing, 0 where only the numerator is missing, and the quotient otherwise |
| Features.EngineeredDiff | ml2/src/features.py:34-35 | over numeric sources, driver_vehicle_age_diff is the difference where both sources are present, and 0 elsewhere |
| Features.EngineeredProduct | ml2/src/features.py:37-38 | over numeric sources, liab_payout is the product where both sources are present, and 0 elsewhere |
| Features.CategoricalColumns | ml2/src/features.py:51-52 | the categorical columns and the numeric-kind columns are disjoint, and together they are every column of the output |
| Features.FeatureBuilder.constructor | ml2/src/features.py:11-12 | the builder starts with the given statistics, or an empty map |
| Features.FeatureBuilder.Base | ml2/src/features.py:14-46 | the step-by-step `_base` computes exactly the transform whose properties the Engineered lemmas state |
| Features.FeatureBuilder.FitTransform | ml2/src/features.py:48-53 | returns the transform and records the output's numeric and categorical column sets under "num_cols" and "cat_cols". On failure the statistics are untouched |
| Features.FeatureBuilder.Transform | ml2/src/features.py:55-56 | returns the same transform as FitTransform, whatever the statistics hold |

## Left out

- **Input and output, and the training and inference scripts:**
  - reading the CSV and the YAML configuration;
  - fitting CatBoost and `StratifiedKFold`;
  - writing `threshold_search_results.csv` and printing;
  - `main`, `run_train.py`, `run_infer.py` and `utils.py`.
- **Fold predictions are inputs.** The per-fold predicted probabilities, and the fold index lists, are parameters of `CollectOutOfFold`. The lists are required to partition the rows, as `StratifiedKFold` guarantees.
- **The path check is not modelled.** The `pd.Path(...).exists()` check in `main` guards only `pass`. pandas has no `Path` attribute, so as written the check would raise `AttributeError`.
- **Numbers:**
  - Floating point is modelled as exact reals: no IEEE rounding, NaN or infinity.
  - A NaN cell is `None`. A missing cell can therefore never equal 0 in `safe_ratio`, as in pandas.
  - `astype(int)` codes are kept as the reals 0..12 and 0..7, with no integer width.
- **sklearn's `zero_division` warnings are not modelled.** Only its value is: a class with an empty F1 denominator scores 0.
- **Column order is left out.** A table's columns are a map. The position of new columns, and the order `select_dtypes(...).columns.tolist()` returns, are not modelled.
- **Features.FeatureBuilder.FitTransform records sets, not lists.** `fit_stats` values are column-name sets, because column order is left out.
- **Features.FeatureBuilder.constructor: no aliasing.** It copies the given statistics map, so aliasing with a caller's dict (which the source mutates in place when it is non-empty) is not modelled.
- **Features.Derive: one column kind per column.**
  - pandas object columns that mix strings and numbers are not modelled.
  - `bool` columns are not modelled.
  - Multiplying a string column by an integer column, which pandas performs as string repetition instead of raising, is modelled as a failure like every other string operand.
  - `category` columns are modelled like object columns. pandas refuses arithmetic on a `category` column even where no row holds both values.
- **Features.DerivedColumn: a ratio over a string source is all missing.** When a string source does not raise, `safe_ratio`'s `np.where` still puts an integer 0 where the denominator is 0 or missing. The model makes every cell of that column missing, so after the fill it is `"Unknown"` in those rows too.
- **Features.EngineeredStringOperand: "Unknown" in every row, also for the ratios.** For the two ratio steps over a string source that does not raise, the source keeps `np.where`'s integer 0 wherever the denominator is 0 or missing. The lemma states "Unknown" there, because it follows `Features.DerivedColumn`.
- **Grid quotas are integers.** `int(quota)` on a non-integer grid entry is not modelled.
