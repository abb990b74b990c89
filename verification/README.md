# Taxi demand pipeline: the table transformations, in Dafny

This project models the pure table logic of a taxi-demand forecasting
pipeline. The pipeline's hosted feature store, gradient-boosting model,
hyperparameter search and dashboard are outside the model; the table
transformations between them are in it:

- feature building: per-location lags `lag_1..lag_N` of the hourly ride
  counts, a next-hour target, calendar fields, and `dropna`. There are two
  copies of this builder, one with and one without a `pickup_ts_split`
  column. A variant sorts the rows and shifts them globally;
- the cutoff-based train/test split, with datetime columns turned into
  whole seconds;
- the derived model features: the four-week lag average and the hour and
  day of week taken from `pickup_hour`;
- the model bundle's feature list, and how inference aligns its input to
  that list;
- the target added at training time, the `X`/`y` separation, the trial
  pruning rule and the saved bundle;
- the feature-store helpers:
  - selecting the last `n` rows per location;
  - reading predictions offline first, then online, with an inclusive
    time window;
  - the logging guards;
- the monitoring metrics (MAE, MSE, RMSE) and their append-only log;
- the dashboard's normalisation of the predictions file.

## How it is modelled

- **Tables.** A table is a `Frame(cols, rows)`. `cols` is an ordered list
  of distinct column names. Each row is a `map<string, Value>` whose keys
  are exactly those columns. A cell is a
  `Value = Missing | Int | Num | Time | Text`. `Missing` stands for NaN,
  NaT and None alike; `Time(ns)` is an instant in nanoseconds since the
  epoch. Floats are modelled as `real`.
- **Operations.** Every operation is a pure function.
  - Errors the source raises are `Err(KeyError(..))`,
    `Err(ValueError(..))` and so on, in the order the source meets them.
  - Where the source mutates the caller's frame (`build_features`,
    `run_inference`), the function returns an `Outcome(caller, result)`
    that carries the caller's frame as the call leaves it.
- **Calendar fields** come from integer epoch arithmetic:
  - the hour is `(s div 3600) mod 24`;
  - the day of week is `(s div 86400 + 3) mod 7`, with Monday = 0;
  - the month comes from a civil-from-days conversion (`Calendar`). That
    conversion is proved to be the inverse of the date's day number.
- **Parameters.** The model makes these parameters rather than code:
  - pandas' timestamp parser (`parse`);
  - the clock reading (`now`);
  - the square root (`sqrt`, required to be one);
  - the fitted model (`predict`);
  - the trial's `suggest_*` functions;
  - the outcome of each feature-store read;
  - the arrangement an unstable sort returns (`sorted`, required to be a
    sorted permutation of the input whenever the sort key cells can be
    compared; when they cannot, the sort raises TypeError).

Where a general description of the pipeline and its code disagree, the
model follows the code:

- Lags follow the input row order. Neither builder sorts a location's
  rows, so `lag_k` is the ride count of the k-th earlier row of the same
  location, not the count k hours earlier.
- `dropna` drops a row with a missing value in any column, not only in the
  lag and target columns. This includes a row whose `pickup_ts` does not
  parse.
- The split compares `pickup_ts_split` with the cutoff. A row whose split
  timestamp is NaT lands in neither partition, so the two partitions need
  not add up to the input.
- The split drops only `pickup_ts_split`. `pickup_ts` stays, converted to
  seconds. A NaT in a converted column becomes a large negative integer,
  not a missing value.
- Prediction reads try the offline store first and fall back to the
  online store only when that read raises.

## Model

| member | source | states |
|---|---|---|
| Calendar.EpochSeconds | src/data_split.py:28 | the seconds are the nanoseconds divided by 10^9, rounded down, also for instants before 1970 |
| Calendar.HourOfDay | src/features.py:23 | the hour lies in 0..23 and is the hour within the instant's own day |
| Calendar.DayOfWeek | src/features.py:24 | the day of week lies in 0..6, and the epoch's day is Thursday (3) |
| Calendar.DayOfWeekNextDay | src/features.py:24 | a day later gives the next weekday, Sunday wrapping to Monday |
| Calendar.HourOfDayNextHour | src/features.py:23 | an hour later gives the next hour, 23 wrapping to 0 |
| Calendar.CivilFromDays | src/features.py:25 | the date found for a day number is a valid date whose day number is that day |
| Calendar.CivilFromDaysInverse | src/features.py:25 | converting a valid date to its day number and back gives the same date, so the month is determined |
| Calendar.MonthOf | src/features.py:25 | the month lies in 1..12 |
| Calendar.EpochDates | src/features.py:25 | day 0 is 1970-01-01 and day -1 is 1969-12-31 |
| Seconds.SecondsCell | src/data_split.py:28 | a timestamp cell becomes the whole seconds containing it; NaT becomes -9223372037, the least int64 (how NaT is stored) floor-divided by 10**9; any other cell is unchanged |
| Seconds.DatetimeColumns | src/inference.py:43 | a column is selected exactly when it is a column of the frame and holds timestamps |
| Seconds.ToSeconds | src/data_split.py:25-28 | the columns and row count are kept; named columns are converted cell by cell and every other cell is the input's |
| Seconds.ConvertedCell | src/inference.py:43-45 | a cell of the converted frame is the input's cell, in seconds when its column is a datetime one |
| Seconds.NaTConverted | src/data_split.py:25-28 | in a datetime column holding a timestamp and a NaT, the timestamp becomes its seconds and the NaT becomes -9223372037, not a missing cell |
| Seconds.ConvertedHasNoDatetime | src/train.py:48-50 | no datetime column remains after conversion, so converting twice equals converting once |
| Features.DecimalInjective | src/features.py:29 | different lag numbers give different `lag_k` names |
| Features.LagNameFacts | src/features.py:29 | every `lag_k` name has the lag shape, and distinct k give distinct names |
| Features.ParseTimestamp | src/features.py:16-17 | a timestamp is kept, a missing cell stays missing, and any other cell becomes a timestamp or NaT |
| Features.HourCell | src/features.py:23 | a timestamp gives an hour in 0..23; NaT gives NaN |
| Features.DayOfWeekCell | src/features.py:24 | a timestamp gives a weekday in 0..6; NaT gives NaN |
| Features.MonthCell | src/features.py:25 | a timestamp gives a month in 1..12; NaT gives NaN |
| Features.WithCalendar | src/features.py:16-25 | the caller's frame after the in-place steps keeps its rows, gains the calendar columns, and holds the parsed timestamp and its fields row by row |
| Features.MatchesCount | src/features.py:29 | there is one same-location position per counted row of that location |
| Features.LagAtIsKthEarlier | src/features.py:28-31 | `lag_k` of a row is the ride count of the row of its location with exactly k rows of that location from it up to the current row, in input order |
| Features.LagAtDefined | src/features.py:28-31 | `lag_k` is NaN when the row has no location or fewer than k earlier rows of its location; otherwise it is an earlier ride count |
| Features.LeadAtIsNext | src/features.py:36 | the target is the ride count of the next row of the same location |
| Features.LeadAtDefined | src/features.py:36 | the target is NaN for a row without location or the last of its location; otherwise it is a later ride count |
| Features.LagAtHistory | src/features.py:29 | `lag_k` is the k-th last value of the location's history before the row |
| Features.GroupShift | src/features.py:29 | a single pass with a per-location history computes exactly the grouped shift |
| Features.LaggedRowFacts | src/features.py:32-33 | appending the lag columns sets each `lag_k` to the shift by k and leaves every non-lag cell as it was |
| Features.LaggedRowOnlyLags | src/features.py:32-33 | only `lag_1..lag_k` are added or changed |
| Features.AddLags | src/features.py:32-33 | the frame with lags keeps its rows, appends the lag columns to its column list, and each row is the lagged row |
| Features.Lagged | src/features.py:28-36 | the frame before `dropna` has each row's lags and next-hour target |
| Features.CalendarColumnsGained | src/features.py:17-25 | the caller's column list is extended by exactly the derived columns it lacked, its own kept first in order |
| Features.LaggedRowIsFeatureRow | src/features.py:16-39 | a complete row of the lagged frame is a feature row |
| Features.BuildFeatures | src/features.py:9-41 | errors in source order: a missing `pickup_ts`, then an empty lag list (N = 0), then a missing location or ride column; the caller gains the derived columns; every returned row has all lags and the target, a parsed timestamp, `pickup_ts_split` equal to `pickup_ts`, and calendar fields in range that match it |
| Features.BuildFeaturesWithoutSplit | src/test_features.py:32-60 | the same contract without the `pickup_ts_split` column |
| Features.BuildOutcome | src/features.py:9-41 | the shared outcome of both builders: error cases, caller columns, at most as many rows as the input, and feature rows only |
| Features.OneLocationLags | src/features.py:28-31 | for one location with rides 5..9, the third row has lag_1 = 6 and lag_2 = 5, and the first two rows lack lag_2 |
| Features.OneLocationTargets | src/features.py:36 | for that location, the third row's target is 8 and the last row has none |
| FeatureRows.CalendarRowCells | src/features.py:16-25 | the calendar step writes the parsed timestamp, its copy and its three fields, adds no other column, and leaves every other cell alone |
| FeatureRows.FullRowCells | src/features.py:28-36 | the row `dropna` sees holds each lag, the target, and every input cell the builder does not write |
| FeatureRows.FullRowCompleteIff | src/features.py:39 | `dropna` keeps a row exactly when its timestamp parses, its own unwritten cells are present, and all lags and the target are defined |
| FeatureRows.CalendarKeepsInputs | src/features.py:16-25 | the calendar step leaves the location and ride columns unchanged |
| FeatureRows.BuildReturnsBuilt | src/features.py:39 | on a buildable input the builder succeeds with the filtered frame |
| FeatureRows.BuildKeepsRows | src/features.py:39 | the returned rows are exactly the surviving input rows, in input order, each as its full row |
| FeatureRows.BuildRowCells | src/features.py:28-39 | in a returned row, `lag_k` is the k-th earlier same-location ride count, the target the next one, and every other input cell is the input's |
| FeatureRows.UnparseableRowDropped | src/features.py:16-17 | a row whose `pickup_ts` does not parse is not returned |
| FeatureRows.MissingCellDropped | src/features.py:39 | a row with a missing cell of its own that is not overwritten is not returned |
| FeatureRows.LagsPresentIff | src/features.py:28-36 | with no missing ride count, a row has all lags and a target exactly when it has N earlier rows of its location and a later one |
| FeatureRows.CleanSurvives | src/features.py:28-39 | on a clean input, a row survives exactly when it has N earlier rows of its location and a later one |
| FeatureRows.KeptBeforeCount | src/features.py:28-39 | the running count of kept rows of a location matches the closed form |
| FeatureRows.BuiltIsFilteredFullRows | src/features.py:39 | the returned rows are the complete full rows |
| FeatureRows.LocationRowCount | src/features.py:28-39 | on a clean input, a location with m rows keeps max(0, m - N - 1) of them |
| Variants.CalendarRowWithoutSplit | src/test_features.py:34-40 | without the copy, the calendar row is the one with the copy, minus the copy |
| Variants.FullRowCompleteAlike | src/test_features.py:59 | the copy never decides whether a row is complete |
| Variants.SameSurvivors | src/test_features.py:59 | both builders keep the same input rows |
| Variants.BuiltColumnsWithoutSplit | src/test_features.py:32-60 | the column list is the other builder's without `pickup_ts_split` |
| Variants.WithoutSplitMatches | src/test_features.py:32-60 | the builder without the copy returns the same rows and cells as the other, minus `pickup_ts_split` |
| LagFeatures.BuildLagFeatures | src/features.py:43-54 | fails on a missing `pickup_ts`, with TypeError when its cells mix kinds that cannot be compared, or on a missing ride column when lags are asked for; otherwise the columns are the input's followed by the lag columns, every row is complete, and there are at most as many rows as in the input |
| LagFeatures.OneGroupLag | src/features.py:50 | a shift over the whole frame is the grouped shift with one group: `lag_k` of row i is row i - k's value, NaN before that |
| LagFeatures.MatchesEvery | src/features.py:50 | when every key is the same, every position matches |
| LagFeatures.ShiftedRowCells | src/features.py:48-50 | in the sorted order, row i's `lag_k` is the ride count k rows earlier, NaN for i < k, and all other cells are unchanged |
| LagFeatures.LagFeaturesCells | src/features.py:48-53 | each returned row is the lagged form of a sorted row with at least `lags` rows before it |
| LagFeatures.CleanRowComplete | src/features.py:53 | with no missing cell in the input, a shifted row is complete exactly when at least `lags` rows precede it |
| Frames.FilterFrom | src/features.py:53 | filtering by "position at least n" gives the suffix from n |
| LagFeatures.LagFeaturesDropsFirst | src/features.py:48-53 | with no missing cell, the result is the time-sorted input minus its first `lags` rows, each with its lags |
| LagFeatures.NoLags | src/features.py:49-53 | with no lags, the result is the sorted input with its incomplete rows dropped |
| LagFeatures.IntegerTimestampsSort | src/features.py:48-53 | integer (epoch-millisecond) timestamps sort by value, and with one lag the later row is kept with the earlier row's ride count as `lag_1` |
| LagFeatures.MixedTimestampsRaise | src/features.py:48 | a `pickup_ts` column mixing an integer and a string cannot be sorted, and the build fails with TypeError |
| DataSplit.PartitionFeatures | src/data_split.py:18-28 | the partition's features drop exactly the target and split columns, or fail when one is absent |
| DataSplit.TrainTestSplit | src/data_split.py:7-30 | errors: no split column, a split column that is not timestamps, or no target column; it succeeds exactly otherwise |
| DataSplit.TrainPartition | src/data_split.py:15-28 | the training rows are the rows before the cutoff, in order; `y_train` holds their targets at the same places; `X_train` holds every other column, datetime ones in seconds |
| DataSplit.TestPartition | src/data_split.py:16-28 | the same for the rows at or after the cutoff |
| DataSplit.SplitSides | src/data_split.py:15-16 | a row with a split timestamp is in exactly one partition, on its side of the cutoff; a NaT row is in neither |
| DataSplit.SplitCovers | src/data_split.py:15-16 | the two partitions together hold each row with a split timestamp exactly once |
| DataSplit.CutoffOutsideRange | src/data_split.py:15-16 | a cutoff after or before every timestamp leaves one partition empty without error |
| ModelFeatures.PresentEmpty | src/model.py:26 | a row has no numbers to average exactly when all four cells are NaN |
| ModelFeatures.RowMeanFacts | src/model.py:15 | the row mean is NaN exactly when all cells are, and otherwise lies between any bounds of the numbers |
| ModelFeatures.WithColumns | src/model.py:22-24 | the missing columns are added as NaN behind the existing ones, which keep their cells |
| ModelFeatures.AverageRides | src/model.py:8-27 | fails with TypeError exactly when a weekly lag cell is not numeric; otherwise keeps the row count |
| ModelFeatures.AverageRidesColumns | src/model.py:17-26 | the result has the input's columns first, then the weekly lag columns it lacked, then the average |
| ModelFeatures.AverageRidesCells | src/model.py:17-26 | the input cells are kept, the added lags are NaN, and the average is the mean of the four lag cells |
| ModelFeatures.AverageMeaning | src/model.py:15-26 | the average is NaN exactly when all four lags are, and otherwise lies between bounds of the lags present |
| ModelFeatures.FilledTimestamp | src/model.py:44-51 | the result is always a timestamp: the parsed one, or the epoch when parsing fails |
| ModelFeatures.Transform | src/model.py:41-57 | fails with KeyError exactly when `pickup_hour` is absent; otherwise keeps the row count |
| ModelFeatures.TransformCells | src/model.py:41-57 | `pickup_hour` is gone; `hour` is in 0..23 and `day_of_week` in 0..6 of the parsed timestamp, 0 and 3 when it does not parse; other cells are kept |
| ModelFeatures.TransformColumns | src/model.py:54-57 | the columns are the input's minus `pickup_hour`, plus `hour` and `day_of_week` |
| Inference.FeatureList | src/inference.py:23-24 | `feature_names` if present, else `expected_features`, else none |
| Inference.LoadModel | src/inference.py:22-27 | KeyError exactly when the bundle has no model; otherwise the model and its feature list |
| Inference.Align | src/inference.py:48 | the columns are exactly the expected ones in order, absent ones are 0, present ones keep their cells, and the row count is unchanged |
| Inference.RunInference | src/inference.py:40-53 | the caller's frame is left converted to seconds; a prediction list of the wrong length is a ValueError; otherwise one row per input row |
| Inference.InferenceCells | src/inference.py:43-52 | the result's columns are the expected ones, then the prediction; absent columns are 0, present ones are the converted input, and each row carries its prediction |
| Inference.AlignIgnoresOthers | src/inference.py:48 | inputs that agree on the expected columns align to the same frame, so extra columns are dropped without effect |
| Inference.AlignIdempotent | src/inference.py:43-48 | aligning twice, or converting twice first, changes nothing |
| Train.FetchFeaturesAndTarget | src/train.py:23-41 | an empty batch is a ValueError; an existing target is left alone; a missing location or ride column is a KeyError; otherwise the target is added |
| Train.FetchKeepsRows | src/train.py:35-38 | the rows kept are exactly those with a next same-location ride, in order, with their other cells, missing ones included |
| Train.TargetIsNextRide | src/train.py:37 | the target is the next same-location ride count, and the row is kept exactly when that is defined |
| Train.LastRowDropped | src/train.py:37-38 | a row with no location, or no later row of its location, is dropped |
| Train.SplitData | src/train.py:44-50 | fails exactly when the target is absent; `X` is every other column and `y` has one value per row |
| Train.SplitDataCells | src/train.py:45-50 | `y` is the target column row by row, and `X` holds the input cells, datetime ones in seconds |
| Train.TrialParams | src/train.py:64-67 | the drawn parameters lie in the search space |
| Train.Objective | src/train.py:76-84 | a trial is pruned exactly when its training MAE exceeds the threshold; otherwise it returns that MAE |
| Train.ObjectiveScore | src/train.py:77-84 | a returned score lies between 0 and the threshold, and is 0 exactly when every prediction is exact |
| Train.ExactNeverPruned | src/train.py:81-84 | exact predictions are never pruned for a non-negative threshold |
| Train.SaveBundle | src/train.py:91-95 | the bundle holds the model, and both feature lists equal the training columns |
| Train.SaveThenLoad | src/train.py:91-95 | loading the saved bundle gives the model and the training columns back |
| Train.AlignToSaved | src/train.py:91-95 | aligning the training features to the saved list changes nothing |
| Stats.MeanBounds | src/monitoring.py:26 | the mean lies between any bounds of its terms |
| Stats.SumZeroIff | src/monitoring.py:26-27 | a sum of non-negative terms is zero exactly when every term is |
| Stats.MeanZeroIff | src/monitoring.py:26-27 | a mean of non-negative terms is non-negative, and zero exactly when every term is |
| Stats.AbsErrors | src/monitoring.py:26 | each absolute error is non-negative, and zero exactly when the prediction is exact |
| FeatureStore.LoadFallbackFeatures | src/feature_store_api.py:58-74 | FileNotFoundError when the file is missing; otherwise the file's rows, unchanged without `pickup_hour` |
| FeatureStore.FallbackRenamed | src/feature_store_api.py:71-72 | `pickup_hour` becomes `pickup_ts` with the same values, and the rest is kept |
| FeatureStore.OfLocPermuted | src/feature_store_api.py:83 | rearranging the rows rearranges each location's rows |
| FeatureStore.TailPerLocation | src/feature_store_api.py:89-93 | only input rows with a location are kept |
| FeatureStore.TailGroups | src/feature_store_api.py:89-93 | each location keeps exactly its last n rows, in order |
| FeatureStore.LatestKept | src/feature_store_api.py:83-93 | a location's dropped rows are no later than its kept ones |
| FeatureStore.TailKeepsOrder | src/feature_store_api.py:83-93 | the kept rows stay sorted by time |
| FeatureStore.LoadBatch | src/feature_store_api.py:77-94 | KeyError without `pickup_ts`; TypeError when its cells mix kinds that cannot be compared; an empty batch gives an empty frame; KeyError without a location column; otherwise the input's columns, sorted by time |
| FeatureStore.SortedOnlySortable | src/feature_store_api.py:83 | a sorted arrangement of the rows exists only when every two `pickup_ts` cells can be compared, so the sort's TypeError and a sorted result exclude each other |
| FeatureStore.BatchCounts | src/feature_store_api.py:89-93 | each location keeps n rows, or all of them when it has no more than n |
| FeatureStore.BatchHasLocations | src/feature_store_api.py:89-93 | every kept row is an input row with a location |
| FeatureStore.Query | src/feature_store_api.py:129 | errors for a missing or non-timestamp `pickup_hour`; otherwise the same columns |
| FeatureStore.LoadPredictions | src/feature_store_api.py:97-132 | offline is tried first and online only if offline fails; both failing gives an empty frame; only the query can fail, and only with both bounds |
| FeatureStore.PredictionsWindow | src/feature_store_api.py:118-132 | an empty read or a missing bound returns the read as is; otherwise exactly the rows whose `pickup_hour` lies in the window, ends included, in order |
| FeatureStore.MinTime | src/feature_store_api.py:157 | the minimum is a timestamp of the column no later than any other, or NaT when there is none |
| FeatureStore.MaxTime | src/feature_store_api.py:158 | the maximum is a timestamp of the column no earlier than any other, or NaT when there is none |
| FeatureStore.LogPredictions | src/feature_store_api.py:135-164 | an empty frame makes no call; otherwise the frame is inserted first, and materialisation follows only when `pickup_hour` exists |
| FeatureStore.MaterializeSpan | src/feature_store_api.py:154-162 | the span asked for covers every `pickup_hour` and is ordered |
| Monitoring.Record | src/monitoring.py:30-35 | the record has exactly the four keys, holding the metrics |
| Monitoring.MetricKeysDistinct | src/monitoring.py:30-35 | the four keys are distinct |
| Monitoring.SquaredErrors | src/monitoring.py:27 | each squared error is non-negative and zero for an exact prediction |
| Monitoring.EvaluatePredictions | src/monitoring.py:21-37 | KeyError for a missing column, `rides` first; ValueError exactly for no rows or a non-number; otherwise the metrics are non-negative and RMSE squared is MSE |
| Monitoring.Score | src/monitoring.py:26-28 | MAE and MSE are the means of the absolute and squared errors, and RMSE is the square root of MSE |
| Monitoring.MetricsMeaning | src/monitoring.py:23-28 | MAE and MSE are the means, over all rows, of the absolute and squared differences between `rides` and the prediction |
| Monitoring.ZeroWhenExact | src/monitoring.py:26-28 | MAE is zero exactly when every prediction is exact; exact predictions give zero MSE and RMSE |
| Monitoring.ThreeRowScore | src/monitoring.py:26-28 | errors 2, 0, 2 give MAE 4/3 and MSE 8/3 |
| Monitoring.ThreeRowExample | src/monitoring.py:21-37 | the same three rows as a frame give the same metrics |
| Monitoring.MetricsFrame | src/monitoring.py:42 | a well-formed frame with the four keys as columns, in order, and the record as its one row |
| Monitoring.LogMetrics | src/monitoring.py:40-50 | without a log, the log is the single record; otherwise it grows by one row |
| Monitoring.LogKeepsPrior | src/monitoring.py:44-46 | the prior rows and columns are kept in order, with NaN in new metric columns |
| Monitoring.LogAppends | src/monitoring.py:46 | the new last row holds the metrics, with NaN in other columns |
| Monitoring.LogTwice | src/monitoring.py:40-50 | two calls add two rows, the earlier record first |
| Frontend.FromMillis | src/frontend.py:25 | an integer cell becomes that many milliseconds after the epoch, or NaT outside the timestamp range; NaN and text become NaT |
| Frontend.HourStart | src/frontend.py:26 | the start is a whole hour, no later than the instant and less than an hour before it |
| Frontend.FloorHour | src/frontend.py:26 | a timestamp is floored to its hour; NaT stays NaT |
| Frontend.HourStartFacts | src/frontend.py:26 | flooring is idempotent and monotone, and two instants floor alike exactly when they share an hour |
| Frontend.FloorOfMillis | src/frontend.py:25-26 | a millisecond count ends as a whole hour in milliseconds, at most the original and within an hour of it |
| Frontend.RenamePrediction | src/frontend.py:20-21 | the rename keeps every row |
| Frontend.RenamedCell | src/frontend.py:20-21 | after the rename, `predicted_demand` holds the file's prediction when it has one, and every other display cell is the file's |
| Frontend.FloorTimestamps | src/frontend.py:24-26 | fails exactly when some floor falls below the timestamp range; otherwise keeps columns and rows |
| Frontend.DropPickupHour | src/frontend.py:29-30 | the columns are the input's minus `pickup_hour`, with the other cells kept |
| Frontend.Normalise | src/frontend.py:16-36 | the row count is kept; the only failure is the out-of-range floor |
| Frontend.LoadPredictions | src/frontend.py:14-39 | a failed read or a failed normalisation gives an empty frame; otherwise the rows of the file |
| Frontend.NormaliseFails | src/frontend.py:24-26 | normalisation fails exactly when `pickup_ts` exists and some timestamp floors below the range |
| Frontend.PreparedColumns | src/frontend.py:20-30 | a display column exists after the steps exactly when the file has it, or has the prediction it is renamed from |
| Frontend.LoadedColumns | src/frontend.py:33-34 | the columns shown are exactly the display columns present, in display order |
| Frontend.LoadedCells | src/frontend.py:20-34 | each shown cell is the file's: the renamed prediction, the floored timestamp, or its own value |
| Frontend.TrendWindow | src/frontend.py:77 | the window is at least 1 and about a twentieth of the readings |

## Left out

- The hosted feature store, the model registry, file I/O (parquet, CSV, joblib) and directory creation are not modelled. Their results are parameters: a read outcome, a frame read, or a list of store calls made.
- The clock (`datetime.utcnow()`), the square root, pandas' timestamp parser, the fitted model's `predict` and the trial's `suggest_int`/`suggest_float` are parameters.
- Floating point is modelled as `real`. NaN, NaT and None are one `Missing` value, so rounding and the differences between them are not modelled.
- The column dtype is modelled per cell: a "datetime column" is one whose cells are timestamps or NaT. Group keys are compared as values, so an integer key 1 and a float key 1.0 form two groups in `groupby`, where pandas makes them one.
- Time zones are not modelled: `utc=True`, tz-aware versus naive timestamps, and the TypeError that mixing them raises.
- A rename onto an existing column, and an input that already holds `lag_k` columns, would give pandas duplicate column names. The model overwrites instead.
- sklearn's random `train_test_split` inside `split_data` is not modelled; the model stops at `X` and `y`.
- Fitting LightGBM, StandardScaler and Optuna's sampler and study is not modelled. `TemporalFeaturesEngineer.fit` keeps no state and returns itself; it and `get_pipeline` have no logic to model.
- Logging and printing are not modelled.
- Plotting and the rolling mean in `src/frontend.py` are not modelled; only the window size is.
- `load_predictions` and `main` of `src/monitoring.py` are not modelled (file reading and orchestration).
- The other feature-store and platform helpers (login, get/create feature group or view) are not modelled.
- `N_FEATURES` is a parameter `n`. With `n = 0`, `pd.concat([])` raises ValueError, and the model returns that error.
- FeatureStore.LoadBatch: the sort key order covers timestamps, numbers and strings, with missing cells last. Booleans as keys, and pandas' own error message for the TypeError, are not modelled.
- LagFeatures.BuildLagFeatures: the same sort order as `FeatureStore.LoadBatch`, with the same limits.
- Seconds.SecondsCell: NaT converts as pandas 2 does, to the least int64 divided by 10**9; older pandas raises ValueError on the cast, which is not modelled.
- FeatureStore.LogPredictions: a `pickup_hour` column that is not all timestamps is treated as a failed `min()`, whose exception is caught.
- FeatureStore.Query: a mix of timestamps and other values in `pickup_hour` is a TypeError; pandas' exact comparison rules for mixed cells are not modelled.
- FeatureStore.LoadPredictions: the bounds are `Option<int>`. Python's truthiness test on them is modelled as "given".
- Inference.Align: requires the expected list to be distinct. pandas' reindex onto duplicate labels is not modelled.
- Frontend.FromMillis: a fractional count of milliseconds is rounded down to whole nanoseconds, which need not match pandas' rounding; numeric strings are not modelled, and text cells become NaT.
- Frontend.FloorTimestamps: the underflow of a floor below the timestamp range is modelled as ValueError(OutOfBounds), which the caller catches.
- Monitoring.ZeroWhenExact: the converse for MSE and RMSE (zero MSE implies exact predictions) is not proved.
- Monitoring.EvaluatePredictions: sklearn's error messages are simplified, and timestamp cells count as non-numbers.
- Train.SaveThenLoad: with the bundle modelled directly, the round trip holds by construction; writing and reading the file is not modelled.
