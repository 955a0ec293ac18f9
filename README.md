# Market-crash risk pipeline: cleaning, feature warm-up and data preparation

This project is a Dafny model of the table logic in a small market-risk
pipeline. The pipeline has three stages:

- **Price cleaning** (`load_and_process_data`). A downloaded price frame has a
  two-level (ticker, field) header. Cleaning flattens the header to
  `ticker_field` labels, keeps the columns whose label contains `Close`,
  forward-fills gaps and drops the rows that are still incomplete.
- **Feature engineering** (`add_features`). It assigns three columns into
  the caller's frame: the daily log return of `SPY_Close`, its 30-day
  annualised rolling volatility and the 50-day simple moving average of the
  price. It then returns the complete rows as a new frame. Without
  `SPY_Close` it returns the caller's frame untouched.
- **Training preparation** (`LiquidityRiskModel.prepare_data`, after the CSV
  read). If there is no `Target` column, it derives one: the label is 1 when
  the next day's log return is below -1%, else 0. Incomplete rows are then
  dropped. The frame is rejected if any of five fixed feature columns is
  absent, and the error lists exactly the absent ones. Otherwise the rows
  are split 80/20 in time order.

A pandas frame is modelled as a `Tables.Table`:

- a date index, modelled as `int`;
- a sequence of column labels;
- rows of `Option<real>` cells, where `None` is NaN.

`df[name] = col` is `Tables.WithColumn`. It overwrites every column with
that label, or appends a new one. `df.dropna()` is `Tables.DropNa`. The
operations that mutate a frame in place are methods on the `Tables.Frame`
class. These are the
assignments of `add_features` and of the labelling step. `np.log` of a price
ratio and the square root are parameters of type `Features.Numerics`, so the
model fixes where each feature is defined and which inputs it is computed
from. The mean and the sample variance are exact.

Files:

- `wrappers.dfy`: Option and Result.
- `tables.dfy`: tables, columns, column assignment, selection, `dropna`, and the mutable frame.
- `cleaning.dfy`: `load_and_process_data`.
- `features.dfy`: `add_features`.
- `training.dfy`: `prepare_data`.
- `pipeline.dfy`: the two stages composed.

## Model

| member | source | states |
|---|---|---|
| Tables.WithColumn | src/data_processing.py:54-62 | `df[name] = col` keeps the index and row count. It keeps the labels when `name` is present, else it appends `name`. Every cell under label `name` becomes the assigned value and every other cell is unchanged. |
| Tables.Column | src/model_training.py:36 | `df[name]` has one cell per row, and row i's cell is that row's value in the first column labelled `name`. |
| Tables.CompleteWithColumn | src/data_processing.py:54-65 | After an assignment a row is complete iff the assigned cell is present and so is every cell under a different label. |
| Tables.ColumnAfterAssign | src/model_training.py:36-37 | Reading back a label just assigned gives exactly the assigned column. |
| Tables.ColumnOfOtherLabel | src/data_processing.py:59-62 | Assigning one label leaves the column read under any other label unchanged. |
| Tables.Select | src/model_training.py:49 | `df[cols]` has exactly the labels `cols`, in that order. Its cell (i, k) is row i of column `cols[k]`, and the dates and row count are unchanged. |
| Tables.Kept | src/data_processing.py:35 | The kept positions are exactly the complete rows, strictly increasing. |
| Tables.DropNa | src/data_processing.py:35 | `dropna` keeps the labels and exactly the complete rows with their dates, in order. No cell of the result is missing. |
| Tables.DropNaChronological | src/data_processing.py:35 | Dropping rows keeps dates strictly increasing. |
| Tables.DropNaOfGapFree | src/data_processing.py:35 | A frame with no missing cell is its own `dropna`. |
| Tables.DropNaIdempotent | src/data_processing.py:35 | `dropna` twice is `dropna` once. |
| Tables.PositionsOfUpwardClosed | src/data_processing.py:35 | If the complete rows are exactly those from some row on, `dropna` keeps exactly that contiguous range. |
| Tables.Frame.Assign | src/data_processing.py:54-62 | In-place column assignment: the frame's new value is `WithColumn` of its old value. |
| Tables.Frame.DropNaCopy | src/data_processing.py:65 | Returns a fresh frame holding the `dropna` of this one and leaves this one unchanged. |
| Cleaning.Flatten | src/data_processing.py:24 | There is one label per header column, in header order, and label i is `ticker + "_" + field` of column i. |
| Cleaning.SplitFlatName | src/data_processing.py:24 | A ticker without an underscore and its field can be read back from the flattened label. |
| Cleaning.FlattenInjective | src/data_processing.py:24 | When no ticker contains an underscore, distinct header columns get distinct labels. |
| Cleaning.ContainsIff | src/data_processing.py:28 | The `'Close' in c` test holds exactly when the pattern occurs in the label at some offset. |
| Cleaning.CloseColumns | src/data_processing.py:28 | The selected positions are exactly the columns whose label contains `Close`, in increasing order. |
| Cleaning.Contains | src/data_processing.py:28 | The substring test `'Close' in c`. It can hold only when the pattern is no longer than the label; `Cleaning.ContainsIff` characterises it fully. |
| Cleaning.CloseFilter | src/data_processing.py:28-29 | The filtered frame keeps the columns whose label contains `Close`, each matching position once, in original order. Every kept label contains `Close`, its cells are the original cells of that column, and the dates are unchanged. |
| Cleaning.CloseFilterIsSelect | src/data_processing.py:28-29 | With distinct labels, selecting the list of `Close` labels, as `df[close_cols]` does, gives exactly the position-based filter. |
| Cleaning.LastObserved | src/data_processing.py:33 | A present cell is unchanged by the fill. A filled cell is missing iff the column has no earlier value, so nothing is back-filled. Otherwise it equals the value at the most recent earlier row that has one. |
| Cleaning.FFill | src/data_processing.py:33 | The fill keeps the dates, the labels and the row count. Each cell is the last observed value of its column at that row, so `Cleaning.LastObserved` gives its meaning. |
| Cleaning.CarryStep | src/data_processing.py:33 | Carrying the previous filled row, or nothing before the first row, into row i gives exactly filled row i: the loop step of the fill. |
| Cleaning.ForwardFill | src/data_processing.py:33 | One pass over the rows, carrying the last value seen per column, computes the forward fill cell by cell. |
| Cleaning.FirstObserved | src/data_processing.py:33-35 | The first row, from a given row on, where a column is present. |
| Cleaning.WarmUp | src/data_processing.py:33-35 | The latest first observation over the columns: no column starts later, and some column starts exactly there. |
| Cleaning.FFillCompleteIff | src/data_processing.py:33-35 | After forward fill, a row is complete iff every column has been observed at or before it. |
| Cleaning.Cleaned | src/data_processing.py:33-35 | `ffill().dropna()` keeps the labels and leaves no cell missing. `Cleaning.CleanedIsSuffix` states which rows survive. |
| Cleaning.CleanedIsSuffix | src/data_processing.py:33-35 | `ffill` then `dropna` keeps exactly a contiguous suffix of the rows, from the latest first observation on, in order and with their dates. No cell of the result is missing, and the labels are unchanged. |
| Cleaning.CleanedChronological | src/data_processing.py:33-35 | The cleaned frame keeps dates strictly increasing. |
| Cleaning.LoadAndProcess | src/data_processing.py:24-35 | Flatten, Close filter, forward fill and drop together. The result has the Close labels and the fill of the rows from the warm-up start on, with their dates, and no missing cell. |
| Features.SquaredDeviations | src/data_processing.py:59 | Sums of squared deviations are never negative. |
| Features.SampleVariance | src/data_processing.py:59 | The sample variance is never negative. |
| Features.LogReturns | src/data_processing.py:54 | The return at row t is defined iff t ≥ 1 and both prices t-1 and t are present. It is then the log ratio of those two prices. |
| Features.Present | src/data_processing.py:59-62 | A run of cells has values iff none is missing, and the values are the cells' contents. |
| Features.Window | src/data_processing.py:59-62 | A rolling window of w cells ending at row t is defined iff t+1 ≥ w and all w cells are present (`min_periods` = window). Its values are those w cells. |
| Features.RollingVol | src/data_processing.py:59 | The volatility at row t is defined iff the 30-return window ending at t is. It is then sqrt(sample variance of the window) · sqrt(252). |
| Features.RollingMean | src/data_processing.py:62 | The moving average at row t is defined iff its window is, and it is then the exact mean of the window. |
| Features.LogReturnWarmUp | src/data_processing.py:54 | On a gap-free price column the log return is missing only at row 0. |
| Features.VolatilityWarmUp | src/data_processing.py:59 | On a gap-free price column the volatility is missing exactly in rows 0..29. |
| Features.MovingAverageWarmUp | src/data_processing.py:62 | On a gap-free price column the SMA is missing exactly in rows 0..48. From row 49 on it is the sum of the 50 prices ending there, divided by 50. |
| Features.VolatilityNonNegative | src/data_processing.py:59 | When the square root is non-negative, a defined volatility is non-negative. |
| Features.WindowCausal | src/data_processing.py:59-62 | A window ending at row t depends only on the cells up to row t. |
| Features.LogReturnsCausal | src/data_processing.py:54 | The first t+1 log returns depend only on the first t+1 prices. |
| Features.VolatilityCausal | src/data_processing.py:59 | The volatility at t depends only on the returns up to t. |
| Features.MovingAverageCausal | src/data_processing.py:62 | The SMA at t depends only on the prices up to t. |
| Features.FeaturesCausal | src/data_processing.py:54-62 | No look-ahead: all three features at row t depend only on the prices up to row t. |
| Features.WithFeatures | src/data_processing.py:54-62 | The three assignments keep the dates and the row count. Its labels, untouched columns and feature values are stated by `Features.WithFeaturesNames`, `WithFeaturesKeeps` and `WithFeaturesValues`. |
| Features.WithFeaturesIsAssignments | src/data_processing.py:54-62 | The volatility is computed from the returns just assigned, and the SMA from the price column. |
| Features.WithFeaturesNames | src/data_processing.py:54-62 | Every existing label stays in place, and at most three labels are appended, all feature labels. Afterwards all three are present. With none of them present beforehand, the labels become the old ones plus `SPY_Log_Ret`, `SPY_Vol_30d`, `SPY_SMA_50`, in that order. |
| Features.WithFeaturesKeeps | src/data_processing.py:54-62 | Every column not labelled by a feature keeps all of its cells. |
| Features.WithFeaturesValues | src/data_processing.py:54-62 | Every feature-labelled column holds its series computed from the price column. |
| Features.WithFeaturesCompleteIff | src/data_processing.py:54-65 | On gap-free input a row is fully defined after the assignments iff it is row 49 or later. |
| Features.FeaturedGapFree | src/data_processing.py:65 | On gap-free input `add_features` keeps exactly the rows from 49 on, in order and with their dates: `max(0, n-49)` rows. |
| Features.Featured | src/data_processing.py:44-65 | `add_features` on a frame value. Without `SPY_Close` the frame is returned as it is. Otherwise the result has no missing cell, keeps every old label in place and has all three feature labels. `Features.FeaturedGapFree` states which rows remain on gap-free input. |
| Features.AddFeatures | src/data_processing.py:39-67 | Without `SPY_Close` the caller's own frame is returned unchanged. Otherwise the three features are assigned into the caller's frame, and a fresh frame holding that frame's complete rows is returned. |
| Training.NextDay | src/model_training.py:36 | `shift(-1)`: row t holds row t+1's return, and the last row holds a missing value. |
| Training.CrashLabel | src/model_training.py:37 | The label is 0 or 1. It is 1 exactly when the next-day return is present and below -0.01, so a missing return labels 0. |
| Training.CrashLabelExamples | src/model_training.py:37 | A -1.2% next-day return is labelled a crash and a -0.4% one is not. |
| Training.Labels | src/model_training.py:37 | Every label cell is present and is the crash label of its row's next-day return. |
| Training.WithLabels | src/model_training.py:36-37 | The two assignments keep the dates and the row count. `Training.WithLabelsTarget` and `WithLabelsComplete` state the labels and which rows are complete. |
| Training.Labelled | src/model_training.py:34-38 | The step fails iff there is neither `Target` nor `SPY_Log_Ret`, and then with a `KeyError` on `SPY_Log_Ret`. On success the frame has a `Target` column. |
| Training.LabelledKeepsExisting | src/model_training.py:34 | An existing `Target` column is used as it is: no label is recomputed and no row is dropped. |
| Training.WithLabelsIsAssignments | src/model_training.py:36-37 | The label is computed from exactly the shifted return column. |
| Training.WithLabelsTarget | src/model_training.py:36-37 | Before the drop, row i's label is the crash label of row i+1's return, or 0 on the last row. |
| Training.WithLabelsComplete | src/model_training.py:36-38 | Before the drop, row i is complete iff there is a row i+1 with a present return and row i has no gap outside `Next_Day_Return`. |
| Training.LabelledIsDropNa | src/model_training.py:36-38 | Without `Target`, the step's result is the assigned frame after `dropna`. |
| Training.LabelledKeptRows | src/model_training.py:36-38 | Without `Target`, the kept rows are exactly those with a next row whose return is present and no gap of their own. So the last row is always dropped. |
| Training.LabelledTargets | src/model_training.py:36-38 | Without `Target`, the k-th surviving row, originally row p[k], has label 1 iff row p[k]+1's return is below -0.01, else 0. |
| Training.LabelledChronological | src/model_training.py:34-38 | Labelling keeps dates strictly increasing. |
| Training.AbsentFlags | src/model_training.py:45 | There is one flag per required name, and flag k is set iff the k-th required name is not a label. |
| Training.Missing | src/model_training.py:42-47 | A name is listed iff it is required and absent. The list is the absent required names, in the required order. |
| Training.NoneMissing | src/model_training.py:45-49 | An empty missing list means every feature column exists. |
| Training.SplitIndex | src/model_training.py:53 | `int(len(X) * 0.8)` as `floor(4n/5)`, never more than the row count. `Training.SplitSizes` gives the sizes of both parts. |
| Training.Rows | src/model_training.py:54 | `iloc[lo:hi]` keeps the labels and stays well formed. |
| Training.SplitSizes | src/model_training.py:53-55 | The test part has ceil(n/5) rows, so it is non-empty for n ≥ 1. The train part is non-empty iff n ≥ 2. |
| Training.SplitData | src/model_training.py:49-55 | X has exactly the five feature labels, in order. Train followed by test gives back every row of X, every label of y and every date. X and y are cut at the same index `floor(4n/5)` and carry the same dates. |
| Training.PrepareOutcome | src/model_training.py:33-57 | Preparation fails with a `KeyError` iff neither `Target` nor `SPY_Log_Ret` exists. After labelling it fails iff a feature is absent, with exactly the absent ones listed. Otherwise it returns the split of the labelled frame. |
| Training.Prepare | src/model_training.py:33-57 | On success it gives train and test feature frames with exactly the five feature labels. X and y are aligned in length, and the training part has `floor(4/5)` of all rows. An error is a `KeyError` on `SPY_Log_Ret`, or a non-empty list of required feature names. |
| Training.SplitChronological | src/model_training.py:53-55 | On dated rows every training date precedes every test date. |
| Training.PrepareChronological | src/model_training.py:33-57 | For a frame with strictly increasing dates, the prepared split is chronological: every train row precedes every test row. |
| Training.LiquidityRiskModel.constructor | src/model_training.py:10-11 | The trainer keeps the model path it was given, `models/xgb_risk_model.json` by default. |
| Training.LiquidityRiskModel.PrepareData | src/model_training.py:33-57 | The in-place labelling on a local frame, then the feature check and the split, computes `Prepare`. |
| Pipeline.FeaturedNames | src/data_processing.py:54-65 | After `add_features` the labels are exactly the old ones plus the three feature labels. |
| Pipeline.LabelledNames | src/model_training.py:36-38 | Labelling adds exactly `Next_Day_Return` and `Target` to the labels. |
| Pipeline.LastThreeAbsent | src/model_training.py:45 | When exactly the last three of the five features are absent, their positions are 2, 3 and 4. |
| Pipeline.AbsentLastThree | src/model_training.py:45 | With both return features present and the other three absent, exactly the last three features are flagged absent. |
| Pipeline.MissingNotProduced | src/model_training.py:42-47 | With both return features present and `RSI`, `BB_Width`, `Trend_Signal` absent, exactly those three are reported missing. |
| Pipeline.FeatureLabelsOnly | src/data_processing.py:54-62 | Old labels without `Target`, `RSI`, `BB_Width` or `Trend_Signal`, plus the three feature labels, contain both return features and none of those four. |
| Pipeline.FeaturedLabels | src/data_processing.py:54-65 | For prices without `Target`, `RSI`, `BB_Width` or `Trend_Signal`, the output of `add_features` has both return features and none of those four. |
| Pipeline.PrepareRejects | src/model_training.py:33-47 | A frame with both return features but none of the other three, and no `Target`, is rejected listing exactly those three. |
| Pipeline.FeaturedIsRejected | src/model_training.py:42-47 | A frame produced by `add_features` from prices without `RSI`, `BB_Width`, `Trend_Signal` or `Target` is always rejected by `prepare_data`, naming exactly those three. |

## Left out

- CSV reading and writing, and date parsing in both files, are left out as file I/O. The model starts from an in-memory frame whose dates are integers.
- The file-exists check in `load_and_process_data` is left out as file I/O.
- Console output is left out, and so are the `__main__` blocks.
- The xgboost classifier is left out because it is an external library. This covers its construction, the `_estimator_type` patch, and `train`, `evaluate` and `save`. `Training.LiquidityRiskModel` keeps only the model path.
- `src/data_ingestion.py`, `src/sql_analysis.py` and `src/predict.py` are not part of this model. They are downloads, SQL queries and classifier calls.
- Features.LogReturns: `np.log` of the price ratio is a parameter of type `Numerics`. Float behaviour is not modelled: a zero or negative price giving inf or NaN, and rounding.
- Features.RollingVol: the square root is a parameter of type `Numerics`. The sample variance is exact real arithmetic, not float arithmetic.
- Training.SplitIndex: models `int(len(X) * 0.8)` as the exact `n*4/5`. Float rounding of `0.8` is not modelled.
- Cleaning.CloseFilter: it keeps each matching column position once. With duplicate labels, pandas' `df[close_cols]` would return every column of each listed label, once per listing, so it has more columns. Duplicate labels are not represented here. They can arise when two (ticker, field) pairs flatten to the same label, for example `('A_B', 'Close')` and `('A', 'B_Close')`. `Cleaning.CloseFilterIsSelect` proves the two agree when labels are distinct.
- Tables.Column: reading a label that names several columns yields the first of them. pandas would return a sub-frame, which this model does not represent.
- `RSI`, `BB_Width` and `Trend_Signal` are required by `prepare_data`, but nothing in the modelled code produces them. They are treated as ordinary input columns. `Pipeline.FeaturedIsRejected` states the resulting mismatch.
- The comment over the final `dropna` in `add_features` says 50 rows are dropped. The code drops 49 on gap-free input, because the 50-day window is first defined at row 49. The model follows the code.
- Dates are plain integers. Chronological order is an assumption of the lemmas that use it, not a check the code performs.
