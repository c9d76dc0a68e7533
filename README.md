# giotto-time supervised-matrix builder, in Dafny

This project models `FeatureCreation`, the part of giotto-time that turns a time
series into a supervised-learning pair `(X, y)`:

- `check_feature_names` rejects a feature list in which two features share an
  output name. It raises `ValueError` carrying the list of names.
- the `FeatureCreation` object stores a validated feature list and a forecast
  `horizon`. Construction runs the check first, so a rejected list leaves no object.
- `_create_x_features` starts from an empty frame on the series' index and
  concatenates each feature's output onto it, in list order.
- `_create_y_shifts` starts from an empty frame on the same index. For each
  `k` in `range(horizon)` it stores the series shifted back by `k`
  (`ShiftFeature(-k)`) under the column name `y_k`.
- `fit_transform` returns both frames.

Layout:

- `wrappers.dfy`: `Option`, `Outcome` and `Result`. Python exceptions become `Fail`/`Failure` values.
- `frames.dfy`: the pandas operations the builder uses. A `Frame` is an index
  plus an ordered list of named columns, with `None` for a missing value. It
  also has `shift`, column assignment `frame[key] = ...` and `concat(axis=1)`.
  `Concat` (the `pd.concat([features, x_transformed], axis=1)` of line 123, on
  a shared index) and `ShiftFrame` (`DataFrame.shift`, behind line 100) are
  plain definitions without contracts of their own; what they do is stated
  through the rows of `CreateXFeatures`, `FeatureColumnsSnoc` and `ShiftFeature`.
- `decimal.dfy`: Python's `f"{k}"` for a natural `k`, with its inverse.
- `features.dfy`: a feature is an output name plus a frame transformation.
  The transformation is code outside this model, so it is a parameter.
  `ShiftFeature(p)` is assumed to behave like pandas `shift(p)`: row `i`
  takes row `i - p`, and rows with no source row are missing.
- `feature_creation.dfy`: the validator, the specification functions and
  lemmas, and the class `FeatureCreation`.

The class keeps the source's fields (`timeSeriesFeatures`, `horizon`). The source never reassigns them after `__init__`, so they are `const` here, and the invariant holds for the list as it was passed to the constructor.
Its object invariant `Valid()` says the stored output names are distinct.
Python's `__init__` both checks and stores. In the model these are two members:

- the static method `New` checks and returns `Failure` on a duplicate;
- the constructor stores, and requires that the check has passed.

The builder methods have no `modifies` clause, so Dafny checks that they change
neither the object nor anything else.

Assigning a DataFrame to a single column (`y[f"y_{k}"] = frame`, line 101)
raises `ValueError` in pandas unless the frame has exactly one column. The
model keeps that error path: with `horizon > 0`, a series that is not
univariate fails at `y_0`. With `horizon <= 0` there is nothing to assign and
`y` has no columns. Column assignment is modelled as pandas does it: it
replaces a column with the same name, or else appends one. So "exactly
`horizon` columns" relies on the names `y_0 … y_{horizon-1}` being pairwise
distinct, which is proved from the decimal round trip.

## Model

| member | source | states |
|---|---|---|
| `FeatureCreation.CheckFeatureNames` | giottotime/feature_creation/feature_creation.py:12-36 | passes exactly when the output names are pairwise distinct; otherwise fails with `DuplicateOutputNames` carrying the full list of names |
| `FeatureCreation.ElementsDistinct` | giottotime/feature_creation/feature_creation.py:31-32 | the set of a name list is as large as the list if and only if no name repeats (the size test the source uses means "duplicate-free") |
| `FeatureCreation.ElementsAtMost` | giottotime/feature_creation/feature_creation.py:32 | the set of a list is never larger than the list, so a size mismatch means the set is smaller |
| `FeatureCreation.CheckFeatureNamesRejects` | giottotime/feature_creation/feature_creation.py:31-36 | any two positions with the same output name make the check raise, with the list of names |
| `FeatureCreation.FeatureCreation.constructor` | giottotime/feature_creation/feature_creation.py:59-60 | once the check has passed, stores exactly the given features and horizon and establishes distinct output names |
| `FeatureCreation.FeatureCreation.New` | giottotime/feature_creation/feature_creation.py:56-60 | fails exactly when two output names coincide, with the names list, and then creates no object; otherwise yields a fresh valid object holding the given horizon and features |
| `FeatureCreation.FeatureCreation.CreateXFeatures` | giottotime/feature_creation/feature_creation.py:105-125 | X is on the input's index; its columns are the features' output columns concatenated in list order (none for an empty list); every column has one entry per index label |
| `FeatureCreation.FeatureColumnsSnoc` | giottotime/feature_creation/feature_creation.py:121-123 | concatenating one more feature's output appends exactly its columns after the ones already built |
| `FeatureCreation.FeatureColumnsSplit` | giottotime/feature_creation/feature_creation.py:120-125 | the columns of X are those of any prefix of the feature list followed by those of the remaining features |
| `FeatureCreation.FeatureBlock` | giottotime/feature_creation/feature_creation.py:120-125 | feature `i`'s output is one contiguous block in X, starting right after the columns of features `0..i-1` |
| `FeatureCreation.FeatureColumnsShaped` | giottotime/feature_creation/feature_creation.py:120-125 | when every feature output lies on the input's index, every column of X has one entry per index label |
| `FeatureCreation.FeatureCreation.CreateYShifts` | giottotime/feature_creation/feature_creation.py:83-103 | raises exactly when `horizon > 0` and the series is not a single column (key `y_0`); otherwise y is on the input's index, has `max(horizon, 0)` columns named `y_0 … y_{horizon-1}` in order, holds the series shifted back by `k` in column `k`, has distinct names, and is well-shaped when the input is |
| `FeatureCreation.YNameInjective` | giottotime/feature_creation/feature_creation.py:101 | different steps `k` give different column names `y_k` |
| `FeatureCreation.ShiftMatrixUnique` | giottotime/feature_creation/feature_creation.py:98-103 | the target matrix is determined by the series and the horizon alone |
| `FeatureCreation.ShiftMatrixNamesDistinct` | giottotime/feature_creation/feature_creation.py:99-101 | the column names of y are pairwise distinct |
| `FeatureCreation.ShiftMatrixAt` | giottotime/feature_creation/feature_creation.py:99-101 | row `i` of `y_k` is row `i + k` of the series, and is missing when `i + k` is past the end; `y_0` is the series unchanged |
| `FeatureCreation.ShiftMatrixStaircase` | giottotime/feature_creation/feature_creation.py:99-101 | column `y_{k+1}` is column `y_k` shifted back by one more row |
| `FeatureCreation.FeatureCreation.FitTransform` | giottotime/feature_creation/feature_creation.py:62-81 | raises exactly when building y raises, with the same error (features never raise in this model); otherwise returns X (determined by the features and the series) and y (a target matrix determined by the horizon and the series) |
| `Frames.Shift` | giottotime/feature_creation/feature_creation.py:100-101 | assumed pandas `shift` contract: same length; row `i` holds row `i - periods` when that row exists, and is missing otherwise |
| `Frames.SetColumn` | giottotime/feature_creation/feature_creation.py:101 | the index is kept and `name` is a column name afterwards; if `name` was present the width is unchanged, every column called `name` now holds `values` and every other column is untouched; otherwise the old columns are kept in order and the new column comes last |
| `Features.ShiftFeature` | giottotime/feature_creation/feature_creation.py:100 | assumed behaviour of `ShiftFeature`: it keeps its output name, and its transformation keeps the index and the number of columns and shifts each column's values by `periods` |
| `Decimal.DecimalString` | giottotime/feature_creation/feature_creation.py:100-101 | the rendering of `k` in `f"y_{k}"` is non-empty, consists of decimal digits and has no leading zero |
| `Decimal.DecimalRoundTrip` | giottotime/feature_creation/feature_creation.py:101 | reading the decimal rendering of `k` back gives `k` |
| `Decimal.DecimalStringInjective` | giottotime/feature_creation/feature_creation.py:101 | two numbers with the same rendering are equal |

## Left out

- The internals of every concrete `TimeSeriesFeature` are not part of this
  model. A feature's `fit_transform` is a parameter (`Feature.transform`).
  Fitting state and `_rename_columns` are not modelled either.
- `ShiftFeature` is not part of this model. It is assumed to behave like
  pandas `shift` (see `Frames.Shift`). Its output name `shift_k` is built but
  has no effect, because line 101 stores the values under `y_k`.
- `FeatureCreation.FeatureCreation.CreateXFeatures`: requires every feature
  output to lie on the input's index. pandas `concat` aligns frames with
  different indices by an outer join, and that alignment is not modelled.
  Feature transformations are total functions here, so an exception raised
  by a feature's `fit_transform` (line 122) is not modelled.
- `FeatureCreation.FeatureCreation.FitTransform`: inherits the same-index
  requirement on feature outputs from `CreateXFeatures`. Because feature
  transformations never raise in this model, the only error it can return
  is the one from building y; in the source a feature's exception would
  propagate first, from line 79.
- dtype handling is left out: observations are `real` and are only copied,
  never computed with. NaN is modelled as `None`.
- For a frame assigned to one column, the model stores the values of that
  frame's single column by position. This matches pandas because the shifted
  frame shares `y`'s index.
- `FeatureCreation.FeatureCreation.constructor`: the feature list is stored as
  a value. In the source, line 59 stores the caller's own list and line 121
  reads it again on every call, so a later in-place change to that list (or
  to a feature's `output_name`) can introduce duplicate names that were never
  checked. That sharing is not modelled.
- `Features.ShiftFeature`: promises nothing about the names of its output
  columns. Renaming a feature's output to its output name is feature code
  outside this model, and line 101 stores the values under `y_k` anyway.
- Index labels are abstracted to integers; only their order and equality matter.
- Python's `horizon` is an unbounded `int`; no width limit applies.
