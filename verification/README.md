# Tabular preprocessing helpers: column and row bookkeeping

This project is a Dafny model of `dataprocess/preprocessing.py`, a small
library of pandas/scikit-learn helpers: `split_columns`, `one_hot_encoder`,
`scale_data` and `fill_na`.
- `split_columns` takes two lists of column names and returns their set
  difference.
- `one_hot_encoder`, `scale_data` and the drop branch of `fill_na` use it to
  split a DataFrame's columns into target and passthrough columns. They
  transform the targets with a library call and join the two parts again.
  Except for the encoder, they then put the columns back into the input's
  order.
- The mean branch of `fill_na` splits and joins nothing. It fills the
  caller's whole frame in place and returns a copy.

The model covers that bookkeeping: which columns come out, in what order,
and which rows and cells come out unchanged. The library transforms
themselves are passed in as parameters.

Files, one module each:

- `tables.dfy` (`Tables`): the table value, the error kinds and the pandas
  pieces the helpers are built from.
  - A table has column names, columns by name and row labels.
  - Each column has a kind tag (`Numeric` for the six numeric dtypes,
    `Other` otherwise) and cells that are `Missing` or `Present`.
  - Row labels are the pandas index.
  - Pieces: `Select` (`df[cols]`), `RowsAt` (row selection) and `LeftJoin`
    (`DataFrame.join`, which matches rows by label).
- `columns.dfy` (`Columns`): `split_columns`, and the fact that its
  unspecified order does not matter once the result is reprojected.
- `encoding.dfy` (`Encoding`): `one_hot_encoder`. `pd.get_dummies` is the
  parameter `getDummies`.
- `scaling.dfy` (`Scaling`): `scale_data`. `MinMaxScaler` is the parameter
  `scale`. It is called with the feature range, the column it was fitted on
  and one cell.
- `filling.dfy` (`Filling`): `fill_na`.
  - The drop branch is a function.
  - The mean branch overwrites the caller's frame. It is a method on the
    class `Frame`, whose column map is reassigned in place.
  - The column mean is the parameter `mean`. It returns `Missing` for the NaN
    mean of a column that has no values, and such a column stays unfilled.

Rows are matched by label exactly as pandas' left join matches them. The
source's joins line up rows correctly only on the default 0..n-1 index, so
the model keeps the labels and shows where this matters:
- `one_hot_encoder` and the drop branch of `fill_na` need distinct labels for
  their joins.
- `scale_data` is modelled for every index, and lines up only on the default
  one (see Findings).

Two behaviours of the code a reader may not expect:
- `one_hot_encoder` does not restore the input's column order. The
  passthrough columns come first, in the order of the set difference, then
  the indicator columns.
- `fill_na` in mean mode overwrites the caller's frame, and it returns a copy
  (`df[df.columns]`).

## Model

| member | source | states |
|---|---|---|
| `Columns.SplitColumns` | dataprocess/preprocessing.py:20-22 | The result has no repeated name. A name is in it exactly when it is in `all_columns` and not in `columns_to_subtract`. |
| `Columns.SplitDependsOnlyOnMembership` | dataprocess/preprocessing.py:20-22 | The result depends on the names to subtract only through which names of `all_columns` they contain. |
| `Columns.SplitIgnoresUnknown` | dataprocess/preprocessing.py:21-22 | Extra names to subtract that are not columns change nothing. They raise no error. |
| `Columns.SplitPartition` | dataprocess/preprocessing.py:20-22 | For a subset S of the columns: the remainder and S are disjoint and together make up all the columns. The remainder has \|all\| - \|S\| names. |
| `Columns.RejoinIgnoresSplitOrder` | dataprocess/preprocessing.py:63-65 | With the passthrough columns on the left of the join, as in `scale_data`, joining and then reprojecting gives the same table for every order of the passthrough list, whatever the row labels. So the set's order does not reach `scale_data`. |
| `Columns.RejoinRightIgnoresSplitOrder` | dataprocess/preprocessing.py:84-85 | The same with the passthrough columns on the right, as in the drop branch of `fill_na`, whose join needs distinct labels. So the set's order does not reach `fill_na` either. |
| `Tables.Select` | dataprocess/preprocessing.py:37 | `df[cols]` has exactly the listed columns, in the listed order, with their cells and the same row labels. |
| `Tables.SelectAll` | dataprocess/preprocessing.py:40 | `df[df.columns]` is the frame itself. |
| `Tables.LeftJoin` | dataprocess/preprocessing.py:39 | Join keeps the left rows and labels in order. The left columns are unchanged. Each right column is looked up by label and is missing where the label is absent. |
| `Tables.JoinSameIndex` | dataprocess/preprocessing.py:39 | On identical distinct labels, the join puts the two frames side by side without moving any cell. |
| `Tables.RowsAt` | dataprocess/preprocessing.py:83 | Keeping some rows by position (what `dropna` does): every column keeps its name and kind, and row i of the result holds each column's cell and the label of the i-th kept row. |
| `Tables.RealignPicked` | dataprocess/preprocessing.py:85 | Looking up distinct labels of some kept rows picks exactly those rows. |
| `Encoding.OneHotEncoder` | dataprocess/preprocessing.py:35-40 | A target that is not a column fails, and the error lists exactly those targets. Otherwise an empty target list fails with `NoData`, as `get_dummies` of a frame without columns has nothing to concatenate. Otherwise an indicator name equal to a passthrough name fails with the overlap. Otherwise the output is the passthrough columns, each once and unchanged, followed by the indicator columns in their order. The output has \|columns\| - \|targets\| + \|indicators\| columns and the same rows and labels. |
| `Scaling.ScaleTargets` | dataprocess/preprocessing.py:54-56 | With no column list, the targets are exactly the numeric-tagged columns, each once. Otherwise they are the given list. |
| `Scaling.ScaledColumn` | dataprocess/preprocessing.py:59-60 | `fit_transform` on one column: as many cells as the column, in the same order. Each is the scaler fitted on that whole column applied to that cell, and the column is numeric afterwards. |
| `Scaling.ScaledFrame` | dataprocess/preprocessing.py:61 | `pd.DataFrame(x_scaled, columns=...)`: exactly the target columns in target order, each the scaled column, on the labels it is given. `ScaleData` gives it 0..n-1 and `ScaleDataIndexed` gives it the input's labels. |
| `Scaling.Rejoined` | dataprocess/preprocessing.py:63-65 | The success path: the scaled frame joined onto the passthrough columns and put back into the input's order. Names, order and labels are the input's, and passthrough columns are unchanged. Each target column is its scaled column looked up by label from the labels the scaled frame was given. |
| `Scaling.ScaleData` | dataprocess/preprocessing.py:42-65 | Errors, in order: missing columns (listed exactly), a range with min >= max, non-numeric targets (listed exactly), no rows or no targets. On success the column names, order and labels are those of the input, and passthrough columns are unchanged. Row i of a target column holds the scaled cell at position `index[i]`, or is missing when that label is not a position. |
| `Scaling.ScaleDataOnDefaultIndex` | dataprocess/preprocessing.py:61-65 | On the default index 0..n-1, `scale_data` scales every target cell in its own row. It equals the corrected form. |
| `Scaling.ScaleDataMisalignsShuffledIndex` | dataprocess/preprocessing.py:61-65 | Take the labels [1, 0] and a scaler that tells the two values apart. Each row then gets the other row's scaled value, so the result differs from the intended one. |
| `Scaling.ScaleDataIndexed` | dataprocess/preprocessing.py:61-65 | Corrected form: the same errors, and every target column is scaled in place for any distinct labels. |
| `Filling.CompleteRows` | dataprocess/preprocessing.py:83 | `dropna` keeps, in increasing order, exactly the rows with a value in every target column. |
| `Filling.AllRowsComplete` | dataprocess/preprocessing.py:83 | When no row misses a target value, every row is kept. |
| `Filling.DropMissing` | dataprocess/preprocessing.py:82-85 | Missing target columns fail, and the error lists exactly those. Otherwise the output has the input's columns in the input's order. Its rows are the complete rows in their original relative order, each with all its cells and its label. No target cell is missing. |
| `Filling.KeptRowsComplete` | dataprocess/preprocessing.py:83-85 | After the drop, no target cell is missing. |
| `Filling.DropMissingIdempotent` | dataprocess/preprocessing.py:82-85 | Dropping again with the same targets returns the same table. |
| `Filling.DropMissingNothingMissing` | dataprocess/preprocessing.py:82-85 | A table without missing target cells comes back unchanged. |
| `Filling.KeepingAllRows` | dataprocess/preprocessing.py:85 | Keeping every row in order rebuilds the table exactly. |
| `Filling.Filled` | dataprocess/preprocessing.py:90 | `fillna(value=...)` keeps the names and labels. It fills missing cells only in the columns that have a fill value. |
| `Filling.FilledChangesOnlyMissing` | dataprocess/preprocessing.py:90 | A cell that changes was missing, in a column with a fill value, and now holds that value. A column with a present fill value has no missing cell left. |
| `Filling.FilledIdempotent` | dataprocess/preprocessing.py:90 | Filling twice with the same values is filling once. |
| `Filling.MeanFills` | dataprocess/preprocessing.py:87-89 | There is a fill value exactly for each numeric target column, and it is that column's mean. |
| `Filling.FillMean` | dataprocess/preprocessing.py:86-91 | Missing columns fail, and the error lists exactly those. Otherwise the names, order, labels and kinds are unchanged. A cell changes only if it was missing in a numeric target column, and it becomes that column's mean. Every other cell in every column is unchanged. |
| `Filling.FillTargets` | dataprocess/preprocessing.py:79-80 | With no column list the targets are all columns. Otherwise they are the given list. |
| `Filling.FillNaResult` | dataprocess/preprocessing.py:79-93 | A mode other than "drop" and "mean" fails with that mode, whatever the columns. "drop" gives the drop branch and "mean" the mean branch, on the defaulted targets. |
| `Filling.DropAllColumns` | dataprocess/preprocessing.py:79-85 | With no column list, "drop" keeps exactly the rows without any missing cell, and nothing missing remains, whatever the mean function is. |
| `Filling.Frame.FillMissing` | dataprocess/preprocessing.py:90 | In-place `fillna`: afterwards the frame holds exactly the filled table. |
| `Filling.FillNa` | dataprocess/preprocessing.py:67-93 | Returns what `FillNaResult` gives for the frame as it was. In mean mode, on success, the caller's frame itself now holds the result. In every other case (drop, bad mode, missing column) the frame is unchanged. |

## Findings

| source | as written | input that shows it | evidently intended | confidence | as-written member | corrected member |
|---|---|---|---|---|---|---|
| dataprocess/preprocessing.py:61-65 | The scaled values go into a new frame labelled 0..n-1. That frame is then joined by label onto `df`'s passthrough columns. | A frame labelled [1, 0] with one numeric column [1, 2]: each row receives the other row's scaled value. A frame labelled [5, 6], for example after `fill_na(..., "drop")`, gets only missing values. | Every row keeps its own scaled value, i.e. the scaled frame carries `df.index`. | not executed; high | `Scaling.ScaleDataMisalignsShuffledIndex` (on `Scaling.ScaleData`) | `Scaling.ScaleDataIndexed` |

## Left out

- Library arithmetic is not modelled; it becomes parameters instead:
  - MinMaxScaler: the scaler parameter.
  - The column mean and its NaN handling: the `mean` parameter.
  - `pd.get_dummies`: indicator names, category order, and how numeric or
    missing values are treated. It is the `getDummies` parameter, which must
    return a valid table on the same labels.
  - Floating point is not modelled anywhere. The properties about the
    scaled column's minimum and maximum, and "scaling a column already in
    range is the identity", are properties of scikit-learn and are not
    stated.
- dtype detection by `select_dtypes` is replaced by a kind tag on each
  column. Dtype changes that pandas makes on its own are not modelled, for
  example an integer column becoming float when NaN appears.
- `Scaling.ScaleData`: a target is refused as non-numeric by its kind tag.
  scikit-learn decides by trying to convert the values to float, so an
  `Other` column holding only numbers or only missing values would pass
  there. Its other input checks, such as infinite values, are not modelled.
- `Tables.Select`, `Encoding.OneHotEncoder`, `Scaling.ScaleData`,
  `Filling.DropMissing` and `Filling.FillNa` require a column list without
  repeated names. Every column of the table model has a distinct name, so
  the frame with duplicated columns that pandas then builds cannot be
  represented.
- `Tables.LeftJoin`: a right-hand frame with repeated labels makes pandas
  repeat rows. It is excluded by a precondition. As a result,
  `Encoding.OneHotEncoder` and the drop branch of `Filling.DropMissing` /
  `Filling.FillNa` require distinct labels.
- The order of `split_columns` comes from a Python set and is unspecified.
  The model lists the names in order of first occurrence, which is one
  admissible order. No contract depends on it.
- `Encoding.OneHotEncoder`: the output passthrough columns follow that
  order. The contract states only which columns they are.
- The `method` enum (lines 6-8) is modelled as the plain mode string. A
  `method` member compares equal to its string.
- Error messages are modelled only as error kinds. Missing and overlapping
  columns carry the names involved, as the pandas messages do. The names
  that `NonNumericColumns` carries are the model's own addition.
  scikit-learn's conversion error names an unconvertible value, not a column.
- `tests/test_preprocessing.py` reads a CSV file that is not part of this
  model, so its single column-count check cannot be stated in general. The
  general column count is part of `Encoding.OneHotEncoder`'s contract.
