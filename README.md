# Target and identifier resolution for the AmEx default-prediction data

This project models, in Dafny, the decision logic of the repository's two
data-preparation scripts and proves properties of it.

- `src/data/process_train_data.py` first decides where the label of the
  training table lives. It can be an external labels file found in the data
  directory, a column of the table with a conventional name, or a column
  found by a conservative binary-column heuristic. Otherwise there is no
  label. The script then decides which column is the record identifier. It
  splits the table into features, labels and identifiers. When the labels
  come from a file, they are aligned to the table by identifier or, failing
  that, by position.
- `src/data/process_labels.py` finds the labels file and chooses its target
  column. It warns when the labels are not binary and saves them as a
  series named `target`.

Files:

- `basics.dfy`: `Option`, `Result`, and the "first listed name that is
  present" search. All the file probes and the name-priority lists use it.
- `frame.dfy`: the table. A table is a sequence of named columns of cells
  plus a row count, stored column by column. It also holds `df[name]`,
  `df.drop(columns=…)`, `unique()` and `value_counts()`.
- `train_data.dfy`: `check_for_labels_file`, `identify_target_column` and
  `separate_features_labels`.
- `labels.dfy`: `find_labels_file` and the column choice and binary check
  of `process_labels`.

The loops of the source are methods with loop invariants. Each is proved
equal to a specification function: `IdentifyTargetColumn` equals
`Resolve`, `SelectTargetColumn` equals `TargetColumnOf`, and the probing
loops equal `FirstPresent`. The lemmas then state the priority,
exclusion, uniqueness and alignment properties of those functions. Every
operation is a function of its inputs, so running resolution and split
twice on the same inputs gives the same result by construction.

Some behaviours of the code that a reader might not expect, all of
which the model keeps:

- A label taken from the labels file by position is not checked against
  the table's row count. Its length is the labels table's row count.
  `SplitAligned` therefore proves the row-count alignment of the three
  outputs only under that equality. For every other path it proves
  alignment unconditionally.
- The positional fallback emits no warning of its own.
- Joining by identifier raises an error when the labels table repeats an
  identifier, unless its identifier column already equals the table's, row
  for row. pandas' `reindex` behaves this way. Asking for a label column
  from a labels table that has only the identifier column also raises an
  error. Both errors are results of `ExternalLabels` and `Separate`.
- An inline target whose name is the empty string is treated as "no
  target" (`process_train_data.py:119` tests its truth value). Only the heuristic can produce
  such a name.
- In `process_labels`, when none of target, default and label is present
  and `customer_ID` is present among two or more columns, index 1 is taken,
  whatever it holds. So when `customer_ID` is the second column, it becomes
  the target (`IdentifierCanBecomeTarget`).

The heuristic's share test `0.01 <= min/len(df) <= 0.5` is stated exactly
as `100 * m >= n && 2 * m <= n`. Rounding a quotient to a double is
monotone, and `0.5` is exact, so the two agree unless the row count
exceeds about 10^16.

## Model

| member | source | states |
|---|---|---|
| `Basics.FirstPresent` | src/data/process_train_data.py:39-44 | the answer is None exactly when no candidate is present; otherwise it is present and is the candidate at the first present position |
| `Basics.FirstMatch` | src/data/process_train_data.py:39-44 | the early-return probing loop returns the first present candidate, or None |
| `TrainData.CheckForLabelsFile` | src/data/process_train_data.py:29-44 | the labels file is the first of the five fixed names that exists, else None |
| `Frame.ColumnNamed` | src/data/process_train_data.py:121 | the column returned is a column of the table and carries the requested name |
| `Frame.Get` | src/data/process_train_data.py:121 | `df[name]` has one cell per row and is the cells of the one column with that name |
| `Frame.DropCols` | src/data/process_train_data.py:125 | the kept columns are exactly those whose names are not excluded, in their original order; distinct names stay distinct |
| `Frame.Drop` | src/data/process_train_data.py:125 | `df.drop` keeps the row count, every non-excluded column unchanged and in order, and none of the excluded names |
| `TrainData.MinCount` | src/data/process_train_data.py:73-75 | the result is at most the count of every key and equals the count of some key, so it is `min(value_counts)` |
| `TrainData.IsCandidate` | src/data/process_train_data.py:66-77 | a column that passes the heuristic's test is not skipped and has exactly two distinct values, all in {0, 1, -1} |
| `TrainData.CandidateMeaning` | src/data/process_train_data.py:70-77 | a column with the two distinct values a and b passes exactly when it is not skipped, a and b are codes, and the smaller of their counts is between 1% and 50% of the rows |
| `TrainData.Candidates` | src/data/process_train_data.py:65-77 | `binary_cols` holds at most one name per column: every name is that of a passing column, and every passing column's name is there |
| `TrainData.CandidatesInColumnOrder` | src/data/process_train_data.py:65-77 | any two entries of `binary_cols` come from two passing columns in the same order as the entries, so the list follows column order |
| `TrainData.CandidatesDistinct` | src/data/process_train_data.py:65-77 | in a table with distinct column names, `binary_cols` holds each passing column's name exactly once |
| `TrainData.MinorityOfTwo` | src/data/process_train_data.py:73-75 | for a column with exactly two distinct values, `min(value_counts)` is the smaller of their two counts |
| `TrainData.TargetNamesNotSkipped` | src/data/process_train_data.py:56-68 | none of target, default, label, y has a feature-group prefix or is an identifier name |
| `TrainData.Resolve` | src/data/process_train_data.py:46-85 | an inline target is a column of the table that has no feature-group prefix (D_, S_, P_, B_, R_) and is not customer_ID, id or customer_id |
| `TrainData.IdentifyTargetColumn` | src/data/process_train_data.py:46-85 | the loop over columns, with its early returns and appends, returns exactly the priority-chain answer |
| `TrainData.LabelsFileWins` | src/data/process_train_data.py:49-53 | a labels file found in the directory is the answer whatever columns the table has, a `target` column included |
| `TrainData.ConventionalNamePriority` | src/data/process_train_data.py:55-60 | without a labels file, the first of target, default, label, y present is the target, before any heuristic |
| `TrainData.NoCandidates` | src/data/process_train_data.py:65-77 | with no passing column, `binary_cols` is empty |
| `TrainData.OnlyCandidate` | src/data/process_train_data.py:65-80 | with exactly one passing column, `binary_cols` is that column's name alone |
| `TrainData.SingleCandidateChosen` | src/data/process_train_data.py:79-80 | the heuristic answers with the single surviving column |
| `TrainData.TwoCandidates` | src/data/process_train_data.py:65-79 | two passing columns of a table with distinct names put at least two names in `binary_cols` |
| `TrainData.SeveralCandidatesAbsent` | src/data/process_train_data.py:79-85 | with two or more surviving columns the target is absent: no guess is made |
| `TrainData.NoCandidateAbsent` | src/data/process_train_data.py:82-85 | with no surviving column the target is absent |
| `TrainData.IdColumn` | src/data/process_train_data.py:90-96 | the identifier column is the first of customer_ID, id, customer_id present, or none |
| `TrainData.KeyIndex` | src/data/process_train_data.py:109 | the position found holds the key and no earlier position does; no position is found only when the key does not occur |
| `TrainData.ValueFor` | src/data/process_train_data.py:106-109 | the value paired with the first occurrence of the key, and Missing when the key does not occur |
| `TrainData.ExternalLabels` | src/data/process_train_data.py:99-118 | labels joined by identifier have the table's row count; labels taken by position have the labels table's row count |
| `TrainData.Separate` | src/data/process_train_data.py:87-150 | only an external label source can fail; the features keep the row count and every column that is neither the identifier nor the inline target, in order; the identifier column is never a feature and is returned as the ids; the label has the table's row count, except on the positional path |
| `TrainData.InlineSplit` | src/data/process_train_data.py:119-127 | with an inline target the label is that column; the features are exactly the other non-identifier columns; all have the table's row count |
| `TrainData.NoTargetSplit` | src/data/process_train_data.py:128-137 | with no target there is no label, and only the identifier column leaves the features |
| `TrainData.ExternalKeepsInlineColumns` | src/data/process_train_data.py:139-148 | with external labels only the identifier leaves the features, so a `target` column stays a feature; the label is named `target` |
| `TrainData.JoinByIdLabels` | src/data/process_train_data.py:103-110 | joined by identifier, row i's label is the labels-table value for the table's identifier at row i, or Missing when that identifier is absent; a repeated identifier is an error unless the two identifier columns are equal; a label-less labels table is an error |
| `TrainData.PositionalLabels` | src/data/process_train_data.py:111-118 | without a shared identifier the label is the labels table's first column, whatever its name; a table without columns is an error |
| `TrainData.SplitAligned` | src/data/process_train_data.py:87-150 | features, labels and ids all have the table's row count, given that a positionally taken label comes from a table of the same height |
| `TrainData.ResolveThenSplit` | src/data/process_train_data.py:119-127 | a resolved inline target becomes the label and leaves the features; an empty column name is left in the features, and there is no label |
| `Labels.FindLabelsFile` | src/data/process_labels.py:19-32 | the labels file is the first of the four fixed paths that exists, else None |
| `Labels.TargetColumnOf` | src/data/process_labels.py:64-76 | a chosen column is a column of the labels table; no column is chosen exactly when customer_ID is the only column; the index error happens exactly when there are no columns |
| `Labels.SelectTargetColumn` | src/data/process_labels.py:64-76 | the loop with `break` and the fallback choose exactly the specified column |
| `Labels.ConventionalLabelName` | src/data/process_labels.py:64-69 | the first of target, default, label present is the target |
| `Labels.FallbackColumn` | src/data/process_labels.py:71-76 | without a conventional name: index 1 when customer_ID is present among two or more columns, index 0 when it is absent |
| `Labels.IdentifierCanBecomeTarget` | src/data/process_labels.py:72-74 | with columns [flag, customer_ID] the identifier itself is chosen as the target |
| `Labels.IsBinary` | src/data/process_labels.py:93 | the labels are binary exactly when every label is 0 or 1 |
| `Labels.ProcessLabels` | src/data/process_labels.py:36-101 | the run fails only for a missing file, a table whose only column is customer_ID, or a table without columns; otherwise it saves the raw chosen column under the name `target`, with one entry per row, and warns exactly when a label is not 0 or 1 |

## Left out

- `src/data/download_kaggle_data.py` is not part of this model. It handles credential files, file permissions, the Kaggle network API and zip extraction.
- Reading and writing parquet and CSV files (`load_train_data`, `save_processed_data`, label loading and saving) are left out because they are file formats and file-system I/O. The table read from the labels file is an input.
- File-existence probes (`Path.exists`) are left out because they touch the file system. The names or paths that exist are an input set.
- `print_data_summary`, the console messages, memory-usage figures and file sizes are left out because they are output only and use float division.
- `main`, the `__main__` entry points and the mapping of exceptions to exit codes are left out because they are process entry points.
- Cells hold integers, text or Missing. Fractional floats are not modelled. Every one of them fails the {0, 1, -1} test, as text does. Booleans are not modelled either; Python treats True and False as 1 and 0, and the model would need them written as `Num(1)` and `Num(0)`. pandas dtypes are not modelled.
- ProcessLabels: on labels that mix text and numbers, `sorted(y.unique())` in `process_labels` raises a TypeError before anything is saved. The model does not capture that failure: it saves such labels with the non-binary warning.
- Tables are assumed to have distinct column names, which the parquet and CSV readers guarantee.
