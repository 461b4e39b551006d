# Churn prediction service: column and request rules

A Dafny model of the rule-bearing core of the churn-prediction backend
(`backend/main.py`), a FastAPI service that trains a logistic-regression
pipeline on a churn data set and serves single and batch predictions. The
model covers the parts that are pure rules over column names:

- **Target selection** (`detect_target_column`): an explicit `?target=`
  parameter must name a column; otherwise the first of `Churn`, `Exited`,
  `churn`, `target` present is used; otherwise training fails.
- **Feature selection**: every column except the target and those whose
  lower-cased name ends in `id`, in frame order. Note that this also drops
  ordinary columns such as `Paid` or `Valid`.
- **Column typing** (`detect_column_types`): non-numeric columns and integer
  columns with at most 10 distinct values are categorical, every other
  column is numerical. A column is modelled abstractly as `Col(name,
  isNumeric, isInteger, levels)`, where `levels` are its distinct non-missing
  values as `str()` renders them. These stand for the pandas dtype tests and
  `nunique`.
- **Category values**: the sorted distinct values of each categorical
  column, as offered by the schema.
- **Pipeline assembly** (`create_pipeline`): a one-hot step for the
  categorical columns and then a scaling step for the numerical ones. Each
  step is present only when its column list is non-empty. With no columns
  at all, assembly fails.
- **Schema** (`get_schema`): one field per feature column.
- **Request validation** for `/predict` and `/predict-batch`: the
  missing-column check, the projection onto the feature columns, the numeric
  check, the `.csv` file-name check, and the layout and name of the file
  returned.

Modules: `Wrappers` (option and result types), `Seqs`, `Text` and `Sorting`
(helpers: order-preserving filter, `str.lower`, `str.endswith`, Python string
order and `sorted`), `Columns`, `Target`, `Preprocessing`, `Http` (status
codes and error reasons), `Training`, `SchemaEndpoint`, `Prediction`.

The endpoints read the trained bundle as an `Option<Model>`. `None` is a
service with no trained pipeline. The fitted pipeline's `predict` and
`predict_proba` are an oracle `score` that gives a row's prediction and
probability. The numeric conversion test of `pd.to_numeric` is a predicate
`isNumber`.

Numeric schema fields are sent with type `"number"` (`Field.TypeName`).

## Model

| member | source | states |
|---|---|---|
| Target.DetectTargetColumn | backend/main.py:70-78 | A non-empty parameter is returned when it is a column and is otherwise an error naming it. With no usable parameter, the result is the first candidate present, all earlier candidates being absent, or the no-target error when none is present. Any returned name is a column. |
| Target.FirstPresent | backend/main.py:75-78 | Succeeds exactly when some candidate is a column. The result is a candidate that is a column and no earlier candidate is. On failure the error is the no-target error. |
| Target.NoFallback | backend/main.py:71-74 | A parameter naming a missing column is an error, with no fallback to the candidate names. |
| Target.CandidatePriority | backend/main.py:75-78 | `Churn` wins over the others. `Exited` is chosen only without `Churn`. `churn` is chosen only without both. With no candidate present, the result is the no-target error. |
| Target.EmptyParameterIgnored | backend/main.py:71 | An empty parameter behaves exactly like an absent one, as Python truthiness gives. |
| Columns.FeatureColumns | backend/main.py:176 | A name is a feature iff it is a column, differs from the target and is not id-like. The target is never a feature. Features keep frame order (a subsequence) and are distinct when the columns are. |
| Columns.FeatureCols | backend/main.py:176-177 | The columns handed to type detection are a subsequence of the frame, and their labels are exactly the feature column names. |
| Columns.IdLikeCharacterisation | backend/main.py:176 | A name is id-like iff its last two characters are `i`/`I` followed by `d`/`D`. |
| Columns.DetectColumnTypes | backend/main.py:56-68 | Non-numeric columns and integer columns with at most 10 distinct values go to the categorical list, other numeric columns to the numerical list. Each list equals the frame's names of that kind, in frame order (the partition, order and disjointness facts are the lemmas below). |
| Columns.KindsPartition | backend/main.py:56-68 | The numerical and categorical name lists together are a rearrangement of all column names. |
| Columns.KindsOrdered | backend/main.py:59-67 | Each list is a subsequence of the column names, so it keeps their order. |
| Columns.KindsDisjoint | backend/main.py:59-67 | With distinct column names, no name is both numerical and categorical. |
| Columns.KindOfName | backend/main.py:59-67 | With distinct names, a column's name is in a kind's list exactly when the column has that kind. |
| Columns.CategoricalValues | backend/main.py:179 | The value map has exactly the categorical columns as keys, and every entry is sorted in Python's string order. |
| Columns.CategoricalValuesOfColumns | backend/main.py:179 | With distinct names, each categorical column's entry is the sorted rearrangement of its distinct values. |
| Sorting.Sort | backend/main.py:179 | `sorted` returns a sorted rearrangement of its input. |
| Sorting.SortUnique | backend/main.py:179 | Any sorted rearrangement of the input equals the result of `sorted`. |
| Preprocessing.CreatePipeline | backend/main.py:80-99 | Fails with the no-features message iff both lists are empty. Otherwise it has one step per non-empty list, the one-hot `cat` step first and the scaling `num` step last. No step is empty, the steps read exactly categorical then numerical columns, and remainder `drop` and `LogisticRegression(random_state=42, max_iter=1000)` are fixed. |
| Training.Train | backend/main.py:174-183 | The bundle derived from a read data set, with the split and fit assumed to succeed. Target errors become status 500 with the `ValueError` text. With a target found, derivation fails iff there are no feature columns. On success the stored lists are the feature columns and their numerical and categorical partition. The pipeline reads every feature column once, and the category-value keys are the categorical columns. |
| Training.TrainEndpoint | backend/main.py:167-222 | A missing data file is status 404, and is the only case that gives it. An unreadable file, a target error, a failing split, the no-features error and a failing fit are each status 500 with their own text, in the source's order: the split is reported before the no-features error. Success holds iff the data is read, the bundle is derived and neither split nor fit raise, and the result is then the derived bundle. |
| SchemaEndpoint.GetSchema | backend/main.py:131-165 | Without a trained model the answer is status 400. Otherwise field names are the feature columns in order, and a field is categorical iff its name is a categorical column. A categorical field carries the stored values, or `[]` when none are stored. |
| SchemaEndpoint.SchemaAfterTraining | backend/main.py:149-161 | After training, the fields correspond one-to-one to the feature columns. A field is categorical exactly when its column is classified categorical, and then lists that column's sorted distinct values. |
| Prediction.PredictSingle | backend/main.py:226-264 | Untrained gives 400. Absent feature columns give 400 with exactly the missing set. Success holds iff every feature is a key and every numerical feature value is a number. The data passed on is the feature values in feature order. With every feature present, any failure is status 400 `NotNumeric`. It names a numerical feature whose value fails, and every numerical feature before it in the numerical list passes (the first failure is reported). |
| Prediction.ExtraKeysIgnored | backend/main.py:243-248 | Adding keys that are not feature columns never changes the outcome. |
| Prediction.RecordWithSchemaFieldsAccepted | backend/main.py:236-260 | A record filling every schema field, with numbers in the number fields, is accepted and passes on the fields' values in schema order. |
| Prediction.SchemaRecordAccepted | backend/main.py:236-260 | End to end: after training on distinct column names, a record filling the schema is accepted. |
| Prediction.SetColumn | backend/main.py:313-315 | After assigning a column the label is present, the old labels are unchanged (in place) or gain the new label on the right, and reading any cell back gives the new value under that label and the old cell under every other label. |
| Prediction.WithScores | backend/main.py:313-315 | The output labels are the upload's labels followed by `Prediction` and then `Probability`, each added only when not already present (an existing one is overwritten in place). The row count is kept. Each row reads back its own prediction and probability, scored on that row's feature cells, and every other input cell unchanged. Without existing `Prediction`/`Probability` columns, each row is the input row plus those two values. |
| Prediction.PredictBatch | backend/main.py:270-332 | Untrained gives 400. A name without `.csv` gives 400 whatever the content. An unreadable upload gives 500. Missing feature columns give 400 with the missing set. With the features covered, a numerical feature column that is not numeric gives 400 `NotNumeric`, naming the first failing one. A valid upload with no rows gives 500, as `predict` refuses it. Success holds iff the columns cover the features, every numerical feature column is numeric and there is at least one row. On success the output has the labels, layout and read-back cells of `WithScores`, and the attachment is `predictions_` + file name. |
| Prediction.OneRowBatchAgreesWithSingle | backend/main.py:283-309 | A one-row CSV upload gets the same verdict, and on failure the same status and reason, as `/predict` on that row as a record, and passes on the same feature values. |

## Left out

- Model fitting, `train_test_split`, `predict` / `predict_proba` and the metrics and confusion matrix (lines 180-200, 262-263, 311-312). These are floating-point library calls. Training takes whether the split and the fit raise as oracle inputs, the batch path takes the scores as the oracle `score`, and the single path stops at the validated row.
- Training.Train: assumes that `train_test_split`, fitting and scoring succeed, and does not see the data file. Their failures (status 500, for example a single-class target) and the missing file (status 404) are modelled by `Training.TrainEndpoint`.
- Prediction.PredictBatch: `score` is total, so the only `predict` failure modelled is an upload with no rows. Other library failures on validated rows, which the source turns into status 500, are not modelled.
- Prediction.PredictSingle: `predict` failures after validation (status 500, lines 262-268) are not modelled.
- The `Warning: Extra columns ...` messages printed for keys or CSV columns that are not features (lines 243-246, 293-295) are logging only and are left out.
- CSV decoding and parsing and `to_csv` (lines 281-282, 318). The batch upload arrives as a parsed frame, or as the message of a read or parse failure (status 500).
- Prediction.PredictSingle: returns the record's values as given, not as `pd.to_numeric` converts them. Numeric conversion is only the yes/no predicate `isNumber`.
- Prediction.PredictBatch: the numeric check is the predicate `isNumber` on cells, not pandas' conversion rules.
- Columns.CategoricalValues: the column's `levels` stand for the result of `dropna().unique()` and `str()`. pandas' handling of missing values and mixed types is not modelled.
- Text.Lower folds only the ASCII letters. The only characters that lower-case to `i` or `d` are `I` and `D`, so the id-suffix test is unaffected.
- Global module state and persistence: joblib saving and loading, the startup hook, and the reload from the model file inside `get_schema` (lines 33-39, 101-118, 134-148, 201-209). Endpoints read the bundle as an argument. `None` takes the no-saved-model branch (status 400). The reload branch and its status 500 are not modelled.
- Training.Train: the source assigns its global lists one by one. So a training that fails in `train_test_split` or `create_pipeline` leaves the new column lists next to the old pipeline. A training whose fit fails has already installed the new, unfitted pipeline (it is assigned before `fit`), so a later `/predict` passes the not-trained check and ends in status 500. The model returns a bundle only on success and does not track this partial update.
- A bundle whose feature list is `None` while a pipeline is loaded is not modelled. The source answers it with status 500.
- Error detail texts are reduced to a `Reason` value. The exceptions are the training messages, which carry the exact `ValueError` text. The order of names in the missing-column text depends on Python set iteration.
- An upload with no file name (`file.filename` is `None`) is not modelled.
- The root, `/health` and `/model-info` endpoints, CORS, routing and `StreamingResponse` plumbing are framework glue.
- `backend/test_api.py` is an HTTP client script that prints responses and asserts nothing.
- The browser dashboard (form defaults, CSV preview, confusion-matrix heatmap, notifications) is not part of this model.
