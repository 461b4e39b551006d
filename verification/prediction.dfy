/** Request validation of `/predict` and `/predict-batch`: the required-column
    check, the projection onto the feature columns, the numeric check, the
    file-name check and the layout of the returned file. The fitted
    pipeline is an oracle `score` giving a row's prediction and probability. */
module Prediction {

  import opened Wrappers
  import opened Seqs
  import opened Text
  import opened Columns
  import opened Http
  import opened Training
  import SchemaEndpoint

  const CsvSuffix: string := ".csv"
  const AttachmentPrefix: string := "predictions_"
  const PredictionColumn: string := "Prediction"
  const ProbabilityColumn: string := "Probability"

  /** The feature columns every request must carry. */
  function Required(m: Model): set<string>
  {
    set f | f in m.featureColumns
  }

  // ---------------------------------------------------------------------
  // Single record

  /** The numeric check of one column of a record: only feature columns are
      looked at, and their values must convert to numbers. */
  function RecordNumericTest<V>(m: Model, input: map<string, V>, isNumber: V -> bool): string -> bool
  {
    col => col in m.featureColumns ==> col in input && isNumber(input[col])
  }

  /** `df_input[feature_columns]`: the record's values in feature order. */
  function Row<V>(features: seq<string>, input: map<string, V>): seq<V>
    requires forall f :: f in features ==> f in input
  {
    seq(|features|, i requires 0 <= i < |features| => input[features[i]])
  }

  /** `/predict` on the JSON object `input`; on success, the record's values
      in feature-column order, as passed to the pipeline. */
  function PredictSingle<V>(loaded: Option<Model>, input: map<string, V>, isNumber: V -> bool): (r: Result<seq<V>, HttpError>)
    ensures loaded.None? ==> r == Err(HttpError(BadRequest, NotTrained))
    ensures loaded.Some? && Required(loaded.value) - input.Keys != {} ==>
      r == Err(HttpError(BadRequest, MissingColumns(Required(loaded.value) - input.Keys)))
    ensures r.Ok? ==>
      && loaded.Some?
      && |r.value| == |loaded.value.featureColumns|
      && forall i :: 0 <= i < |r.value| ==>
           loaded.value.featureColumns[i] in input && r.value[i] == input[loaded.value.featureColumns[i]]
    ensures r.Ok? <==>
      && loaded.Some?
      && (forall f :: f in loaded.value.featureColumns ==> f in input)
      && (forall col :: col in loaded.value.numericalColumns && col in loaded.value.featureColumns ==>
            isNumber(input[col]))
    ensures r.Err? && r.error.reason.NotNumeric? ==>
      && loaded.Some?
      && r.error.status == BadRequest
      && r.error.reason.column in loaded.value.numericalColumns
      && r.error.reason.column in loaded.value.featureColumns
      && r.error.reason.column in input
      && !isNumber(input[r.error.reason.column])
    ensures r.Err? && r.error.reason.NotNumeric? ==>
      forall j :: 0 <= j < IndexOf(loaded.value.numericalColumns, r.error.reason.column) ==>
        var col := loaded.value.numericalColumns[j];
        col in loaded.value.featureColumns ==> col in input && isNumber(input[col])
    ensures loaded.Some? && (forall f :: f in loaded.value.featureColumns ==> f in input) && r.Err? ==>
      r.error.status == BadRequest && r.error.reason.NotNumeric?
  {
    if loaded.None? then Err(HttpError(BadRequest, NotTrained))
    else
      var m := loaded.value;
      var missing := Required(m) - input.Keys;
      if missing != {} then Err(HttpError(BadRequest, MissingColumns(missing)))
      else
        assert forall f :: f in m.featureColumns ==> f in input by {
          forall f | f in m.featureColumns ensures f in input {
          assert f in Required(m);
          assert f !in Required(m) - input.Keys;
        }
        }
        match FirstFailing(m.numericalColumns, RecordNumericTest(m, input, isNumber))
        case Some(col) => Err(HttpError(BadRequest, NotNumeric(col)))
        case None => Ok(Row(m.featureColumns, input))
  }

  /** Keys that are not feature columns change nothing: they neither cause a
      failure nor reach the pipeline. */
  lemma ExtraKeysIgnored<V>(m: Model, input: map<string, V>, extra: map<string, V>, isNumber: V -> bool)
    requires forall k :: k in extra ==> k !in m.featureColumns
    ensures PredictSingle(Some(m), input + extra, isNumber) == PredictSingle(Some(m), input, isNumber)
  {
    var all := input + extra;
    assert Required(m) - all.Keys == Required(m) - input.Keys;
    if Required(m) - input.Keys == {} {
      assert forall f :: f in m.featureColumns ==> f in input by {
        forall f | f in m.featureColumns ensures f in input {
          assert f in Required(m);
          assert f !in Required(m) - input.Keys;
        }
      }
      FirstFailingAgree(m.numericalColumns, RecordNumericTest(m, all, isNumber), RecordNumericTest(m, input, isNumber));
      assert Row(m.featureColumns, all) == Row(m.featureColumns, input);
    }
  }

  /** A record with every field of a model's schema, and numbers in its
      number fields, passes validation when no column is both numerical and
      categorical; the pipeline sees the fields' values in schema order. */
  lemma RecordWithSchemaFieldsAccepted<V>(m: Model, input: map<string, V>, isNumber: V -> bool)
    requires forall x :: x in m.numericalColumns ==> x !in m.categoricalColumns
    requires forall f :: f in SchemaEndpoint.GetSchema(Some(m)).value.fields ==>
      f.name in input && (f.NumberField? ==> isNumber(input[f.name]))
    ensures var fields := SchemaEndpoint.GetSchema(Some(m)).value.fields;
            PredictSingle(Some(m), input, isNumber) ==
              Ok(seq(|fields|, i requires 0 <= i < |fields| => input[fields[i].name]))
  {
    var fields := SchemaEndpoint.GetSchema(Some(m)).value.fields;
    assert Map((f: SchemaEndpoint.Field) => f.name, fields) == m.featureColumns;
    assert forall i :: 0 <= i < |fields| ==> fields[i].name == m.featureColumns[i];
    forall f | f in m.featureColumns ensures f in input {
      var i :| 0 <= i < |m.featureColumns| && m.featureColumns[i] == f;
      assert fields[i] in fields;
    }
    assert Required(m) - input.Keys == {};
    forall col | col in m.numericalColumns ensures RecordNumericTest(m, input, isNumber)(col) {
      if col in m.featureColumns {
        var i :| 0 <= i < |m.featureColumns| && m.featureColumns[i] == col;
        assert fields[i] in fields && fields[i].name == col;
      }
    }
    assert FirstFailing(m.numericalColumns, RecordNumericTest(m, input, isNumber)).None?;
    assert Row(m.featureColumns, input) == seq(|fields|, i requires 0 <= i < |fields| => input[fields[i].name]);
  }

  /** End to end: after training on a frame with distinct column names, a
      record that fills in every schema field, with numbers in the number
      fields, is accepted. */
  lemma SchemaRecordAccepted<V>(data: seq<Column>, target: Option<string>, input: map<string, V>, isNumber: V -> bool)
    requires Distinct(Names(data))
    ensures Train(data, target).Ok? ==>
            (forall f :: f in SchemaEndpoint.GetSchema(Some(Train(data, target).value)).value.fields ==>
               f.name in input && (f.NumberField? ==> isNumber(input[f.name]))) ==>
            PredictSingle(Some(Train(data, target).value), input, isNumber).Ok?
  {
    if Train(data, target).Ok? {
      var m := Train(data, target).value;
      var cols := FeatureCols(data, m.targetColumn);
      KindsDisjoint(cols);
      if forall f :: f in SchemaEndpoint.GetSchema(Some(m)).value.fields ==>
           f.name in input && (f.NumberField? ==> isNumber(input[f.name])) {
        RecordWithSchemaFieldsAccepted(m, input, isNumber);
      }
    }
  }

  // ---------------------------------------------------------------------
  // Batch

  /** A parsed CSV file: labelled columns and rows of cells. */
  datatype Table<V> = Table(columns: seq<string>, rows: seq<seq<V>>)

  /** pandas frames have distinct column labels (`read_csv` renames repeated
      header names) and every row has one cell per column. */
  predicate WellFormed<V>(t: Table<V>)
  {
    Distinct(t.columns) && forall i :: 0 <= i < |t.rows| ==> |t.rows[i]| == |t.columns|
  }

  type Frame<V> = t: Table<V> | WellFormed(t) witness Table([], [])

  datatype BatchResponse<V> = BatchResponse(table: Frame<V>, attachment: string)

  function Cell<V>(t: Frame<V>, i: nat, col: string): V
    requires i < |t.rows| && col in t.columns
  {
    t.rows[i][IndexOf(t.columns, col)]
  }

  /** `df[feature_columns]` for one row. */
  function Project<V>(t: Frame<V>, i: nat, features: seq<string>): seq<V>
    requires i < |t.rows| && forall f :: f in features ==> f in t.columns
  {
    seq(|features|, j requires 0 <= j < |features| => Cell(t, i, features[j]))
  }

  /** `pd.to_numeric(df[col], errors='raise')` succeeds. */
  predicate NumericColumn<V>(t: Frame<V>, col: string, isNumber: V -> bool)
    requires col in t.columns
  {
    forall i :: 0 <= i < |t.rows| ==> isNumber(Cell(t, i, col))
  }

  /** The numeric check of one column of a frame: only feature columns are
      looked at, and all their cells must convert to numbers. */
  function FrameNumericTest<V>(m: Model, t: Frame<V>, isNumber: V -> bool): string -> bool
  {
    col => col in m.featureColumns ==> col in t.columns && NumericColumn(t, col, isNumber)
  }

  /** `df[name] = values`: an existing column is overwritten in place, a new
      one is appended on the right. Reading the frame back gives `values`
      under `name` and the old cells under every other column. */
  function SetColumn<V>(t: Frame<V>, name: string, values: seq<V>): (r: Frame<V>)
    requires |values| == |t.rows|
    ensures |r.rows| == |t.rows|
    ensures name in r.columns
    ensures name in t.columns ==> r.columns == t.columns
    ensures name !in t.columns ==> r.columns == t.columns + [name]
    ensures forall i, c :: 0 <= i < |t.rows| && c in r.columns ==>
      Cell(r, i, c) == if c == name then values[i] else Cell(t, i, c)
  {
    if name in t.columns then
      var k := IndexOf(t.columns, name);
      var rows := seq(|t.rows|, i requires 0 <= i < |t.rows| => t.rows[i][k := values[i]]);
      var r: Frame<V> := Table(t.columns, rows);
      forall i, c | 0 <= i < |t.rows| && c in r.columns
        ensures Cell(r, i, c) == if c == name then values[i] else Cell(t, i, c)
      {
        if c != name {
          assert t.columns[IndexOf(t.columns, c)] == c;
        }
      }
      r
    else
      var rows := seq(|t.rows|, i requires 0 <= i < |t.rows| => t.rows[i] + [values[i]]);
      var r: Frame<V> := Table(t.columns + [name], rows);
      forall i, c | 0 <= i < |t.rows| && c in r.columns
        ensures Cell(r, i, c) == if c == name then values[i] else Cell(t, i, c)
      {
        if c == name {
          assert r.columns[..|t.columns|] == t.columns;
          IndexOfUnique(r.columns, name, |t.columns|);
        } else {
          var j := IndexOf(t.columns, c);
          assert r.columns[..j] == t.columns[..j];
          IndexOfUnique(r.columns, c, j);
        }
      }
      r
  }

  /** `/predict-batch` on an upload named `filename` whose content parses to
      `upload` (or fails to be read or parsed with the given message). The
      fitted pipeline refuses a frame with no rows. */
  function PredictBatch<V>(loaded: Option<Model>, filename: string, upload: Result<Frame<V>, string>,
                           isNumber: V -> bool, score: seq<V> -> (V, V)): (r: Result<BatchResponse<V>, HttpError>)
    ensures loaded.None? ==> r == Err(HttpError(BadRequest, NotTrained))
    ensures loaded.Some? && !EndsWith(filename, CsvSuffix) ==> r == Err(HttpError(BadRequest, NotCsv))
    ensures loaded.Some? && EndsWith(filename, CsvSuffix) && upload.Err? ==>
      r == Err(HttpError(ServerError, BatchError(upload.error)))
    ensures loaded.Some? && EndsWith(filename, CsvSuffix) && upload.Ok? &&
            Required(loaded.value) - (set c | c in upload.value.columns) != {} ==>
      r == Err(HttpError(BadRequest, MissingColumns(Required(loaded.value) - (set c | c in upload.value.columns))))
    ensures r.Err? && r.error.reason.NotNumeric? ==>
      && loaded.Some? && upload.Ok?
      && r.error.status == BadRequest
      && r.error.reason.column in loaded.value.numericalColumns
      && r.error.reason.column in loaded.value.featureColumns
      && r.error.reason.column in upload.value.columns
      && !NumericColumn(upload.value, r.error.reason.column, isNumber)
    ensures r.Err? && r.error.reason.NotNumeric? ==>
      forall j :: 0 <= j < IndexOf(loaded.value.numericalColumns, r.error.reason.column) ==>
        var col := loaded.value.numericalColumns[j];
        col in loaded.value.featureColumns ==> col in upload.value.columns && NumericColumn(upload.value, col, isNumber)
    ensures loaded.Some? && EndsWith(filename, CsvSuffix) && upload.Ok?
            && (forall f :: f in loaded.value.featureColumns ==> f in upload.value.columns)
            && !(forall col :: col in loaded.value.numericalColumns && col in loaded.value.featureColumns ==>
                   NumericColumn(upload.value, col, isNumber)) ==>
      r.Err? && r.error.status == BadRequest && r.error.reason.NotNumeric?
    ensures r == Err(HttpError(ServerError, NoRows)) <==>
      && loaded.Some?
      && EndsWith(filename, CsvSuffix)
      && upload.Ok?
      && (forall f :: f in loaded.value.featureColumns ==> f in upload.value.columns)
      && (forall col :: col in loaded.value.numericalColumns && col in loaded.value.featureColumns ==>
            NumericColumn(upload.value, col, isNumber))
      && |upload.value.rows| == 0
    ensures r.Ok? <==>
      && loaded.Some?
      && EndsWith(filename, CsvSuffix)
      && upload.Ok?
      && (forall f :: f in loaded.value.featureColumns ==> f in upload.value.columns)
      && (forall col :: col in loaded.value.numericalColumns && col in loaded.value.featureColumns ==>
            NumericColumn(upload.value, col, isNumber))
      && |upload.value.rows| > 0
    ensures r.Ok? ==> r.value.attachment == AttachmentPrefix + filename
    ensures r.Ok? ==>
      && |r.value.table.rows| == |upload.value.rows|
      && |upload.value.columns| <= |r.value.table.columns|
      && r.value.table.columns[..|upload.value.columns|] == upload.value.columns
      && PredictionColumn in r.value.table.columns
      && ProbabilityColumn in r.value.table.columns
      && r.value.table.columns == upload.value.columns
           + (if PredictionColumn in upload.value.columns then [] else [PredictionColumn])
           + (if ProbabilityColumn in upload.value.columns then [] else [ProbabilityColumn])
    ensures r.Ok? ==>
      forall i :: 0 <= i < |upload.value.rows| ==>
        var s := score(Project(upload.value, i, loaded.value.featureColumns));
        && Cell(r.value.table, i, PredictionColumn) == s.0
        && Cell(r.value.table, i, ProbabilityColumn) == s.1
        && forall c :: c in upload.value.columns && c != PredictionColumn && c != ProbabilityColumn ==>
             Cell(r.value.table, i, c) == Cell(upload.value, i, c)
    ensures r.Ok? && PredictionColumn !in upload.value.columns && ProbabilityColumn !in upload.value.columns ==>
      && r.value.table.columns == upload.value.columns + [PredictionColumn, ProbabilityColumn]
      && forall i :: 0 <= i < |upload.value.rows| ==>
           var s := score(Project(upload.value, i, loaded.value.featureColumns));
           r.value.table.rows[i] == upload.value.rows[i] + [s.0, s.1]
  {
    if loaded.None? then Err(HttpError(BadRequest, NotTrained))
    else if !EndsWith(filename, CsvSuffix) then Err(HttpError(BadRequest, NotCsv))
    else match upload
      case Err(message) => Err(HttpError(ServerError, BatchError(message)))
      case Ok(t) =>
        var m := loaded.value;
        var missing := Required(m) - (set c | c in t.columns);
        if missing != {} then Err(HttpError(BadRequest, MissingColumns(missing)))
        else
          assert forall f :: f in m.featureColumns ==> f in t.columns by {
            forall f | f in m.featureColumns ensures f in t.columns { assert f in Required(m); assert f !in missing; }
          }
          match FirstFailing(m.numericalColumns, FrameNumericTest(m, t, isNumber))
          case Some(col) => Err(HttpError(BadRequest, NotNumeric(col)))
          case None =>
            if |t.rows| == 0 then Err(HttpError(ServerError, NoRows))
            else
              Ok(BatchResponse(WithScores(t, m.featureColumns, score), AttachmentPrefix + filename))
  }

  /** `df_out = df.copy()` followed by the assignment of the `Prediction` and
      then the `Probability` column, each row scored on its feature cells. */
  function WithScores<V>(t: Frame<V>, features: seq<string>, score: seq<V> -> (V, V)): (out: Frame<V>)
    requires forall f :: f in features ==> f in t.columns
    ensures |out.rows| == |t.rows|
    ensures |t.columns| <= |out.columns| && out.columns[..|t.columns|] == t.columns
    ensures PredictionColumn in out.columns && ProbabilityColumn in out.columns
    ensures out.columns == t.columns
      + (if PredictionColumn in t.columns then [] else [PredictionColumn])
      + (if ProbabilityColumn in t.columns then [] else [ProbabilityColumn])
    ensures forall i :: 0 <= i < |t.rows| ==>
      var s := score(Project(t, i, features));
      && Cell(out, i, PredictionColumn) == s.0
      && Cell(out, i, ProbabilityColumn) == s.1
      && forall c :: c in t.columns && c != PredictionColumn && c != ProbabilityColumn ==>
           Cell(out, i, c) == Cell(t, i, c)
    ensures PredictionColumn !in t.columns && ProbabilityColumn !in t.columns ==>
      && out.columns == t.columns + [PredictionColumn, ProbabilityColumn]
      && forall i :: 0 <= i < |t.rows| ==>
           var s := score(Project(t, i, features));
           out.rows[i] == t.rows[i] + [s.0, s.1]
  {
    var scores := seq(|t.rows|, i requires 0 <= i < |t.rows| => score(Project(t, i, features)));
    var predictions := seq(|t.rows|, i requires 0 <= i < |t.rows| => scores[i].0);
    var probabilities := seq(|t.rows|, i requires 0 <= i < |t.rows| => scores[i].1);
    SetBothReadBack(t, predictions, probabilities);
    SetBothAppends(t, predictions, probabilities);
    SetColumn(SetColumn(t, PredictionColumn, predictions), ProbabilityColumn, probabilities)
  }

  /** Setting `Prediction` and then `Probability` keeps the old labels as a
      prefix and reads back the new values and the old cells. */
  lemma SetBothReadBack<V>(t: Frame<V>, predictions: seq<V>, probabilities: seq<V>)
    requires |predictions| == |t.rows| && |probabilities| == |t.rows|
    ensures var out := SetColumn(SetColumn(t, PredictionColumn, predictions), ProbabilityColumn, probabilities);
      && |t.columns| <= |out.columns| && out.columns[..|t.columns|] == t.columns
      && PredictionColumn in out.columns && ProbabilityColumn in out.columns
      && forall i :: 0 <= i < |t.rows| ==>
           && Cell(out, i, PredictionColumn) == predictions[i]
           && Cell(out, i, ProbabilityColumn) == probabilities[i]
           && forall c :: c in t.columns && c != PredictionColumn && c != ProbabilityColumn ==>
                Cell(out, i, c) == Cell(t, i, c)
  {
    var withPrediction := SetColumn(t, PredictionColumn, predictions);
    var out := SetColumn(withPrediction, ProbabilityColumn, probabilities);
    assert withPrediction.columns[..|t.columns|] == t.columns;
    assert out.columns[..|withPrediction.columns|] == withPrediction.columns;
    assert out.columns[..|t.columns|] == t.columns;
    forall c | c in t.columns
      ensures c in withPrediction.columns && c in out.columns
    {
      var k :| 0 <= k < |t.columns| && t.columns[k] == c;
      assert withPrediction.columns[k] == c;
      assert out.columns[k] == c;
    }
  }

  /** Without either label present, both columns are appended in that order. */
  lemma SetBothAppends<V>(t: Frame<V>, predictions: seq<V>, probabilities: seq<V>)
    requires |predictions| == |t.rows| && |probabilities| == |t.rows|
    ensures var out := SetColumn(SetColumn(t, PredictionColumn, predictions), ProbabilityColumn, probabilities);
      PredictionColumn !in t.columns && ProbabilityColumn !in t.columns ==>
        && out.columns == t.columns + [PredictionColumn, ProbabilityColumn]
        && forall i :: 0 <= i < |t.rows| ==> out.rows[i] == t.rows[i] + [predictions[i], probabilities[i]]
  {
    var out := SetColumn(SetColumn(t, PredictionColumn, predictions), ProbabilityColumn, probabilities);
    if PredictionColumn !in t.columns && ProbabilityColumn !in t.columns {
      SetBothReadBack(t, predictions, probabilities);
      assert out.columns == t.columns + [PredictionColumn, ProbabilityColumn];
      forall i | 0 <= i < |t.rows|
        ensures out.rows[i] == t.rows[i] + [predictions[i], probabilities[i]]
      {
        RowFromCells(t, out, i, [predictions[i], probabilities[i]]);
      }
    }
  }

  /** A row of a frame with two labels appended is fixed by its cells. */
  lemma RowFromCells<V>(t: Frame<V>, out: Frame<V>, i: nat, extra: seq<V>)
    requires i < |t.rows| && i < |out.rows| && |extra| == 2
    requires out.columns == t.columns + [PredictionColumn, ProbabilityColumn]
    requires Cell(out, i, PredictionColumn) == extra[0] && Cell(out, i, ProbabilityColumn) == extra[1]
    requires forall c :: c in t.columns ==> Cell(out, i, c) == Cell(t, i, c)
    ensures out.rows[i] == t.rows[i] + extra
  {
    forall k | 0 <= k < |out.columns|
      ensures out.rows[i][k] == (t.rows[i] + extra)[k]
    {
      CellAt(out, i, k);
      if k < |t.columns| {
        CellAt(t, i, k);
      }
    }
  }

  /** The cell under the `k`-th label is the row's `k`-th entry. */
  lemma CellAt<V>(t: Frame<V>, i: nat, k: nat)
    requires i < |t.rows| && k < |t.columns|
    ensures Cell(t, i, t.columns[k]) == t.rows[i][k]
  {
    assert t.columns[k] !in t.columns[..k];
    IndexOfUnique(t.columns, t.columns[k], k);
  }

  /** One row of a frame as a record: each column label mapped to its cell. */
  function RowRecord<V>(t: Frame<V>, i: nat): (record: map<string, V>)
    requires i < |t.rows|
    ensures record.Keys == set c | c in t.columns
  {
    map c | c in t.columns :: Cell(t, i, c)
  }

  /** A one-row CSV upload is judged as `/predict` judges that row as a
      record: the same verdict, the same error, and the same values passed
      on to the pipeline. */
  lemma OneRowBatchAgreesWithSingle<V>(m: Model, filename: string, t: Frame<V>,
                                       isNumber: V -> bool, score: seq<V> -> (V, V))
    requires EndsWith(filename, CsvSuffix)
    requires |t.rows| == 1
    ensures var batch := PredictBatch(Some(m), filename, Ok(t), isNumber, score);
            var single := PredictSingle(Some(m), RowRecord(t, 0), isNumber);
            && (batch.Ok? <==> single.Ok?)
            && (batch.Err? ==> single.Err? && batch.error == single.error)
            && (single.Ok? ==> single.value == Project(t, 0, m.featureColumns))
  {
    var record := RowRecord(t, 0);
    assert Required(m) - record.Keys == Required(m) - (set c | c in t.columns);
    if Required(m) - record.Keys == {} {
      assert forall f :: f in m.featureColumns ==> f in t.columns by {
        forall f | f in m.featureColumns ensures f in t.columns {
          assert f in Required(m);
          assert f !in Required(m) - record.Keys;
        }
      }
      forall col | col in m.numericalColumns
        ensures FrameNumericTest(m, t, isNumber)(col) == RecordNumericTest(m, record, isNumber)(col)
      {
        if col in m.featureColumns {
          assert NumericColumn(t, col, isNumber) == isNumber(Cell(t, 0, col));
        }
      }
      FirstFailingAgree(m.numericalColumns, FrameNumericTest(m, t, isNumber), RecordNumericTest(m, record, isNumber));
      assert Row(m.featureColumns, record) == Project(t, 0, m.featureColumns);
    }
  }
}
