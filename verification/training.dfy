/** `train_model`: choose the target, select and classify the features,
    collect the category values and assemble the pipeline. `Train` derives
    the bundle the endpoint persists and the other endpoints read;
    `TrainEndpoint` adds the data file and the numerical library steps
    (split, fit, metrics), whose outcomes are oracles. */
module Training {

  import opened Wrappers
  import opened Seqs
  import opened Columns
  import opened Target
  import opened Preprocessing
  import opened Http

  /** What a successful training stores: the pipeline and the column lists. */
  datatype Model = Model(
    pipeline: Pipeline,
    targetColumn: string,
    featureColumns: seq<string>,
    categoricalColumns: seq<string>,
    numericalColumns: seq<string>,
    categoricalValues: map<string, seq<string>>)

  /** Training on the frame `data` with the optional `?target=` parameter. */
  function Train(data: seq<Column>, target: Option<string>): (r: Result<Model, HttpError>)
    ensures r.Err? ==> r.error.status == ServerError
    ensures DetectTargetColumn(Names(data), target).Err? ==>
      r == Err(HttpError(ServerError, TrainingError(Describe(DetectTargetColumn(Names(data), target).error))))
    ensures DetectTargetColumn(Names(data), target).Ok? ==>
      (r.Err? <==> FeatureColumns(Names(data), DetectTargetColumn(Names(data), target).value) == [])
    ensures r.Err? && DetectTargetColumn(Names(data), target).Ok? ==>
      r.error.reason == TrainingError(NoFeaturesMessage)
    ensures r.Ok? ==> DetectTargetColumn(Names(data), target) == Ok(r.value.targetColumn)
    ensures r.Ok? ==> r.value.featureColumns == FeatureColumns(Names(data), r.value.targetColumn)
    ensures r.Ok? ==> r.value.numericalColumns == NamesOfKind(FeatureCols(data, r.value.targetColumn), Numerical)
    ensures r.Ok? ==> r.value.categoricalColumns == NamesOfKind(FeatureCols(data, r.value.targetColumn), Categorical)
    ensures r.Ok? ==>
      multiset(r.value.categoricalColumns) + multiset(r.value.numericalColumns) == multiset(r.value.featureColumns)
    ensures r.Ok? ==>
      TransformedColumns(r.value.pipeline.transformers) == r.value.categoricalColumns + r.value.numericalColumns
    ensures r.Ok? ==> forall x :: x in r.value.categoricalValues <==> x in r.value.categoricalColumns
  {
    match DetectTargetColumn(Names(data), target)
    case Err(e) => Err(HttpError(ServerError, TrainingError(Describe(e))))
    case Ok(t) =>
      var features := FeatureCols(data, t);
      var numerical := NamesOfKind(features, Numerical);
      var categorical := NamesOfKind(features, Categorical);
      var values := CategoricalValues(Filter(KindTest(Categorical), features));
      KindsPartition(features);
      assert |Names(features)| == |numerical| + |categorical| by {
        assert |multiset(Names(features))| == |multiset(numerical)| + |multiset(categorical)|;
      }
      match CreatePipeline(categorical, numerical)
      case Err(msg) => Err(HttpError(ServerError, TrainingError(msg)))
      case Ok(p) => Ok(Model(p, t, Names(features), categorical, numerical, values))
  }

  /** The training data file: absent, present but unreadable as CSV (with
      the exception's text), or read into its columns. */
  datatype DataFile = Absent | Unreadable(message: string) | Loaded(columns: seq<Column>)

  /** The `/train` endpoint. `splitError` and `fitError` are the exception
      texts of `train_test_split` and of fitting plus scoring, when they
      raise (a single-class target, say); the split runs before the pipeline
      is assembled and the fit after. */
  function TrainEndpoint(file: DataFile, target: Option<string>, splitError: Option<string>, fitError: Option<string>): (r: Result<Model, HttpError>)
    ensures r == Err(HttpError(NotFound, DataFileMissing)) <==> file.Absent?
    ensures file.Unreadable? ==> r == Err(HttpError(ServerError, TrainingError(file.message)))
    ensures r.Ok? <==> file.Loaded? && Train(file.columns, target).Ok? && splitError.None? && fitError.None?
    ensures r.Ok? ==> r == Train(file.columns, target)
    ensures file.Loaded? && DetectTargetColumn(Names(file.columns), target).Err? ==> r == Train(file.columns, target)
    ensures file.Loaded? && DetectTargetColumn(Names(file.columns), target).Ok? && splitError.Some? ==>
      r == Err(HttpError(ServerError, TrainingError(splitError.value)))
    ensures file.Loaded? && splitError.None? && Train(file.columns, target).Err? ==> r == Train(file.columns, target)
    ensures file.Loaded? && splitError.None? && Train(file.columns, target).Ok? && fitError.Some? ==>
      r == Err(HttpError(ServerError, TrainingError(fitError.value)))
  {
    match file
    case Absent => Err(HttpError(NotFound, DataFileMissing))
    case Unreadable(message) => Err(HttpError(ServerError, TrainingError(message)))
    case Loaded(data) =>
      if DetectTargetColumn(Names(data), target).Ok? && splitError.Some? then
        Err(HttpError(ServerError, TrainingError(splitError.value)))
      else match Train(data, target)
        case Err(e) => Err(e)
        case Ok(m) =>
          if fitError.Some? then Err(HttpError(ServerError, TrainingError(fitError.value))) else Ok(m)
  }
}
