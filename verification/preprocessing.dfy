/** `create_pipeline`: the structure of the preprocessing pipeline built for
    the categorical and numerical feature columns. The fitted estimators
    themselves are outside the model. */
module Preprocessing {

  import opened Wrappers

  datatype Encoder =
    | OneHotEncoder(drop: string, sparseOutput: bool, handleUnknown: string)
    | StandardScaler

  /** One `(name, transformer, columns)` entry of the column transformer. */
  datatype Transformer = Transformer(name: string, encoder: Encoder, columns: seq<string>)

  datatype Classifier = LogisticRegression(randomState: int, maxIter: int)

  datatype Pipeline = Pipeline(transformers: seq<Transformer>, remainder: string, classifier: Classifier)

  const CategoryEncoder: Encoder := OneHotEncoder("first", false, "ignore")
  const DefaultClassifier: Classifier := LogisticRegression(42, 1000)
  const NoFeaturesMessage: string := "No features found for preprocessing"

  /** The columns the transformers read, in transformer order. */
  function TransformedColumns(ts: seq<Transformer>): seq<string>
  {
    if |ts| == 0 then [] else ts[0].columns + TransformedColumns(ts[1..])
  }

  function CreatePipeline(categorical: seq<string>, numerical: seq<string>): (r: Result<Pipeline, string>)
    ensures r.Err? <==> |categorical| == 0 && |numerical| == 0
    ensures r.Err? ==> r.error == NoFeaturesMessage
    ensures r.Ok? ==> |r.value.transformers| == (if |categorical| > 0 then 1 else 0) + (if |numerical| > 0 then 1 else 0)
    ensures r.Ok? ==> forall t :: t in r.value.transformers ==> |t.columns| > 0
    ensures r.Ok? && |categorical| > 0 ==>
      r.value.transformers[0] == Transformer("cat", CategoryEncoder, categorical)
    ensures r.Ok? && |numerical| > 0 ==>
      r.value.transformers[|r.value.transformers| - 1] == Transformer("num", StandardScaler, numerical)
    ensures r.Ok? ==> TransformedColumns(r.value.transformers) == categorical + numerical
    ensures r.Ok? ==> r.value.remainder == "drop" && r.value.classifier == DefaultClassifier
  {
    var cat := Transformer("cat", CategoryEncoder, categorical);
    var num := Transformer("num", StandardScaler, numerical);
    if |categorical| == 0 && |numerical| == 0 then Err(NoFeaturesMessage)
    else if |numerical| == 0 then
      assert TransformedColumns([cat]) == categorical + numerical by { assert categorical + [] == categorical; }
      Ok(Pipeline([cat], "drop", DefaultClassifier))
    else if |categorical| == 0 then
      assert TransformedColumns([num]) == categorical + numerical by { assert numerical + [] == numerical; }
      Ok(Pipeline([num], "drop", DefaultClassifier))
    else
      assert TransformedColumns([cat, num]) == categorical + numerical by {
        assert [cat, num][1..] == [num];
        assert numerical + [] == numerical;
      }
      Ok(Pipeline([cat, num], "drop", DefaultClassifier))
  }
}
