/** `get_schema`: the description of the input fields a client must send,
    built from the stored column lists. */
module SchemaEndpoint {

  import opened Wrappers
  import opened Seqs
  import opened Sorting
  import opened Columns
  import opened Http
  import opened Training

  /** A field is either numeric or categorical with its allowed values. */
  datatype Field = NumberField(name: string) | CategoricalField(name: string, values: seq<string>)
  {
    /** The field's `type` member as sent to the client. */
    function TypeName(): string
    {
      if NumberField? then "number" else "categorical"
    }
  }

  datatype Schema = Schema(target: string, fields: seq<Field>)

  function BuildField(m: Model, col: string): Field
  {
    if col in m.categoricalColumns then
      CategoricalField(col, if col in m.categoricalValues then m.categoricalValues[col] else [])
    else
      NumberField(col)
  }

  /** `None` stands for a service with nothing trained and no saved bundle. */
  function GetSchema(loaded: Option<Model>): (r: Result<Schema, HttpError>)
    ensures loaded.None? ==> r == Err(HttpError(BadRequest, SchemaUnavailable))
    ensures loaded.Some? ==> r.Ok? && r.value.target == loaded.value.targetColumn
    ensures loaded.Some? ==> Map((f: Field) => f.name, r.value.fields) == loaded.value.featureColumns
    ensures loaded.Some? ==> forall i :: 0 <= i < |r.value.fields| ==>
      (r.value.fields[i].CategoricalField? <==> r.value.fields[i].name in loaded.value.categoricalColumns)
    ensures loaded.Some? ==> forall i :: 0 <= i < |r.value.fields| && r.value.fields[i].CategoricalField? ==>
      r.value.fields[i].values ==
        (if r.value.fields[i].name in loaded.value.categoricalValues
         then loaded.value.categoricalValues[r.value.fields[i].name] else [])
  {
    match loaded
    case None => Err(HttpError(BadRequest, SchemaUnavailable))
    case Some(m) => Ok(Schema(m.targetColumn, Map(col => BuildField(m, col), m.featureColumns)))
  }

  /** After training on a frame with distinct column names, the schema has one
      field per feature column in column order; a field is categorical exactly
      when its column is classified categorical, and then lists that column's
      distinct values sorted. */
  lemma SchemaAfterTraining(data: seq<Column>, target: Option<string>)
    requires Distinct(Names(data))
    requires Train(data, target).Ok?
    ensures var m := Train(data, target).value;
            var fields := GetSchema(Some(m)).value.fields;
            var cols := FeatureCols(data, m.targetColumn);
            |fields| == |cols| &&
            forall i :: 0 <= i < |cols| ==>
              && fields[i].name == cols[i].name
              && (fields[i].CategoricalField? <==> KindOf(cols[i]) == Categorical)
              && (fields[i].CategoricalField? ==> fields[i].values == Sort(cols[i].levels))
  {
    var m := Train(data, target).value;
    var fields := GetSchema(Some(m)).value.fields;
    var cols := FeatureCols(data, m.targetColumn);
    assert m.featureColumns == Names(cols);
    assert Distinct(Names(cols));
    var cats := Filter(KindTest(Categorical), cols);
    KindsOrdered(cols);
    SubsequenceDistinct(Names(cats), Names(cols));
    CategoricalValuesOfColumns(cats);
    forall i | 0 <= i < |cols|
      ensures fields[i].name == cols[i].name
      ensures fields[i].CategoricalField? <==> KindOf(cols[i]) == Categorical
      ensures fields[i].CategoricalField? ==> fields[i].values == Sort(cols[i].levels)
    {
      assert Names(cols)[i] == NameOf(cols[i]);
      assert cols[i] in cols;
      KindOfName(cols, cols[i], Categorical);
      if KindOf(cols[i]) == Categorical {
        assert cols[i] in cats;
      }
    }
  }
}
