/** `detect_target_column`: the explicit `?target=` parameter, else the first
    of a fixed list of conventional label names that the data set has. */
module Target {

  import opened Wrappers

  /** The conventional label names, in priority order; matching is case-sensitive. */
  const Candidates: seq<string> := ["Churn", "Exited", "churn", "target"]

  datatype TargetError = TargetNotFound(name: string) | NoTarget

  /** The text of the `ValueError` each failure raises. */
  function Describe(e: TargetError): string
  {
    match e
    case TargetNotFound(name) => "Target column '" + name + "' not found in dataset"
    case NoTarget => "No target column found. Please specify with ?target= parameter"
  }

  /** `if target_param:` is Python truthiness: an absent and an empty parameter
      both fall through to the candidate names. */
  predicate Given(param: Option<string>)
  {
    param.Some? && param.value != ""
  }

  /** The first of `candidates` that is one of `columns`. */
  function FirstPresent(candidates: seq<string>, columns: seq<string>): (r: Result<string, TargetError>)
    ensures r.Ok? <==> exists k :: 0 <= k < |candidates| && candidates[k] in columns
    ensures r.Ok? ==> exists k :: 0 <= k < |candidates| && r.value == candidates[k] && r.value in columns &&
                                  forall j :: 0 <= j < k ==> candidates[j] !in columns
    ensures r.Err? ==> r.error == NoTarget
  {
    if |candidates| == 0 then Err(NoTarget)
    else if candidates[0] in columns then Ok(candidates[0])
    else
      var r := FirstPresent(candidates[1..], columns);
      if r.Ok? then
        ghost var k :| 0 <= k < |candidates[1..]| && r.value == candidates[1..][k] && r.value in columns &&
          forall j :: 0 <= j < k ==> candidates[1..][j] !in columns;
        assert forall j :: 0 <= j < k + 1 ==> candidates[j] !in columns by {
          forall j | 0 <= j < k + 1 ensures candidates[j] !in columns {
            if j > 0 { assert candidates[j] == candidates[1..][j - 1]; }
          }
        }
        r
      else
        assert forall k :: 1 <= k < |candidates| ==> candidates[k] == candidates[1..][k - 1];
        r
  }

  function DetectTargetColumn(columns: seq<string>, param: Option<string>): (r: Result<string, TargetError>)
    ensures r.Ok? ==> r.value in columns
    ensures Given(param) ==> r == (if param.value in columns then Ok(param.value) else Err(TargetNotFound(param.value)))
    ensures !Given(param) ==> (r.Ok? <==> exists k :: 0 <= k < |Candidates| && Candidates[k] in columns)
    ensures !Given(param) && r.Ok? ==> exists k :: 0 <= k < |Candidates| && r.value == Candidates[k] &&
                                                   forall j :: 0 <= j < k ==> Candidates[j] !in columns
    ensures !Given(param) && r.Err? ==> r.error == NoTarget
  {
    if Given(param) then
      if param.value in columns then Ok(param.value) else Err(TargetNotFound(param.value))
    else
      FirstPresent(Candidates, columns)
  }

  /** A parameter naming a missing column is an error even when a
      conventional label name is present: there is no fallback. */
  lemma NoFallback(columns: seq<string>, param: string)
    requires param != "" && param !in columns
    ensures DetectTargetColumn(columns, Some(param)) == Err(TargetNotFound(param))
  {
  }

  /** With no usable parameter, `Churn` wins over every other candidate, and a
      lower-case `churn` is used only when none of `Churn` and `Exited` is present. */
  lemma CandidatePriority(columns: seq<string>, param: Option<string>)
    requires !Given(param)
    ensures "Churn" in columns ==> DetectTargetColumn(columns, param) == Ok("Churn")
    ensures "Churn" !in columns && "Exited" in columns ==> DetectTargetColumn(columns, param) == Ok("Exited")
    ensures "Churn" !in columns && "Exited" !in columns && "churn" in columns ==>
      DetectTargetColumn(columns, param) == Ok("churn")
    ensures (forall k :: 0 <= k < |Candidates| ==> Candidates[k] !in columns) ==>
      DetectTargetColumn(columns, param) == Err(NoTarget)
  {
    var r := DetectTargetColumn(columns, param);
    assert Candidates[0] == "Churn" && Candidates[1] == "Exited" && Candidates[2] == "churn";
    if "Exited" in columns { assert Candidates[1] in columns; }
    if "churn" in columns { assert Candidates[2] in columns; }
    if r.Ok? {
      var k :| 0 <= k < |Candidates| && r.value == Candidates[k] &&
        forall j :: 0 <= j < k ==> Candidates[j] !in columns;
      assert Candidates[0] == "Churn" && Candidates[1] == "Exited" && Candidates[2] == "churn";
      if "Churn" !in columns {
        assert k != 0;
        if "Exited" in columns {
          assert k == 1;
        } else if "churn" in columns {
          assert k != 1;
          assert k == 2;
        }
      }
    }
  }

  /** An empty parameter behaves exactly like an absent one. */
  lemma EmptyParameterIgnored(columns: seq<string>)
    ensures DetectTargetColumn(columns, Some("")) == DetectTargetColumn(columns, None)
  {
  }
}
