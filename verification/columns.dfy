/** The column rules of the training endpoint: which columns are features,
    how a feature column is classified as numerical or categorical, and the
    sorted category values kept for the schema. */
module Columns {

  import opened Seqs
  import opened Text
  import opened Sorting

  /** A column of a loaded data frame, reduced to what the rules look at:
      whether pandas gives it a numeric dtype, whether that dtype is an
      integer one, and its distinct non-missing values as `str()` renders them
      (so `|levels|` is `nunique(dropna=True)`). */
  datatype Col = Col(name: string, isNumeric: bool, isInteger: bool, levels: seq<string>)

  /** Every integer dtype is a numeric dtype. */
  type Column = c: Col | c.isInteger ==> c.isNumeric witness Col("", false, false, [])

  /** Integer columns with at most this many distinct values are categorical. */
  const LowCardinalityLimit: nat := 10

  datatype Kind = Numerical | Categorical

  function KindOf(c: Column): Kind
  {
    if !c.isNumeric then Categorical
    else if c.isInteger && |c.levels| <= LowCardinalityLimit then Categorical
    else Numerical
  }

  function NameOf(c: Column): string
  {
    c.name
  }

  /** The column labels of a frame, `df.columns`. */
  function Names(cols: seq<Column>): seq<string>
  {
    Map(NameOf, cols)
  }

  function KindTest(k: Kind): Column -> bool
  {
    (c: Column) => KindOf(c) == k
  }

  /** Names of the columns of kind `k`, in column order. */
  function NamesOfKind(cols: seq<Column>, k: Kind): seq<string>
  {
    Names(Filter(KindTest(k), cols))
  }

  // ---------------------------------------------------------------------
  // Feature selection

  /** `name.lower().endswith('id')`: identifier-like columns are not features. */
  predicate IsIdLike(name: string)
  {
    EndsWith(Lower(name), "id")
  }

  predicate IsFeatureName(target: string, name: string)
  {
    name != target && !IsIdLike(name)
  }

  function FeatureTest(target: string): string -> bool
  {
    name => IsFeatureName(target, name)
  }

  function FeatureColTest(target: string): Column -> bool
  {
    (c: Column) => IsFeatureName(target, c.name)
  }

  /** `[c for c in df.columns if c != target and not c.lower().endswith('id')]`. */
  function FeatureColumns(columns: seq<string>, target: string): (features: seq<string>)
    ensures forall x :: x in features <==> x in columns && x != target && !IsIdLike(x)
    ensures target !in features
    ensures IsSubsequence(features, columns)
    ensures Distinct(columns) ==> Distinct(features)
  {
    FilterIsSubsequence(FeatureTest(target), columns);
    assert Distinct(columns) ==> Distinct(Filter(FeatureTest(target), columns)) by {
      if Distinct(columns) {
        SubsequenceDistinct(Filter(FeatureTest(target), columns), columns);
      }
    }
    Filter(FeatureTest(target), columns)
  }

  /** `df[feature_columns]`: the feature columns of a frame, whose labels
      are exactly the feature column names. */
  function FeatureCols(cols: seq<Column>, target: string): (features: seq<Column>)
    ensures Names(features) == FeatureColumns(Names(cols), target)
    ensures IsSubsequence(features, cols)
  {
    MapFilter(NameOf, FeatureColTest(target), FeatureTest(target), cols);
    FilterIsSubsequence(FeatureColTest(target), cols);
    Filter(FeatureColTest(target), cols)
  }

  /** A name is identifier-like exactly when its last two characters are
      `i` or `I` followed by `d` or `D`. */
  lemma IdLikeCharacterisation(name: string)
    ensures IsIdLike(name) <==>
      |name| >= 2 && name[|name| - 2] in "iI" && name[|name| - 1] in "dD"
  {
    var lower := Lower(name);
    EndsWithLastChars(lower, "id");
    if |name| >= 2 {
      LowerCharIs(name[|name| - 2], 'i');
      LowerCharIs(name[|name| - 1], 'd');
    }
  }

  // ---------------------------------------------------------------------
  // Column types

  /** `detect_column_types`: one pass over the columns, appending each name
      to the numerical or the categorical list. */
  method DetectColumnTypes(cols: seq<Column>) returns (numerical: seq<string>, categorical: seq<string>)
    ensures numerical == NamesOfKind(cols, Numerical)
    ensures categorical == NamesOfKind(cols, Categorical)
    ensures forall c :: c in cols && !c.isNumeric ==> c.name in categorical
    ensures forall c :: c in cols && c.isInteger && |c.levels| <= LowCardinalityLimit ==> c.name in categorical
    ensures forall c :: c in cols && c.isNumeric && !c.isInteger ==> c.name in numerical
    ensures forall c :: c in cols && c.isInteger && |c.levels| > LowCardinalityLimit ==> c.name in numerical
  {
    numerical := [];
    categorical := [];
    for i := 0 to |cols|
      invariant numerical == NamesOfKind(cols[..i], Numerical)
      invariant categorical == NamesOfKind(cols[..i], Categorical)
    {
      assert cols[..i + 1] == cols[..i] + [cols[i]];
      NamesOfKindSnoc(cols[..i], cols[i], Numerical);
      NamesOfKindSnoc(cols[..i], cols[i], Categorical);
      if cols[i].isNumeric {
        if cols[i].isInteger && |cols[i].levels| <= LowCardinalityLimit {
          categorical := categorical + [cols[i].name];
        } else {
          numerical := numerical + [cols[i].name];
        }
      } else {
        categorical := categorical + [cols[i].name];
      }
    }
    assert cols[..|cols|] == cols;
    KindMembership(cols);
  }

  lemma NamesOfKindSnoc(cols: seq<Column>, c: Column, k: Kind)
    ensures NamesOfKind(cols + [c], k) == NamesOfKind(cols, k) + (if KindOf(c) == k then [c.name] else [])
  {
    FilterAppend(KindTest(k), cols, [c]);
    var last: seq<Column> := if KindOf(c) == k then [c] else [];
    assert Filter(KindTest(k), [c]) == last;
    MapAppend<Column, string>(NameOf, Filter(KindTest(k), cols), last);
    assert Map(NameOf, last) == (if KindOf(c) == k then [c.name] else []);
  }

  lemma NamesOfKindCons(cols: seq<Column>, k: Kind)
    requires |cols| > 0
    ensures NamesOfKind(cols, k) ==
      (if KindOf(cols[0]) == k then [cols[0].name] else []) + NamesOfKind(cols[1..], k)
    ensures Names(cols) == [cols[0].name] + Names(cols[1..])
  {
    var head: seq<Column> := if KindOf(cols[0]) == k then [cols[0]] else [];
    MapAppend(NameOf, head, Filter(KindTest(k), cols[1..]));
    MapCons(NameOf, cols);
  }

  /** Every column name lands in exactly one of the two kinds' lists. */
  lemma {:induction false} KindsPartition(cols: seq<Column>)
    ensures multiset(NamesOfKind(cols, Numerical)) + multiset(NamesOfKind(cols, Categorical))
      == multiset(Names(cols))
  {
    if |cols| > 0 {
      KindsPartition(cols[1..]);
      NamesOfKindCons(cols, Numerical);
      NamesOfKindCons(cols, Categorical);
    }
  }

  /** `c.name` is a label of the frame whenever `c` is one of its columns. */
  lemma NameInNames(cols: seq<Column>, c: Column)
    requires c in cols
    ensures c.name in Names(cols)
  {
    var i :| 0 <= i < |cols| && cols[i] == c;
    assert Names(cols)[i] == NameOf(cols[i]);
  }

  /** Each column's name is in the list of its own kind. */
  lemma KindMembership(cols: seq<Column>)
    ensures forall c :: c in cols ==> c.name in NamesOfKind(cols, KindOf(c))
  {
    forall c | c in cols ensures c.name in NamesOfKind(cols, KindOf(c)) {
      NameInNames(Filter(KindTest(KindOf(c)), cols), c);
    }
  }

  /** Both lists keep the columns' original order. */
  lemma KindsOrdered(cols: seq<Column>)
    ensures IsSubsequence(NamesOfKind(cols, Numerical), Names(cols))
    ensures IsSubsequence(NamesOfKind(cols, Categorical), Names(cols))
  {
    FilterIsSubsequence(KindTest(Numerical), cols);
    FilterIsSubsequence(KindTest(Categorical), cols);
    MapSubsequence(NameOf, Filter(KindTest(Numerical), cols), cols);
    MapSubsequence(NameOf, Filter(KindTest(Categorical), cols), cols);
  }

  /** With distinct column names no name is in both lists. */
  lemma KindsDisjoint(cols: seq<Column>)
    requires Distinct(Names(cols))
    ensures forall x :: x in NamesOfKind(cols, Numerical) ==> x !in NamesOfKind(cols, Categorical)
  {
    KindsPartition(cols);
    DistinctOccursOnce(Names(cols));
    forall x | x in NamesOfKind(cols, Numerical)
      ensures x !in NamesOfKind(cols, Categorical)
    {
      assert multiset(Names(cols))[x] <= 1;
      assert multiset(NamesOfKind(cols, Numerical))[x] >= 1;
    }
  }

  /** With distinct column names, a name is in the list of kind `k` exactly
      when its column has kind `k`. */
  lemma KindOfName(cols: seq<Column>, c: Column, k: Kind)
    requires Distinct(Names(cols)) && c in cols
    ensures c.name in NamesOfKind(cols, k) <==> KindOf(c) == k
  {
    KindMembership(cols);
    KindsDisjoint(cols);
  }

  // ---------------------------------------------------------------------
  // Category values

  /** `{c: sorted(str(v) for v in df[c].dropna().unique()) for c in categorical_columns}`,
      for the categorical columns `cats`; a later column of the same name
      overrides an earlier one, as in a dict comprehension. */
  function CategoricalValues(cats: seq<Column>): (values: map<string, seq<string>>)
    ensures forall x :: x in values <==> x in Names(cats)
    ensures forall x :: x in values ==> Sorted(values[x])
    decreases |cats|
  {
    if |cats| == 0 then map[]
    else
      NamesSnoc(cats);
      CategoricalValues(cats[..|cats| - 1])[cats[|cats| - 1].name := Sort(cats[|cats| - 1].levels)]
  }

  lemma NamesSnoc(cols: seq<Column>)
    requires |cols| > 0
    ensures Names(cols) == Names(cols[..|cols| - 1]) + [cols[|cols| - 1].name]
  {
    assert cols == cols[..|cols| - 1] + [cols[|cols| - 1]];
    MapAppend<Column, string>(NameOf, cols[..|cols| - 1], [cols[|cols| - 1]]);
    assert Map(NameOf, [cols[|cols| - 1]]) == [cols[|cols| - 1].name];
  }

  /** With distinct names, each categorical column's entry is its distinct
      values in Python's string order. */
  lemma {:induction false} CategoricalValuesOfColumns(cats: seq<Column>)
    requires Distinct(Names(cats))
    ensures forall c :: c in cats ==> c.name in CategoricalValues(cats)
    ensures forall c :: c in cats ==> CategoricalValues(cats)[c.name] == Sort(c.levels)
    decreases |cats|
  {
    if |cats| > 0 {
      var init := cats[..|cats| - 1];
      var last := cats[|cats| - 1];
      NamesSnoc(cats);
      assert Distinct(Names(init)) by {
        forall i, j | 0 <= i < j < |init| ensures Names(init)[i] != Names(init)[j] {
          assert Names(init)[i] == Names(cats)[i] && Names(init)[j] == Names(cats)[j];
        }
      }
      CategoricalValuesOfColumns(init);
      forall c | c in cats ensures c.name in CategoricalValues(cats) && CategoricalValues(cats)[c.name] == Sort(c.levels) {
        NameInNames(cats, c);
        if c != last {
          var i :| 0 <= i < |cats| && cats[i] == c;
          assert i < |cats| - 1;
          assert c in init;
          assert Names(cats)[i] == NameOf(c) && Names(cats)[|cats| - 1] == NameOf(last);
        }
      }
    }
  }
}
