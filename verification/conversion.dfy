/** The configuration document the conversion writes beside the inference
    graph, assembled from the loaded artifact. Loading the artifact, the
    graph conversion and the file writes are outside this model; what stays
    is how each field of the document is derived. */
module Conversion {
  import opened Wrappers
  import opened Strings
  import Encoding
  import Importance
  import Labels

  /** The name of the graph's input tensor. */
  const InputName: string := "float_input"

  /** The names of the graph's outputs: predicted label, then the
      per-class probability tensor. */
  const OutputNames: seq<string> := ["output_label", "output_probability"]

  /** The loaded artifact. `nativeImportances` is `Some` exactly when the
      estimator exposes `feature_importances_`; `nClasses` and `classMapping`
      are `None` when the artifact does not record them. */
  datatype Artifact = Artifact(
    modelName: string,
    featureColumns: seq<string>,
    usefulFeatures: seq<string>,
    nClasses: Option<int>,
    classMapping: Option<map<int, string>>,
    nativeImportances: Option<seq<real>>)

  /** Where the importance map came from, with the map itself. */
  datatype FeatureImportances =
    | Native(weights: map<string, real>)
    | Heuristic(tiers: map<string, Importance.Tier>)

  /** The configuration document. */
  datatype Config = Config(
    modelName: string,
    nClasses: int,
    featureColumns: seq<string>,
    usefulFeatures: seq<string>,
    inputName: string,
    outputNames: seq<string>,
    labels: seq<string>,
    classMapping: map<int, string>,
    encodingInfo: Encoding.EncodingInfo,
    featureImportances: FeatureImportances)

  /** The importance map: the native filter when the estimator has native
      importances, the heuristic otherwise. Only the native filter can fail. */
  function FeatureImportancesOf(nativeImportances: Option<seq<real>>, featureColumns: seq<string>)
    : (r: Result<FeatureImportances, Importance.ImportanceError>)
    ensures r.Failure? <==>
      nativeImportances.Some? && Importance.PositiveBeyondColumns(nativeImportances.value, featureColumns)
    ensures r.Success? ==> (r.value.Native? <==> nativeImportances.Some?)
    ensures r.Success? && r.value.Heuristic? ==> r.value.tiers == Importance.HeuristicImportances(featureColumns)
    ensures r.Success? && r.value.Native? ==>
      Importance.NativeImportances(nativeImportances.value, featureColumns) == Success(r.value.weights)
  {
    match nativeImportances
    case None => Success(Heuristic(Importance.HeuristicImportances(featureColumns)))
    case Some(importances) =>
      match Importance.NativeImportances(importances, featureColumns)
      case Success(m) => Success(Native(m))
      case Failure(e) => Failure(e)
  }

  /** The document for an artifact, or the error that stops the run before
      the document is written. */
  function BuildConfig(a: Artifact): (r: Result<Config, Importance.ImportanceError>)
    ensures r.Failure? <==>
      a.nativeImportances.Some? && Importance.PositiveBeyondColumns(a.nativeImportances.value, a.featureColumns)
    ensures r.Success? ==>
      var c := r.value;
      && c.modelName == a.modelName
      && c.featureColumns == a.featureColumns
      && c.usefulFeatures == a.usefulFeatures
      && c.inputName == InputName
      && c.outputNames == OutputNames
      && c.nClasses == Labels.ClassCount(a.nClasses)
      && c.classMapping == Labels.ClassMapping(a.classMapping)
      && c.labels == Labels.Labels(c.nClasses, c.classMapping)
      && c.encodingInfo == Encoding.GenerateEncodingInfo(a.usefulFeatures, a.featureColumns)
      && FeatureImportancesOf(a.nativeImportances, a.featureColumns) == Success(c.featureImportances)
      && (c.featureImportances.Native? <==> a.nativeImportances.Some?)
  {
    match FeatureImportancesOf(a.nativeImportances, a.featureColumns)
    case Failure(e) => Failure(e)
    case Success(importances) =>
      var nClasses := Labels.ClassCount(a.nClasses);
      var mapping := Labels.ClassMapping(a.classMapping);
      Success(Config(
        a.modelName,
        nClasses,
        a.featureColumns,
        a.usefulFeatures,
        InputName,
        OutputNames,
        Labels.Labels(nClasses, mapping),
        mapping,
        Encoding.GenerateEncodingInfo(a.usefulFeatures, a.featureColumns),
        importances))
  }

  /** Every key of the importance map in the document is a feature column. */
  lemma ImportanceKeysAreColumns(a: Artifact, k: string)
    requires BuildConfig(a).Success?
    ensures var fi := BuildConfig(a).value.featureImportances;
      && (fi.Native? && k in fi.weights ==> k in a.featureColumns)
      && (fi.Heuristic? && k in fi.tiers ==> k in a.featureColumns)
  {
    var fi := BuildConfig(a).value.featureImportances;
    if fi.Native? && k in fi.weights {
      assert Importance.HasPositive(a.nativeImportances.value, a.featureColumns, k);
    }
  }

  /** The two readers of the presence prefix disagree on case: the
      importance heuristic lower-cases the column first, the encoding
      generator does not, so `HAS_X` weighs as a presence flag but is
      encoded as the one-hot column of `HAS=X`. The column arrives as a
      parameter because a literal argument lets the verifier unfold the
      recursive string functions without bound. */
  lemma PresencePrefixCaseMismatch(col: string)
    requires col == "HAS_X"
    ensures Importance.Classify(col) == Importance.PresenceFlag
    ensures !Encoding.IsPresenceColumn(col)
    ensures SplitFirst(col, Encoding.ValueSeparator) == Some(("HAS", "X"))
  {
    var low := Lower(col);
    assert low == "has_x";
    // For each word, the index of a character the column lacks.
    NoWordMentioned(low, Importance.PositiveWords, [1, 0, 0, 0, 0, 1, 0, 1, 0, 0, 0]);
    NoWordMentioned(low, Importance.NegativeWords, [1, 1, 0, 0, 0, 0]);
    NoWordMentioned(low, Importance.PlaceTypeWords, [1, 2, 0, 3, 0, 0]);
    assert col == "HAS" + [Encoding.ValueSeparator] + "X";
    SplitFirstJoin("HAS", Encoding.ValueSeparator, "X");
  }
}
