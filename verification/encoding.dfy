/** `generate_encoding_info`: how the tag data of a place maps onto the
    feature columns, reconstructed from the columns' naming conventions.
    A column `has_<tag>` is a presence flag for `<tag>`; a column
    `<tag>_<value>` is the one-hot indicator of `<tag>=<value>`; any other
    column is dropped. */
module Encoding {
  import opened Wrappers
  import opened Strings

  /** The prefix naming a presence-flag column. */
  const PresencePrefix: string := "has_"

  /** The prefix of the tag path a presence flag reads. */
  const TagPathPrefix: string := "tags."

  /** The separator between tag name and value in a one-hot column. */
  const ValueSeparator: char := '_'

  /** One entry of `has_features`: a column and the tag path it flags. */
  datatype PresenceFeature = PresenceFeature(column: string, tag: string)

  /** The encoding description: the presence-flag records in column order,
      and `categorical_features[tag][value] = column` for one-hot columns. */
  datatype EncodingInfo = EncodingInfo(
    hasFeatures: seq<PresenceFeature>,
    categoricalFeatures: map<string, map<string, string>>)

  /** Presence flags are recognised case-sensitively. */
  predicate IsPresenceColumn(col: string) {
    StartsWith(col, PresencePrefix)
  }

  /** The tag name of a presence column: the column with every occurrence of
      the prefix removed (`col.replace('has_', '')`), not only the leading one. */
  function PresenceTagName(col: string): string {
    Replace(col, PresencePrefix, "")
  }

  /** The record written for a presence column. */
  function PresenceRecord(col: string): PresenceFeature {
    PresenceFeature(col, TagPathPrefix + PresenceTagName(col))
  }

  /** The columns of a sequence of presence records, in order. */
  function RecordColumns(hs: seq<PresenceFeature>): (r: seq<string>)
    ensures |r| == |hs|
    ensures forall j :: 0 <= j < |hs| ==> r[j] == hs[j].column
  {
    if |hs| == 0 then [] else RecordColumns(hs[..|hs| - 1]) + [hs[|hs| - 1].column]
  }

  /** The presence columns of `cols`, in their order in `cols`. */
  function PresenceColumns(cols: seq<string>): (r: seq<string>)
    ensures forall c :: c in r <==> c in cols && IsPresenceColumn(c)
    ensures |r| <= |cols|
  {
    if |cols| == 0 then []
    else
      var last := cols[|cols| - 1];
      assert cols == cols[..|cols| - 1] + [last];
      PresenceColumns(cols[..|cols| - 1]) + (if IsPresenceColumn(last) then [last] else [])
  }

  /** Filtering commutes with concatenation, so the relative order of the
      presence columns is the order of `cols`. */
  lemma {:induction false} PresenceColumnsAppend(a: seq<string>, b: seq<string>)
    ensures PresenceColumns(a + b) == PresenceColumns(a) + PresenceColumns(b)
    decreases |b|
  {
    if |b| == 0 {
      assert a + b == a;
    } else {
      var b' := b[..|b| - 1];
      assert (a + b)[..|a + b| - 1] == a + b';
      PresenceColumnsAppend(a, b');
    }
  }

  /** Every one-hot entry round-trips to its column: the tag holds no
      separator, the column is `tag + "_" + value`, and every tag has at
      least one value. */
  ghost predicate CategoricalWellFormed(cat: map<string, map<string, string>>) {
    && (forall t :: t in cat ==> ValueSeparator !in t && |cat[t]| > 0)
    && (forall t, v :: t in cat && v in cat[t] ==> cat[t][v] == t + [ValueSeparator] + v)
  }

  /** `col` is recorded under its first-separator split. */
  ghost predicate RecordedCategorical(cat: map<string, map<string, string>>, col: string)
  {
    match SplitFirst(col, ValueSeparator)
    case None => false
    case Some((t, v)) => t in cat && v in cat[t] && cat[t][v] == col
  }

  /** Recording one non-presence column in the one-hot map: the column goes
      under its first-separator split, the tag's value map created on first
      use; a column without a separator leaves the map unchanged. */
  function AddCategorical(cat: map<string, map<string, string>>, col: string): map<string, map<string, string>> {
    match SplitFirst(col, ValueSeparator)
    case None => cat
    case Some((tag, value)) =>
      var values := if tag in cat then cat[tag] else map[];
      cat[tag := values[value := col]]
  }

  /** One iteration of the loop over the feature columns. */
  function AddColumn(e: EncodingInfo, col: string): EncodingInfo {
    if IsPresenceColumn(col) then
      e.(hasFeatures := e.hasFeatures + [PresenceRecord(col)])
    else
      e.(categoricalFeatures := AddCategorical(e.categoricalFeatures, col))
  }

  /** The presence records kept by the loop: in column order, each built
      from its own column. */
  ghost predicate PresenceInvariant(hs: seq<PresenceFeature>, cols: seq<string>) {
    && RecordColumns(hs) == PresenceColumns(cols)
    && forall j :: 0 <= j < |hs| ==> hs[j] == PresenceRecord(hs[j].column)
  }

  /** The one-hot map kept by the loop: well formed, built only from
      non-presence columns of `cols`, and holding every such column that has
      a separator. */
  ghost predicate CategoricalInvariant(cat: map<string, map<string, string>>, cols: seq<string>) {
    && CategoricalWellFormed(cat)
    && (forall t, v :: t in cat && v in cat[t] ==> cat[t][v] in cols && !IsPresenceColumn(cat[t][v]))
    && (forall col :: col in cols && !IsPresenceColumn(col) && ValueSeparator in col ==>
          RecordedCategorical(cat, col))
  }

  lemma AddColumnPresence(e: EncodingInfo, cols: seq<string>, col: string)
    requires PresenceInvariant(e.hasFeatures, cols)
    ensures PresenceInvariant(AddColumn(e, col).hasFeatures, cols + [col])
  {
    var hs := AddColumn(e, col).hasFeatures;
    assert (cols + [col])[..|cols|] == cols;
    if IsPresenceColumn(col) {
      assert hs[..|e.hasFeatures|] == e.hasFeatures;
    }
  }

  lemma AddCategoricalWellFormed(cat: map<string, map<string, string>>, col: string)
    requires CategoricalWellFormed(cat)
    ensures CategoricalWellFormed(AddCategorical(cat, col))
  {
  }

  lemma AddCategoricalSound(cat: map<string, map<string, string>>, cols: seq<string>, col: string)
    requires !IsPresenceColumn(col)
    requires forall t, v :: t in cat && v in cat[t] ==> cat[t][v] in cols && !IsPresenceColumn(cat[t][v])
    ensures var cat' := AddCategorical(cat, col);
      forall t, v :: t in cat' && v in cat'[t] ==> cat'[t][v] in cols + [col] && !IsPresenceColumn(cat'[t][v])
  {
  }

  lemma AddCategoricalComplete(cat: map<string, map<string, string>>, cols: seq<string>, col: string)
    requires CategoricalWellFormed(cat)
    requires forall c :: c in cols && !IsPresenceColumn(c) && ValueSeparator in c ==> RecordedCategorical(cat, c)
    ensures forall c :: c in cols + [col] && !IsPresenceColumn(c) && ValueSeparator in c ==>
      RecordedCategorical(AddCategorical(cat, col), c)
  {
    var cat' := AddCategorical(cat, col);
    forall c | c in cols + [col] && !IsPresenceColumn(c) && ValueSeparator in c
      ensures RecordedCategorical(cat', c)
    {
      if c != col {
        assert c in cols;
        var (t, v) := SplitFirst(c, ValueSeparator).value;
        assert t in cat && v in cat[t] && cat[t][v] == c;
        if SplitFirst(col, ValueSeparator).Some? {
          var (tag, value) := SplitFirst(col, ValueSeparator).value;
          assert t != tag || v != value;
        }
      }
    }
  }

  lemma AddColumnCategorical(e: EncodingInfo, cols: seq<string>, col: string)
    requires CategoricalInvariant(e.categoricalFeatures, cols)
    ensures CategoricalInvariant(AddColumn(e, col).categoricalFeatures, cols + [col])
  {
    var cat := e.categoricalFeatures;
    if !IsPresenceColumn(col) {
      AddCategoricalWellFormed(cat, col);
      AddCategoricalSound(cat, cols, col);
      AddCategoricalComplete(cat, cols, col);
    } else {
      assert AddColumn(e, col).categoricalFeatures == cat;
      assert forall c :: c in cols + [col] && !IsPresenceColumn(c) ==> c in cols;
    }
  }

  /** `generate_encoding_info(useful_features, feature_columns)`. The useful
      features are accepted and ignored, exactly as in the script. */
  function GenerateEncodingInfo(usefulFeatures: seq<string>, featureColumns: seq<string>): (r: EncodingInfo)
    ensures RecordColumns(r.hasFeatures) == PresenceColumns(featureColumns)
    ensures forall j :: 0 <= j < |r.hasFeatures| ==> r.hasFeatures[j] == PresenceRecord(r.hasFeatures[j].column)
    ensures CategoricalWellFormed(r.categoricalFeatures)
    ensures forall t, v :: t in r.categoricalFeatures && v in r.categoricalFeatures[t] ==>
              r.categoricalFeatures[t][v] in featureColumns && !IsPresenceColumn(r.categoricalFeatures[t][v])
    ensures forall col :: col in featureColumns && !IsPresenceColumn(col) && ValueSeparator in col ==>
              RecordedCategorical(r.categoricalFeatures, col)
  {
    if |featureColumns| == 0 then EncodingInfo([], map[])
    else
      var init := featureColumns[..|featureColumns| - 1];
      var col := featureColumns[|featureColumns| - 1];
      assert featureColumns == init + [col];
      var e := GenerateEncodingInfo(usefulFeatures, init);
      AddColumnPresence(e, init, col);
      AddColumnCategorical(e, init, col);
      AddColumn(e, col)
  }

  /** The output depends on the feature columns alone. */
  lemma {:induction false} EncodingIgnoresUsefulFeatures(u1: seq<string>, u2: seq<string>, featureColumns: seq<string>)
    ensures GenerateEncodingInfo(u1, featureColumns) == GenerateEncodingInfo(u2, featureColumns)
    decreases |featureColumns|
  {
    if |featureColumns| > 0 {
      EncodingIgnoresUsefulFeatures(u1, u2, featureColumns[..|featureColumns| - 1]);
    }
  }

  /** Every one-hot entry is the first-separator split of its column, so
      splitting the recorded column gives back exactly its tag and value. */
  lemma CategoricalRoundTrip(usefulFeatures: seq<string>, featureColumns: seq<string>)
    ensures var cat := GenerateEncodingInfo(usefulFeatures, featureColumns).categoricalFeatures;
      forall t, v :: t in cat && v in cat[t] ==>
        && cat[t][v] in featureColumns
        && !IsPresenceColumn(cat[t][v])
        && SplitFirst(cat[t][v], ValueSeparator) == Some((t, v))
  {
    var cat := GenerateEncodingInfo(usefulFeatures, featureColumns).categoricalFeatures;
    forall t, v | t in cat && v in cat[t]
      ensures SplitFirst(cat[t][v], ValueSeparator) == Some((t, v))
    {
      SplitFirstJoin(t, ValueSeparator, v);
    }
  }

  /** A column that is neither a presence flag nor holds a separator appears
      nowhere in the output. */
  lemma DroppedColumn(usefulFeatures: seq<string>, featureColumns: seq<string>, col: string)
    requires !IsPresenceColumn(col) && ValueSeparator !in col
    ensures var e := GenerateEncodingInfo(usefulFeatures, featureColumns);
      && col !in RecordColumns(e.hasFeatures)
      && forall t, v :: t in e.categoricalFeatures && v in e.categoricalFeatures[t] ==>
           e.categoricalFeatures[t][v] != col
  {
    var e := GenerateEncodingInfo(usefulFeatures, featureColumns);
    forall t, v | t in e.categoricalFeatures && v in e.categoricalFeatures[t]
      ensures e.categoricalFeatures[t][v] != col
    {
      assert (t + [ValueSeparator] + v)[|t|] == ValueSeparator;
    }
  }

  /** For a presence column `has_<name>` whose name does not itself contain
      the prefix, the recorded tag path is `tags.<name>`. */
  lemma {:induction false} PresenceTagOfPrefixed(name: string)
    requires !Occurs(name, PresencePrefix)
    ensures IsPresenceColumn(PresencePrefix + name)
    ensures PresenceRecord(PresencePrefix + name).tag == TagPathPrefix + name
  {
    var col := PresencePrefix + name;
    assert col[..|PresencePrefix|] == PresencePrefix;
    ReplaceLeading(PresencePrefix, "", name);
    assert Replace(name, PresencePrefix, "") == name;
    assert PresenceTagName(col) == "" + name == name;
  }

  /** Every occurrence of the prefix is removed, not only the leading one:
      `has_has_x` is read as the tag `x`. */
  lemma PresenceTagRemovesInnerPrefix()
    ensures PresenceRecord("has_has_x").tag == "tags.x"
  {
    ReplaceLeading(PresencePrefix, "", "has_x");
    ReplaceLeading(PresencePrefix, "", "x");
    assert "has_" + "has_x" == "has_has_x";
    assert "has_" + "x" == "has_x";
    assert !Occurs("x", PresencePrefix);
  }

  lemma ElevatorIsPresence()
    ensures IsPresenceColumn("has_elevator")
    ensures PresenceRecord("has_elevator") == PresenceFeature("has_elevator", "tags.elevator")
  {
    assert PresencePrefix[3] == '_';
    AbsentCharBlocksOccurrence("elevator", PresencePrefix, '_');
    assert "has_elevator" == PresencePrefix + "elevator";
    PresenceTagOfPrefixed("elevator");
    assert PresenceRecord(PresencePrefix + "elevator").tag == "tags.elevator";
  }

  lemma AmenityCafeIsOneHot()
    ensures !IsPresenceColumn("amenity_cafe")
    ensures SplitFirst("amenity_cafe", ValueSeparator) == Some(("amenity", "cafe"))
  {
    assert "amenity_cafe"[0] != PresencePrefix[0];
    assert "amenity_cafe" == "amenity" + [ValueSeparator] + "cafe";
    SplitFirstJoin("amenity", ValueSeparator, "cafe");
  }

  /** The loop handles the columns one by one, in order. */
  lemma GenerateEncodingInfoSnoc(usefulFeatures: seq<string>, cols: seq<string>, col: string)
    ensures GenerateEncodingInfo(usefulFeatures, cols + [col])
      == AddColumn(GenerateEncodingInfo(usefulFeatures, cols), col)
  {
    assert (cols + [col])[..|cols|] == cols;
  }

  /** The worked example: `has_elevator` is a presence flag for
      `tags.elevator`, and `amenity_cafe` is the one-hot column of
      `amenity=cafe`. The columns arrive as a parameter because a literal
      argument lets the verifier unfold the recursive definitions without
      bound. */
  lemma EncodingExample(cols: seq<string>)
    requires cols == ["has_elevator", "amenity_cafe"]
    ensures var e := GenerateEncodingInfo([], cols);
      && e.hasFeatures == [PresenceFeature("has_elevator", "tags.elevator")]
      && e.categoricalFeatures == map["amenity" := map["cafe" := "amenity_cafe"]]
  {
    var e0 := GenerateEncodingInfo([], []);
    assert e0 == EncodingInfo([], map[]);
    GenerateEncodingInfoSnoc([], [], "has_elevator");
    assert [] + ["has_elevator"] == ["has_elevator"];
    var e1 := GenerateEncodingInfo([], ["has_elevator"]);
    ElevatorIsPresence();
    assert e1 == EncodingInfo([PresenceFeature("has_elevator", "tags.elevator")], map[]);
    GenerateEncodingInfoSnoc([], ["has_elevator"], "amenity_cafe");
    assert ["has_elevator"] + ["amenity_cafe"] == cols;
    AmenityCafeIsOneHot();
  }
}
