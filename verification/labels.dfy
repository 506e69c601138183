/** The class count, the class mapping and the ordered label list written
    into the configuration. */
module Labels {
  import opened Wrappers
  import opened Strings

  const NotAccessible: string := "not_accessible"
  const Accessible: string := "accessible"

  /** The class count assumed when the artifact records none. */
  const DefaultClassCount: int := 2

  /** The mapping assumed when the artifact records none. */
  const DefaultClassMapping: map<int, string> := map[0 := NotAccessible, 1 := Accessible]

  /** The fixed label list of every model that is not a 3-class one. */
  const TwoClassLabels: seq<string> := [NotAccessible, Accessible]

  /** `model_data.get('n_classes', 2)`. */
  function ClassCount(stored: Option<int>): (n: int)
    ensures stored.Some? ==> n == stored.value
    ensures stored.None? ==> n == DefaultClassCount
  {
    match stored
    case Some(count) => count
    case None => DefaultClassCount
  }

  /** `model_data.get('class_mapping', {0: 'not_accessible', 1: 'accessible'})`. */
  function ClassMapping(stored: Option<map<int, string>>): (m: map<int, string>)
    ensures stored.Some? ==> m == stored.value
    ensures stored.None? ==> m == DefaultClassMapping
  {
    match stored
    case Some(mapping) => mapping
    case None => DefaultClassMapping
  }

  /** The label of a class the mapping does not name: `f'class_{i}'`. */
  function FallbackLabel(i: nat): (r: string)
    ensures StartsWith(r, "class_") && |r| > 6
    ensures forall k :: 6 <= k < |r| ==> '0' <= r[k] <= '9'
    ensures |r| > 7 ==> r[6] != '0'
    ensures DecimalValue(r[6..]) == i
  {
    var r := "class_" + NatToString(i);
    assert r[6..] == NatToString(i);
    r
  }

  /** The label of class `i`: its name in the mapping, else the fallback. */
  function LabelOf(mapping: map<int, string>, i: nat): string {
    if i in mapping then mapping[i] else FallbackLabel(i)
  }

  /** The label list: for a 3-class model, the labels of classes 0, 1, 2 in
      index order; for any other class count, the fixed 2-class list whatever
      the mapping says. */
  function Labels(nClasses: int, mapping: map<int, string>): (r: seq<string>)
    ensures nClasses == 3 ==> |r| == 3 && forall i :: 0 <= i < 3 ==> r[i] == LabelOf(mapping, i)
    ensures nClasses != 3 ==> r == TwoClassLabels
  {
    if nClasses == 3 then seq(3, i requires 0 <= i < 3 => LabelOf(mapping, i))
    else TwoClassLabels
  }

  /** For a 3-class model, position `i` of the label list names class `i`
      exactly as the mapping does, for every class the mapping names. */
  lemma ThreeClassLabelsFollowMapping(mapping: map<int, string>, i: int)
    requires 0 <= i < 3 && i in mapping
    ensures Labels(3, mapping)[i] == mapping[i]
  {
  }

  /** For a 3-class model, a class missing from the mapping is labelled
      `class_<i>`. */
  lemma ThreeClassLabelsFallBack(mapping: map<int, string>, i: int)
    requires 0 <= i < 3 && i !in mapping
    ensures Labels(3, mapping)[i] == "class_" + [DigitChar(i)]
  {
  }

  /** For any other class count the mapping has no influence. */
  lemma OtherLabelsIgnoreMapping(nClasses: int, m1: map<int, string>, m2: map<int, string>)
    requires nClasses != 3
    ensures Labels(nClasses, m1) == Labels(nClasses, m2)
    ensures |Labels(nClasses, m1)| == 2
  {
  }

  /** With nothing recorded, the label list is the default mapping read in
      index order. */
  lemma DefaultLabelsMatchDefaultMapping(i: int)
    requires 0 <= i < 2
    ensures var labels := Labels(ClassCount(None), ClassMapping(None));
      i in ClassMapping(None) && labels[i] == ClassMapping(None)[i]
  {
  }

  /** The worked 3-class example. */
  lemma ThreeClassExample()
    ensures Labels(3, map[0 := "not_accessible", 1 := "limited", 2 := "accessible"])
      == ["not_accessible", "limited", "accessible"]
  {
  }

  /** A 3-class model with the default 2-class mapping gets a fallback for
      its third label. */
  lemma ThreeClassDefaultMappingExample()
    ensures Labels(3, DefaultClassMapping) == ["not_accessible", "accessible", "class_2"]
  {
    assert NatToString(2) == ['2'];
    assert FallbackLabel(2) == "class_2";
    var labels := Labels(3, DefaultClassMapping);
    assert labels[0] == "not_accessible" && labels[1] == "accessible" && labels[2] == "class_2";
  }
}
