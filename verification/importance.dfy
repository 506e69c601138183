/** The feature-importance map written into the configuration: either the
    estimator's own importances filtered to the positive ones, or, for an
    estimator without them, a fixed keyword heuristic over column names. */
module Importance {
  import opened Wrappers
  import opened Strings
  import Encoding

  /** The heuristic categories, in the priority in which they are tried. */
  datatype Tier = AccessibilityPositive | AccessibilityNegative | PlaceType | PresenceFlag | Base

  /** The importance the script assigns to each category. */
  function Weight(t: Tier): real {
    match t
    case AccessibilityPositive => 0.15
    case AccessibilityNegative => 0.12
    case PlaceType => 0.08
    case PresenceFlag => 0.05
    case Base => 0.01
  }

  const PositiveWords: seq<string> := [
    "automatic_door", "toilets_wheelchair", "ramp", "elevator", "tactile_paving",
    "hearing_loop", "wheelchair", "accessible", "ground", "entrance", "door"]

  const NegativeWords: seq<string> := ["stairs", "step_count", "barrier", "kerb", "upper", "basement"]

  const PlaceTypeWords: seq<string> := ["amenity", "shop", "tourism", "healthcare", "building", "leisure"]

  /** The category of a column: the first of the three vocabularies with a
      word occurring in the lower-cased column, else the presence prefix
      (matched against the lower-cased column, unlike the encoding), else the
      base category. */
  function Classify(col: string): (t: Tier)
    ensures var low := Lower(col);
      && (t == AccessibilityPositive <==> MentionsAny(low, PositiveWords))
      && (t == AccessibilityNegative <==> !MentionsAny(low, PositiveWords) && MentionsAny(low, NegativeWords))
      && (t == PlaceType <==>
            !MentionsAny(low, PositiveWords) && !MentionsAny(low, NegativeWords) && MentionsAny(low, PlaceTypeWords))
      && (t == PresenceFlag <==>
            !MentionsAny(low, PositiveWords) && !MentionsAny(low, NegativeWords) && !MentionsAny(low, PlaceTypeWords)
            && StartsWith(low, Encoding.PresencePrefix))
  {
    var low := Lower(col);
    if ContainsAny(low, PositiveWords) then AccessibilityPositive
    else if ContainsAny(low, NegativeWords) then AccessibilityNegative
    else if ContainsAny(low, PlaceTypeWords) then PlaceType
    else if StartsWith(low, Encoding.PresencePrefix) then PresenceFlag
    else Base
  }

  /** Only categories weighing more than the base one are kept
      (`importance > 0.01`): every category but the base one. */
  predicate Kept(t: Tier): (b: bool)
    ensures b <==> t != Base
  {
    Weight(t) > Weight(Base)
  }

  /** The heuristic importance map built by the loop over the columns; a
      repeated column is classified the same way each time. */
  function HeuristicImportances(featureColumns: seq<string>): (r: map<string, Tier>)
    ensures forall k :: k in r <==> k in featureColumns && Classify(k) != Base
    ensures forall k :: k in r ==> r[k] == Classify(k)
  {
    if |featureColumns| == 0 then map[]
    else
      var init := featureColumns[..|featureColumns| - 1];
      var col := featureColumns[|featureColumns| - 1];
      assert featureColumns == init + [col];
      var m := HeuristicImportances(init);
      var t := Classify(col);
      if Kept(t) then m[col := t] else m
  }

  /** The error the native filter can raise: a positive importance whose
      index has no feature column (Python's IndexError). */
  datatype ImportanceError = FeatureIndexOutOfRange(index: nat)

  /** `i` is the last index naming column `k` with a positive importance:
      the write that survives in the dictionary. */
  ghost predicate IsLastPositive(importances: seq<real>, featureColumns: seq<string>, k: string, i: int) {
    && 0 <= i < |importances| && i < |featureColumns|
    && featureColumns[i] == k && importances[i] > 0.0
    && forall j :: i < j < |importances| && j < |featureColumns| && featureColumns[j] == k ==> importances[j] <= 0.0
  }

  /** Some index names column `k` with a positive importance. */
  ghost predicate HasPositive(importances: seq<real>, featureColumns: seq<string>, k: string) {
    exists i :: 0 <= i < |importances| && i < |featureColumns| && featureColumns[i] == k && importances[i] > 0.0
  }

  /** Some positive importance has no column. */
  ghost predicate PositiveBeyondColumns(importances: seq<real>, featureColumns: seq<string>) {
    exists i :: |featureColumns| <= i < |importances| && importances[i] > 0.0
  }

  lemma NativeStepFailure(init: seq<real>, x: real, featureColumns: seq<string>)
    ensures PositiveBeyondColumns(init + [x], featureColumns) <==>
      PositiveBeyondColumns(init, featureColumns) || (|init| >= |featureColumns| && x > 0.0)
  {
    var s := init + [x];
    if PositiveBeyondColumns(s, featureColumns) {
      var i :| |featureColumns| <= i < |s| && s[i] > 0.0;
      if i < |init| {
        assert init[i] == s[i];
      }
    }
    if PositiveBeyondColumns(init, featureColumns) {
      var i :| |featureColumns| <= i < |init| && init[i] > 0.0;
      assert s[i] == init[i];
    }
    if |init| >= |featureColumns| && x > 0.0 {
      assert s[|init|] == x;
    }
  }

  lemma NativeStepKeys(init: seq<real>, x: real, featureColumns: seq<string>, m: map<string, real>)
    requires |init| < |featureColumns| || x <= 0.0
    requires forall k :: k in m <==> HasPositive(init, featureColumns, k)
    ensures var m' := if x > 0.0 then m[featureColumns[|init|] := x] else m;
      forall k :: k in m' <==> HasPositive(init + [x], featureColumns, k)
  {
    var s := init + [x];
    forall k
      ensures HasPositive(s, featureColumns, k) <==>
        HasPositive(init, featureColumns, k) || (x > 0.0 && featureColumns[|init|] == k)
    {
      if HasPositive(s, featureColumns, k) {
        var i :| 0 <= i < |s| && i < |featureColumns| && featureColumns[i] == k && s[i] > 0.0;
        if i < |init| {
          assert init[i] == s[i];
        }
      }
      if HasPositive(init, featureColumns, k) {
        var i :| 0 <= i < |init| && i < |featureColumns| && featureColumns[i] == k && init[i] > 0.0;
        assert s[i] == init[i];
      }
      if x > 0.0 && featureColumns[|init|] == k {
        assert s[|init|] == x;
      }
    }
  }

  lemma NativeStepValues(init: seq<real>, x: real, featureColumns: seq<string>, m: map<string, real>)
    requires |init| < |featureColumns| || x <= 0.0
    requires forall k :: k in m ==> exists i :: IsLastPositive(init, featureColumns, k, i) && m[k] == init[i]
    ensures var m' := if x > 0.0 then m[featureColumns[|init|] := x] else m;
      forall k :: k in m' ==> exists i :: IsLastPositive(init + [x], featureColumns, k, i) && m'[k] == (init + [x])[i]
  {
    var s := init + [x];
    var m' := if x > 0.0 then m[featureColumns[|init|] := x] else m;
    forall k | k in m'
      ensures exists i :: IsLastPositive(s, featureColumns, k, i) && m'[k] == s[i]
    {
      if x > 0.0 && featureColumns[|init|] == k {
        assert IsLastPositive(s, featureColumns, k, |init|);
      } else {
        var i :| IsLastPositive(init, featureColumns, k, i) && m[k] == init[i];
        assert s[i] == init[i];
        assert IsLastPositive(s, featureColumns, k, i);
      }
    }
  }

  /** The native filter: `feature_importances[feature_columns[idx]] = importance`
      for every strictly positive importance, in index order. */
  function NativeImportances(importances: seq<real>, featureColumns: seq<string>): (r: Result<map<string, real>, ImportanceError>)
    ensures r.Failure? <==> PositiveBeyondColumns(importances, featureColumns)
    ensures r.Failure? ==>
      var i := r.error.index;
      && |featureColumns| <= i < |importances| && importances[i] > 0.0
      && !PositiveBeyondColumns(importances[..i], featureColumns)
    ensures r.Success? ==> forall k :: k in r.value <==> HasPositive(importances, featureColumns, k)
    ensures r.Success? ==> forall k :: k in r.value ==>
      exists i :: IsLastPositive(importances, featureColumns, k, i) && r.value[k] == importances[i]
  {
    if |importances| == 0 then Success(map[])
    else
      var n := |importances| - 1;
      var init := importances[..n];
      var x := importances[n];
      assert importances == init + [x];
      NativeStepFailure(init, x, featureColumns);
      match NativeImportances(init, featureColumns)
      case Failure(e) =>
        assert importances[..e.index] == init[..e.index];
        Failure(e)
      case Success(m) =>
        if x > 0.0 && n >= |featureColumns| then
          assert importances[..n] == init;
          Failure(FeatureIndexOutOfRange(n))
        else
          NativeStepKeys(init, x, featureColumns, m);
          NativeStepValues(init, x, featureColumns, m);
          Success(if x > 0.0 then m[featureColumns[n] := x] else m)
  }

  /** Every value of the heuristic map is one of the four kept weights, and
      every key is a feature column. */
  lemma HeuristicValues(featureColumns: seq<string>, k: string)
    requires k in HeuristicImportances(featureColumns)
    ensures k in featureColumns
    ensures Weight(HeuristicImportances(featureColumns)[k]) in {0.15, 0.12, 0.08, 0.05}
  {
  }

  /** The heuristic is case-insensitive: a column and its lower-case form
      fall in the same category. */
  lemma ClassifyIgnoresCase(col: string)
    ensures Classify(Lower(col)) == Classify(col)
  {
    LowerIdempotent(col);
  }

  /** The positive vocabulary without its two entries that contain another
      entry (`automatic_door` contains `door`, `toilets_wheelchair` contains
      `wheelchair`). */
  const IrredundantPositiveWords: seq<string> := [
    "ramp", "elevator", "tactile_paving", "hearing_loop", "wheelchair", "accessible", "ground", "entrance", "door"]

  /** Dropping the two subsumed entries changes no classification. */
  lemma PositiveVocabularyRedundancy(s: string)
    ensures MentionsAny(s, PositiveWords) <==> MentionsAny(s, IrredundantPositiveWords)
  {
    if MentionsAny(s, PositiveWords) {
      var j :| 0 <= j < |PositiveWords| && Occurs(s, PositiveWords[j]);
      if j == 0 {
        assert OccursAt("automatic_door", "door", 10);
        OccursTransitive(s, "automatic_door", "door");
        assert IrredundantPositiveWords[8] == "door";
      } else if j == 1 {
        assert OccursAt("toilets_wheelchair", "wheelchair", 8);
        OccursTransitive(s, "toilets_wheelchair", "wheelchair");
        assert IrredundantPositiveWords[4] == "wheelchair";
      } else {
        assert IrredundantPositiveWords[j - 2] == PositiveWords[j];
      }
    }
    if MentionsAny(s, IrredundantPositiveWords) {
      var j :| 0 <= j < |IrredundantPositiveWords| && Occurs(s, IrredundantPositiveWords[j]);
      assert PositiveWords[j + 2] == IrredundantPositiveWords[j];
    }
  }

  /** Column names are distinct. */
  ghost predicate Distinct(featureColumns: seq<string>) {
    forall i, j :: 0 <= i < j < |featureColumns| ==> featureColumns[i] != featureColumns[j]
  }

  /** With distinct columns and no importance beyond them, the native map holds
      column `i` exactly when importance `i` is positive, with that value. */
  lemma NativeImportancesAligned(importances: seq<real>, featureColumns: seq<string>, i: int)
    requires |importances| <= |featureColumns| && Distinct(featureColumns)
    requires 0 <= i < |importances|
    ensures NativeImportances(importances, featureColumns).Success?
    ensures var m := NativeImportances(importances, featureColumns).value;
      && (featureColumns[i] in m <==> importances[i] > 0.0)
      && (importances[i] > 0.0 ==> m[featureColumns[i]] == importances[i])
  {
    var m := NativeImportances(importances, featureColumns).value;
    if featureColumns[i] in m {
      var i' :| IsLastPositive(importances, featureColumns, featureColumns[i], i') && m[featureColumns[i]] == importances[i'];
      assert i' == i;
    }
    if importances[i] > 0.0 {
      assert HasPositive(importances, featureColumns, featureColumns[i]);
    }
  }

  /** `has_ramp` names a ramp: the positive category, weight 0.15, even though
      it is also a presence flag. */
  lemma ClassifyHasRamp()
    ensures Classify("has_ramp") == AccessibilityPositive
    ensures Weight(Classify("has_ramp")) == 0.15
  {
    LowerOfLowerCase("has_ramp");
    assert OccursAt("has_ramp", "ramp", 4);
    assert PositiveWords[2] == "ramp";
  }

  /** `stairs_present` names stairs: the negative category, weight 0.12. */
  lemma ClassifyStairsPresent()
    ensures Classify("stairs_present") == AccessibilityNegative
    ensures Weight(Classify("stairs_present")) == 0.12
  {
    var col := "stairs_present";
    LowerOfLowerCase(col);
    NotPositiveStairsPresent();
    assert OccursAt(col, "stairs", 0);
    assert NegativeWords[0] == "stairs";
    assert MentionsAny(Lower(col), NegativeWords);
  }

  lemma NotPositiveStairsPresent()
    ensures !MentionsAny("stairs_present", PositiveWords)
  {
    // For each word, the index of a character the column lacks.
    NoWordMentioned("stairs_present", PositiveWords, [1, 1, 2, 1, 2, 0, 0, 1, 0, 6, 0]);
  }

  lemma NotPositiveRandomFlag(col: string)
    requires col == "random_flag_7"
    ensures !MentionsAny(Lower(col), PositiveWords)
  {
    LowerOfLowerCase(col);
    var withoutDoor := PositiveWords[..10];
    // For each word, the index of a character the column lacks.
    NoWordMentioned(col, withoutDoor, [1, 0, 3, 0, 0, 0, 0, 1, 3, 0]);
    assert !Occurs(col, "door") by {
      forall i: nat
        ensures !OccursAt(col, "door", i)
      {
        if i + 4 <= |col| {
          assert col[i..i + 4][1] == col[i + 1];
          assert col[i..i + 4][2] == col[i + 2];
        }
      }
    }
    forall j | 0 <= j < |PositiveWords|
      ensures !Occurs(col, PositiveWords[j])
    {
      if j < 10 {
        assert withoutDoor[j] == PositiveWords[j];
      }
    }
  }

  lemma NotNegativeOrPlaceRandomFlag(col: string)
    requires col == "random_flag_7"
    ensures !MentionsAny(Lower(col), NegativeWords)
    ensures !MentionsAny(Lower(col), PlaceTypeWords)
    ensures !StartsWith(Lower(col), Encoding.PresencePrefix)
  {
    LowerOfLowerCase(col);
    // For each word, the index of a character the column lacks.
    NoWordMentioned(col, NegativeWords, [0, 0, 0, 0, 0, 0]);
    NoWordMentioned(col, PlaceTypeWords, [2, 0, 0, 0, 0, 1]);
    assert col[0] != Encoding.PresencePrefix[0];
  }

  /** `random_flag_7` matches no vocabulary and has no presence prefix: the
      base category, left out of the heuristic map. */
  lemma ClassifyRandomFlag()
    ensures Classify("random_flag_7") == Base
    ensures "random_flag_7" !in HeuristicImportances(["random_flag_7"])
  {
    var col := "random_flag_7";
    NotPositiveRandomFlag(col);
    NotNegativeOrPlaceRandomFlag(col);
  }

  /** A positive importance is kept and a zero one dropped. */
  lemma NativeImportancesExample()
    ensures NativeImportances([0.2, 0.0], ["ramp_yes", "shop_bakery"]) == Success(map["ramp_yes" := 0.2])
  {
    var imps := [0.2, 0.0];
    var cols := ["ramp_yes", "shop_bakery"];
    assert imps[..1] == [0.2];
    assert [0.2][..0] == [];
    assert NativeImportances([0.2], cols) == Success(map["ramp_yes" := 0.2]);
  }
}
