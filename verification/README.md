# Accessibility model conversion: encoding, importance and label derivation

The conversion script `ml-service/convert_to_onnx.py` turns a trained
accessibility classifier into an inference graph. It also writes a JSON
configuration that tells the web runtime how to encode OpenStreetMap tag data
into the feature vector. This project models the pure part of that script:
how each field of the configuration is derived from the loaded artifact.
The model proves properties of it.

- `Strings`: the Python string operations the script uses. These are
  `startswith`, the `in` substring test, `lower`, `replace`, `split('_', 1)`
  and the decimal rendering inside `f'class_{i}'`.
- `Encoding`: `generate_encoding_info`. A column starting with `has_`
  becomes a presence record `{column, "tags." + the column with every
  `has_` removed}`. A column `<tag>_<value>` becomes
  `categorical_features[tag][value] = column`. Any other column is dropped.
- `Importance`: the feature-importance map. With native importances, it keeps
  the strictly positive ones, keyed by their column. Without them, it uses the
  keyword heuristic. Its categories are a `Tier` enum; `Weight` gives the
  script's constants 0.15 / 0.12 / 0.08 / 0.05 / 0.01 as exact decimals.
- `Labels`: the defaults for `n_classes` and `class_mapping`, and the ordered
  label list.
- `Conversion`: the assembled configuration document. It also states where
  the run can fail.
- `Wrappers`: `Option` (a value the artifact may not record) and `Result`
  (the `IndexError` the native filter can raise).

Points where the code behaves differently from what a reader might expect,
all of which the model keeps:
- Line 187 calls `col.replace('has_', '')`. That removes every
  non-overlapping occurrence of `has_`, scanning from the left, not only the
  prefix. So `has_has_x` is read as the tag `x`.
- The comment on line 85 says non-zero importances are kept. The test on the
  same line is `importance > 0`, so only strictly positive importances are
  kept, and a negative one is dropped.
- Line 86 indexes `feature_columns[idx]` for every positive importance. A
  positive importance past the last column therefore raises `IndexError`.
  That happens after the graph file is written (line 77) and before the
  configuration is written (line 146).
- The positive vocabulary on lines 95-98 lists `automatic_door` and
  `toilets_wheelchair`. Both also contain the listed words `door` and
  `wheelchair`, so the two longer entries never change a classification.

## Model

| member | source | states |
|---|---|---|
| Strings.Contains | ml-service/convert_to_onnx.py:107-111 | `w in s` holds exactly when `w` occurs in `s` at some index |
| Strings.ContainsAny | ml-service/convert_to_onnx.py:107-111 | `any(w in s for w in words)` holds exactly when some word of the vocabulary occurs in `s` |
| Strings.Replace | ml-service/convert_to_onnx.py:187 | a string without the pattern is returned unchanged, and removing the pattern never makes the string longer |
| Strings.ReplaceLeading | ml-service/convert_to_onnx.py:187 | a leading occurrence is replaced and the scan resumes right after it |
| Strings.ReplaceSkip | ml-service/convert_to_onnx.py:187 | a stretch at whose indexes no occurrence starts is copied unchanged, and the scan resumes right after it; with `ReplaceLeading` and the no-occurrence case this fixes the result of `replace` on every input |
| Strings.ReplaceSkipPrefix | ml-service/convert_to_onnx.py:187 | the first `k` characters, if no occurrence starts at any of them, are copied and the rest of the string is scanned on its own |
| Strings.Lower | ml-service/convert_to_onnx.py:105 | definition, no contract: `col.lower()` maps each ASCII capital to its small letter and keeps every other character |
| Strings.LowerIdempotent | ml-service/convert_to_onnx.py:105 | lower-casing twice gives the same string as lower-casing once |
| Strings.StartsWith | ml-service/convert_to_onnx.py:113 | definition, no contract: `s.startswith(p)` holds when `p` is no longer than `s` and equals its first `|p|` characters; it is also the test on line 185 |
| Strings.SplitFirst | ml-service/convert_to_onnx.py:195-198 | two parts exactly when the column holds `_`; the column is then head + `_` + tail, and the head holds no `_` |
| Strings.SplitFirstJoin | ml-service/convert_to_onnx.py:195-198 | the split is unique: splitting head + `_` + tail gives back (head, tail) whenever the head holds no `_` |
| Strings.NatToString | ml-service/convert_to_onnx.py:125 | the rendering of a class index is a non-empty digit string without a leading zero whose decimal value is the index |
| Encoding.GenerateEncodingInfo | ml-service/convert_to_onnx.py:174-205 | the presence records are exactly the `has_` columns, in column order, each with tag `tags.` + its column with `has_` removed; every one-hot entry `[t][v]` is the non-presence column `t_v`, and `t` holds no `_`; every non-presence column holding `_` is recorded at its first-underscore split |
| Encoding.IsPresenceColumn | ml-service/convert_to_onnx.py:185 | definition, no contract: `col.startswith('has_')`, case-sensitive |
| Encoding.PresenceTagName | ml-service/convert_to_onnx.py:187 | definition, no contract: `col.replace('has_', '')`, the column with every occurrence of `has_` removed |
| Encoding.PresenceRecord | ml-service/convert_to_onnx.py:188-191 | definition, no contract: the record `{column: col, tag: "tags." + its tag name}` |
| Encoding.AddCategorical | ml-service/convert_to_onnx.py:195-203 | definition, no contract: the one-hot branch of the loop body, which splits the column at its first `_`, creates the inner map for a new tag and writes the column under its value; a column without `_` leaves the map unchanged |
| Encoding.AddColumn | ml-service/convert_to_onnx.py:185-203 | definition, no contract: one loop iteration, which appends a presence record for a `has_` column, records an underscored column as one-hot, and leaves the state unchanged otherwise |
| Encoding.PresenceColumnsAppend | ml-service/convert_to_onnx.py:184-191 | the presence columns of a concatenation are those of each part, concatenated: the relative order of `feature_columns` is kept |
| Encoding.EncodingIgnoresUsefulFeatures | ml-service/convert_to_onnx.py:174-184 | the encoding depends on `feature_columns` alone; `useful_features` has no effect |
| Encoding.CategoricalRoundTrip | ml-service/convert_to_onnx.py:192-203 | for every one-hot entry `[t][v]`, the recorded column is a non-presence feature column that splits back to exactly `(t, v)` |
| Encoding.DroppedColumn | ml-service/convert_to_onnx.py:192-203 | a column with neither the `has_` prefix nor an underscore appears nowhere in the output |
| Encoding.PresenceTagOfPrefixed | ml-service/convert_to_onnx.py:185-191 | for `has_<name>` where `name` itself holds no `has_`, the tag is `tags.<name>` |
| Encoding.PresenceTagRemovesInnerPrefix | ml-service/convert_to_onnx.py:187 | inner occurrences are removed too: `has_has_x` gets the tag `tags.x` |
| Encoding.EncodingExample | ml-service/convert_to_onnx.py:184-203 | `has_elevator` gives `{has_elevator, tags.elevator}` and `amenity_cafe` gives `categorical_features["amenity"]["cafe"] == "amenity_cafe"` |
| Importance.Classify | ml-service/convert_to_onnx.py:104-114 | on the lower-cased column, the first matching rule wins: a positive word, else a negative word, else a place-type word, else the `has_` prefix, else the base category |
| Importance.PositiveWords | ml-service/convert_to_onnx.py:95-98 | definition, no contract: the eleven positive words, in the source's order |
| Importance.NegativeWords | ml-service/convert_to_onnx.py:99 | definition, no contract: the six negative words, in the source's order |
| Importance.PlaceTypeWords | ml-service/convert_to_onnx.py:100 | definition, no contract: the six place-type words, in the source's order |
| Importance.Weight | ml-service/convert_to_onnx.py:104-114 | definition, no contract: the weights 0.15, 0.12, 0.08, 0.05 and 0.01 of the five categories, as exact decimals |
| Importance.Kept | ml-service/convert_to_onnx.py:116-117 | the `importance > 0.01` filter keeps every category except the base one |
| Importance.HeuristicImportances | ml-service/convert_to_onnx.py:102-117 | a column is a key exactly when it is a feature column outside the base category, and its value is its category |
| Importance.HeuristicValues | ml-service/convert_to_onnx.py:102-117 | every key is a feature column, and every value weighs 0.15, 0.12, 0.08 or 0.05 |
| Importance.ClassifyIgnoresCase | ml-service/convert_to_onnx.py:105-113 | a column and its lower-case form fall in the same category |
| Importance.PositiveVocabularyRedundancy | ml-service/convert_to_onnx.py:95-98 | `automatic_door` and `toilets_wheelchair` contain `door` and `wheelchair`, so leaving them out of the positive vocabulary changes no classification |
| Importance.ClassifyHasRamp | ml-service/convert_to_onnx.py:104-108 | `has_ramp` is in the positive category (0.15), ahead of its presence prefix |
| Importance.ClassifyStairsPresent | ml-service/convert_to_onnx.py:104-110 | `stairs_present` is in the negative category (0.12) |
| Importance.ClassifyRandomFlag | ml-service/convert_to_onnx.py:104-117 | `random_flag_7` is in the base category and absent from the heuristic map |
| Importance.NativeImportances | ml-service/convert_to_onnx.py:82-86 | fails exactly when a positive importance has no column, naming the first such index; otherwise a column is a key exactly when some index naming it has a positive importance, and its value is the importance at the last such index |
| Importance.NativeImportancesAligned | ml-service/convert_to_onnx.py:82-86 | with distinct columns and no surplus importances, column `i` is a key exactly when importance `i` is positive, with that value unchanged |
| Importance.NativeImportancesExample | ml-service/convert_to_onnx.py:84-86 | importances `[0.2, 0.0]` keep the first column and omit the second |
| Labels.ClassCount | ml-service/convert_to_onnx.py:45 | the recorded class count, or 2 when none is recorded |
| Labels.ClassMapping | ml-service/convert_to_onnx.py:46 | the recorded mapping, or `{0: not_accessible, 1: accessible}` when none is recorded |
| Labels.FallbackLabel | ml-service/convert_to_onnx.py:125 | the label of an unnamed class is `class_` followed by at least one character; every character after `class_` is a digit, the digits have no leading zero, and their decimal value is the index |
| Labels.LabelOf | ml-service/convert_to_onnx.py:125 | definition, no contract: the mapping's name for a class, or the fallback label when the mapping lacks the class |
| Labels.Labels | ml-service/convert_to_onnx.py:124-127 | a 3-class model has three labels, the label of class i at index i; every other class count has exactly `[not_accessible, accessible]` |
| Labels.ThreeClassLabelsFollowMapping | ml-service/convert_to_onnx.py:124-125 | for a 3-class model, index i of the label list is the mapping's name for class i |
| Labels.ThreeClassLabelsFallBack | ml-service/convert_to_onnx.py:125 | for a 3-class model, a class `i` the mapping lacks is labelled exactly `class_` followed by the single digit of `i` |
| Labels.OtherLabelsIgnoreMapping | ml-service/convert_to_onnx.py:126-127 | for any other class count, the label list has two entries and the mapping has no influence on it |
| Labels.DefaultLabelsMatchDefaultMapping | ml-service/convert_to_onnx.py:124-127 | with no class count or mapping recorded, index i of the label list is the default mapping's name for class i |
| Labels.ThreeClassExample | ml-service/convert_to_onnx.py:124-125 | `{0: not_accessible, 1: limited, 2: accessible}` with 3 classes gives `[not_accessible, limited, accessible]` |
| Labels.ThreeClassDefaultMappingExample | ml-service/convert_to_onnx.py:124-125 | a 3-class model with the default mapping gets `class_2` as its third label |
| Conversion.FeatureImportancesOf | ml-service/convert_to_onnx.py:80-121 | native importances are used exactly when the estimator has them, and only that path can fail; otherwise the heuristic map is used |
| Conversion.BuildConfig | ml-service/convert_to_onnx.py:131-143 | the document is produced unless the native filter fails; it keeps the artifact's model name, `feature_columns` in their exact order, and `useful_features`; it fixes the tensor names and derives labels, mapping and encoding as above; its importances are exactly the successful result of `FeatureImportancesOf` for the artifact's estimator and columns |
| Conversion.ImportanceKeysAreColumns | ml-service/convert_to_onnx.py:80-121 | every key of the importance map in the document is a feature column |
| Conversion.PresencePrefixCaseMismatch | ml-service/convert_to_onnx.py:105-113 | the heuristic tests `has_` on the lower-cased column, but the encoding at line 185 does not: `HAS_X` weighs as a presence flag yet is encoded as the one-hot column of `HAS=X` |

## Left out

- Artifact location (lines 18-30): the existence checks on the three candidate paths are filesystem state.
- Artifact loading with `joblib.load` (line 36): deserialisation by a foreign library. The artifact arrives as an `Artifact` value.
- The training metrics (lines 42, 136): an opaque record passed through unchanged, so it is not part of `Artifact` or `Config`.
- Class-mapping key normalisation `int(k)` (line 49): a recorded mapping is taken to have integer keys already.
- Graph conversion with `convert_sklearn` (lines 59-69): a third-party converter. This covers the input shape, opset 12 and the `zipmap` option. Only the fixed tensor names reach the document.
- Directory creation, file writes, `SerializeToString` and `json.dump` (lines 72-78, 145-147): I/O.
- The onnxruntime smoke test (lines 150-169): a foreign runtime. Its failures are caught and reported only.
- All `print` output.
- The `try/except` around the heuristic (lines 91, 120-121): nothing in the modelled body can fail, so the handler is unreachable in the model.
- Float importances: an importance is a `real`, so NaN and infinities are not modelled. `float(importance)` is the identity.
- Strings.Replace: modelled only for a non-empty pattern. Python's behaviour for an empty pattern is not modelled, because the script always passes `has_`.
- Strings.Lower: changes only the ASCII letters A-Z. Python's Unicode case mapping, including mappings that change length, is not modelled.
- `categorical_features`, `feature_importances` and `class_mapping` are maps, so the insertion order that `json.dump` writes for them (lines 145-147) is not modelled. Nothing in the script reads that order; the order of `has_features` and `feature_columns`, which are lists, is modelled.
- `n_classes`: modelled as an integer. Python compares any stored object with `== 3`.
