# Feature extraction for drug–drug interaction pairs

This project models `extract_features` from `session4/extract-features.py`.
For one parsed sentence and one pair of drug mentions `e1` and `e2`, it
returns the set of `name=value` features that describe the pair:

- the word, lower-cased lemma and tag of each mention's head token;
- the signed surface distance between the heads;
- the first non-stopword after the first head (`lib`, `wib`, `lpib`);
- whether another mention lies between the heads (`eib`);
- when the heads have a lowest common ancestor in the dependency tree, the
  syntactic block: the path strings through that ancestor, their lengths,
  the ancestor's tag, lemma and relation, the size of its subtree, the tag
  and relation sequences along the path, whether a mention lies on the path
  (`eip`), and one flag per verb class of `VERB_LISTS`.

The model has six modules:

- `Wrappers` (`wrappers.dfy`) defines `Option`.
- `Text` (`text.dfy`) defines the string operations the extractor uses:
  `lower()`, `sep.join`, `str(int)` and `str(bool)`. It also defines
  `split` and `int()`, which the extractor never calls: they are the
  inverses used to state what `sep.join` and `str(int)` produce, and the
  module proves that integers read back from their text and that split
  undoes join.
- `DependencyTree` (`deptree.dfy`) is the parse, as the extractor sees it.
  It holds the tokens by position, plus the answers of the parser's
  queries: head of a span, lowest common ancestor, up path and down path.
  The contract the extractor relies on is stated as `Valid`, and is not
  proved.
- `FeatureExtraction` (`features.dfy`) holds two versions of the extractor.
  - `Features` is a declarative definition of the result. Feature names
    are the datatype `Name` and values are strings; `Render` gives
    `name=value`, and `ParseFeature` reads it back, so distinct features
    print as distinct strings.
  - `ExtractFeatures` is the extractor step by step. It grows a feature
    set, runs the stopword `while` loop, the `eib` loop, the verb loop and
    the loop over the verb classes, and is proved to return exactly
    `Features`.
- `FeatureProperties` (`properties.dfy`) proves what the result says,
  feature by feature. `FeaturesByName` shows that the result is exactly a
  table of one value per name, and the lemmas that follow characterise
  each value.
- `FeatureScenario` (`scenario.dfy`) works through the sentence "Drug may
  increase effect of Warfarin" and gives the features of its one pair.

## Model

| member | source | states |
|---|---|---|
| FeatureExtraction.ExtractFeatures | session4/extract-features.py:15-133 | the extractor, step by step, returns exactly `Features`: empty when a head is unresolved or the stopword scan fails, the early features without a lowest common ancestor, and the early features plus the syntactic block with one |
| FeatureExtraction.ScanFirstContent | session4/extract-features.py:53-58 | the stopword `while` loop returns the position `FirstContent` specifies, or the failure when a lookup fails first |
| FeatureExtraction.ScanEntityBetween | session4/extract-features.py:66-69 | the `eib` loop sets the flag exactly when some position strictly between the heads is an entity |
| FeatureExtraction.CollectVerbsBetween | session4/extract-features.py:117-125 | the verb loop collects `VerbsIn` of the positions strictly between the heads; a failing lookup skips only its own position |
| FeatureExtraction.AddSyntacticFeatures | session4/extract-features.py:76-130 | the block run when the ancestor exists adds exactly the syntactic features `Syntax` defines to the features collected so far |
| FeatureExtraction.AddVerbClassFlags | session4/extract-features.py:128-130 | the loop over `VERB_LISTS` adds exactly one flag per verb class to the features collected so far, and nothing else |
| FeatureExtraction.ExtendFromContent | session4/extract-features.py:59-130 | once the scan stops at `tk`, adding the content-word, `eib` and (with an ancestor) syntactic features to the head and distance features gives exactly the result `FromContent` specifies |
| FeatureExtraction.Features | session4/extract-features.py:15-133 | the result of `extract_features` for ids that are keys of `entities`; `ExtractFeatures` returns it, `EmptyExactlyOnEarlyExit` says when it is empty and `FeaturesByName` says what every feature in it holds |
| FeatureExtraction.Vocabulary | session4/extract-features.py:16-21 | the verb set of each class of `VERB_LISTS`, verb for verb; `VerbClassFlags` states how the flags use it |
| FeatureExtraction.ClassText | session4/extract-features.py:16-21 | the key of each class of `VERB_LISTS`: non-empty and made of lower-case letters only, so a flag's name `<key>_verb_between` holds no "=" |
| FeatureExtraction.HeadOf | session4/extract-features.py:26-27 | a head that resolves is a token of the parse |
| FeatureExtraction.LexicalFeatures | session4/extract-features.py:32-46 | the six head features; `HeadFeatures` states their values |
| FeatureExtraction.BetweenWordFeatures | session4/extract-features.py:59-64 | the `lib`, `wib` and `lpib` features of the content word; `ContentWordFeatures` states their values |
| FeatureExtraction.EntityBetween | session4/extract-features.py:66-69 | some position strictly between the heads is an entity, which needs at least one position between them; `ScanEntityBetween` computes it and `EntityBetweenFeature` states the flag |
| FeatureExtraction.PathFeatures | session4/extract-features.py:77-94 | the path, length and ancestor features; `PathStrings`, `PathLengths` and `AncestorFeatures` state their values |
| FeatureExtraction.VerbAt | session4/extract-features.py:119-125 | what one step of the verb loop adds; `VerbsInMembers` states it |
| FeatureExtraction.VerbsIn | session4/extract-features.py:117-125 | the lemmas the verb loop collects; `CollectVerbsBetween` computes it and `VerbsInMembers` states exactly which lemmas it holds |
| FeatureExtraction.ParseRender | session4/extract-features.py:39-130 | every feature printed as `name=value` reads back as that feature: the name ends at the first "=", which no name holds |
| FeatureExtraction.RenderInjective | session4/extract-features.py:39-130 | two features print as the same string if and only if they are the same feature, so a set of features stands for the source's set of strings |
| FeatureExtraction.SubtreeNodes | session4/extract-features.py:97-102 | `get_subtree_nodes` starts with the root, holds at least one node per child plus the root, and every node it lists is a token |
| FeatureExtraction.FirstContent | session4/extract-features.py:53-58 | a position the scan stops at is at or after its start and is not a stopword |
| FeatureProperties.FirstContentIsFirst | session4/extract-features.py:53-58 | the scan stops at `k` if and only if `k` is the first non-stopword from the start on, with every position before it a stopword; the scan is not bounded by the second head |
| FeatureProperties.FirstContentFails | session4/extract-features.py:53-58 | the scan fails if and only if a failing lookup comes before any non-stopword |
| FeatureProperties.EmptyExactlyOnEarlyExit | session4/extract-features.py:26-58 | the result is empty if and only if a head is unresolved or the stopword scan fails; when both heads resolve and the scan stops, the result is not empty |
| FeatureProperties.FeaturesByName | session4/extract-features.py:15-133 | every feature in the result carries the value `ValueAt` gives its name, and every name `ValueAt` defines appears with exactly that value and no other |
| FeatureProperties.FromContentSound | session4/extract-features.py:32-130 | once the scan stops, every feature carries its name's value in the table |
| FeatureProperties.FromContentComplete | session4/extract-features.py:32-130 | once the scan stops, every name the table defines is present with its value |
| FeatureProperties.FeaturesSound | session4/extract-features.py:15-133 | when both heads resolve and the scan stops, every feature of the result carries the value `ValueAt` gives its name |
| FeatureProperties.EarlyAtValue | session4/extract-features.py:32-72 | every head, distance, content-word and `eib` feature carries the value its name has in the table |
| FeatureProperties.SyntaxAtValue | session4/extract-features.py:77-130 | with the ancestor `l`, every feature the syntactic block adds carries the value its name has in the table |
| FeatureProperties.CompleteWithoutAncestor | session4/extract-features.py:32-76 | without an ancestor, every early name is present with its table value |
| FeatureProperties.CompleteWithAncestor | session4/extract-features.py:32-130 | with the ancestor `l`, every early and every syntactic name is present with its table value |
| FeatureProperties.HeadFeatures | session4/extract-features.py:32-46 | the result holds each head's word, lower-cased lemma and tag, each as the only value of its name |
| FeatureProperties.DistanceFeature | session4/extract-features.py:49 | `distance` reads back as `tkE2 - tkE1 - 1`; it is "0" exactly for adjacent heads and negative exactly when the second head does not follow the first |
| FeatureProperties.ContentWordFeatures | session4/extract-features.py:53-64 | when `k` is the first non-stopword after the first head, `lib` is its lower-cased lemma, `wib` its word and `lpib` its lower-cased lemma, "_" and tag |
| FeatureProperties.EntityBetweenFeature | session4/extract-features.py:66-72 | `eib` is "True" if and only if some position strictly between the heads is an entity, "False" if and only if none is, and "False" when the heads are adjacent or reversed |
| FeatureProperties.NoAncestorNoSyntax | session4/extract-features.py:75-76 | without an ancestor the result is exactly the early features, and none of them is a path, subtree, `eip` or verb-class feature |
| FeatureProperties.EarlyIsNotSyntactic | session4/extract-features.py:32-72 | no feature added before the ancestor block has a syntactic name |
| FeatureProperties.PathStrings | session4/extract-features.py:77-87 | `path1` joins the up path's lemma_rel with "<", `path2` joins the down path's with ">", and `path` puts the ancestor's lemma_rel between them; lemmas are not lower-cased |
| FeatureProperties.AncestorFeatures | session4/extract-features.py:91-93 | `lcs_pos`, `lcs_lemma` and `lcs_rel` are the ancestor's tag, lemma (not lower-cased) and relation |
| FeatureProperties.PathLengths | session4/extract-features.py:88-90 | `path_up_len` and `path_down_len` read back as the path lengths, and `path_length` reads back as their sum plus one |
| FeatureProperties.IntFeature | session4/extract-features.py:49-105 | a feature whose table value is the text of an integer is present exactly once, and every copy reads back as that integer |
| FeatureProperties.PathSequences | session4/extract-features.py:107-110 | `path_pos_seq` and `path_rel_seq` join the tags and the relations of up path, ancestor and down path with "_"; when no part holds "_" they split back into exactly `|path1| + 1 + |path2|` parts |
| FeatureProperties.SubtreeSizeFeature | session4/extract-features.py:97-105 | `subtree_size` reads back as one plus the children's subtree sizes, so it is at least 1 |
| FeatureProperties.SubtreeSizeIsOnePlusChildren | session4/extract-features.py:97-102 | a subtree has one node more than its children's subtrees have together, so at least one |
| FeatureProperties.EntityOnPathFeature | session4/extract-features.py:112-115 | `eip` is "True" if and only if some node of the path, the ancestor included, is an entity, and "False" if and only if none is |
| FeatureProperties.VerbsInMembers | session4/extract-features.py:117-125 | the verb scan collects a lemma if and only if some position in the range holds a token tagged `VB…` whose lower-cased lemma it is |
| FeatureProperties.VerbClassFlags | session4/extract-features.py:16-21 | for each of the four classes exactly one flag is emitted, "True" if and only if some token strictly between the heads is tagged `VB…` and its lower-cased lemma is in that class's set |
| FeatureProperties.VerbClassTable | session4/extract-features.py:128-130 | the class loop emits one flag for every class of `VERB_LISTS` |
| FeatureProperties.AddSyntaxSound | session4/extract-features.py:84-130 | every feature the syntactic block adds to the base carries the value its name has in the table |
| FeatureProperties.AddSyntaxComplete | session4/extract-features.py:84-130 | the block keeps the base, and every syntactic name is present in it with its value |
| FeatureProperties.EarlySound | session4/extract-features.py:39-72 | every early feature carries the value its name has in the table |
| FeatureProperties.EarlyComplete | session4/extract-features.py:39-72 | every early name is present with its value |
| Text.ParseIntToString | session4/extract-features.py:49 | `str(i)` read back as an integer is `i` |
| Text.IntToStringZero | session4/extract-features.py:49 | `str(i)` is "0" if and only if `i` is 0 |
| Text.SplitJoin | session4/extract-features.py:107-108 | splitting `sep.join(parts)` at `sep` gives `parts` back when no part holds `sep` |
| Text.Lower | session4/extract-features.py:33 | `lower()` keeps the length, leaves no capital letter and leaves every other character as it is |
| Text.LowerOfLowerCase | session4/extract-features.py:33 | a string without capitals is unchanged by `lower()` |
| Text.Join | session4/extract-features.py:80-81 | `sep.join(parts)`; `SplitJoin` states that the parts come back out of it |
| Text.IntToString | session4/extract-features.py:49 | `str(i)` is not empty and starts with "-" exactly when `i` is negative; `ParseIntToString` states that it reads back as `i` |
| Text.BoolText | session4/extract-features.py:72 | `str(b)` for a flag: "True" or "False"; `EntityBetweenFeature`, `EntityOnPathFeature` and `VerbClassFlags` state which one each flag gets |
| FeatureScenario.SentenceDistance | session4/extract-features.py:49 | for "Drug may increase effect of Warfarin", `distance` is "4" |
| FeatureScenario.SentenceContentWord | session4/extract-features.py:53-64 | "may" is skipped, and `lib`, `wib` and `lpib` are "increase", "increase" and "increase_VBZ" |
| FeatureScenario.SentenceNoEntityBetween | session4/extract-features.py:66-72 | no mention lies between the heads, so `eib` is "False" |
| FeatureScenario.SentencePathLength | session4/extract-features.py:88 | with "increase" as the ancestor and ["effect"] as the down path, `path_length` is "2" |
| FeatureScenario.SentenceSubtreeSize | session4/extract-features.py:97-105 | the subtree of "increase" spans the sentence, so `subtree_size` is "6" |
| FeatureScenario.SentenceHeads | session4/extract-features.py:26-27 | the heads of the two mentions are "Drug" and "Warfarin" |
| FeatureScenario.OnlyIncreaseBetween | session4/extract-features.py:117-130 | when "increase" is the only verb collected between the heads, the effect flag is "True" and the other three are "False" |
| FeatureScenario.SentenceVerbClass | session4/extract-features.py:117-130 | only the effect flag is "True", because "increase" is an effect verb |

## Left out

- The main program (session4/extract-features.py:136-188) is not part of this model. It lists the corpus directory, parses the XML, builds the dependency analysis, skips sentences with at most one mention and prints one line per pair with a non-empty feature set. That is all I/O and calls into foreign libraries.
- The dependency parser and the `deptree` module are not part of this model. Head resolution, the lowest common ancestor, the up and down paths and the stopword verdict are answers stored in `DepTree`. Their contract (results are tokens; children have a smaller height, so the tree is acyclic) is the predicate `Valid`, which is assumed by the callers and not proved of any parser.
- `IsEntity` is a token whose character span lies inside some mention's span. The exact test `deptree` applies is not shown, so this is an assumption.
- A mention id that is not a key of `entities` makes lines 26-27 raise `KeyError`. `Features` and `ExtractFeatures` require both ids to be keys instead. The driver fills `entities` from the sentence's own `<entity>` elements (lines 158-163) and takes the ids from that sentence's `<pair>` elements (lines 179-183), and a pair names mentions of its own sentence.
- The exceptions of the tree lookups are modelled as `None`. The stopword lookup and the tag lookup fail at a position with no token, both past the end of the sentence and at an empty slot. `is_entity` inside the `eib` loop, which has no `try` in the source, is false there instead of raising.
- `Text.Lower`: does not model Unicode case mapping, because only the ASCII letters A–Z are lower-cased.
- `str(int)` is modelled as plain decimal notation with a leading "-" for negative numbers.
- The order in which Python iterates a set or `VERB_LISTS` does not matter, because the result is a set.
- `FeatureProperties.PathSequences`: the `|path1| + 1 + |path2|` component count is proved only when no tag (or relation) contains "_". When one does, Python's split of the joined string gives more parts.
- `FeatureScenario`: the scenario holds for every parse `IsSentence` describes; `SentenceExists` shows one such parse exists.
