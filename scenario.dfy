/**
 * A hand-built parse of "Drug may increase effect of Warfarin", with one
 * mention on "Drug" and one on "Warfarin", and the features the extractor
 * gives for that pair.
 */
module FeatureScenario {
  import opened Wrappers
  import opened Text
  import opened DependencyTree
  import opened FeatureExtraction
  import opened FeatureProperties

  /**
   * "increase" (2) is the root, with "Drug" (0), "may" (1) and "effect" (3)
   * below it; "Warfarin" (5) hangs from "effect" and "of" (4) from "Warfarin".
   * "may" and "of" are stopwords.
   */
  const Tokens: seq<Option<Token>> :=
    [Some(Token("Drug", "drug", "NN", "nsubj", 0, 3, false, [], 0)),
     Some(Token("may", "may", "MD", "aux", 5, 7, true, [], 0)),
     Some(Token("increase", "increase", "VBZ", "root", 9, 16, false, [0, 1, 3], 3)),
     Some(Token("effect", "effect", "NN", "dobj", 18, 23, false, [5], 2)),
     Some(Token("of", "of", "IN", "case", 25, 26, true, [], 0)),
     Some(Token("Warfarin", "warfarin", "NNP", "nmod", 28, 35, false, [4], 1))]

  /** The mention spans, by character offset. */
  const Mentions: map<string, Span> := map["e1" := Span(0, 3), "e2" := Span(28, 35)]

  /**
   * A parse of the sentence: the mentions' heads are "Drug" and
   * "Warfarin", their lowest common ancestor is "increase", the path up
   * from "Drug" is empty and the path down to "Warfarin" is ["effect"].
   */
  ghost predicate IsSentence(t: DepTree)
  {
    && Valid(t) && t.slots == Tokens
    && t.fragmentHead(0, 3) == Some(0) && t.fragmentHead(28, 35) == Some(5)
    && t.lcs(0, 5) == Some(2) && t.upPath(0, 2) == [] && t.downPath(2, 5) == [3]
  }

  /** The six words are tokens. */
  lemma SentenceTokens(t: DepTree)
    requires IsSentence(t)
    ensures Valid(t) && t.lcs(0, 5) == Some(2)
    ensures IsToken(t, 0) && IsToken(t, 1) && IsToken(t, 2) && IsToken(t, 3) && IsToken(t, 4) && IsToken(t, 5)
  {
  }

  /** Such a parse exists. */
  lemma SentenceExists()
    ensures IsSentence(DepTree(
      Tokens,
      (s: int, e: int) => if s == 0 && e == 3 then Some(0) else if s == 28 && e == 35 then Some(5) else None,
      (a: nat, b: nat) => if a == 0 && b == 5 then Some(2) else None,
      (a: nat, b: nat) => [],
      (a: nat, b: nat) => if a == 2 && b == 5 then [3] else []))
  {
    var t := DepTree(
      Tokens,
      (s: int, e: int) => if s == 0 && e == 3 then Some(0) else if s == 28 && e == 35 then Some(5) else None,
      (a: nat, b: nat) => if a == 0 && b == 5 then Some(2) else None,
      (a: nat, b: nat) => [],
      (a: nat, b: nat) => if a == 2 && b == 5 then [3] else []);
    forall i, k | IsToken(t, i) && 0 <= k < |TokenAt(t, i).children|
      ensures IsToken(t, TokenAt(t, i).children[k])
      ensures TokenAt(t, TokenAt(t, i).children[k]).height < TokenAt(t, i).height
    {
      assert i == 2 || i == 3 || i == 5;
    }
  }

  /** "may" is a stopword, so the first content word after "Drug" is "increase". */
  lemma SentenceScan(t: DepTree)
    requires IsSentence(t)
    ensures FirstContent(t, 1) == Some(2)
  {
  }

  /** The heads of the two mentions are "Drug" and "Warfarin". */
  lemma SentenceHeads(t: DepTree)
    requires IsSentence(t)
    ensures "e1" in Mentions && "e2" in Mentions
    ensures HeadOf(t, Mentions, "e1") == Some(0) && HeadOf(t, Mentions, "e2") == Some(5)
  {
  }

  /** Four tokens separate the heads. */
  lemma SentenceDistance(t: DepTree)
    requires IsSentence(t)
    ensures Has(Features(t, Mentions, "e1", "e2"), Distance, "4")
  {
    SentenceTokens(t);
    SentenceHeads(t);
    SentenceScan(t);
    assert IntToString(4) == "4";
    DistanceFeature(t, Mentions, "e1", "e2", 0, 5, 2);
  }

  /** The content word is "increase", a verb. */
  lemma SentenceContentWord(t: DepTree)
    requires IsSentence(t)
    ensures var r := Features(t, Mentions, "e1", "e2");
      Has(r, Lib, "increase") && Has(r, Wib, "increase") && Has(r, Lpib, "increase_VBZ")
  {
    LowerOfLowerCase("increase");
    assert "increase" + "_" + "VBZ" == "increase_VBZ";
    ContentWordFeatures(t, Mentions, "e1", "e2", 0, 5, 2);
  }

  /** No mention covers "may", "increase", "effect" or "of". */
  lemma NothingBetweenIsEntity(t: DepTree)
    requires IsSentence(t)
    ensures forall j: nat :: 0 < j < 5 ==> !IsEntity(t, Mentions, j)
  {
    forall j: nat | 0 < j < 5
      ensures !IsEntity(t, Mentions, j)
    {
      forall e | e in Mentions
        ensures !(Mentions[e].start <= TokenAt(t, j).start && TokenAt(t, j).end <= Mentions[e].end)
      {
        assert e == "e1" || e == "e2";
      }
    }
  }

  /** So the flag for a mention between the heads is "False". */
  lemma SentenceNoEntityBetween(t: DepTree)
    requires IsSentence(t)
    ensures Has(Features(t, Mentions, "e1", "e2"), Eib, "False")
  {
    SentenceScan(t);
    NothingBetweenIsEntity(t);
    EntityBetweenFeature(t, Mentions, "e1", "e2", 0, 5, 2);
  }

  /** The path is "increase" then "effect": two nodes. */
  lemma SentencePathLength(t: DepTree)
    requires IsSentence(t)
    ensures Has(Features(t, Mentions, "e1", "e2"), PathLength, "2")
  {
    SentenceScan(t);
    PathLengthValues(t, Mentions, 0, 5, 2, 2);
    assert IntToString(0 + 1 + 1) == "2";
    HasAt(t, Mentions, "e1", "e2", 0, 5, 2, PathLength, "2");
  }

  /** The subtree below "increase" is the whole sentence. */
  lemma SentenceSubtree(t: DepTree)
    requires IsSentence(t)
    ensures |SubtreeNodes(t, 2)| == 6
  {
    assert SubtreeNodes(t, 4) == [4];
    assert SubtreeNodes(t, 5) == [5, 4];
    assert SubtreeNodes(t, 3) == [3, 5, 4];
    assert SubtreeNodes(t, 0) == [0];
    assert SubtreeNodes(t, 1) == [1];
  }

  lemma SentenceSubtreeSize(t: DepTree)
    requires IsSentence(t)
    ensures Has(Features(t, Mentions, "e1", "e2"), SubtreeSize, "6")
  {
    SentenceScan(t);
    SentenceSubtree(t);
    SubtreeSizeValue(t, Mentions, 0, 5, 2, 2);
    assert IntToString(6) == "6";
    HasAt(t, Mentions, "e1", "e2", 0, 5, 2, SubtreeSize, "6");
  }

  /** "increase" is the only verb between the heads. */
  lemma SentenceVerbs(t: DepTree)
    requires IsSentence(t)
    ensures VerbsIn(t, 1, 5) == {"increase"}
  {
    LowerOfLowerCase("increase");
    assert !StartsWith("MD", "VB") by { assert "MD"[..2][0] != "VB"[0]; }
    assert !StartsWith("NN", "VB") by { assert "NN"[..2][0] != "VB"[0]; }
    assert !StartsWith("IN", "VB") by { assert "IN"[..2][0] != "VB"[0]; }
    assert StartsWith("VBZ", "VB");
    assert VerbAt(t, 1) == {} && VerbAt(t, 2) == {"increase"};
    assert VerbAt(t, 3) == {} && VerbAt(t, 4) == {};
    assert VerbsIn(t, 1, 2) == {};
    assert VerbsIn(t, 1, 3) == {"increase"};
    assert VerbsIn(t, 1, 4) == {"increase"};
  }

  /** "increase" belongs to the effect class and to no other. */
  lemma IncreaseIsAnEffectVerb()
    ensures forall c :: {"increase"} * Vocabulary(c) != {} <==> c == Effect
  {
    forall c
      ensures {"increase"} * Vocabulary(c) != {} <==> c == Effect
    {
      assert {"increase"} * Vocabulary(c) != {} <==> "increase" in Vocabulary(c);
    }
  }

  /** When "increase" is the only verb between the heads, only the effect flag is "True". */
  lemma OnlyIncreaseBetween(t: DepTree, entities: map<string, Span>, h1: nat, h2: nat, k: nat, l: nat, c: VerbClass)
    requires Valid(t) && IsToken(t, h1) && IsToken(t, h2) && IsToken(t, k)
    requires t.lcs(h1, h2) == Some(l)
    requires VerbsIn(t, h1 + 1, h2) == {"increase"}
    ensures ValueAt(t, entities, h1, h2, k, VerbBetween(c)) == Some(if c == Effect then "True" else "False")
  {
    IncreaseIsAnEffectVerb();
    ClassFlagValue(t, entities, h1, h2, k, l, c);
  }

  /** Of the four verb-class flags only the effect flag is set: "increase" is an effect verb. */
  lemma SentenceVerbClass(t: DepTree, c: VerbClass)
    requires IsSentence(t)
    ensures Has(Features(t, Mentions, "e1", "e2"), VerbBetween(c), if c == Effect then "True" else "False")
  {
    SentenceTokens(t);
    SentenceScan(t);
    SentenceVerbs(t);
    OnlyIncreaseBetween(t, Mentions, 0, 5, 2, 2, c);
    HasAt(t, Mentions, "e1", "e2", 0, 5, 2, VerbBetween(c), if c == Effect then "True" else "False");
  }
}
