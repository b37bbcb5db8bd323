/**
 * `extract_features`: the set of `name=value` features describing one pair
 * of entity mentions in a parsed sentence.
 *
 * `Features` states declaratively what the extractor returns; the method
 * `ExtractFeatures` follows the extractor's own steps (the stopword scan,
 * the entity scan, the verb scan and the verb-class loop) and is proved to
 * return exactly `Features`.
 */
module FeatureExtraction {
  import opened Wrappers
  import opened Text
  import opened DependencyTree

  /** The four keys of `VERB_LISTS`. */
  datatype VerbClass = Advise | Effect | Int | Mechanism

  /** The order in which `VERB_LISTS` is iterated. */
  const VerbClasses: seq<VerbClass> := [Advise, Effect, Int, Mechanism]

  /** The key of a class in `VERB_LISTS`: lower-case letters only, so no `_` and no `=`. */
  function ClassText(c: VerbClass): (r: string)
    ensures |r| > 0 && forall i :: 0 <= i < |r| ==> 'a' <= r[i] <= 'z'
  {
    match c
    case Advise => "advise"
    case Effect => "effect"
    case Int => "int"
    case Mechanism => "mechanism"
  }

  /**
   * The fixed verb set of each class, which the verb flags intersect with
   * the lower-cased lemmas the verb scan collects.
   */
  function Vocabulary(c: VerbClass): set<string>
  {
    match c
    case Advise => {"recommend", "advise", "warn", "suggest"}
    case Effect => {"increase", "decrease", "reduce", "inhibit", "enhance", "stimulate"}
    case Int => {"interact", "affect", "modify", "alter"}
    case Mechanism => {"metabolize", "bind", "absorb", "transport", "eliminate"}
  }

  /** Feature names; `NameText` gives the text before the `=`. */
  datatype Name =
    | E1Word | E1Lemma | E1Pos | E2Word | E2Lemma | E2Pos
    | Distance
    | Lib | Wib | Lpib
    | Eib
    | Path1 | Path2 | Path | PathLength | PathUpLen | PathDownLen
    | LcsPos | LcsLemma | LcsRel
    | SubtreeSize | PathPosSeq | PathRelSeq | Eip
    | VerbBetween(cls: VerbClass)

  const VerbSuffix := "_verb_between"

  function NameText(n: Name): (r: string)
    ensures '=' !in r
  {
    match n
    case E1Word => "e1_word"
    case E1Lemma => "e1_lemma"
    case E1Pos => "e1_pos"
    case E2Word => "e2_word"
    case E2Lemma => "e2_lemma"
    case E2Pos => "e2_pos"
    case Distance => "distance"
    case Lib => "lib"
    case Wib => "wib"
    case Lpib => "lpib"
    case Eib => "eib"
    case Path1 => "path1"
    case Path2 => "path2"
    case Path => "path"
    case PathLength => "path_length"
    case PathUpLen => "path_up_len"
    case PathDownLen => "path_down_len"
    case LcsPos => "lcs_pos"
    case LcsLemma => "lcs_lemma"
    case LcsRel => "lcs_rel"
    case SubtreeSize => "subtree_size"
    case PathPosSeq => "path_pos_seq"
    case PathRelSeq => "path_rel_seq"
    case Eip => "eip"
    case VerbBetween(c) => ClassText(c) + VerbSuffix
  }

  /** A feature is a name and a value; it is printed as `name=value`. */
  datatype Feature = Feature(name: Name, value: string)

  function Render(f: Feature): string
  {
    NameText(f.name) + "=" + f.value
  }

  /** The class whose key is `s`, if there is one. */
  function ClassOf(s: string): Option<VerbClass>
  {
    if s == "advise" then Some(Advise)
    else if s == "effect" then Some(Effect)
    else if s == "int" then Some(Int)
    else if s == "mechanism" then Some(Mechanism)
    else None
  }

  /**
   * The name whose text is `s`, if there is one: a verb-class flag by its
   * `_verb_between` suffix, every other name by its length and then its text.
   */
  function NameOf(s: string): Option<Name>
  {
    if |VerbSuffix| < |s| && s[|s| - |VerbSuffix|..] == VerbSuffix then
      match ClassOf(s[..|s| - |VerbSuffix|])
      case None => None
      case Some(c) => Some(VerbBetween(c))
    else if |s| == 3 then
      if s == "lib" then Some(Lib)
      else if s == "wib" then Some(Wib)
      else if s == "eib" then Some(Eib)
      else if s == "eip" then Some(Eip)
      else None
    else if |s| == 4 then
      if s == "lpib" then Some(Lpib)
      else if s == "path" then Some(Path)
      else None
    else if |s| == 5 then
      if s == "path1" then Some(Path1)
      else if s == "path2" then Some(Path2)
      else None
    else if |s| == 6 then
      if s == "e1_pos" then Some(E1Pos)
      else if s == "e2_pos" then Some(E2Pos)
      else None
    else if |s| == 7 then
      if s == "e1_word" then Some(E1Word)
      else if s == "e2_word" then Some(E2Word)
      else if s == "lcs_pos" then Some(LcsPos)
      else if s == "lcs_rel" then Some(LcsRel)
      else None
    else if |s| == 8 then
      if s == "e1_lemma" then Some(E1Lemma)
      else if s == "e2_lemma" then Some(E2Lemma)
      else if s == "distance" then Some(Distance)
      else None
    else if |s| == 9 then
      if s == "lcs_lemma" then Some(LcsLemma)
      else None
    else if |s| == 11 then
      if s == "path_length" then Some(PathLength)
      else if s == "path_up_len" then Some(PathUpLen)
      else None
    else if |s| == 12 then
      if s == "subtree_size" then Some(SubtreeSize)
      else if s == "path_pos_seq" then Some(PathPosSeq)
      else if s == "path_rel_seq" then Some(PathRelSeq)
      else None
    else if |s| == 13 then
      if s == "path_down_len" then Some(PathDownLen)
      else None
    else None
  }

  /** The position of the first `c` in `s`, if any. */
  function FirstIndex(s: string, c: char): (r: Option<nat>)
    ensures r.Some? ==> r.value < |s| && s[r.value] == c && c !in s[..r.value]
    ensures r.None? ==> c !in s
  {
    if s == [] then None
    else if s[0] == c then Some(0)
    else match FirstIndex(s[1..], c)
      case None => None
      case Some(i) => Some(i + 1)
  }

  /** Reads `name=value` back: the name is the text before the first `=`. */
  function ParseFeature(s: string): Option<Feature>
  {
    match FirstIndex(s, '=')
    case None => None
    case Some(i) =>
      match NameOf(s[..i])
      case None => None
      case Some(n) => Some(Feature(n, s[i + 1..]))
  }

  /** The head names read back from their texts. */
  lemma NameOfHeadText(n: Name)
    requires n.E1Word? || n.E1Lemma? || n.E1Pos? || n.E2Word? || n.E2Lemma? || n.E2Pos?
    ensures NameOf(NameText(n)) == Some(n)
  {
  }

  /** The distance, content-word and `eib` names read back from their texts. */
  lemma NameOfEarlyText(n: Name)
    requires n.Distance? || n.Lib? || n.Wib? || n.Lpib? || n.Eib?
    ensures NameOf(NameText(n)) == Some(n)
  {
  }

  /** The path names read back from their texts. */
  lemma NameOfPathText(n: Name)
    requires n.Path1? || n.Path2? || n.Path? || n.PathLength? || n.PathUpLen? || n.PathDownLen?
    ensures NameOf(NameText(n)) == Some(n)
  {
    if n.Path1? || n.Path2? || n.Path? {
      NameOfPathStringText(n);
    } else {
      NameOfPathLengthText(n);
    }
  }

  lemma NameOfPathStringText(n: Name)
    requires n.Path1? || n.Path2? || n.Path?
    ensures NameOf(NameText(n)) == Some(n)
  {
  }

  lemma NameOfPathLengthText(n: Name)
    requires n.PathLength? || n.PathUpLen? || n.PathDownLen?
    ensures NameOf(NameText(n)) == Some(n)
  {
  }

  /** The ancestor, subtree, sequence and `eip` names read back from their texts. */
  lemma NameOfBlockText(n: Name)
    requires n.LcsPos? || n.LcsLemma? || n.LcsRel? || n.SubtreeSize? || n.PathPosSeq? || n.PathRelSeq? || n.Eip?
    ensures NameOf(NameText(n)) == Some(n)
  {
  }

  /** The verb-class flag names read back from their texts. */
  lemma NameOfClassText(c: VerbClass)
    ensures NameOf(NameText(VerbBetween(c))) == Some(VerbBetween(c))
  {
    var key := ClassText(c);
    assert (key + VerbSuffix)[|key|..] == VerbSuffix;
    assert (key + VerbSuffix)[..|key|] == key;
  }

  /** Every name reads back from its text, so distinct names have distinct texts. */
  lemma NameOfNameText(n: Name)
    ensures NameOf(NameText(n)) == Some(n)
  {
    if n.E1Word? || n.E1Lemma? || n.E1Pos? || n.E2Word? || n.E2Lemma? || n.E2Pos? {
      NameOfHeadText(n);
    } else if n.Distance? || n.Lib? || n.Wib? || n.Lpib? || n.Eib? {
      NameOfEarlyText(n);
    } else if n.Path1? || n.Path2? || n.Path? || n.PathLength? || n.PathUpLen? || n.PathDownLen? {
      NameOfPathText(n);
    } else if n.LcsPos? || n.LcsLemma? || n.LcsRel? || n.SubtreeSize? || n.PathPosSeq? || n.PathRelSeq? || n.Eip? {
      NameOfBlockText(n);
    } else {
      NameOfClassText(n.cls);
    }
  }

  lemma {:induction false} FirstIndexAfter(a: string, c: char, v: string)
    requires c !in a
    ensures FirstIndex(a + [c] + v, c) == Some(|a|)
  {
    if a != [] {
      FirstIndexAfter(a[1..], c, v);
      assert (a + [c] + v)[1..] == a[1..] + [c] + v;
    }
  }

  /** A rendered feature reads back as itself. */
  lemma ParseRender(f: Feature)
    ensures ParseFeature(Render(f)) == Some(f)
  {
    var s := Render(f);
    var a := NameText(f.name);
    FirstIndexAfter(a, '=', f.value);
    assert s[..|a|] == a;
    assert s[|a| + 1..] == f.value;
    NameOfNameText(f.name);
  }

  /**
   * Distinct features print as distinct `name=value` strings, so the set of
   * strings the extractor builds and the set of features it is modelled by
   * have the same members.
   */
  lemma RenderInjective(f: Feature, g: Feature)
    ensures Render(f) == Render(g) <==> f == g
  {
    ParseRender(f);
    ParseRender(g);
  }

  /** `get_fragment_head` applied to the span of mention `e`. */
  function HeadOf(t: DepTree, entities: map<string, Span>, e: string): (r: Option<nat>)
    requires e in entities
    ensures Valid(t) && r.Some? ==> IsToken(t, r.value)
  {
    t.fragmentHead(entities[e].start, entities[e].end)
  }

  /** Word, lower-cased lemma and tag of both head tokens. */
  function LexicalFeatures(a: Token, b: Token): set<Feature>
  {
    {Feature(E1Word, a.word), Feature(E1Lemma, Lower(a.lem)), Feature(E1Pos, a.tag),
     Feature(E2Word, b.word), Feature(E2Lemma, Lower(b.lem)), Feature(E2Pos, b.tag)}
  }

  /**
   * The first position at or after `from` that is not a stopword, or None
   * when the stopword lookup fails before one is found.
   */
  function FirstContent(t: DepTree, from: nat): (r: Option<nat>)
    ensures r.Some? ==> from <= r.value && IsStopword(t, r.value) == Some(false)
    decreases |t.slots| - from
  {
    match IsStopword(t, from)
    case None => None
    case Some(stop) => if stop then FirstContent(t, from + 1) else Some(from)
  }

  /** `lib`, `wib` and `lpib` of the first content word after the first head. */
  function BetweenWordFeatures(tok: Token): set<Feature>
  {
    var lowered := Lower(tok.lem);
    {Feature(Lib, lowered), Feature(Wib, tok.word), Feature(Lpib, lowered + "_" + tok.tag)}
  }

  /** Some position strictly between the heads holds an entity. */
  predicate EntityBetween(t: DepTree, entities: map<string, Span>, h1: nat, h2: nat)
    ensures EntityBetween(t, entities, h1, h2) ==> h1 + 1 < h2
  {
    exists j: nat :: h1 < j < h2 && IsEntity(t, entities, j)
  }

  function LemmaRel(tok: Token): string
  {
    tok.lem + "_" + tok.rel
  }

  function LemmaRels(t: DepTree, xs: seq<nat>): (r: seq<string>)
    requires AllTokens(t, xs)
    ensures |r| == |xs|
  {
    seq(|xs|, k requires 0 <= k < |xs| => LemmaRel(TokenAt(t, xs[k])))
  }

  function Tags(t: DepTree, xs: seq<nat>): (r: seq<string>)
    requires AllTokens(t, xs)
    ensures |r| == |xs|
  {
    seq(|xs|, k requires 0 <= k < |xs| => TokenAt(t, xs[k]).tag)
  }

  function Rels(t: DepTree, xs: seq<nat>): (r: seq<string>)
    requires AllTokens(t, xs)
    ensures |r| == |xs|
  {
    seq(|xs|, k requires 0 <= k < |xs| => TokenAt(t, xs[k]).rel)
  }

  /**
   * The path strings, path lengths and the ancestor's own tag, lemma and
   * relation; `upParts` and `downParts` hold `lemma_rel` of each path node.
   */
  function PathFeatures(upParts: seq<string>, downParts: seq<string>, lcs: Token): set<Feature>
  {
    var upStr := Join('<', upParts);
    var downStr := Join('>', downParts);
    {Feature(Path1, upStr),
     Feature(Path2, downStr),
     Feature(Path, upStr + "<" + LemmaRel(lcs) + ">" + downStr),
     Feature(PathLength, IntToString(|upParts| + 1 + |downParts|)),
     Feature(PathUpLen, IntToString(|upParts|)),
     Feature(PathDownLen, IntToString(|downParts|)),
     Feature(LcsPos, lcs.tag),
     Feature(LcsLemma, lcs.lem),
     Feature(LcsRel, lcs.rel)}
  }

  /** `get_subtree_nodes`: `n` followed by the subtree nodes of each child in turn. */
  function SubtreeNodes(t: DepTree, n: nat): (r: seq<nat>)
    requires Valid(t) && IsToken(t, n)
    ensures |r| >= 1 + |TokenAt(t, n).children| && r[0] == n
    ensures AllTokens(t, r)
    decreases TokenAt(t, n).height, 1, 0
  {
    [n] + ForestNodes(t, TokenAt(t, n).children, TokenAt(t, n).height)
  }

  function ForestNodes(t: DepTree, cs: seq<nat>, bound: nat): (r: seq<nat>)
    requires Valid(t)
    requires forall k :: 0 <= k < |cs| ==> IsToken(t, cs[k]) && TokenAt(t, cs[k]).height < bound
    ensures |r| >= |cs|
    ensures AllTokens(t, r)
    decreases bound, 0, |cs|
  {
    if cs == [] then [] else SubtreeNodes(t, cs[0]) + ForestNodes(t, cs[1..], bound)
  }

  /** The lower-cased lemma of the token at `j`, if it is a verb. */
  function VerbAt(t: DepTree, j: nat): set<string>
  {
    match Lookup(t, j)
    case None => {}
    case Some(tok) => if StartsWith(tok.tag, "VB") then {Lower(tok.lem)} else {}
  }

  /** The lemmas collected by the verb scan over positions `lo .. hi-1`. */
  function VerbsIn(t: DepTree, lo: nat, hi: nat): set<string>
  {
    if hi <= lo then {} else VerbsIn(t, lo, hi - 1) + VerbAt(t, hi - 1)
  }

  function VerbClassFeature(c: VerbClass, verbs: set<string>): Feature
  {
    Feature(VerbBetween(c), BoolText(verbs * Vocabulary(c) != {}))
  }

  function VerbClassFeatures(verbs: set<string>): set<Feature>
  {
    set c | c in VerbClasses :: VerbClassFeature(c, verbs)
  }

  /** Some node of the path holds an entity. */
  predicate PathEntity(t: DepTree, entities: map<string, Span>, nodes: seq<nat>)
  {
    exists k :: 0 <= k < |nodes| && IsEntity(t, entities, nodes[k])
  }

  lemma AllTokensPath(t: DepTree, up: seq<nat>, l: nat, down: seq<nat>)
    requires AllTokens(t, up) && IsToken(t, l) && AllTokens(t, down)
    ensures AllTokens(t, up + [l] + down)
  {
  }

  /**
   * `base` extended with the syntactic block, in the order the extractor
   * adds it, from the values that block computes.
   */
  function AddSyntax(base: set<Feature>, path: set<Feature>, subtreeSize: nat,
                     posSeq: string, relSeq: string, eip: bool, verbs: set<string>): set<Feature>
  {
    base
    + path
    + {Feature(SubtreeSize, IntToString(subtreeSize))}
    + {Feature(PathPosSeq, posSeq)}
    + {Feature(PathRelSeq, relSeq)}
    + {Feature(Eip, BoolText(eip))}
    + VerbClassFeatures(verbs)
  }

  /** `base` extended with everything computed once the lowest common ancestor `l` is known. */
  function Syntax(base: set<Feature>, t: DepTree, entities: map<string, Span>, h1: nat, h2: nat, l: nat): (r: set<Feature>)
    requires Valid(t) && IsToken(t, l)
  {
    var up := t.upPath(h1, l);
    var down := t.downPath(l, h2);
    var nodes := up + [l] + down;
    AllTokensPath(t, up, l, down);
    AddSyntax(base,
              PathFeatures(LemmaRels(t, up), LemmaRels(t, down), TokenAt(t, l)),
              |SubtreeNodes(t, l)|,
              Join('_', Tags(t, nodes)),
              Join('_', Rels(t, nodes)),
              PathEntity(t, entities, nodes),
              VerbsIn(t, h1 + 1, h2))
  }

  /** Everything before the syntactic block. */
  function EarlyFeatures(head1: Token, head2: Token, distance: int, content: Token, eib: bool): set<Feature>
  {
    LexicalFeatures(head1, head2)
    + {Feature(Distance, IntToString(distance))}
    + BetweenWordFeatures(content)
    + {Feature(Eib, BoolText(eib))}
  }

  /** What `extract_features(tree, entities, e1, e2)` returns. */
  function Features(t: DepTree, entities: map<string, Span>, e1: string, e2: string): (r: set<Feature>)
    requires Valid(t) && e1 in entities && e2 in entities
  {
    match (HeadOf(t, entities, e1), HeadOf(t, entities, e2))
    case (Some(h1), Some(h2)) => FromHeads(t, entities, h1, h2)
    case _ => {}
  }

  /** The result once both entity heads `h1` and `h2` are resolved. */
  function FromHeads(t: DepTree, entities: map<string, Span>, h1: nat, h2: nat): (r: set<Feature>)
    requires Valid(t) && IsToken(t, h1) && IsToken(t, h2)
  {
    match FirstContent(t, h1 + 1)
    case None => {}
    case Some(k) => FromContent(t, entities, h1, h2, k)
  }

  /** The result once the stopword scan has stopped at the content word `k`. */
  function FromContent(t: DepTree, entities: map<string, Span>, h1: nat, h2: nat, k: nat): (r: set<Feature>)
    requires Valid(t) && IsToken(t, h1) && IsToken(t, h2) && IsToken(t, k)
  {
    var early := EarlyFeatures(TokenAt(t, h1), TokenAt(t, h2), h2 as int - h1 as int - 1, TokenAt(t, k),
                               EntityBetween(t, entities, h1, h2));
    match t.lcs(h1, h2)
    case None => early
    case Some(l) => Syntax(early, t, entities, h1, h2, l)
  }

  /** The value of `Features` when both heads resolve and the scan stops at `k`. */
  lemma FeaturesAtContent(t: DepTree, entities: map<string, Span>, e1: string, e2: string, h1: nat, h2: nat, k: nat)
    requires Valid(t) && e1 in entities && e2 in entities
    requires HeadOf(t, entities, e1) == Some(h1) && HeadOf(t, entities, e2) == Some(h2)
    requires FirstContent(t, h1 + 1) == Some(k)
    ensures IsToken(t, h1) && IsToken(t, h2) && IsToken(t, k)
    ensures Features(t, entities, e1, e2) == FromContent(t, entities, h1, h2, k)
  {
  }

  /** Without a lowest common ancestor the result is the early features alone. */
  lemma FromContentWithoutAncestor(t: DepTree, entities: map<string, Span>, h1: nat, h2: nat, k: nat)
    requires Valid(t) && IsToken(t, h1) && IsToken(t, h2) && IsToken(t, k)
    requires t.lcs(h1, h2).None?
    ensures FromContent(t, entities, h1, h2, k) ==
      EarlyFeatures(TokenAt(t, h1), TokenAt(t, h2), h2 as int - h1 as int - 1, TokenAt(t, k),
                    EntityBetween(t, entities, h1, h2))
  {
  }

  /** With the lowest common ancestor `l` the syntactic block is added to the early features. */
  lemma FromContentWithAncestor(t: DepTree, entities: map<string, Span>, h1: nat, h2: nat, k: nat, l: nat)
    requires Valid(t) && IsToken(t, h1) && IsToken(t, h2) && IsToken(t, k)
    requires t.lcs(h1, h2) == Some(l)
    ensures IsToken(t, l)
    ensures FromContent(t, entities, h1, h2, k) ==
      Syntax(EarlyFeatures(TokenAt(t, h1), TokenAt(t, h2), h2 as int - h1 as int - 1, TokenAt(t, k),
                           EntityBetween(t, entities, h1, h2)), t, entities, h1, h2, l)
  {
  }

  /** The stopword scan: steps over stopwords until a content word or a failing lookup. */
  method ScanFirstContent(t: DepTree, from: nat) returns (r: Option<nat>)
    ensures r == FirstContent(t, from)
  {
    var tk := from;
    var stop := IsStopword(t, tk);
    while stop == Some(true)
      invariant from <= tk && (tk <= |t.slots| || tk == from)
      invariant stop == IsStopword(t, tk)
      invariant FirstContent(t, tk) == FirstContent(t, from)
      decreases |t.slots| - tk
    {
      tk := tk + 1;
      stop := IsStopword(t, tk);
    }
    if stop.None? {
      return None;
    }
    return Some(tk);
  }

  /** The loop that sets `eib`: is some position strictly between the heads an entity? */
  method ScanEntityBetween(t: DepTree, entities: map<string, Span>, h1: nat, h2: nat) returns (eib: bool)
    ensures eib == EntityBetween(t, entities, h1, h2)
  {
    eib := false;
    var k := h1 + 1;
    while k < h2
      invariant h1 < k && (k <= h2 || k == h1 + 1)
      invariant eib <==> exists j: nat :: h1 < j < k && IsEntity(t, entities, j)
    {
      if IsEntity(t, entities, k) {
        eib := true;
      }
      k := k + 1;
    }
  }

  /** The loop that fills `verbs_between`; a failing lookup skips only its own position. */
  method CollectVerbsBetween(t: DepTree, h1: nat, h2: nat) returns (verbs: set<string>)
    ensures verbs == VerbsIn(t, h1 + 1, h2)
  {
    verbs := {};
    var k := h1 + 1;
    while k < h2
      invariant h1 < k && (k <= h2 || k == h1 + 1)
      invariant verbs == VerbsIn(t, h1 + 1, k)
    {
      match Lookup(t, k) {
        case None =>
        case Some(tok) =>
          if StartsWith(tok.tag, "VB") {
            verbs := verbs + {Lower(tok.lem)};
          }
      }
      k := k + 1;
    }
  }

  /** The loop over `VERB_LISTS`: one flag per verb class. */
  method AddVerbClassFlags(feats0: set<Feature>, verbs: set<string>) returns (feats: set<Feature>)
    ensures feats == feats0 + VerbClassFeatures(verbs)
  {
    feats := feats0;
    var i := 0;
    while i < |VerbClasses|
      invariant 0 <= i <= |VerbClasses|
      invariant feats == feats0 + set c | c in VerbClasses[..i] :: VerbClassFeature(c, verbs)
    {
      feats := feats + {VerbClassFeature(VerbClasses[i], verbs)};
      i := i + 1;
    }
    assert VerbClasses[..i] == VerbClasses;
  }

  /** The block run when the lowest common ancestor `l` of the heads exists. */
  method AddSyntacticFeatures(feats0: set<Feature>, t: DepTree, entities: map<string, Span>, h1: nat, h2: nat, l: nat)
    returns (feats: set<Feature>)
    requires Valid(t) && IsToken(t, l)
    ensures feats == Syntax(feats0, t, entities, h1, h2, l)
  {
    var up := t.upPath(h1, l);
    var down := t.downPath(l, h2);
    ghost var path := PathFeatures(LemmaRels(t, up), LemmaRels(t, down), TokenAt(t, l));
    feats := feats0 + PathFeatures(LemmaRels(t, up), LemmaRels(t, down), TokenAt(t, l));
    ghost var size := |SubtreeNodes(t, l)|;
    feats := feats + {Feature(SubtreeSize, IntToString(|SubtreeNodes(t, l)|))};
    var nodes := up + [l] + down;
    AllTokensPath(t, up, l, down);
    var posSeq := Join('_', Tags(t, nodes));
    var relSeq := Join('_', Rels(t, nodes));
    feats := feats + {Feature(PathPosSeq, posSeq)};
    feats := feats + {Feature(PathRelSeq, relSeq)};
    var eip := PathEntity(t, entities, nodes);
    feats := feats + {Feature(Eip, BoolText(eip))};

    var verbs := CollectVerbsBetween(t, h1, h2);
    feats := AddVerbClassFlags(feats, verbs);
    assert feats == AddSyntax(feats0, path, size, posSeq, relSeq, eip, verbs);
  }

  /**
   * The extractor after the stopword scan has stopped at `tk`: it adds the
   * content-word and `eib` features, then the syntactic block when the heads
   * have a lowest common ancestor.
   */
  method ExtendFromContent(feats0: set<Feature>, t: DepTree, entities: map<string, Span>, h1: nat, h2: nat, tk: nat)
    returns (feats: set<Feature>)
    requires Valid(t) && IsToken(t, h1) && IsToken(t, h2) && IsToken(t, tk)
    requires feats0 == LexicalFeatures(TokenAt(t, h1), TokenAt(t, h2)) + {Feature(Distance, IntToString(h2 as int - h1 as int - 1))}
    ensures feats == FromContent(t, entities, h1, h2, tk)
  {
    feats := feats0 + BetweenWordFeatures(TokenAt(t, tk));
    var eib := ScanEntityBetween(t, entities, h1, h2);
    feats := feats + {Feature(Eib, BoolText(eib))};
    assert feats == EarlyFeatures(TokenAt(t, h1), TokenAt(t, h2), h2 as int - h1 as int - 1, TokenAt(t, tk), eib);

    var lcs := t.lcs(h1, h2);
    if lcs.Some? {
      FromContentWithAncestor(t, entities, h1, h2, tk, lcs.value);
      feats := AddSyntacticFeatures(feats, t, entities, h1, h2, lcs.value);
    } else {
      FromContentWithoutAncestor(t, entities, h1, h2, tk);
    }
  }

  /** The extractor, step by step. */
  method ExtractFeatures(t: DepTree, entities: map<string, Span>, e1: string, e2: string)
    returns (feats: set<Feature>)
    requires Valid(t) && e1 in entities && e2 in entities
    ensures feats == Features(t, entities, e1, e2)
  {
    feats := {};
    var head1 := HeadOf(t, entities, e1);
    var head2 := HeadOf(t, entities, e2);
    if head1.None? || head2.None? {
      return {};
    }
    var h1, h2 := head1.value, head2.value;
    assert Features(t, entities, e1, e2) == FromHeads(t, entities, h1, h2);
    feats := feats + LexicalFeatures(TokenAt(t, h1), TokenAt(t, h2));
    feats := feats + {Feature(Distance, IntToString(h2 as int - h1 as int - 1))};

    // A failing stopword lookup discards everything collected so far.
    var content := ScanFirstContent(t, h1 + 1);
    if content.None? {
      return {};
    }
    var tk := content.value;
    FeaturesAtContent(t, entities, e1, e2, h1, h2, tk);
    feats := ExtendFromContent(feats, t, entities, h1, h2, tk);
  }
}
