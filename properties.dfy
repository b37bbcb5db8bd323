/**
 * What `extract_features` promises about the features it returns, proved of
 * the specification `Features` (and so, by `ExtractFeatures`'s contract,
 * of the extractor itself).
 */
module FeatureProperties {
  import opened Wrappers
  import opened Text
  import opened DependencyTree
  import opened FeatureExtraction

  /** The names of the block emitted only when the lowest common ancestor exists. */
  predicate IsSyntactic(n: Name)
  {
    match n
    case Path1 | Path2 | Path | PathLength | PathUpLen | PathDownLen => true
    case LcsPos | LcsLemma | LcsRel | SubtreeSize | PathPosSeq | PathRelSeq | Eip => true
    case VerbBetween(_) => true
    case _ => false
  }

  // ---------------------------------------------------------------------
  // The stopword scan
  // ---------------------------------------------------------------------

  /** The scan from `from` meets a failing lookup before any content word. */
  ghost predicate ScanOverruns(t: DepTree, from: nat)
  {
    exists f: nat :: from <= f && IsStopword(t, f).None? &&
      forall j: nat :: from <= j < f ==> IsStopword(t, j) == Some(true)
  }

  /** The scan stops at `k` exactly when `k` is the first non-stopword from `from` on. */
  lemma {:induction false} FirstContentIsFirst(t: DepTree, from: nat, k: nat)
    ensures FirstContent(t, from) == Some(k) <==>
      from <= k && IsStopword(t, k) == Some(false) &&
      forall j: nat :: from <= j < k ==> IsStopword(t, j) == Some(true)
    decreases |t.slots| - from
  {
    if IsStopword(t, from) == Some(true) {
      FirstContentIsFirst(t, from + 1, k);
    }
  }

  /** The scan fails exactly when it overruns. */
  lemma {:induction false} FirstContentFails(t: DepTree, from: nat)
    ensures FirstContent(t, from).None? <==> ScanOverruns(t, from)
    decreases |t.slots| - from
  {
    match IsStopword(t, from)
    case None =>
      assert from <= from && IsStopword(t, from).None?;
    case Some(stop) =>
      if stop {
        FirstContentFails(t, from + 1);
        if ScanOverruns(t, from) {
          var f: nat :| from <= f && IsStopword(t, f).None? &&
            forall j: nat :: from <= j < f ==> IsStopword(t, j) == Some(true);
          assert from + 1 <= f;
        }
        if ScanOverruns(t, from + 1) {
          var f: nat :| from + 1 <= f && IsStopword(t, f).None? &&
            forall j: nat :: from + 1 <= j < f ==> IsStopword(t, j) == Some(true);
          assert from <= f;
        }
      } else {
        forall f: nat | from <= f && IsStopword(t, f).None?
          ensures !(forall j: nat :: from <= j < f ==> IsStopword(t, j) == Some(true))
        {
          assert from < f;
        }
      }
  }

  // ---------------------------------------------------------------------
  // The verb scan
  // ---------------------------------------------------------------------

  /** The token at `j` exists, is tagged as a verb, and its lower-cased lemma is `x`. */
  ghost predicate VerbWithLemma(t: DepTree, j: nat, x: string)
  {
    IsToken(t, j) && StartsWith(TokenAt(t, j).tag, "VB") && Lower(TokenAt(t, j).lem) == x
  }

  /** The verb scan collects the lower-cased lemma of every verb in `lo .. hi-1`, and nothing else. */
  lemma {:induction false} VerbsInMembers(t: DepTree, lo: nat, hi: nat, x: string)
    ensures x in VerbsIn(t, lo, hi) <==> exists j: nat :: lo <= j < hi && VerbWithLemma(t, j, x)
    decreases hi
  {
    if hi > lo {
      VerbsInMembers(t, lo, hi - 1, x);
      if VerbWithLemma(t, hi - 1, x) {
        assert lo <= hi - 1 < hi;
      }
    }
  }

  // ---------------------------------------------------------------------
  // The subtree count
  // ---------------------------------------------------------------------

  /** The sum of the subtree sizes of `cs`. */
  function ChildrenSizes(t: DepTree, cs: seq<nat>): nat
    requires Valid(t) && AllTokens(t, cs)
  {
    if cs == [] then 0 else |SubtreeNodes(t, cs[0])| + ChildrenSizes(t, cs[1..])
  }

  lemma {:induction false} ForestSize(t: DepTree, cs: seq<nat>, bound: nat)
    requires Valid(t)
    requires forall k :: 0 <= k < |cs| ==> IsToken(t, cs[k]) && TokenAt(t, cs[k]).height < bound
    ensures |ForestNodes(t, cs, bound)| == ChildrenSizes(t, cs)
    decreases |cs|
  {
    if cs != [] {
      ForestSize(t, cs[1..], bound);
    }
  }

  /** `subtree_size` is one (the node itself) plus the sizes of the children's subtrees. */
  lemma SubtreeSizeIsOnePlusChildren(t: DepTree, n: nat)
    requires Valid(t) && IsToken(t, n)
    ensures |SubtreeNodes(t, n)| == 1 + ChildrenSizes(t, TokenAt(t, n).children)
    ensures |SubtreeNodes(t, n)| >= 1
  {
    ForestSize(t, TokenAt(t, n).children, TokenAt(t, n).height);
  }

  // ---------------------------------------------------------------------
  // The shape of the result
  // ---------------------------------------------------------------------

  /** Before the ancestor block, no feature carries a syntactic name. */
  lemma EarlyIsNotSyntactic(head1: Token, head2: Token, distance: int, content: Token, eib: bool)
    ensures forall f :: f in EarlyFeatures(head1, head2, distance, content, eib) ==> !IsSyntactic(f.name)
  {
  }

  // ---------------------------------------------------------------------
  // One value per name
  // ---------------------------------------------------------------------

  /** `fs` holds `n=v`, and no other value under the name `n`. */
  predicate Has(fs: set<Feature>, n: Name, v: string)
  {
    Feature(n, v) in fs && forall f :: f in fs && f.name == n ==> f.value == v
  }

  /** The value each name takes among the features added before the syntactic block. */
  function EarlyValue(n: Name, head1: Token, head2: Token, distance: int, content: Token, eib: bool): (r: Option<string>)
    ensures r.Some? ==> !IsSyntactic(n)
  {
    match n
    case E1Word => Some(head1.word)
    case E1Lemma => Some(Lower(head1.lem))
    case E1Pos => Some(head1.tag)
    case E2Word => Some(head2.word)
    case E2Lemma => Some(Lower(head2.lem))
    case E2Pos => Some(head2.tag)
    case Distance => Some(IntToString(distance))
    case Lib => Some(Lower(content.lem))
    case Wib => Some(content.word)
    case Lpib => Some(Lower(content.lem) + "_" + content.tag)
    case Eib => Some(BoolText(eib))
    case _ => None
  }

  /** The value each name takes in the syntactic block. */
  function SyntaxValue(n: Name, upParts: seq<string>, downParts: seq<string>, lcs: Token, subtreeSize: nat,
                       posSeq: string, relSeq: string, eip: bool, verbs: set<string>): (r: Option<string>)
    ensures r.Some? <==> IsSyntactic(n)
  {
    match n
    case Path1 => Some(Join('<', upParts))
    case Path2 => Some(Join('>', downParts))
    case Path => Some(Join('<', upParts) + "<" + LemmaRel(lcs) + ">" + Join('>', downParts))
    case PathLength => Some(IntToString(|upParts| + 1 + |downParts|))
    case PathUpLen => Some(IntToString(|upParts|))
    case PathDownLen => Some(IntToString(|downParts|))
    case LcsPos => Some(lcs.tag)
    case LcsLemma => Some(lcs.lem)
    case LcsRel => Some(lcs.rel)
    case SubtreeSize => Some(IntToString(subtreeSize))
    case PathPosSeq => Some(posSeq)
    case PathRelSeq => Some(relSeq)
    case Eip => Some(BoolText(eip))
    case VerbBetween(c) => Some(BoolText(verbs * Vocabulary(c) != {}))
    case _ => None
  }

  lemma LexicalTable(head1: Token, head2: Token, distance: int, content: Token, eib: bool)
    ensures forall f :: f in LexicalFeatures(head1, head2) ==>
      EarlyValue(f.name, head1, head2, distance, content, eib) == Some(f.value)
  {
  }

  /** One early feature carries the value `EarlyValue` gives its name. */
  lemma EarlyFeatureValue(head1: Token, head2: Token, distance: int, content: Token, eib: bool, f: Feature)
    requires f in EarlyFeatures(head1, head2, distance, content, eib)
    ensures EarlyValue(f.name, head1, head2, distance, content, eib) == Some(f.value)
  {
    if f in LexicalFeatures(head1, head2) {
      LexicalTable(head1, head2, distance, content, eib);
    }
  }

  /** Every early feature is a name `EarlyValue` defines, with its value. */
  lemma EarlySound(head1: Token, head2: Token, distance: int, content: Token, eib: bool)
    ensures forall f :: f in EarlyFeatures(head1, head2, distance, content, eib) ==>
      EarlyValue(f.name, head1, head2, distance, content, eib) == Some(f.value)
  {
    forall f | f in EarlyFeatures(head1, head2, distance, content, eib)
      ensures EarlyValue(f.name, head1, head2, distance, content, eib) == Some(f.value)
    {
      if f in LexicalFeatures(head1, head2) {
        LexicalTable(head1, head2, distance, content, eib);
      }
    }
  }

  /** Every name `EarlyValue` defines is among the early features, with its value. */
  lemma EarlyComplete(head1: Token, head2: Token, distance: int, content: Token, eib: bool)
    ensures forall n :: EarlyValue(n, head1, head2, distance, content, eib).Some? ==>
      Feature(n, EarlyValue(n, head1, head2, distance, content, eib).value) in EarlyFeatures(head1, head2, distance, content, eib)
  {
  }

  lemma PathTable(upParts: seq<string>, downParts: seq<string>, lcs: Token, subtreeSize: nat,
                  posSeq: string, relSeq: string, eip: bool, verbs: set<string>)
    ensures forall f :: f in PathFeatures(upParts, downParts, lcs) ==>
      SyntaxValue(f.name, upParts, downParts, lcs, subtreeSize, posSeq, relSeq, eip, verbs) == Some(f.value)
  {
  }

  /** The four features the syntactic block adds one at a time. */
  function SingleFeatures(subtreeSize: nat, posSeq: string, relSeq: string, eip: bool): set<Feature>
  {
    {Feature(SubtreeSize, IntToString(subtreeSize)), Feature(PathPosSeq, posSeq),
     Feature(PathRelSeq, relSeq), Feature(Eip, BoolText(eip))}
  }

  lemma SinglesTable(upParts: seq<string>, downParts: seq<string>, lcs: Token, subtreeSize: nat,
                     posSeq: string, relSeq: string, eip: bool, verbs: set<string>)
    ensures forall f :: f in SingleFeatures(subtreeSize, posSeq, relSeq, eip) ==>
      SyntaxValue(f.name, upParts, downParts, lcs, subtreeSize, posSeq, relSeq, eip, verbs) == Some(f.value)
  {
  }

  lemma EveryClassListed(c: VerbClass)
    ensures c in VerbClasses
  {
  }

  lemma VerbClassTable(upParts: seq<string>, downParts: seq<string>, lcs: Token, subtreeSize: nat,
                       posSeq: string, relSeq: string, eip: bool, verbs: set<string>)
    ensures forall f :: f in VerbClassFeatures(verbs) ==>
      SyntaxValue(f.name, upParts, downParts, lcs, subtreeSize, posSeq, relSeq, eip, verbs) == Some(f.value)
    ensures forall c :: VerbClassFeature(c, verbs) in VerbClassFeatures(verbs)
  {
    forall c ensures VerbClassFeature(c, verbs) in VerbClassFeatures(verbs) {
      EveryClassListed(c);
    }
  }

  /** Everything the syntactic block adds is a name `SyntaxValue` defines, with its value. */
  lemma AddSyntaxSound(base: set<Feature>, upParts: seq<string>, downParts: seq<string>, lcs: Token, subtreeSize: nat,
                       posSeq: string, relSeq: string, eip: bool, verbs: set<string>)
    ensures forall f :: f in AddSyntax(base, PathFeatures(upParts, downParts, lcs), subtreeSize, posSeq, relSeq, eip, verbs) ==>
      f in base || SyntaxValue(f.name, upParts, downParts, lcs, subtreeSize, posSeq, relSeq, eip, verbs) == Some(f.value)
  {
    var path := PathFeatures(upParts, downParts, lcs);
    var singles := SingleFeatures(subtreeSize, posSeq, relSeq, eip);
    var classes := VerbClassFeatures(verbs);
    assert AddSyntax(base, path, subtreeSize, posSeq, relSeq, eip, verbs) == base + path + singles + classes;
    PathTable(upParts, downParts, lcs, subtreeSize, posSeq, relSeq, eip, verbs);
    SinglesTable(upParts, downParts, lcs, subtreeSize, posSeq, relSeq, eip, verbs);
    VerbClassTable(upParts, downParts, lcs, subtreeSize, posSeq, relSeq, eip, verbs);
  }

  /** Every name `SyntaxValue` defines is added by the syntactic block, with its value, and `base` is kept. */
  lemma AddSyntaxComplete(base: set<Feature>, upParts: seq<string>, downParts: seq<string>, lcs: Token, subtreeSize: nat,
                          posSeq: string, relSeq: string, eip: bool, verbs: set<string>)
    ensures base <= AddSyntax(base, PathFeatures(upParts, downParts, lcs), subtreeSize, posSeq, relSeq, eip, verbs)
    ensures forall n :: SyntaxValue(n, upParts, downParts, lcs, subtreeSize, posSeq, relSeq, eip, verbs).Some? ==>
      Feature(n, SyntaxValue(n, upParts, downParts, lcs, subtreeSize, posSeq, relSeq, eip, verbs).value)
        in AddSyntax(base, PathFeatures(upParts, downParts, lcs), subtreeSize, posSeq, relSeq, eip, verbs)
  {
    var path := PathFeatures(upParts, downParts, lcs);
    var r := AddSyntax(base, path, subtreeSize, posSeq, relSeq, eip, verbs);
    assert path <= r;
    forall n | SyntaxValue(n, upParts, downParts, lcs, subtreeSize, posSeq, relSeq, eip, verbs).Some?
      ensures Feature(n, SyntaxValue(n, upParts, downParts, lcs, subtreeSize, posSeq, relSeq, eip, verbs).value) in r
    {
      if n.VerbBetween? {
        VerbClassTable(upParts, downParts, lcs, subtreeSize, posSeq, relSeq, eip, verbs);
        assert VerbClassFeature(n.cls, verbs) in r;
      }
    }
  }

  // ---------------------------------------------------------------------
  // The whole result, name by name
  // ---------------------------------------------------------------------

  /**
   * The value each name takes in the result once both heads are resolved
   * and the stopword scan has stopped at `k`; None for a name that is not
   * emitted.
   */
  function ValueAt(t: DepTree, entities: map<string, Span>, h1: nat, h2: nat, k: nat, n: Name): Option<string>
    requires Valid(t) && IsToken(t, h1) && IsToken(t, h2) && IsToken(t, k)
  {
    if !IsSyntactic(n) then
      EarlyValue(n, TokenAt(t, h1), TokenAt(t, h2), h2 as int - h1 as int - 1, TokenAt(t, k),
                 EntityBetween(t, entities, h1, h2))
    else
      match t.lcs(h1, h2)
      case None => None
      case Some(l) =>
        var up := t.upPath(h1, l);
        var down := t.downPath(l, h2);
        var nodes := up + [l] + down;
        AllTokensPath(t, up, l, down);
        SyntaxValue(n, LemmaRels(t, up), LemmaRels(t, down), TokenAt(t, l), |SubtreeNodes(t, l)|,
                    Join('_', Tags(t, nodes)), Join('_', Rels(t, nodes)), PathEntity(t, entities, nodes),
                    VerbsIn(t, h1 + 1, h2))
  }

  /** Every early feature carries its name's value in the table. */
  lemma EarlyAtValue(t: DepTree, entities: map<string, Span>, h1: nat, h2: nat, k: nat)
    requires Valid(t) && IsToken(t, h1) && IsToken(t, h2) && IsToken(t, k)
    ensures forall f :: f in EarlyFeatures(TokenAt(t, h1), TokenAt(t, h2), h2 as int - h1 as int - 1, TokenAt(t, k),
                                           EntityBetween(t, entities, h1, h2)) ==>
      ValueAt(t, entities, h1, h2, k, f.name) == Some(f.value)
  {
    var head1, head2, content := TokenAt(t, h1), TokenAt(t, h2), TokenAt(t, k);
    var distance, eib := h2 as int - h1 as int - 1, EntityBetween(t, entities, h1, h2);
    forall f | f in EarlyFeatures(head1, head2, distance, content, eib)
      ensures ValueAt(t, entities, h1, h2, k, f.name) == Some(f.value)
    {
      EarlyFeatureValue(head1, head2, distance, content, eib, f);
      ValueAtEarlyName(t, entities, h1, h2, k, f.name);
    }
  }

  /** Every feature the syntactic block of `l` adds to `base` carries its name's value in the table. */
  lemma SyntaxAtValue(base: set<Feature>, t: DepTree, entities: map<string, Span>, h1: nat, h2: nat, k: nat, l: nat)
    requires Valid(t) && IsToken(t, h1) && IsToken(t, h2) && IsToken(t, k)
    requires t.lcs(h1, h2) == Some(l)
    ensures IsToken(t, l)
    ensures forall f :: f in Syntax(base, t, entities, h1, h2, l) && f !in base ==>
      ValueAt(t, entities, h1, h2, k, f.name) == Some(f.value)
  {
    var up, down := t.upPath(h1, l), t.downPath(l, h2);
    var nodes := up + [l] + down;
    AllTokensPath(t, up, l, down);
    var upParts, downParts, lcs := LemmaRels(t, up), LemmaRels(t, down), TokenAt(t, l);
    var size, posSeq, relSeq := |SubtreeNodes(t, l)|, Join('_', Tags(t, nodes)), Join('_', Rels(t, nodes));
    var eip, verbs := PathEntity(t, entities, nodes), VerbsIn(t, h1 + 1, h2);
    var all := AddSyntax(base, PathFeatures(upParts, downParts, lcs), size, posSeq, relSeq, eip, verbs);
    assert Syntax(base, t, entities, h1, h2, l) == all;
    AddSyntaxSound(base, upParts, downParts, lcs, size, posSeq, relSeq, eip, verbs);
    forall f | f in all && f !in base
      ensures ValueAt(t, entities, h1, h2, k, f.name) == Some(f.value)
    {
      ValueAtSyntaxName(t, entities, h1, h2, k, l, f.name);
    }
  }

  lemma SoundWithoutAncestor(t: DepTree, entities: map<string, Span>, h1: nat, h2: nat, k: nat)
    requires Valid(t) && IsToken(t, h1) && IsToken(t, h2) && IsToken(t, k)
    requires t.lcs(h1, h2).None?
    ensures forall f :: f in FromContent(t, entities, h1, h2, k) ==> ValueAt(t, entities, h1, h2, k, f.name) == Some(f.value)
  {
    FromContentWithoutAncestor(t, entities, h1, h2, k);
    EarlyAtValue(t, entities, h1, h2, k);
  }

  lemma SoundWithAncestor(t: DepTree, entities: map<string, Span>, h1: nat, h2: nat, k: nat, l: nat)
    requires Valid(t) && IsToken(t, h1) && IsToken(t, h2) && IsToken(t, k)
    requires t.lcs(h1, h2) == Some(l)
    ensures forall f :: f in FromContent(t, entities, h1, h2, k) ==> ValueAt(t, entities, h1, h2, k, f.name) == Some(f.value)
  {
    var early := EarlyFeatures(TokenAt(t, h1), TokenAt(t, h2), h2 as int - h1 as int - 1, TokenAt(t, k),
                               EntityBetween(t, entities, h1, h2));
    FromContentWithAncestor(t, entities, h1, h2, k, l);
    EarlyAtValue(t, entities, h1, h2, k);
    SyntaxAtValue(early, t, entities, h1, h2, k, l);
  }

  /** Every feature of the result is a name `ValueAt` defines, with its value. */
  lemma FromContentSound(t: DepTree, entities: map<string, Span>, h1: nat, h2: nat, k: nat)
    requires Valid(t) && IsToken(t, h1) && IsToken(t, h2) && IsToken(t, k)
    ensures forall f :: f in FromContent(t, entities, h1, h2, k) ==> ValueAt(t, entities, h1, h2, k, f.name) == Some(f.value)
  {
    match t.lcs(h1, h2)
    case None => SoundWithoutAncestor(t, entities, h1, h2, k);
    case Some(l) => SoundWithAncestor(t, entities, h1, h2, k, l);
  }

  lemma CompleteWithoutAncestor(t: DepTree, entities: map<string, Span>, h1: nat, h2: nat, k: nat)
    requires Valid(t) && IsToken(t, h1) && IsToken(t, h2) && IsToken(t, k)
    requires t.lcs(h1, h2).None?
    ensures forall n :: ValueAt(t, entities, h1, h2, k, n).Some? ==>
      Feature(n, ValueAt(t, entities, h1, h2, k, n).value) in FromContent(t, entities, h1, h2, k)
  {
    var head1, head2, content := TokenAt(t, h1), TokenAt(t, h2), TokenAt(t, k);
    var distance, eib := h2 as int - h1 as int - 1, EntityBetween(t, entities, h1, h2);
    EarlyComplete(head1, head2, distance, content, eib);
    FromContentWithoutAncestor(t, entities, h1, h2, k);
    forall n | ValueAt(t, entities, h1, h2, k, n).Some?
      ensures Feature(n, ValueAt(t, entities, h1, h2, k, n).value) in FromContent(t, entities, h1, h2, k)
    {
      ValueAtEarlyName(t, entities, h1, h2, k, n);
    }
  }

  lemma CompleteWithAncestor(t: DepTree, entities: map<string, Span>, h1: nat, h2: nat, k: nat, l: nat)
    requires Valid(t) && IsToken(t, h1) && IsToken(t, h2) && IsToken(t, k)
    requires t.lcs(h1, h2) == Some(l)
    ensures forall n :: ValueAt(t, entities, h1, h2, k, n).Some? ==>
      Feature(n, ValueAt(t, entities, h1, h2, k, n).value) in FromContent(t, entities, h1, h2, k)
  {
    var head1, head2, content := TokenAt(t, h1), TokenAt(t, h2), TokenAt(t, k);
    var distance, eib := h2 as int - h1 as int - 1, EntityBetween(t, entities, h1, h2);
    var early := EarlyFeatures(head1, head2, distance, content, eib);
    EarlyComplete(head1, head2, distance, content, eib);
    FromContentWithAncestor(t, entities, h1, h2, k, l);
    var up := t.upPath(h1, l);
    var down := t.downPath(l, h2);
    var nodes := up + [l] + down;
    AllTokensPath(t, up, l, down);
    AddSyntaxComplete(early, LemmaRels(t, up), LemmaRels(t, down), TokenAt(t, l), |SubtreeNodes(t, l)|,
                      Join('_', Tags(t, nodes)), Join('_', Rels(t, nodes)), PathEntity(t, entities, nodes),
                      VerbsIn(t, h1 + 1, h2));
    forall n | ValueAt(t, entities, h1, h2, k, n).Some?
      ensures Feature(n, ValueAt(t, entities, h1, h2, k, n).value) in FromContent(t, entities, h1, h2, k)
    {
      if IsSyntactic(n) {
        ValueAtSyntaxName(t, entities, h1, h2, k, l, n);
      } else {
        ValueAtEarlyName(t, entities, h1, h2, k, n);
      }
    }
  }

  /** Every name `ValueAt` defines is in the result, with its value. */
  lemma FromContentComplete(t: DepTree, entities: map<string, Span>, h1: nat, h2: nat, k: nat)
    requires Valid(t) && IsToken(t, h1) && IsToken(t, h2) && IsToken(t, k)
    ensures forall n :: ValueAt(t, entities, h1, h2, k, n).Some? ==>
      Feature(n, ValueAt(t, entities, h1, h2, k, n).value) in FromContent(t, entities, h1, h2, k)
  {
    match t.lcs(h1, h2)
    case None => CompleteWithoutAncestor(t, entities, h1, h2, k);
    case Some(l) => CompleteWithAncestor(t, entities, h1, h2, k, l);
  }

  /** Every feature of the result carries the value `ValueAt` gives its name. */
  lemma FeaturesSound(t: DepTree, entities: map<string, Span>, e1: string, e2: string, h1: nat, h2: nat, k: nat)
    requires Valid(t) && e1 in entities && e2 in entities
    requires HeadOf(t, entities, e1) == Some(h1) && HeadOf(t, entities, e2) == Some(h2)
    requires FirstContent(t, h1 + 1) == Some(k)
    ensures IsToken(t, h1) && IsToken(t, h2) && IsToken(t, k)
    ensures forall f :: f in Features(t, entities, e1, e2) ==> ValueAt(t, entities, h1, h2, k, f.name) == Some(f.value)
  {
    FeaturesAtContent(t, entities, e1, e2, h1, h2, k);
    FromContentSound(t, entities, h1, h2, k);
  }

  /**
   * Once both heads resolve and the scan stops at `k`, the result holds
   * exactly one feature per name that `ValueAt` defines, with that value,
   * and nothing else.
   */
  lemma FeaturesByName(t: DepTree, entities: map<string, Span>, e1: string, e2: string, h1: nat, h2: nat, k: nat)
    requires Valid(t) && e1 in entities && e2 in entities
    requires HeadOf(t, entities, e1) == Some(h1) && HeadOf(t, entities, e2) == Some(h2)
    requires FirstContent(t, h1 + 1) == Some(k)
    ensures IsToken(t, h1) && IsToken(t, h2) && IsToken(t, k)
    ensures forall f :: f in Features(t, entities, e1, e2) ==> ValueAt(t, entities, h1, h2, k, f.name) == Some(f.value)
    ensures forall n :: ValueAt(t, entities, h1, h2, k, n).Some? ==>
      Has(Features(t, entities, e1, e2), n, ValueAt(t, entities, h1, h2, k, n).value)
  {
    FeaturesSound(t, entities, e1, e2, h1, h2, k);
    FeaturesAtContent(t, entities, e1, e2, h1, h2, k);
    FromContentComplete(t, entities, h1, h2, k);
  }

  lemma ValueAtEarlyName(t: DepTree, entities: map<string, Span>, h1: nat, h2: nat, k: nat, n: Name)
    requires Valid(t) && IsToken(t, h1) && IsToken(t, h2) && IsToken(t, k)
    requires !IsSyntactic(n)
    ensures ValueAt(t, entities, h1, h2, k, n) ==
      EarlyValue(n, TokenAt(t, h1), TokenAt(t, h2), h2 as int - h1 as int - 1, TokenAt(t, k),
                 EntityBetween(t, entities, h1, h2))
  {
  }

  lemma ValueAtSyntaxName(t: DepTree, entities: map<string, Span>, h1: nat, h2: nat, k: nat, l: nat, n: Name)
    requires Valid(t) && IsToken(t, h1) && IsToken(t, h2) && IsToken(t, k)
    requires t.lcs(h1, h2) == Some(l)
    requires IsSyntactic(n)
    ensures IsToken(t, l) && AllTokens(t, t.upPath(h1, l) + [l] + t.downPath(l, h2))
    ensures var up, down := t.upPath(h1, l), t.downPath(l, h2);
      var nodes := up + [l] + down;
      ValueAt(t, entities, h1, h2, k, n) ==
        SyntaxValue(n, LemmaRels(t, up), LemmaRels(t, down), TokenAt(t, l), |SubtreeNodes(t, l)|,
                    Join('_', Tags(t, nodes)), Join('_', Rels(t, nodes)), PathEntity(t, entities, nodes),
                    VerbsIn(t, h1 + 1, h2))
  {
    AllTokensPath(t, t.upPath(h1, l), l, t.downPath(l, h2));
  }

  /** The early names of `ValueAt`, one by one. */
  lemma EarlyValues(t: DepTree, entities: map<string, Span>, h1: nat, h2: nat, k: nat)
    requires Valid(t) && IsToken(t, h1) && IsToken(t, h2) && IsToken(t, k)
    ensures var a, b, c := TokenAt(t, h1), TokenAt(t, h2), TokenAt(t, k);
      && ValueAt(t, entities, h1, h2, k, E1Word) == Some(a.word)
      && ValueAt(t, entities, h1, h2, k, E1Lemma) == Some(Lower(a.lem))
      && ValueAt(t, entities, h1, h2, k, E1Pos) == Some(a.tag)
      && ValueAt(t, entities, h1, h2, k, E2Word) == Some(b.word)
      && ValueAt(t, entities, h1, h2, k, E2Lemma) == Some(Lower(b.lem))
      && ValueAt(t, entities, h1, h2, k, E2Pos) == Some(b.tag)
      && ValueAt(t, entities, h1, h2, k, Distance) == Some(IntToString(h2 as int - h1 as int - 1))
      && ValueAt(t, entities, h1, h2, k, Lib) == Some(Lower(c.lem))
      && ValueAt(t, entities, h1, h2, k, Wib) == Some(c.word)
      && ValueAt(t, entities, h1, h2, k, Lpib) == Some(Lower(c.lem) + "_" + c.tag)
      && ValueAt(t, entities, h1, h2, k, Eib) == Some(BoolText(EntityBetween(t, entities, h1, h2)))
  {
    ValueAtEarlyName(t, entities, h1, h2, k, E1Word);
    ValueAtEarlyName(t, entities, h1, h2, k, E1Lemma);
    ValueAtEarlyName(t, entities, h1, h2, k, E1Pos);
    ValueAtEarlyName(t, entities, h1, h2, k, E2Word);
    ValueAtEarlyName(t, entities, h1, h2, k, E2Lemma);
    ValueAtEarlyName(t, entities, h1, h2, k, E2Pos);
    ValueAtEarlyName(t, entities, h1, h2, k, Distance);
    ValueAtEarlyName(t, entities, h1, h2, k, Lib);
    ValueAtEarlyName(t, entities, h1, h2, k, Wib);
    ValueAtEarlyName(t, entities, h1, h2, k, Lpib);
    ValueAtEarlyName(t, entities, h1, h2, k, Eib);
  }

  /** The path strings of `ValueAt` when the lowest common ancestor is `l`. */
  lemma PathStringValues(t: DepTree, entities: map<string, Span>, h1: nat, h2: nat, k: nat, l: nat)
    requires Valid(t) && IsToken(t, h1) && IsToken(t, h2) && IsToken(t, k)
    requires t.lcs(h1, h2) == Some(l)
    ensures IsToken(t, l) && AllTokens(t, t.upPath(h1, l)) && AllTokens(t, t.downPath(l, h2))
    ensures ValueAt(t, entities, h1, h2, k, Path1) == Some(Join('<', LemmaRels(t, t.upPath(h1, l))))
    ensures ValueAt(t, entities, h1, h2, k, Path2) == Some(Join('>', LemmaRels(t, t.downPath(l, h2))))
    ensures ValueAt(t, entities, h1, h2, k, Path) ==
      Some(Join('<', LemmaRels(t, t.upPath(h1, l))) + "<" + LemmaRel(TokenAt(t, l)) + ">" +
           Join('>', LemmaRels(t, t.downPath(l, h2))))
  {
    ValueAtSyntaxName(t, entities, h1, h2, k, l, Path1);
    ValueAtSyntaxName(t, entities, h1, h2, k, l, Path2);
    ValueAtSyntaxName(t, entities, h1, h2, k, l, Path);
  }

  /** The ancestor's own names of `ValueAt` when the lowest common ancestor is `l`. */
  lemma AncestorValues(t: DepTree, entities: map<string, Span>, h1: nat, h2: nat, k: nat, l: nat)
    requires Valid(t) && IsToken(t, h1) && IsToken(t, h2) && IsToken(t, k)
    requires t.lcs(h1, h2) == Some(l)
    ensures IsToken(t, l)
    ensures ValueAt(t, entities, h1, h2, k, LcsPos) == Some(TokenAt(t, l).tag)
    ensures ValueAt(t, entities, h1, h2, k, LcsLemma) == Some(TokenAt(t, l).lem)
    ensures ValueAt(t, entities, h1, h2, k, LcsRel) == Some(TokenAt(t, l).rel)
  {
    ValueAtSyntaxName(t, entities, h1, h2, k, l, LcsPos);
    ValueAtSyntaxName(t, entities, h1, h2, k, l, LcsLemma);
    ValueAtSyntaxName(t, entities, h1, h2, k, l, LcsRel);
  }

  /** The path lengths of `ValueAt` when the lowest common ancestor is `l`. */
  lemma PathLengthValues(t: DepTree, entities: map<string, Span>, h1: nat, h2: nat, k: nat, l: nat)
    requires Valid(t) && IsToken(t, h1) && IsToken(t, h2) && IsToken(t, k)
    requires t.lcs(h1, h2) == Some(l)
    ensures ValueAt(t, entities, h1, h2, k, PathLength) ==
      Some(IntToString(|t.upPath(h1, l)| + 1 + |t.downPath(l, h2)|))
    ensures ValueAt(t, entities, h1, h2, k, PathUpLen) == Some(IntToString(|t.upPath(h1, l)|))
    ensures ValueAt(t, entities, h1, h2, k, PathDownLen) == Some(IntToString(|t.downPath(l, h2)|))
  {
    ValueAtSyntaxName(t, entities, h1, h2, k, l, PathLength);
    ValueAtSyntaxName(t, entities, h1, h2, k, l, PathUpLen);
    ValueAtSyntaxName(t, entities, h1, h2, k, l, PathDownLen);
  }

  /** The subtree size of `ValueAt` when the lowest common ancestor is `l`. */
  lemma SubtreeSizeValue(t: DepTree, entities: map<string, Span>, h1: nat, h2: nat, k: nat, l: nat)
    requires Valid(t) && IsToken(t, h1) && IsToken(t, h2) && IsToken(t, k)
    requires t.lcs(h1, h2) == Some(l)
    ensures IsToken(t, l)
    ensures ValueAt(t, entities, h1, h2, k, SubtreeSize) == Some(IntToString(|SubtreeNodes(t, l)|))
  {
    ValueAtSyntaxName(t, entities, h1, h2, k, l, SubtreeSize);
  }

  /** The tag and relation sequences of `ValueAt` when the lowest common ancestor is `l`. */
  lemma SequenceValues(t: DepTree, entities: map<string, Span>, h1: nat, h2: nat, k: nat, l: nat)
    requires Valid(t) && IsToken(t, h1) && IsToken(t, h2) && IsToken(t, k)
    requires t.lcs(h1, h2) == Some(l)
    ensures IsToken(t, l) && AllTokens(t, t.upPath(h1, l) + [l] + t.downPath(l, h2))
    ensures ValueAt(t, entities, h1, h2, k, PathPosSeq) == Some(Join('_', Tags(t, t.upPath(h1, l) + [l] + t.downPath(l, h2))))
    ensures ValueAt(t, entities, h1, h2, k, PathRelSeq) == Some(Join('_', Rels(t, t.upPath(h1, l) + [l] + t.downPath(l, h2))))
  {
    ValueAtSyntaxName(t, entities, h1, h2, k, l, PathPosSeq);
    ValueAtSyntaxName(t, entities, h1, h2, k, l, PathRelSeq);
  }

  /** `eip` of `ValueAt` when the lowest common ancestor is `l`. */
  lemma EipValue(t: DepTree, entities: map<string, Span>, h1: nat, h2: nat, k: nat, l: nat)
    requires Valid(t) && IsToken(t, h1) && IsToken(t, h2) && IsToken(t, k)
    requires t.lcs(h1, h2) == Some(l)
    ensures ValueAt(t, entities, h1, h2, k, Eip) ==
      Some(BoolText(PathEntity(t, entities, t.upPath(h1, l) + [l] + t.downPath(l, h2))))
  {
    ValueAtSyntaxName(t, entities, h1, h2, k, l, Eip);
  }

  /** The flag of verb class `c` in `ValueAt` when the lowest common ancestor is `l`. */
  lemma ClassFlagValue(t: DepTree, entities: map<string, Span>, h1: nat, h2: nat, k: nat, l: nat, c: VerbClass)
    requires Valid(t) && IsToken(t, h1) && IsToken(t, h2) && IsToken(t, k)
    requires t.lcs(h1, h2) == Some(l)
    ensures ValueAt(t, entities, h1, h2, k, VerbBetween(c)) ==
      Some(BoolText(VerbsIn(t, h1 + 1, h2) * Vocabulary(c) != {}))
  {
    ValueAtSyntaxName(t, entities, h1, h2, k, l, VerbBetween(c));
  }

  /** A name holds one value: `fs` holds `n=w` exactly when `w` is that value. */
  lemma HasUnique(fs: set<Feature>, n: Name, v: string, w: string)
    requires Has(fs, n, v)
    ensures Has(fs, n, w) <==> w == v
  {
  }

  /** One name of `FeaturesByName`. */
  lemma HasAt(t: DepTree, entities: map<string, Span>, e1: string, e2: string, h1: nat, h2: nat, k: nat, n: Name, v: string)
    requires Valid(t) && e1 in entities && e2 in entities
    requires HeadOf(t, entities, e1) == Some(h1) && HeadOf(t, entities, e2) == Some(h2)
    requires FirstContent(t, h1 + 1) == Some(k)
    requires IsToken(t, h1) && IsToken(t, h2) && IsToken(t, k)
    requires ValueAt(t, entities, h1, h2, k, n) == Some(v)
    ensures Has(Features(t, entities, e1, e2), n, v)
  {
    FeaturesByName(t, entities, e1, e2, h1, h2, k);
  }

  // ---------------------------------------------------------------------
  // What the result says, feature by feature
  // ---------------------------------------------------------------------

  /**
   * The result is empty exactly when a head is unresolved or the stopword
   * scan from the position after the first head overruns: in every other
   * case it holds at least the early features.
   */
  lemma EmptyExactlyOnEarlyExit(t: DepTree, entities: map<string, Span>, e1: string, e2: string)
    requires Valid(t) && e1 in entities && e2 in entities
    ensures Features(t, entities, e1, e2) == {} <==>
      || HeadOf(t, entities, e1).None?
      || HeadOf(t, entities, e2).None?
      || ScanOverruns(t, HeadOf(t, entities, e1).value + 1)
  {
    match (HeadOf(t, entities, e1), HeadOf(t, entities, e2))
    case (Some(h1), Some(h2)) =>
      FirstContentFails(t, h1 + 1);
      if FirstContent(t, h1 + 1).Some? {
        var k := FirstContent(t, h1 + 1).value;
        HasAt(t, entities, e1, e2, h1, h2, k, Eib, BoolText(EntityBetween(t, entities, h1, h2)));
      }
    case _ =>
  }

  /** The six head features: word, lower-cased lemma and tag of each head. */
  lemma HeadFeatures(t: DepTree, entities: map<string, Span>, e1: string, e2: string, h1: nat, h2: nat, k: nat)
    requires Valid(t) && e1 in entities && e2 in entities
    requires HeadOf(t, entities, e1) == Some(h1) && HeadOf(t, entities, e2) == Some(h2)
    requires FirstContent(t, h1 + 1) == Some(k)
    ensures IsToken(t, h1) && IsToken(t, h2)
    ensures var r := Features(t, entities, e1, e2);
      && Has(r, E1Word, TokenAt(t, h1).word) && Has(r, E1Lemma, Lower(TokenAt(t, h1).lem))
      && Has(r, E1Pos, TokenAt(t, h1).tag)
      && Has(r, E2Word, TokenAt(t, h2).word) && Has(r, E2Lemma, Lower(TokenAt(t, h2).lem))
      && Has(r, E2Pos, TokenAt(t, h2).tag)
  {
    var a, b := TokenAt(t, h1), TokenAt(t, h2);
    EarlyValues(t, entities, h1, h2, k);
    HasAt(t, entities, e1, e2, h1, h2, k, E1Word, a.word);
    HasAt(t, entities, e1, e2, h1, h2, k, E1Lemma, Lower(a.lem));
    HasAt(t, entities, e1, e2, h1, h2, k, E1Pos, a.tag);
    HasAt(t, entities, e1, e2, h1, h2, k, E2Word, b.word);
    HasAt(t, entities, e1, e2, h1, h2, k, E2Lemma, Lower(b.lem));
    HasAt(t, entities, e1, e2, h1, h2, k, E2Pos, b.tag);
  }

  /**
   * `distance` is the signed gap between the heads: read back it gives
   * `h2 - h1 - 1`; it is "0" exactly for adjacent heads and negative exactly
   * when the second head does not follow the first.
   */
  lemma DistanceFeature(t: DepTree, entities: map<string, Span>, e1: string, e2: string, h1: nat, h2: nat, k: nat)
    requires Valid(t) && e1 in entities && e2 in entities
    requires HeadOf(t, entities, e1) == Some(h1) && HeadOf(t, entities, e2) == Some(h2)
    requires FirstContent(t, h1 + 1) == Some(k)
    ensures Has(Features(t, entities, e1, e2), Distance, IntToString(h2 as int - h1 as int - 1))
    ensures forall f :: f in Features(t, entities, e1, e2) && f.name == Distance ==>
      && ParseInt(f.value) == h2 as int - h1 as int - 1
      && (f.value == "0" <==> h2 == h1 + 1)
      && (f.value[0] == '-' <==> h2 <= h1)
  {
    var d := h2 as int - h1 as int - 1;
    EarlyValues(t, entities, h1, h2, k);
    HasAt(t, entities, e1, e2, h1, h2, k, Distance, IntToString(d));
    ParseIntToString(d);
    IntToStringZero(d);
  }

  /**
   * `lib`, `wib` and `lpib` describe the first position after the first
   * head that is not a stopword, however far past the second head it lies.
   */
  lemma ContentWordFeatures(t: DepTree, entities: map<string, Span>, e1: string, e2: string, h1: nat, h2: nat, k: nat)
    requires Valid(t) && e1 in entities && e2 in entities
    requires HeadOf(t, entities, e1) == Some(h1) && HeadOf(t, entities, e2) == Some(h2)
    requires h1 < k && IsStopword(t, k) == Some(false)
    requires forall j: nat :: h1 < j < k ==> IsStopword(t, j) == Some(true)
    ensures IsToken(t, k)
    ensures var r := Features(t, entities, e1, e2);
      && Has(r, Lib, Lower(TokenAt(t, k).lem))
      && Has(r, Wib, TokenAt(t, k).word)
      && Has(r, Lpib, Lower(TokenAt(t, k).lem) + "_" + TokenAt(t, k).tag)
  {
    FirstContentIsFirst(t, h1 + 1, k);
    var c := TokenAt(t, k);
    EarlyValues(t, entities, h1, h2, k);
    HasAt(t, entities, e1, e2, h1, h2, k, Lib, Lower(c.lem));
    HasAt(t, entities, e1, e2, h1, h2, k, Wib, c.word);
    HasAt(t, entities, e1, e2, h1, h2, k, Lpib, Lower(c.lem) + "_" + c.tag);
  }

  /**
   * `eib` is "True" exactly when some position strictly between the heads
   * is an entity, so it is "False" when the heads are adjacent or reversed.
   */
  lemma EntityBetweenFeature(t: DepTree, entities: map<string, Span>, e1: string, e2: string, h1: nat, h2: nat, k: nat)
    requires Valid(t) && e1 in entities && e2 in entities
    requires HeadOf(t, entities, e1) == Some(h1) && HeadOf(t, entities, e2) == Some(h2)
    requires FirstContent(t, h1 + 1) == Some(k)
    ensures Has(Features(t, entities, e1, e2), Eib, "True") <==>
      exists j: nat :: h1 < j < h2 && IsEntity(t, entities, j)
    ensures Has(Features(t, entities, e1, e2), Eib, "False") <==>
      forall j: nat :: h1 < j < h2 ==> !IsEntity(t, entities, j)
    ensures h2 <= h1 + 1 ==> Has(Features(t, entities, e1, e2), Eib, "False")
  {
    EarlyValues(t, entities, h1, h2, k);
    HasAt(t, entities, e1, e2, h1, h2, k, Eib, BoolText(EntityBetween(t, entities, h1, h2)));
  }

  /**
   * Without a lowest common ancestor no syntactic feature is emitted, but
   * the head, distance, content-word and `eib` features still are.
   */
  lemma NoAncestorNoSyntax(t: DepTree, entities: map<string, Span>, e1: string, e2: string, h1: nat, h2: nat, k: nat)
    requires Valid(t) && e1 in entities && e2 in entities
    requires HeadOf(t, entities, e1) == Some(h1) && HeadOf(t, entities, e2) == Some(h2)
    requires FirstContent(t, h1 + 1) == Some(k)
    requires t.lcs(h1, h2).None?
    ensures forall f :: f in Features(t, entities, e1, e2) ==> !IsSyntactic(f.name)
    ensures IsToken(t, h1) && IsToken(t, h2) && IsToken(t, k)
    ensures Features(t, entities, e1, e2) ==
      EarlyFeatures(TokenAt(t, h1), TokenAt(t, h2), h2 as int - h1 as int - 1, TokenAt(t, k),
                    EntityBetween(t, entities, h1, h2))
  {
    FeaturesAtContent(t, entities, e1, e2, h1, h2, k);
    FromContentWithoutAncestor(t, entities, h1, h2, k);
    EarlyIsNotSyntactic(TokenAt(t, h1), TokenAt(t, h2), h2 as int - h1 as int - 1, TokenAt(t, k),
                        EntityBetween(t, entities, h1, h2));
  }

  /**
   * With the lowest common ancestor `l`: the path strings join `lemma_rel`
   * (lemma, "_", relation) of the up-path nodes with "<" and of the
   * down-path nodes with ">", and the full path puts the ancestor's own
   * `lemma_rel` between them. The lemmas on the path are not lower-cased.
   */
  lemma PathStrings(t: DepTree, entities: map<string, Span>, e1: string, e2: string, h1: nat, h2: nat, k: nat, l: nat)
    requires Valid(t) && e1 in entities && e2 in entities
    requires HeadOf(t, entities, e1) == Some(h1) && HeadOf(t, entities, e2) == Some(h2)
    requires FirstContent(t, h1 + 1) == Some(k)
    requires t.lcs(h1, h2) == Some(l)
    ensures IsToken(t, l) && AllTokens(t, t.upPath(h1, l)) && AllTokens(t, t.downPath(l, h2))
    ensures var r := Features(t, entities, e1, e2);
      var path1 := Join('<', LemmaRels(t, t.upPath(h1, l)));
      var path2 := Join('>', LemmaRels(t, t.downPath(l, h2)));
      && Has(r, Path1, path1)
      && Has(r, Path2, path2)
      && Has(r, Path, path1 + "<" + LemmaRel(TokenAt(t, l)) + ">" + path2)
  {
    PathStringValues(t, entities, h1, h2, k, l);
    var lcs := TokenAt(t, l);
    var path1 := Join('<', LemmaRels(t, t.upPath(h1, l)));
    var path2 := Join('>', LemmaRels(t, t.downPath(l, h2)));
    HasAt(t, entities, e1, e2, h1, h2, k, Path1, path1);
    HasAt(t, entities, e1, e2, h1, h2, k, Path2, path2);
    HasAt(t, entities, e1, e2, h1, h2, k, Path, path1 + "<" + LemmaRel(lcs) + ">" + path2);
  }

  /** The ancestor's tag, lemma and relation are reported as they are; the lemma is not lower-cased. */
  lemma AncestorFeatures(t: DepTree, entities: map<string, Span>, e1: string, e2: string, h1: nat, h2: nat, k: nat, l: nat)
    requires Valid(t) && e1 in entities && e2 in entities
    requires HeadOf(t, entities, e1) == Some(h1) && HeadOf(t, entities, e2) == Some(h2)
    requires FirstContent(t, h1 + 1) == Some(k)
    requires t.lcs(h1, h2) == Some(l)
    ensures IsToken(t, l)
    ensures var r := Features(t, entities, e1, e2);
      && Has(r, LcsPos, TokenAt(t, l).tag)
      && Has(r, LcsLemma, TokenAt(t, l).lem)
      && Has(r, LcsRel, TokenAt(t, l).rel)
  {
    AncestorValues(t, entities, h1, h2, k, l);
    var lcs := TokenAt(t, l);
    HasAt(t, entities, e1, e2, h1, h2, k, LcsPos, lcs.tag);
    HasAt(t, entities, e1, e2, h1, h2, k, LcsLemma, lcs.lem);
    HasAt(t, entities, e1, e2, h1, h2, k, LcsRel, lcs.rel);
  }

  /**
   * The three path lengths, read back as integers: the up and down lengths
   * count the path nodes, and the full length counts both paths plus the
   * ancestor. This lemma speaks only of values; that each length is present
   * exactly once follows from `FeaturesByName` with `PathLengthValues`
   * (`IntFeature` puts the two together for one name).
   */
  lemma PathLengths(t: DepTree, entities: map<string, Span>, e1: string, e2: string, h1: nat, h2: nat, k: nat, l: nat)
    requires Valid(t) && e1 in entities && e2 in entities
    requires HeadOf(t, entities, e1) == Some(h1) && HeadOf(t, entities, e2) == Some(h2)
    requires FirstContent(t, h1 + 1) == Some(k)
    requires t.lcs(h1, h2) == Some(l)
    ensures forall f :: f in Features(t, entities, e1, e2) && f.name == PathUpLen ==>
      ParseInt(f.value) == |t.upPath(h1, l)|
    ensures forall f :: f in Features(t, entities, e1, e2) && f.name == PathDownLen ==>
      ParseInt(f.value) == |t.downPath(l, h2)|
    ensures forall f :: f in Features(t, entities, e1, e2) && f.name == PathLength ==>
      ParseInt(f.value) == |t.upPath(h1, l)| + 1 + |t.downPath(l, h2)|
  {
    var up, down := |t.upPath(h1, l)|, |t.downPath(l, h2)|;
    PathLengthValues(t, entities, h1, h2, k, l);
    IntFeature(t, entities, e1, e2, h1, h2, k, PathLength, up + 1 + down);
    IntFeature(t, entities, e1, e2, h1, h2, k, PathUpLen, up);
    IntFeature(t, entities, e1, e2, h1, h2, k, PathDownLen, down);
  }

  /** A feature whose `ValueAt` is the text of `v` is present once, and every copy reads back as `v`. */
  lemma IntFeature(t: DepTree, entities: map<string, Span>, e1: string, e2: string, h1: nat, h2: nat, k: nat, n: Name, v: int)
    requires Valid(t) && e1 in entities && e2 in entities
    requires HeadOf(t, entities, e1) == Some(h1) && HeadOf(t, entities, e2) == Some(h2)
    requires FirstContent(t, h1 + 1) == Some(k)
    requires IsToken(t, h1) && IsToken(t, h2) && IsToken(t, k)
    requires ValueAt(t, entities, h1, h2, k, n) == Some(IntToString(v))
    ensures Has(Features(t, entities, e1, e2), n, IntToString(v))
    ensures forall f :: f in Features(t, entities, e1, e2) && f.name == n ==> ParseInt(f.value) == v
  {
    FeaturesSound(t, entities, e1, e2, h1, h2, k);
    HasAt(t, entities, e1, e2, h1, h2, k, n, IntToString(v));
    ParseIntToString(v);
  }

  /**
   * `path_pos_seq` and `path_rel_seq` join the tags and the relations of
   * the path nodes (up path, ancestor, down path) with "_"; when no tag
   * contains "_" the tag sequence splits back into exactly those
   * `|up| + 1 + |down|` tags, and likewise for the relations.
   */
  lemma PathSequences(t: DepTree, entities: map<string, Span>, e1: string, e2: string, h1: nat, h2: nat, k: nat, l: nat)
    requires Valid(t) && e1 in entities && e2 in entities
    requires HeadOf(t, entities, e1) == Some(h1) && HeadOf(t, entities, e2) == Some(h2)
    requires FirstContent(t, h1 + 1) == Some(k)
    requires t.lcs(h1, h2) == Some(l)
    ensures AllTokens(t, t.upPath(h1, l) + [l] + t.downPath(l, h2))
    ensures var nodes := t.upPath(h1, l) + [l] + t.downPath(l, h2);
      var r := Features(t, entities, e1, e2);
      && Has(r, PathPosSeq, Join('_', Tags(t, nodes)))
      && Has(r, PathRelSeq, Join('_', Rels(t, nodes)))
      && ((forall i :: 0 <= i < |nodes| ==> '_' !in Tags(t, nodes)[i]) ==>
            && Split(Join('_', Tags(t, nodes)), '_') == Tags(t, nodes)
            && |Split(Join('_', Tags(t, nodes)), '_')| == |t.upPath(h1, l)| + 1 + |t.downPath(l, h2)|)
      && ((forall i :: 0 <= i < |nodes| ==> '_' !in Rels(t, nodes)[i]) ==>
            && Split(Join('_', Rels(t, nodes)), '_') == Rels(t, nodes)
            && |Split(Join('_', Rels(t, nodes)), '_')| == |t.upPath(h1, l)| + 1 + |t.downPath(l, h2)|)
  {
    var nodes := t.upPath(h1, l) + [l] + t.downPath(l, h2);
    SequenceValues(t, entities, h1, h2, k, l);
    HasAt(t, entities, e1, e2, h1, h2, k, PathPosSeq, Join('_', Tags(t, nodes)));
    HasAt(t, entities, e1, e2, h1, h2, k, PathRelSeq, Join('_', Rels(t, nodes)));
    if forall i :: 0 <= i < |nodes| ==> '_' !in Tags(t, nodes)[i] {
      SplitJoin('_', Tags(t, nodes));
    }
    if forall i :: 0 <= i < |nodes| ==> '_' !in Rels(t, nodes)[i] {
      SplitJoin('_', Rels(t, nodes));
    }
  }

  /**
   * `subtree_size` counts the ancestor and, recursively, every node below
   * it: read back it is one plus the children's subtree sizes, so at least 1.
   */
  lemma SubtreeSizeFeature(t: DepTree, entities: map<string, Span>, e1: string, e2: string, h1: nat, h2: nat, k: nat, l: nat)
    requires Valid(t) && e1 in entities && e2 in entities
    requires HeadOf(t, entities, e1) == Some(h1) && HeadOf(t, entities, e2) == Some(h2)
    requires FirstContent(t, h1 + 1) == Some(k)
    requires t.lcs(h1, h2) == Some(l)
    ensures IsToken(t, l)
    ensures Has(Features(t, entities, e1, e2), SubtreeSize, IntToString(|SubtreeNodes(t, l)|))
    ensures forall f :: f in Features(t, entities, e1, e2) && f.name == SubtreeSize ==>
      ParseInt(f.value) == 1 + ChildrenSizes(t, TokenAt(t, l).children) && ParseInt(f.value) >= 1
  {
    SubtreeSizeValue(t, entities, h1, h2, k, l);
    HasAt(t, entities, e1, e2, h1, h2, k, SubtreeSize, IntToString(|SubtreeNodes(t, l)|));
    ParseIntToString(|SubtreeNodes(t, l)|);
    SubtreeSizeIsOnePlusChildren(t, l);
  }

  /** `eip` is "True" exactly when some node of the path (ancestor included) is an entity. */
  lemma EntityOnPathFeature(t: DepTree, entities: map<string, Span>, e1: string, e2: string, h1: nat, h2: nat, k: nat, l: nat)
    requires Valid(t) && e1 in entities && e2 in entities
    requires HeadOf(t, entities, e1) == Some(h1) && HeadOf(t, entities, e2) == Some(h2)
    requires FirstContent(t, h1 + 1) == Some(k)
    requires t.lcs(h1, h2) == Some(l)
    ensures var nodes := t.upPath(h1, l) + [l] + t.downPath(l, h2);
      && (Has(Features(t, entities, e1, e2), Eip, "True") <==>
            exists i :: 0 <= i < |nodes| && IsEntity(t, entities, nodes[i]))
      && (Has(Features(t, entities, e1, e2), Eip, "False") <==>
            forall i :: 0 <= i < |nodes| ==> !IsEntity(t, entities, nodes[i]))
  {
    var nodes := t.upPath(h1, l) + [l] + t.downPath(l, h2);
    var r, onPath := Features(t, entities, e1, e2), PathEntity(t, entities, nodes);
    EipValue(t, entities, h1, h2, k, l);
    HasAt(t, entities, e1, e2, h1, h2, k, Eip, BoolText(onPath));
    HasUnique(r, Eip, BoolText(onPath), "True");
    HasUnique(r, Eip, BoolText(onPath), "False");
  }

  /** Some position strictly between the heads holds a verb whose lower-cased lemma is in the class's set. */
  ghost predicate ClassVerbBetween(t: DepTree, h1: nat, h2: nat, c: VerbClass)
  {
    exists j: nat, x :: h1 < j < h2 && VerbWithLemma(t, j, x) && x in Vocabulary(c)
  }

  /**
   * One flag per verb class: "True" exactly when a token strictly between
   * the heads is tagged as a verb and its lower-cased lemma is in that
   * class's set; positions without a token are skipped.
   */
  lemma VerbClassFlags(t: DepTree, entities: map<string, Span>, e1: string, e2: string, h1: nat, h2: nat, k: nat, l: nat)
    requires Valid(t) && e1 in entities && e2 in entities
    requires HeadOf(t, entities, e1) == Some(h1) && HeadOf(t, entities, e2) == Some(h2)
    requires FirstContent(t, h1 + 1) == Some(k)
    requires t.lcs(h1, h2) == Some(l)
    ensures forall c :: Has(Features(t, entities, e1, e2), VerbBetween(c), BoolText(ClassVerbBetween(t, h1, h2, c)))
  {
    forall c
      ensures Has(Features(t, entities, e1, e2), VerbBetween(c), BoolText(ClassVerbBetween(t, h1, h2, c)))
    {
      ClassFlagValue(t, entities, h1, h2, k, l, c);
      var verbs := VerbsIn(t, h1 + 1, h2);
      if verbs * Vocabulary(c) != {} {
        var x :| x in verbs * Vocabulary(c);
        VerbsInMembers(t, h1 + 1, h2, x);
      }
      if ClassVerbBetween(t, h1, h2, c) {
        var j: nat, x :| h1 < j < h2 && VerbWithLemma(t, j, x) && x in Vocabulary(c);
        VerbsInMembers(t, h1 + 1, h2, x);
        assert x in verbs * Vocabulary(c);
      }
      HasAt(t, entities, e1, e2, h1, h2, k, VerbBetween(c), BoolText(ClassVerbBetween(t, h1, h2, c)));
    }
  }
}
