/**
 * The dependency parse of one sentence, as the feature extractor sees it.
 *
 * The parser that builds it and its structural queries (head of a span,
 * lowest common ancestor, up and down paths) are outside this model: a
 * `DepTree` carries their answers, and `Valid` states the contract the
 * extractor relies on without proving how the parser meets it.
 */
module DependencyTree {
  import opened Wrappers

  /** A character-offset span of an entity mention, both ends inclusive. */
  datatype Span = Span(start: int, end: int)

  /**
   * One node of the parse: `lem` is its lemma, `start`/`end` its character offsets,
   * `stop` the parser's stopword verdict, `children` the positions it owns,
   * and `height` a witness of acyclicity: every child has a smaller height.
   */
  datatype Token = Token(
    word: string, lem: string, tag: string, rel: string,
    start: int, end: int, stop: bool,
    children: seq<nat>, height: nat)

  /**
   * `slots[i]` is the token at position `i`, or `None` where the parse has
   * no token; positions at or past `|slots|` lie beyond the sentence.
   */
  datatype DepTree = DepTree(
    slots: seq<Option<Token>>,
    fragmentHead: (int, int) -> Option<nat>,
    lcs: (nat, nat) -> Option<nat>,
    upPath: (nat, nat) -> seq<nat>,
    downPath: (nat, nat) -> seq<nat>)

  predicate IsToken(t: DepTree, i: int)
  {
    0 <= i < |t.slots| && t.slots[i].Some?
  }

  predicate AllTokens(t: DepTree, xs: seq<nat>)
  {
    forall k :: 0 <= k < |xs| ==> IsToken(t, xs[k])
  }

  function TokenAt(t: DepTree, i: nat): Token
    requires IsToken(t, i)
  {
    t.slots[i].value
  }

  /** `get_word`/`get_lemma`/`get_tag`: fails where there is no token. */
  function Lookup(t: DepTree, i: nat): (r: Option<Token>)
    ensures r.Some? <==> IsToken(t, i)
    ensures r.Some? ==> r.value == TokenAt(t, i)
  {
    if i < |t.slots| then t.slots[i] else None
  }

  /** `is_stopword`: fails (None) at a position that holds no token. */
  function IsStopword(t: DepTree, i: nat): (r: Option<bool>)
    ensures r.None? <==> !IsToken(t, i)
    ensures r.Some? ==> r.value == TokenAt(t, i).stop
  {
    match Lookup(t, i)
    case None => None
    case Some(tok) => Some(tok.stop)
  }

  /** `is_entity`: the token at `i` lies inside the span of some mention. */
  predicate IsEntity(t: DepTree, entities: map<string, Span>, i: nat)
  {
    IsToken(t, i) &&
    exists e :: e in entities &&
      entities[e].start <= TokenAt(t, i).start && TokenAt(t, i).end <= entities[e].end
  }

  /**
   * The contract of the parser's queries: a resolved head, an ancestor and
   * every node of a path are tokens, and children are tokens of smaller
   * height (so the tree is acyclic).
   */
  ghost predicate Valid(t: DepTree)
  {
    && (forall i, k :: IsToken(t, i) && 0 <= k < |TokenAt(t, i).children| ==>
          IsToken(t, TokenAt(t, i).children[k]) &&
          TokenAt(t, TokenAt(t, i).children[k]).height < TokenAt(t, i).height)
    && (forall s, e :: t.fragmentHead(s, e).Some? ==> IsToken(t, t.fragmentHead(s, e).value))
    && (forall a, b :: t.lcs(a, b).Some? ==> IsToken(t, t.lcs(a, b).value))
    && (forall a, b :: AllTokens(t, t.upPath(a, b)))
    && (forall a, b :: AllTokens(t, t.downPath(a, b)))
  }
}
