// The route trie object and its search, step by step, against the functions of RouteTrie and RouteRules: the
// search pushes captures onto a shared record and pops them again, and the whole way leads from the texts of
// rules to the rule whose characters and arguments spell the URL.
module Router {
  import opened Options
  import opened Texts
  import opened UrlMatching
  import opened RouteTrie
  import opened RouteRules
  import opened RouteParams

  class Trie {
    var head: Node

    constructor ()
      ensures head == EMPTY_HEAD
    {
      head := EMPTY_HEAD;
    }

    /** Adds a rule; `ok` is false for the "handler already exists" exception, which leaves the trie alone. */
    method Add(url: string, ruleIndex: nat) returns (ok: bool)
      requires Tokenize(url, 0).Some?
      modifies this
      ensures ok <==> Stored(old(head), Tokenize(url, 0).value) == 0
      ensures !ok ==> head == old(head)
      ensures ok ==> Insert(old(head), Tokenize(url, 0).value, ruleIndex) == Some(head)
    {
      InsertFailsIffStored(head, Tokenize(url, 0).value, ruleIndex);
      var grown := AddBelow(head, url, 0, ruleIndex);
      ok := grown.Some?;
      if ok {
        head := grown.value;
      }
    }

    /** Goes down from `idx` along the rest of the rule text, growing the path where it ends. */
    method AddBelow(idx: Node, url: string, i: nat, ruleIndex: nat) returns (grown: Option<Node>)
      requires i <= |url| && Tokenize(url, i).Some?
      ensures grown == Insert(idx, Tokenize(url, i).value, ruleIndex)
      decreases |url| - i
    {
      if i == |url| {
        return if idx.ruleIndex != 0 then None else Some(idx.(ruleIndex := ruleIndex));
      }
      var token, next := NextToken(url, i);
      var k := 0;
      while k < |idx.children| && !Selects(idx.children[k], token)
        invariant k <= |idx.children| && ChildFor(idx.children, token, k) == ChildFor(idx.children, token, 0)
      {
        k := k + 1;
      }
      var child := if k < |idx.children| then idx.children[k] else NewChild(token);
      var below := AddBelow(child, url, next, ruleIndex);
      grown := if below.None? then None else Some(WithChild(idx, k, below.value));
    }

    /** The parameter whose tag stands here, or one character. */
    method NextToken(url: string, i: nat) returns (token: Token, next: nat)
      requires i < |url| && Tokenize(url, i).Some?
      ensures i < next <= |url| && Tokenize(url, next).Some?
      ensures Tokenize(url, i).value == [token] + Tokenize(url, next).value
    {
      if url[i] != '<' {
        return Char(url[i]), i + 1;
      }
      TagIsToken(url, i);
      var tag := 0;
      while !StartsWith(url, i, TagText(tag))
        invariant tag < TAG_COUNT && TagAt(url, i, tag) == TagAt(url, i, 0)
        decreases TAG_COUNT - tag
      {
        tag := tag + 1;
      }
      return Param(TagParam(tag)), i + |TagText(tag)|;
    }

    /** `validate`: refuses a head with a rule, a parameter child or several children, else optimises. */
    method Validate() returns (ok: bool)
      modifies this
      ensures ok <==> IsSimpleNode(old(head))
      ensures head == if ok then OptimizedTrie(old(head)) else old(head)
    {
      ok := IsSimpleNode(head);
      if ok {
        Optimize();
      }
    }

    method Optimize()
      modifies this
      ensures head == OptimizedTrie(old(head))
    {
      var children := OptimizeAll(head);
      head := head.(children := children);
    }

    method OptimizeNode(node: Node) returns (after: Node)
      ensures after == Optimized(node)
      decreases NodeCount(node), |node.children| + 1
    {
      after := node;
      if node.children == [] {
        return;
      }
      if IsSimpleNode(node) {
        var child := node.children[0];
        after := after.(key := after.key + child.key);
        after := after.(ruleIndex := child.ruleIndex);
        after := after.(children := child.children);
        MergedIsSmaller(node);
        after := OptimizeNode(after);
      } else {
        var children := OptimizeAll(node);
        after := after.(children := children);
      }
    }

    method OptimizeAll(node: Node) returns (children: seq<Node>)
      ensures children == OptimizedChildren(node, |node.children|)
      decreases NodeCount(node), |node.children|
    {
      children := [];
      for i := 0 to |node.children|
        invariant children == OptimizedChildren(node, i)
      {
        ChildIsSmaller(node, i, |node.children|);
        var child := OptimizeNode(node.children[i]);
        children := children + [child];
      }
    }

    /** The public find: an unoptimised or optimised trie, searched from the start of the URL. */
    method FindUrl(reader: ParamReader, url: string) returns (found: Found)
      ensures found == Find(reader, head, url, Progress(0, NO_PARAMS))
    {
      var search := new Search(reader, url);
      found := search.Go(head, 0);
    }
  }

  function Pop(params: Params, v: Captured): Params
    requires exists before :: params == Push(before, v)
  {
    match v
    case IntValue(_) => params.(ints := params.ints[..|params.ints| - 1])
    case UintValue(_) => params.(uints := params.uints[..|params.uints| - 1])
    case DoubleValue(_) => params.(doubles := params.doubles[..|params.doubles| - 1])
    case StringValue(_) => params.(strings := params.strings[..|params.strings| - 1])
  }

  lemma PopUndoesPush(params: Params, v: Captured)
    ensures Pop(Push(params, v), v) == params
  {
    match v
    case IntValue(i) => assert (params.ints + [i])[..|params.ints|] == params.ints;
    case UintValue(u) => assert (params.uints + [u])[..|params.uints|] == params.uints;
    case DoubleValue(t) => assert (params.doubles + [t])[..|params.doubles|] == params.doubles;
    case StringValue(s) => assert (params.strings + [s])[..|params.strings|] == params.strings;
  }

  /** One request's search: the captures are pushed and popped on one shared record. */
  class Search {
    const reader: ParamReader
    const url: string
    var params: Params

    constructor (reader: ParamReader, url: string)
      ensures this.reader == reader && this.url == url && params == NO_PARAMS
    {
      this.reader := reader;
      this.url := url;
      params := NO_PARAMS;
    }

    /** Finds below a node and leaves the captures as they were. */
    method Go(node: Node, pos: nat) returns (found: Found)
      requires pos <= |url|
      modifies this
      ensures params == old(params)
      ensures found == Find(reader, node, url, Progress(pos, old(params)))
      decreases node
    {
      if pos == |url| {
        return HitOf(node.ruleIndex, params);
      }
      found := Nothing;
      for n := 0 to |node.children|
        invariant params == old(params)
        invariant found == FindInChildren(reader, node, n, url, Progress(pos, params))
      {
        var child := node.children[n];
        if child.param != MAX {
          var capture := reader(child.param, url, pos);
          if capture.Some? && pos < capture.value.next <= |url| {
            PopUndoesPush(params, capture.value.value);
            params := Push(params, capture.value.value);
            var ret := Go(child, capture.value.next);
            found := Better(found, ret);
            params := Pop(params, capture.value.value);
          }
        } else if StartsWith(url, pos, child.key) {
          StartsWithInside(url, pos, child.key);
          var ret := Go(child, pos + |child.key|);
          found := Better(found, ret);
        }
      }
    }
  }

  // A router: rules are added, the trie is validated, URLs are looked up.

  datatype TextRule = TextRule(url: string, index: nat)

  /** What a router adds: every tag is known, and index 0 stands for no rule. */
  predicate Addable(texts: seq<TextRule>) {
    forall i :: 0 <= i < |texts| ==>
      texts[i].index != 0 && '\0' !in texts[i].url && Tokenize(texts[i].url, 0).Some?
  }

  datatype Routing = AlreadyExists | NotSimple | Routed(found: Found)

  function RulesOf(texts: seq<TextRule>): (rules: seq<Rule>)
    requires Addable(texts)
    ensures |rules| == |texts|
  {
    seq(|texts|, i requires 0 <= i < |texts| => Rule(Tokenize(texts[i].url, 0).value, texts[i].index))
  }

  lemma AddableRules(texts: seq<TextRule>)
    requires Addable(texts)
    ensures AllUsable(RulesOf(texts))
    ensures (forall i :: 0 <= i < |texts| ==> texts[i].url != "" && texts[i].url[0] == '/') ==> StartWithSlash(RulesOf(texts))
  {
    var rules := RulesOf(texts);
    forall i: nat | i < |rules|
      ensures UsableTokens(rules[i].tokens)
      ensures texts[i].url != "" && texts[i].url[0] == '/' ==> rules[i].tokens != [] && rules[i].tokens[0] == Char('/')
    {
      assert rules[i].tokens == Tokenize(texts[i].url, 0).value;
    }
  }

  /** Building a trie from one rule more. */
  lemma BuildOneMore(rules: seq<Rule>, i: nat)
    requires i < |rules| && Build(rules[..i]).Some?
    ensures Build(rules[..i + 1]) == Insert(Build(rules[..i]).value, rules[i].tokens, rules[i].index)
  {
    assert rules[..i + 1][..i] == rules[..i];
  }

  lemma {:induction false} BuildFailsEarly(rules: seq<Rule>, i: nat)
    requires i <= |rules| && Build(rules[..i]).None?
    ensures Build(rules).None?
    decreases |rules| - i
  {
    if i < |rules| {
      assert rules[..i + 1][..i] == rules[..i];
      BuildFailsEarly(rules, i + 1);
    } else {
      assert rules[..i] == rules;
    }
  }

  /** A rule's text and a URL consist of the same pieces. */
  ghost predicate SamePieces(double: DoubleReader, text: string, url: string, ps: seq<Piece>) {
    text == RuleTexts(ps) && NoBracket(ps) && Spells(StandsIn(double, url), ps, 0, |url|)
  }

  /** A rule whose pieces the URL consists of is found, or one with a smaller index is. */
  ghost predicate FindsSpelled(double: DoubleReader, texts: seq<TextRule>, url: string, found: Found) {
    forall i: nat, ps :: i < |texts| && SamePieces(double, texts[i].url, url, ps) ==> FoundFor(texts, i, ps, found)
  }

  predicate FoundFor(texts: seq<TextRule>, i: nat, ps: seq<Piece>, found: Found)
    requires i < |texts|
  {
    found.Hit? && found.rule <= texts[i].index && (|texts| == 1 ==> found == Hit(texts[i].index, Arguments(NO_PARAMS, ps)))
  }

  /** What is found is a rule whose pieces the URL consists of, with their arguments. */
  ghost predicate FoundIsSpelled(double: DoubleReader, texts: seq<TextRule>, url: string, found: Found)
    requires Addable(texts)
  {
    found.Hit? ==> exists i, ps ::
      && 0 <= i < |texts| && Tokenize(texts[i].url, 0) == Some(TokensOf(ps)) && Spells(StandsIn(double, url), ps, 0, |url|)
      && found == Hit(texts[i].index, Arguments(NO_PARAMS, ps))
  }

  lemma TextIsRule(texts: seq<TextRule>, i: nat, ps: seq<Piece>)
    requires Addable(texts) && i < |texts| && texts[i].url == RuleTexts(ps) && NoBracket(ps)
    ensures RulesOf(texts)[i] == Rule(TokensOf(ps), texts[i].index)
  {
    StartsWithIsSlice(texts[i].url, 0, texts[i].url);
    RuleTextIsTokenized(ps, texts[i].url, 0);
  }

  lemma SpelledIsAttempt(double: DoubleReader, texts: seq<TextRule>, url: string, i: nat, ps: seq<Piece>)
    requires Addable(texts) && i < |texts| && SamePieces(double, texts[i].url, url, ps)
    ensures Attempt(CrowParams(double), RulesOf(texts)[i], url, Progress(0, NO_PARAMS)) == Hit(texts[i].index, Arguments(NO_PARAMS, ps))
  {
    TextIsRule(texts, i, ps);
    SpelledIsHit(double, RulesOf(texts)[i], url, ps);
  }

  /** What is best among rules one of which hits. */
  lemma BestOfHit(reader: ParamReader, rules: seq<Rule>, url: string, found: Found, i: nat, hit: Found)
    requires IsBest(found, reader, rules, url, Progress(0, NO_PARAMS)) && i < |rules|
    requires hit.Hit? && Attempt(reader, rules[i], url, Progress(0, NO_PARAMS)) == hit
    ensures found.Hit? && found.rule <= hit.rule && (|rules| == 1 ==> found == hit)
  {
    assert rules[i] in rules;
  }

  lemma BestIsSpelled(double: DoubleReader, texts: seq<TextRule>, url: string, found: Found)
    requires Addable(texts) && found.Hit? && IsBest(found, CrowParams(double), RulesOf(texts), url, Progress(0, NO_PARAMS))
    ensures FoundIsSpelled(double, texts, url, found)
  {
    var rules := RulesOf(texts);
    var r :| r in rules && Attempt(CrowParams(double), r, url, Progress(0, NO_PARAMS)) == found;
    var i: nat :| i < |rules| && rules[i] == r;
    AddableRules(texts);
    assert UsableTokens(rules[i].tokens);
    var ps := HitIsSpelled(double, r, url);
    assert Tokenize(texts[i].url, 0) == Some(TokensOf(ps));
  }

  lemma SpelledIsFound(double: DoubleReader, texts: seq<TextRule>, url: string, found: Found, i: nat, ps: seq<Piece>)
    requires Addable(texts) && IsBest(found, CrowParams(double), RulesOf(texts), url, Progress(0, NO_PARAMS))
    requires i < |texts| && SamePieces(double, texts[i].url, url, ps)
    ensures FoundFor(texts, i, ps, found)
  {
    SpelledIsAttempt(double, texts, url, i, ps);
    BestOfHit(CrowParams(double), RulesOf(texts), url, found, i, Hit(texts[i].index, Arguments(NO_PARAMS, ps)));
  }

  lemma SpelledAreFound(double: DoubleReader, texts: seq<TextRule>, url: string, found: Found)
    requires Addable(texts) && IsBest(found, CrowParams(double), RulesOf(texts), url, Progress(0, NO_PARAMS))
    ensures FindsSpelled(double, texts, url, found)
  {
    forall i: nat, ps | i < |texts| && SamePieces(double, texts[i].url, url, ps)
      ensures FoundFor(texts, i, ps, found)
    {
      SpelledIsFound(double, texts, url, found, i, ps);
    }
  }

  /**
   * From the rule texts to the rule for a URL, with Crow's parameters: refused exactly when two rules
   * have the same pattern or the head is not simple, which it is if all rules start with a slash, and
   * otherwise the best match, which is the linear scan's result where the indices are distinct: a rule
   * whose pieces the URL consists of.
   */
  method Route(double: DoubleReader, texts: seq<TextRule>, url: string) returns (routed: Routing)
    requires Addable(texts)
    ensures routed.AlreadyExists? <==> !DistinctPatterns(RulesOf(texts))
    ensures (forall i :: 0 <= i < |texts| ==> texts[i].url != "" && texts[i].url[0] == '/') ==> !routed.NotSimple?
    ensures routed.NotSimple? ==> Build(RulesOf(texts)).Some? && !IsSimpleNode(Build(RulesOf(texts)).value)
    ensures routed.Routed? ==>
      var reader, rules, start := CrowParams(double), RulesOf(texts), Progress(0, NO_PARAMS);
      IsBest(routed.found, reader, rules, url, start) && (DistinctIndices(rules) ==> routed.found == Scan(reader, rules, url, start))
    ensures routed.Routed? ==>
      FindsSpelled(double, texts, url, routed.found) && FoundIsSpelled(double, texts, url, routed.found)
  {
    ghost var rules := RulesOf(texts);
    AddableRules(texts);
    BuildHoldsRules(rules);
    var trie := new Trie();
    for i := 0 to |texts|
      invariant Build(rules[..i]) == Some(trie.head)
    {
      BuildOneMore(rules, i);
      InsertFailsIffStored(trie.head, rules[i].tokens, rules[i].index);
      var ok := trie.Add(texts[i].url, texts[i].index);
      if !ok {
        BuildFailsEarly(rules, i + 1);
        return AlreadyExists;
      }
    }
    assert rules[..|texts|] == rules;
    if StartWithSlash(rules) {
      SlashHeadIsBuilt(rules);
    }
    var simple := trie.Validate();
    if !simple {
      return NotSimple;
    }
    TrieIsLinearScan(CrowParams(double), rules, url);
    var found := trie.FindUrl(CrowParams(double), url);
    SpelledAreFound(double, texts, url, found);
    if found.Hit? {
      BestIsSpelled(double, texts, url, found);
    }
    routed := Routed(found);
  }
}
