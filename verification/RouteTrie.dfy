// The route trie: find, add and optimize on the node type, and their agreement with a linear scan
// of the rules. A C++ node holds its children by value, so a node is a value here too.
module RouteTrie {
  import opened Options
  import opened Texts
  import opened UrlMatching

  datatype Node = Node(ruleIndex: nat, key: string, param: ParamType, children: seq<Node>)

  const EMPTY_HEAD := Node(0, "", MAX, [])

  // What the trie stores.

  function Chars(key: string): seq<Token> {
    if key == "" then [] else [Char(key[0])] + Chars(key[1..])
  }

  function Label(node: Node): seq<Token> {
    if node.param != MAX then [Param(node.param)] else Chars(node.key)
  }

  function Prefixed(lead: seq<Token>, rules: seq<Rule>): seq<Rule> {
    if rules == [] then []
    else
      var last := rules[|rules| - 1];
      Prefixed(lead, rules[..|rules| - 1]) + [Rule(lead + last.tokens, last.index)]
  }

  /** The rules stored below a node, the node's own label not included. */
  function Rules(node: Node): seq<Rule>
    decreases node, |node.children| + 1
  {
    (if node.ruleIndex != 0 then [Rule([], node.ruleIndex)] else []) + ChildRules(node, |node.children|)
  }

  function ChildRules(node: Node, n: nat): seq<Rule>
    requires n <= |node.children|
    decreases node, n
  {
    if n == 0 then []
    else ChildRules(node, n - 1) + Prefixed(Label(node.children[n - 1]), Rules(node.children[n - 1]))
  }

  /** The rules below a node, each led by the node's label: what the parent sees of it. */
  function LabelledRules(node: Node): seq<Rule> {
    Prefixed(Label(node), Rules(node))
  }

  /** `ChildRules` for any notion of the rules below a child. */
  function Gathered(children: seq<Node>, n: nat, below: Node -> seq<Rule>): seq<Rule>
    requires n <= |children|
  {
    if n == 0 then [] else Gathered(children, n - 1, below) + below(children[n - 1])
  }

  lemma {:induction false} ChildRulesAreGathered(node: Node, n: nat)
    requires n <= |node.children|
    ensures ChildRules(node, n) == Gathered(node.children, n, LabelledRules)
    decreases n
  {
    if n > 0 {
      ChildRulesAreGathered(node, n - 1);
      OneMoreChild(node, n, LabelledRules(node.children[n - 1]));
    }
  }

  lemma OneMoreChild(node: Node, n: nat, rules: seq<Rule>)
    requires 0 < n <= |node.children| && rules == LabelledRules(node.children[n - 1])
    ensures ChildRules(node, n) == ChildRules(node, n - 1) + rules
    ensures Gathered(node.children, n, LabelledRules) == Gathered(node.children, n - 1, LabelledRules) + rules
  {
  }

  lemma {:induction false} SameGathered(children: seq<Node>, others: seq<Node>, n: nat, below: Node -> seq<Rule>)
    requires n <= |children| && n <= |others|
    requires forall i: nat :: i < n ==> below(children[i]) == below(others[i])
    ensures Gathered(children, n, below) == Gathered(others, n, below)
    decreases n
  {
    if n > 0 {
      SameGathered(children, others, n - 1, below);
    }
  }

  /** Every child consumes at least one character. */
  predicate Labelled(node: Node) {
    forall c :: c in node.children ==> Label(c) != [] && Labelled(c)
  }

  // find

  function Find(reader: ParamReader, node: Node, url: string, at: Progress): Found
    requires at.pos <= |url|
    decreases node, |node.children| + 1
  {
    if at.pos == |url| then HitOf(node.ruleIndex, at.params)
    else FindInChildren(reader, node, |node.children|, url, at)
  }

  function FindInChildren(reader: ParamReader, node: Node, n: nat, url: string, at: Progress): Found
    requires at.pos <= |url| && n <= |node.children|
    decreases node, n
  {
    if n == 0 then Nothing
    else
      var child := node.children[n - 1];
      var found := FindInChildren(reader, node, n - 1, url, at);
      match MatchLabel(reader, child, url, at)
      case None => found
      case Some(next) => Better(found, Find(reader, child, url, next))
  }

  /** The fragment test in front of a recursive call of find. */
  function MatchLabel(reader: ParamReader, child: Node, url: string, at: Progress): (m: Option<Progress>)
    requires at.pos <= |url|
    ensures m.Some? ==> at.pos <= m.value.pos <= |url|
  {
    if child.param != MAX then MatchToken(reader, Param(child.param), url, at)
    else if StartsWith(url, at.pos, child.key) then
      StartsWithInside(url, at.pos, child.key);
      Some(at.(pos := at.pos + |child.key|))
    else None
  }

  lemma {:induction false} MatchChars(reader: ParamReader, key: string, url: string, at: Progress)
    requires at.pos <= |url|
    ensures MatchTokens(reader, Chars(key), url, at)
         == if StartsWith(url, at.pos, key) then Some(at.(pos := at.pos + |key|)) else None
    decreases |key|
  {
    if key != "" {
      assert Chars(key)[1..] == Chars(key[1..]);
      if at.pos < |url| && url[at.pos] == key[0] {
        MatchChars(reader, key[1..], url, at.(pos := at.pos + 1));
      }
    }
  }

  lemma MatchLabelIsTokens(reader: ParamReader, child: Node, url: string, at: Progress)
    requires at.pos <= |url|
    ensures MatchLabel(reader, child, url, at) == MatchTokens(reader, Label(child), url, at)
  {
    if child.param == MAX {
      MatchChars(reader, child.key, url, at);
    } else {
      MatchOne(reader, Param(child.param), url, at);
    }
  }

  lemma MatchOne(reader: ParamReader, t: Token, url: string, at: Progress)
    requires at.pos <= |url|
    ensures MatchTokens(reader, [t], url, at) == MatchToken(reader, t, url, at)
  {
    assert [t][1..] == [];
    assert forall next: Progress :: next.pos <= |url| ==> MatchTokens(reader, [], url, next) == Some(next);
  }

  /** Scanning rules that all begin with `lead` is scanning the rest from behind it. */
  lemma {:induction false} ScanPrefixed(reader: ParamReader, lead: seq<Token>, rules: seq<Rule>, url: string, at: Progress)
    requires at.pos <= |url|
    ensures Scan(reader, Prefixed(lead, rules), url, at)
         == match MatchTokens(reader, lead, url, at)
            case None => Nothing
            case Some(next) => Scan(reader, rules, url, next)
  {
    if rules != [] {
      var last := rules[|rules| - 1];
      var all := Prefixed(lead, rules);
      assert all[..|all| - 1] == Prefixed(lead, rules[..|rules| - 1]);
      ScanPrefixed(reader, lead, rules[..|rules| - 1], url, at);
      MatchConcat(reader, lead, last.tokens, url, at);
    }
  }

  /** What is best among the first `n` children, given what each of them gives. */
  function BestChild(children: seq<Node>, n: nat, gives: Node -> Found): Found
    requires n <= |children|
  {
    if n == 0 then Nothing else Better(BestChild(children, n - 1, gives), gives(children[n - 1]))
  }

  function ScanChild(reader: ParamReader, child: Node, url: string, at: Progress): Found
    requires at.pos <= |url|
  {
    Scan(reader, LabelledRules(child), url, at)
  }

  lemma {:induction false} ScanIsBestChild(reader: ParamReader, children: seq<Node>, n: nat, url: string, at: Progress, below: Node -> seq<Rule>, gives: Node -> Found)
    requires at.pos <= |url| && n <= |children|
    requires forall c :: gives(c) == Scan(reader, below(c), url, at)
    ensures Scan(reader, Gathered(children, n, below), url, at) == BestChild(children, n, gives)
    decreases n
  {
    if n > 0 {
      ScanIsBestChild(reader, children, n - 1, url, at, below, gives);
      ScanConcat(reader, Gathered(children, n - 1, below), below(children[n - 1]), url, at);
    }
  }

  /** The loop over the children keeps the best of what they yield. */
  lemma {:induction false} FindIsBestChild(reader: ParamReader, node: Node, n: nat, url: string, at: Progress, gives: Node -> Found)
    requires at.pos <= |url| && n <= |node.children|
    requires forall c :: c in node.children ==> gives(c) == TryChild(reader, c, url, at)
    ensures FindInChildren(reader, node, n, url, at) == BestChild(node.children, n, gives)
    decreases n
  {
    if n > 0 {
      FindIsBestChild(reader, node, n - 1, url, at, gives);
      var child := node.children[n - 1];
      assert child in node.children;
    }
  }

  lemma {:induction false} NoneYields(children: seq<Node>, n: nat, gives: Node -> Found)
    requires n <= |children| && forall c :: c in children ==> gives(c) == Nothing
    ensures BestChild(children, n, gives) == Nothing
    decreases n
  {
    if n > 0 {
      NoneYields(children, n - 1, gives);
      assert children[n - 1] in children;
    }
  }

  lemma NothingBehindLabel(reader: ParamReader, child: Node, url: string, at: Progress)
    requires Label(child) != [] && at.pos == |url|
    ensures ScanChild(reader, child, url, at) == Nothing
  {
    ScanPrefixed(reader, Label(child), Rules(child), url, at);
  }

  /** The trie search returns what the scan of the rules it stores returns. */
  lemma {:induction false} FindIsScan(reader: ParamReader, node: Node, url: string, at: Progress)
    requires Labelled(node) && at.pos <= |url|
    ensures Find(reader, node, url, at) == Scan(reader, Rules(node), url, at)
    decreases node, 0
  {
    var n := |node.children|;
    var gives := (c: Node) => ScanChild(reader, c, url, at);
    ScanOfRules(reader, node, url, at);
    ChildRulesAreGathered(node, n);
    ScanIsBestChild(reader, node.children, n, url, at, LabelledRules, gives);
    if at.pos == |url| {
      forall c | c in node.children
        ensures gives(c) == Nothing
      {
        NothingBehindLabel(reader, c, url, at);
      }
      NoneYields(node.children, n, gives);
    } else {
      forall c | c in node.children
        ensures gives(c) == TryChild(reader, c, url, at)
      {
        TryChildIsScan(reader, c, url, at);
      }
      FindIsBestChild(reader, node, n, url, at, gives);
    }
  }

  lemma ScanOfRules(reader: ParamReader, node: Node, url: string, at: Progress)
    requires at.pos <= |url|
    ensures Scan(reader, Rules(node), url, at)
         == Better(if at.pos == |url| then HitOf(node.ruleIndex, at.params) else Nothing,
                   Scan(reader, ChildRules(node, |node.children|), url, at))
  {
    var own: seq<Rule> := if node.ruleIndex != 0 then [Rule([], node.ruleIndex)] else [];
    ScanConcat(reader, own, ChildRules(node, |node.children|), url, at);
    ScanOwn(reader, node.ruleIndex, url, at);
  }

  lemma ScanOwn(reader: ParamReader, index: nat, url: string, at: Progress)
    requires at.pos <= |url|
    ensures Scan(reader, if index != 0 then [Rule([], index)] else [], url, at)
         == if index != 0 && at.pos == |url| then Hit(index, at.params) else Nothing
  {
    if index != 0 {
      assert [Rule([], index)][..0] == [];
    }
  }

  /** One round of the loop over the children. */
  function TryChild(reader: ParamReader, child: Node, url: string, at: Progress): Found
    requires at.pos <= |url|
  {
    match MatchLabel(reader, child, url, at)
    case None => Nothing
    case Some(next) => Find(reader, child, url, next)
  }

  lemma {:induction false} TryChildIsScan(reader: ParamReader, child: Node, url: string, at: Progress)
    requires Labelled(child) && at.pos <= |url|
    ensures ScanChild(reader, child, url, at) == TryChild(reader, child, url, at)
    decreases child, 1
  {
    var next := MatchLabel(reader, child, url, at);
    if next.Some? {
      FindIsScan(reader, child, url, next.value);
    }
    ScanPrefixed(reader, Label(child), Rules(child), url, at);
    MatchLabelIsTokens(reader, child, url, at);
  }

  // optimizeNode

  predicate IsSimpleNode(node: Node) {
    && node.ruleIndex == 0 && |node.children| < 2 && node.param == MAX
    && forall c :: c in node.children ==> c.param == MAX
  }

  function NodeCount(node: Node): (n: nat)
    ensures n > 0
    decreases node, |node.children| + 1
  {
    1 + ChildCount(node, |node.children|)
  }

  function ChildCount(node: Node, n: nat): nat
    requires n <= |node.children|
    decreases node, n
  {
    if n == 0 then 0 else ChildCount(node, n - 1) + NodeCount(node.children[n - 1])
  }

  lemma {:induction false} ChildIsSmaller(node: Node, i: nat, n: nat)
    requires i < n <= |node.children|
    ensures NodeCount(node.children[i]) <= ChildCount(node, n)
    decreases n
  {
    if i < n - 1 {
      ChildIsSmaller(node, i, n - 1);
    }
  }

  /** What `node` becomes when its only child is folded into it. */
  function Merged(node: Node): Node
    requires |node.children| == 1
  {
    var child := node.children[0];
    Node(child.ruleIndex, node.key + child.key, node.param, child.children)
  }

  lemma MergedIsSmaller(node: Node)
    requires |node.children| == 1
    ensures NodeCount(Merged(node)) < NodeCount(node)
  {
    var child := node.children[0];
    SameChildrenSameCount(Merged(node), child, |child.children|);
    assert ChildCount(node, 1) == NodeCount(child);
  }

  lemma {:induction false} SameChildrenSameCount(a: Node, b: Node, n: nat)
    requires a.children == b.children && n <= |a.children|
    ensures ChildCount(a, n) == ChildCount(b, n)
    decreases n
  {
    if n > 0 {
      SameChildrenSameCount(a, b, n - 1);
    }
  }

  /** Each call either removes a node or descends. */
  function Optimized(node: Node): Node
    decreases NodeCount(node), |node.children| + 1
  {
    if node.children == [] then node
    else if IsSimpleNode(node) then
      MergedIsSmaller(node);
      Optimized(Merged(node))
    else node.(children := OptimizedChildren(node, |node.children|))
  }

  function OptimizedChildren(node: Node, n: nat): (cs: seq<Node>)
    requires n <= |node.children|
    ensures |cs| == n
    decreases NodeCount(node), n
  {
    if n == 0 then []
    else
      ChildIsSmaller(node, n - 1, |node.children|);
      OptimizedChildren(node, n - 1) + [Optimized(node.children[n - 1])]
  }

  lemma {:induction false} PrefixedTwice(s: seq<Token>, t: seq<Token>, rules: seq<Rule>)
    ensures Prefixed(s, Prefixed(t, rules)) == Prefixed(s + t, rules)
  {
    if rules != [] {
      var front, last := rules[..|rules| - 1], rules[|rules| - 1];
      PrefixedTwice(s, t, front);
      var once := Prefixed(t, rules);
      assert once[..|once| - 1] == Prefixed(t, front);
      assert s + (t + last.tokens) == s + t + last.tokens;
    }
  }

  lemma {:induction false} CharsConcat(s: string, t: string)
    ensures Chars(s + t) == Chars(s) + Chars(t)
  {
    if s == "" {
      assert s + t == t;
    } else {
      assert (s + t)[1..] == s[1..] + t;
      CharsConcat(s[1..], t);
    }
  }

  lemma MergedKeepsRules(node: Node)
    requires IsSimpleNode(node) && |node.children| == 1
    ensures LabelledRules(Merged(node)) == LabelledRules(node)
  {
    var child := node.children[0];
    assert child in node.children;
    ChildRulesAreGathered(Merged(node), |child.children|);
    ChildRulesAreGathered(child, |child.children|);
    assert Rules(Merged(node)) == Rules(child);
    assert ChildRules(node, 1) == [] + LabelledRules(child) == LabelledRules(child);
    assert Rules(node) == [] + LabelledRules(child) == LabelledRules(child);
    CharsConcat(node.key, child.key);
    PrefixedTwice(Label(node), Label(child), Rules(child));
  }

  /** Optimising a node does not change the rules its parent sees, nor their order. */
  lemma {:induction false} OptimizedKeepsRules(node: Node)
    ensures LabelledRules(Optimized(node)) == LabelledRules(node)
    decreases NodeCount(node), |node.children| + 1
  {
    if node.children != [] {
      if IsSimpleNode(node) {
        MergedIsSmaller(node);
        OptimizedKeepsRules(Merged(node));
        MergedKeepsRules(node);
      } else {
        OptimizedChildrenKeepRules(node, |node.children|);
        var after := Optimized(node);
        assert Rules(after) == Rules(node);
      }
    }
  }

  lemma {:induction false} OptimizedChildrenKeepRules(node: Node, n: nat)
    requires n == |node.children|
    ensures ChildRules(node.(children := OptimizedChildren(node, n)), n) == ChildRules(node, n)
    decreases NodeCount(node), n
  {
    var after := node.(children := OptimizedChildren(node, n));
    forall i: nat | i < n
      ensures LabelledRules(after.children[i]) == LabelledRules(node.children[i])
    {
      ChildIsSmaller(node, i, n);
      OptimizedKeepsRules(node.children[i]);
      OptimizedChildAt(node, i, n);
    }
    SameGathered(after.children, node.children, n, LabelledRules);
    ChildRulesAreGathered(after, n);
    ChildRulesAreGathered(node, n);
  }

  lemma {:induction false} OptimizedChildAt(node: Node, i: nat, n: nat)
    requires i < n <= |node.children|
    ensures OptimizedChildren(node, n)[i] == Optimized(node.children[i])
    decreases n
  {
    if i < n - 1 {
      OptimizedChildAt(node, i, n - 1);
    }
  }

  lemma {:induction false} OptimizedIsLabelled(node: Node)
    requires Labelled(node)
    ensures Labelled(Optimized(node))
    ensures Label(node) != [] ==> Label(Optimized(node)) != []
    decreases NodeCount(node), |node.children| + 1
  {
    if node.children != [] {
      if IsSimpleNode(node) {
        MergedIsSmaller(node);
        var child := node.children[0];
        assert child in node.children;
        OptimizedIsLabelled(Merged(node));
      } else {
        OptimizedChildrenLabelled(node);
      }
    }
  }

  lemma OptimizedChildrenLabelled(node: Node)
    requires Labelled(node)
    ensures forall c :: c in OptimizedChildren(node, |node.children|) ==> Label(c) != [] && Labelled(c)
    decreases NodeCount(node), |node.children|
  {
    var cs := OptimizedChildren(node, |node.children|);
    forall c | c in cs
      ensures Label(c) != [] && Labelled(c)
    {
      var i :| 0 <= i < |cs| && cs[i] == c;
      OptimizedChildAt(node, i, |node.children|);
      ChildIsSmaller(node, i, |node.children|);
      assert node.children[i] in node.children;
      OptimizedIsLabelled(node.children[i]);
    }
  }

  /** `validate` optimises every child of the head; find keeps rule index and captures on every URL. */
  function OptimizedTrie(head: Node): Node {
    head.(children := OptimizedChildren(head, |head.children|))
  }

  lemma OptimizeKeepsFind(reader: ParamReader, head: Node, url: string, at: Progress)
    requires Labelled(head) && at.pos <= |url|
    ensures Labelled(OptimizedTrie(head))
    ensures Find(reader, OptimizedTrie(head), url, at) == Find(reader, head, url, at)
  {
    OptimizedChildrenLabelled(head);
    OptimizedChildrenKeepRules(head, |head.children|);
    assert Rules(OptimizedTrie(head)) == Rules(head);
    FindIsScan(reader, head, url, at);
    FindIsScan(reader, OptimizedTrie(head), url, at);
  }
}
