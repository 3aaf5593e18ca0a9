// Adding rules to the route trie: what is stored, and what find returns for it.
module RouteRules {
  import opened Options
  import opened Texts
  import opened UrlMatching
  import opened RouteTrie

  // Rule text to tokens.

  const TAG_COUNT: nat := 7

  /** The table of parameter tags. */
  function TagParam(n: nat): ParamType {
    if n == 0 then INT
    else if n == 1 then UINT
    else if n <= 3 then DOUBLE
    else if n <= 5 then STRING
    else PATH
  }

  function TagText(n: nat): (text: string)
    ensures text != ""
  {
    if n == 0 then "<int>"
    else if n == 1 then "<uint>"
    else if n == 2 then "<float>"
    else if n == 3 then "<double>"
    else if n == 4 then "<str>"
    else if n == 5 then "<string>"
    else "<path>"
  }

  /** First entry of the tag table, from entry `n` on, that the text has at a position. */
  function TagAt(text: string, at: nat, n: nat): (tag: nat)
    requires at <= |text| && n <= TAG_COUNT
    ensures n <= tag <= TAG_COUNT
    ensures tag < TAG_COUNT ==> StartsWith(text, at, TagText(tag)) && at + |TagText(tag)| <= |text|
    decreases TAG_COUNT - n
  {
    if n == TAG_COUNT then n
    else if StartsWith(text, at, TagText(n)) then
      StartsWithInside(text, at, TagText(n));
      n
    else TagAt(text, at, n + 1)
  }

  /** `None` when a '<' starts no known tag: `add` then never gets past it. */
  function Tokenize(text: string, at: nat): (ts: Option<seq<Token>>)
    requires at <= |text|
    ensures ts.Some? ==> forall t :: t in ts.value ==> t != Param(MAX)
    ensures ts.Some? && '\0' !in text ==> Char('\0') !in ts.value
    decreases |text| - at
  {
    if at == |text| then Some([])
    else if text[at] == '<' then
      var tag := TagAt(text, at, 0);
      if tag == TAG_COUNT then None
      else
        match Tokenize(text, at + |TagText(tag)|)
        case None => None
        case Some(rest) => Some([Param(TagParam(tag))] + rest)
    else
      match Tokenize(text, at + 1)
      case None => None
      case Some(rest) => Some([Char(text[at])] + rest)
  }

  lemma TagIsToken(text: string, at: nat)
    requires at < |text| && text[at] == '<' && Tokenize(text, at).Some?
    ensures var tag := TagAt(text, at, 0);
      && tag < TAG_COUNT && at < at + |TagText(tag)| <= |text| && Tokenize(text, at + |TagText(tag)|).Some?
      && Tokenize(text, at).value == [Param(TagParam(tag))] + Tokenize(text, at + |TagText(tag)|).value
  {
  }

  // add

  /** `child.key[0]` of a C++ string is NUL when the key is empty. */
  function FirstChar(key: string): char {
    if key == "" then '\0' else key[0]
  }

  predicate Selects(child: Node, t: Token) {
    match t
    case Char(c) => FirstChar(child.key) == c
    case Param(p) => child.param == p
  }

  function NewChild(t: Token): Node {
    match t
    case Char(c) => Node(0, [c], MAX, [])
    case Param(p) => Node(0, "", p, [])
  }

  /** The first child to follow for a token, the number of children if there is none. */
  function ChildFor(children: seq<Node>, t: Token, from: nat): (k: nat)
    requires from <= |children|
    ensures from <= k <= |children|
    ensures k < |children| ==> Selects(children[k], t)
    ensures forall i :: from <= i < k ==> !Selects(children[i], t)
    decreases |children| - from
  {
    if from == |children| || Selects(children[from], t) then from else ChildFor(children, t, from + 1)
  }

  /** `add` below a node; `None` is the "handler already exists" exception. */
  function Insert(node: Node, tokens: seq<Token>, index: nat): Option<Node>
    decreases |tokens|
  {
    if tokens == [] then
      if node.ruleIndex != 0 then None else Some(node.(ruleIndex := index))
    else
      var k := ChildFor(node.children, tokens[0], 0);
      var child := if k < |node.children| then node.children[k] else NewChild(tokens[0]);
      match Insert(child, tokens[1..], index)
      case None => None
      case Some(grown) => Some(WithChild(node, k, grown))
  }

  function WithChild(node: Node, k: nat, child: Node): Node
    requires k <= |node.children|
  {
    node.(children := if k < |node.children| then node.children[k := child] else node.children + [child])
  }

  // The trie as a map.

  predicate Usable(t: Token) {
    t != Char('\0') && t != Param(MAX)
  }

  predicate PieceNode(child: Node) {
    if child.param == MAX then |child.key| == 1 && child.key[0] != '\0' else child.key == ""
  }

  /** What adding keeps before the trie is optimised: one token a node, no two siblings alike. */
  predicate Unoptimized(node: Node) {
    && (forall c :: c in node.children ==> PieceNode(c) && Unoptimized(c))
    && DistinctLabels(node.children)
  }

  predicate DistinctLabels(children: seq<Node>) {
    forall i: nat, j: nat :: i < j < |children| ==> Label(children[i]) != Label(children[j])
  }

  lemma OneChar(key: string)
    requires |key| == 1
    ensures Chars(key) == [Char(key[0])]
  {
    assert key[1..] == "" && Chars("") == [];
  }

  lemma SelectsIsLabel(child: Node, t: Token)
    requires PieceNode(child) && Usable(t)
    ensures Selects(child, t) <==> Label(child) == [t]
  {
    if child.param == MAX {
      assert Label(child)[0] == Char(child.key[0]);
      OneChar(child.key);
      assert Label(child)[0] == [t][0] ==> Char(child.key[0]) == t;
    } else {
      assert [Param(child.param)][0] == Param(child.param);
      assert Label(child) == [t] ==> Label(child)[0] == t;
    }
  }

  /** The index stored under a pattern, 0 if none is. */
  function Stored(node: Node, tokens: seq<Token>): nat
    decreases |tokens|
  {
    if tokens == [] then node.ruleIndex
    else
      var k := ChildFor(node.children, tokens[0], 0);
      if k < |node.children| then Stored(node.children[k], tokens[1..]) else 0
  }

  /** Among distinct labels the first child selected is the only one. */
  lemma OnlyChildFor(node: Node, i: nat, t: Token)
    requires Unoptimized(node) && i < |node.children| && Usable(t) && Label(node.children[i]) == [t]
    ensures ChildFor(node.children, t, 0) == i
  {
    var k := ChildFor(node.children, t, 0);
    assert node.children[i] in node.children;
    SelectsIsLabel(node.children[i], t);
    assert node.children[k] in node.children;
    SelectsIsLabel(node.children[k], t);
  }

  lemma NothingStoredInNew(t: Token, tokens: seq<Token>)
    ensures Stored(NewChild(t), tokens) == 0
  {
  }

  lemma NewChildIsPiece(t: Token)
    requires Usable(t)
    ensures PieceNode(NewChild(t)) && Label(NewChild(t)) == [t] && Unoptimized(NewChild(t))
  {
    SelectsIsLabel(NewChild(t), t);
  }

  lemma InsertKeepsLabel(node: Node, tokens: seq<Token>, index: nat)
    requires Insert(node, tokens, index).Some?
    ensures var after := Insert(node, tokens, index).value;
            Label(after) == Label(node) && (PieceNode(node) ==> PieceNode(after))
  {
  }

  /** The child that `add` goes on with, already there or new. */
  function Followed(node: Node, t: Token): Node {
    var k := ChildFor(node.children, t, 0);
    if k < |node.children| then node.children[k] else NewChild(t)
  }

  lemma FollowedIsPiece(node: Node, t: Token)
    requires Unoptimized(node) && Usable(t)
    ensures var child := Followed(node, t); PieceNode(child) && Label(child) == [t] && Unoptimized(child)
  {
    var k := ChildFor(node.children, t, 0);
    if k < |node.children| {
      assert node.children[k] in node.children;
      SelectsIsLabel(node.children[k], t);
    } else {
      NewChildIsPiece(t);
    }
  }

  lemma LabelsStayDistinct(before: seq<Node>, after: seq<Node>, k: nat, tokens: seq<Token>)
    requires DistinctLabels(before) && k < |after|
    requires if k < |before| then |after| == |before| else k == |before| == |after| - 1
    requires Label(after[k]) == tokens
    requires forall i: nat :: i < |before| && i != k ==> Label(before[i]) != tokens && after[i] == before[i]
    ensures DistinctLabels(after)
  {
    forall i: nat, j: nat | i < j < |after|
      ensures Label(after[i]) != Label(after[j])
    {
      if i != k && j != k {
        assert after[i] == before[i] && after[j] == before[j];
      }
    }
  }

  lemma OthersLabelled(node: Node, t: Token, i: nat)
    requires Unoptimized(node) && Usable(t) && i < |node.children| && i != ChildFor(node.children, t, 0)
    ensures Label(node.children[i]) != [t]
  {
    if Label(node.children[i]) == [t] {
      OnlyChildFor(node, i, t);
    }
  }

  lemma WithChildLabels(node: Node, t: Token, grown: Node)
    requires Unoptimized(node) && Usable(t) && Label(grown) == [t]
    ensures DistinctLabels(WithChild(node, ChildFor(node.children, t, 0), grown).children)
  {
    var k := ChildFor(node.children, t, 0);
    forall i: nat | i < |node.children| && i != k
      ensures Label(node.children[i]) != [t]
    {
      OthersLabelled(node, t, i);
    }
    LabelsStayDistinct(node.children, WithChild(node, k, grown).children, k, [t]);
  }

  lemma WithChildUnoptimized(node: Node, t: Token, grown: Node)
    requires Unoptimized(node) && Usable(t)
    requires PieceNode(grown) && Unoptimized(grown) && Label(grown) == [t]
    ensures Unoptimized(WithChild(node, ChildFor(node.children, t, 0), grown))
  {
    WithChildLabels(node, t, grown);
    var after := WithChild(node, ChildFor(node.children, t, 0), grown);
    assert forall c :: c in after.children ==> c == grown || c in node.children;
  }

  lemma {:induction false} InsertKeepsUnoptimized(node: Node, tokens: seq<Token>, index: nat)
    requires Unoptimized(node) && (forall t :: t in tokens ==> Usable(t)) && Insert(node, tokens, index).Some?
    ensures Unoptimized(Insert(node, tokens, index).value)
    decreases |tokens|
  {
    if tokens != [] {
      var child := Followed(node, tokens[0]);
      FollowedIsPiece(node, tokens[0]);
      InsertKeepsUnoptimized(child, tokens[1..], index);
      InsertKeepsLabel(child, tokens[1..], index);
      WithChildUnoptimized(node, tokens[0], Insert(child, tokens[1..], index).value);
    }
  }

  /** `add` fails exactly when the pattern has an index already. */
  lemma {:induction false} InsertFailsIffStored(node: Node, tokens: seq<Token>, index: nat)
    ensures Insert(node, tokens, index).None? <==> Stored(node, tokens) != 0
    decreases |tokens|
  {
    if tokens != [] {
      InsertFailsIffStored(Followed(node, tokens[0]), tokens[1..], index);
      NothingStoredInNew(tokens[0], tokens[1..]);
    }
  }

  /** A successful `add` updates the map at its own pattern and nowhere else. */
  lemma {:induction false} InsertUpdatesMap(node: Node, tokens: seq<Token>, index: nat, other: seq<Token>)
    requires Unoptimized(node)
    requires UsableTokens(tokens) && UsableTokens(other)
    requires Insert(node, tokens, index).Some?
    ensures Stored(Insert(node, tokens, index).value, other) == if other == tokens then index else Stored(node, other)
    decreases |tokens|
  {
    var after := Insert(node, tokens, index).value;
    if tokens != [] && other != [] {
      var t := tokens[0];
      assert t in tokens && other[0] in other;
      var child := Followed(node, t);
      FollowedIsPiece(node, t);
      var grown := Insert(child, tokens[1..], index).value;
      InsertKeepsLabel(child, tokens[1..], index);
      InsertKeepsUnoptimized(child, tokens[1..], index);
      StoredWithChild(node, t, grown, other);
      if other[0] == t {
        InsertUpdatesMap(child, tokens[1..], index, other[1..]);
        NothingStoredInNew(t, other[1..]);
        assert other == [t] + other[1..] && tokens == [t] + tokens[1..];
      }
    }
  }

  /** Replacing or adding the child for a token changes only what is stored behind that token. */
  lemma StoredWithChild(node: Node, t: Token, grown: Node, other: seq<Token>)
    requires Unoptimized(node) && Usable(t)
    requires PieceNode(grown) && Unoptimized(grown) && Label(grown) == [t]
    requires other != [] && Usable(other[0])
    ensures Stored(WithChild(node, ChildFor(node.children, t, 0), grown), other)
         == if other[0] == t then Stored(grown, other[1..]) else Stored(node, other)
  {
    var k := ChildFor(node.children, t, 0);
    var after := WithChild(node, k, grown);
    if other[0] == t {
      WithChildUnoptimized(node, t, grown);
      assert after.children[k] == grown;
      OnlyChildFor(after, k, t);
    } else {
      OtherChildFor(node, t, grown, other[0]);
    }
  }

  lemma OtherChildFor(node: Node, t: Token, grown: Node, o: Token)
    requires Unoptimized(node) && Usable(t) && Usable(o) && o != t
    requires PieceNode(grown) && Unoptimized(grown) && Label(grown) == [t]
    ensures var after := WithChild(node, ChildFor(node.children, t, 0), grown);
            var i, j := ChildFor(node.children, o, 0), ChildFor(after.children, o, 0);
            if i < |node.children| then j == i && after.children[j] == node.children[i] else j == |after.children|
  {
    var k := ChildFor(node.children, t, 0);
    var after := WithChild(node, k, grown);
    WithChildUnoptimized(node, t, grown);
    var i, j := ChildFor(node.children, o, 0), ChildFor(after.children, o, 0);
    assert [o][0] != [t][0];
    SelectsIsLabel(grown, o);
    if k < |node.children| {
      assert node.children[k] in node.children;
      SelectsIsLabel(node.children[k], t);
    }
    if i < |node.children| {
      assert node.children[i] in node.children;
      SelectsIsLabel(node.children[i], o);
      OnlyChildFor(after, i, o);
    }
  }

  // From the map to the rules the trie holds.

  lemma InChildRules(node: Node, r: Rule)
    ensures r in ChildRules(node, |node.children|) <==> exists i: nat :: i < |node.children| && r in LabelledRules(node.children[i])
  {
    ChildRulesAreGathered(node, |node.children|);
    InGathered(node.children, |node.children|, LabelledRules, r);
  }

  lemma {:induction false} InGathered(children: seq<Node>, n: nat, below: Node -> seq<Rule>, r: Rule)
    requires n <= |children|
    ensures r in Gathered(children, n, below) <==> exists i: nat :: i < n && r in below(children[i])
    decreases n
  {
    if n > 0 {
      InGathered(children, n - 1, below, r);
    }
  }

  lemma {:induction false} InPrefixed(lead: seq<Token>, rules: seq<Rule>, r: Rule)
    ensures r in Prefixed(lead, rules)
       <==> |lead| <= |r.tokens| && r.tokens[..|lead|] == lead && Rule(r.tokens[|lead|..], r.index) in rules
  {
    if rules != [] {
      var front, last := rules[..|rules| - 1], rules[|rules| - 1];
      InPrefixed(lead, front, r);
      assert forall x :: x in rules <==> x in front || x == last;
      var led := lead + last.tokens;
      assert led[..|lead|] == lead && led[|lead|..] == last.tokens;
      if |lead| <= |r.tokens| && r.tokens[..|lead|] == lead && Rule(r.tokens[|lead|..], r.index) == last {
        assert r.tokens == led;
      }
    }
  }

  lemma InLabelled(child: Node, t: Token, r: Rule)
    requires Label(child) == [t]
    ensures r in LabelledRules(child)
       <==> r.tokens != [] && r.tokens[0] == t && Rule(r.tokens[1..], r.index) in Rules(child)
  {
    InPrefixed([t], Rules(child), r);
    if r.tokens != [] {
      assert r.tokens[..1] == [r.tokens[0]];
      assert [r.tokens[0]] == [t] ==> [r.tokens[0]][0] == t;
    }
  }

  lemma InRules(node: Node, r: Rule)
    ensures r in Rules(node)
       <==> (r == Rule([], node.ruleIndex) && r.index != 0)
            || exists i: nat :: i < |node.children| && r in LabelledRules(node.children[i])
  {
    InChildRules(node, r);
  }

  /** The rules of the trie are the entries of the map. */
  lemma {:induction false} RulesAreStored(node: Node, tokens: seq<Token>, index: nat)
    requires Unoptimized(node) && forall t :: t in tokens ==> Usable(t)
    ensures Rule(tokens, index) in Rules(node) <==> index != 0 && Stored(node, tokens) == index
    decreases |tokens|
  {
    var r := Rule(tokens, index);
    var n := |node.children|;
    InChildRules(node, r);
    forall i: nat | i < n
      ensures r in LabelledRules(node.children[i])
         <==> tokens != [] && ChildFor(node.children, tokens[0], 0) == i
              && Rule(tokens[1..], index) in Rules(node.children[i])
    {
      InChildOnly(node, i, tokens, index);
    }
    if tokens != [] {
      var k := ChildFor(node.children, tokens[0], 0);
      if k < n {
        assert node.children[k] in node.children;
        RulesAreStored(node.children[k], tokens[1..], index);
      }
    }
  }

  lemma InChildOnly(node: Node, i: nat, tokens: seq<Token>, index: nat)
    requires Unoptimized(node) && (forall t :: t in tokens ==> Usable(t)) && i < |node.children|
    ensures Rule(tokens, index) in LabelledRules(node.children[i])
       <==> tokens != [] && ChildFor(node.children, tokens[0], 0) == i
            && Rule(tokens[1..], index) in Rules(node.children[i])
  {
    var child := node.children[i];
    assert child in node.children;
    var t := PieceToken(child);
    InLabelled(child, t, Rule(tokens, index));
    if tokens != [] {
      if tokens[0] == t {
        OnlyChildFor(node, i, t);
      } else {
        SelectsIsLabel(child, tokens[0]);
        assert [t][0] != [tokens[0]][0];
      }
    }
  }

  function PieceToken(child: Node): (t: Token)
    requires PieceNode(child)
    ensures Label(child) == [t] && Usable(t)
  {
    if child.param == MAX then
      OneChar(child.key);
      Char(child.key[0])
    else Param(child.param)
  }

  // Whole rule sets.

  /** Adds rules one after the other, from the empty trie. */
  function Build(rules: seq<Rule>): Option<Node> {
    if rules == [] then Some(EMPTY_HEAD)
    else
      match Build(rules[..|rules| - 1])
      case None => None
      case Some(head) => Insert(head, rules[|rules| - 1].tokens, rules[|rules| - 1].index)
  }

  ghost predicate DistinctPatterns(rules: seq<Rule>) {
    forall i: nat, j: nat :: i < j < |rules| ==> rules[i].tokens != rules[j].tokens
  }

  ghost predicate AllUsable(rules: seq<Rule>) {
    forall i: nat :: i < |rules| ==> rules[i].index != 0 && UsableTokens(rules[i].tokens)
  }

  ghost predicate UsableTokens(tokens: seq<Token>) {
    forall t :: t in tokens ==> Usable(t)
  }

  /** A trie can be built exactly when no two rules have the same pattern, and then holds those rules and no others. */
  lemma {:induction false} BuildHoldsRules(rules: seq<Rule>)
    requires AllUsable(rules)
    ensures Build(rules).Some? <==> DistinctPatterns(rules)
    ensures Build(rules).Some? ==> Unoptimized(Build(rules).value)
    ensures Build(rules).Some? ==> forall tokens, index ::
      UsableTokens(tokens) ==> (Stored(Build(rules).value, tokens) == index && index != 0 <==> Rule(tokens, index) in rules)
  {
    if rules == [] {
      forall tokens | UsableTokens(tokens)
        ensures Stored(EMPTY_HEAD, tokens) == 0
      {
      }
    } else {
      var front, last := rules[..|rules| - 1], rules[|rules| - 1];
      assert forall r :: r in rules <==> r in front || r == last;
      BuildHoldsRules(front);
      if Build(front).Some? {
        var head := Build(front).value;
        InsertFailsIffStored(head, last.tokens, last.index);
        assert UsableTokens(last.tokens);
        LastPattern(rules, head);
        if Insert(head, last.tokens, last.index).Some? {
          InsertKeepsUnoptimized(head, last.tokens, last.index);
          forall tokens | UsableTokens(tokens)
            ensures Stored(Build(rules).value, tokens) == if tokens == last.tokens then last.index else Stored(head, tokens)
          {
            InsertUpdatesMap(head, last.tokens, last.index, tokens);
          }
        }
      } else {
        var i: nat, j: nat :| i < j < |front| && front[i].tokens == front[j].tokens;
        assert rules[i].tokens == rules[j].tokens;
      }
    }
  }

  lemma LastPattern(rules: seq<Rule>, head: Node)
    requires rules != [] && AllUsable(rules) && DistinctPatterns(rules[..|rules| - 1])
    requires forall tokens, index :: UsableTokens(tokens) ==>
      (Stored(head, tokens) == index && index != 0 <==> Rule(tokens, index) in rules[..|rules| - 1])
    ensures Stored(head, rules[|rules| - 1].tokens) == 0 <==> DistinctPatterns(rules)
  {
    var front, last := rules[..|rules| - 1], rules[|rules| - 1];
    assert UsableTokens(last.tokens);
    var stored := Stored(head, last.tokens);
    if stored != 0 {
      assert Rule(last.tokens, stored) in front;
      var i: nat :| i < |front| && front[i] == Rule(last.tokens, stored);
      assert rules[i].tokens == rules[|rules| - 1].tokens;
    } else {
      forall i: nat | i < |front|
        ensures front[i].tokens != last.tokens
      {
        assert front[i] == rules[i] && front[i] in front;
        assert Rule(front[i].tokens, front[i].index) in front;
      }
      forall i: nat, j: nat | i < j < |rules|
        ensures rules[i].tokens != rules[j].tokens
      {
        assert rules[i] == front[i];
        if j < |front| {
          assert rules[j] == front[j];
        }
      }
    }
  }

  lemma {:induction false} UnoptimizedIsLabelled(node: Node)
    requires Unoptimized(node)
    ensures Labelled(node)
  {
    forall c | c in node.children
      ensures Label(c) != [] && Labelled(c)
    {
      UnoptimizedIsLabelled(c);
    }
  }

  /** Every rule below an unoptimised node consists of usable tokens. */
  lemma {:induction false} RulesAreUsable(node: Node, r: Rule)
    requires Unoptimized(node) && r in Rules(node)
    ensures UsableTokens(r.tokens) && r.index != 0
    decreases node, 0
  {
    InRules(node, r);
    if r != Rule([], node.ruleIndex) || r.index == 0 {
      var i: nat :| i < |node.children| && r in LabelledRules(node.children[i]);
      assert node.children[i] in node.children;
      RulesOfChildAreUsable(node.children[i], r);
    }
  }

  lemma {:induction false} RulesOfChildAreUsable(child: Node, r: Rule)
    requires PieceNode(child) && Unoptimized(child) && r in LabelledRules(child)
    ensures UsableTokens(r.tokens) && r.index != 0
    decreases child, 1
  {
    InLabelled(child, PieceToken(child), r);
    RulesAreUsable(child, Rule(r.tokens[1..], r.index));
    assert r.tokens == [r.tokens[0]] + r.tokens[1..];
  }

  lemma BuildRules(rules: seq<Rule>)
    requires AllUsable(rules) && Build(rules).Some?
    ensures forall r :: r in Rules(Build(rules).value) <==> r in rules
    ensures Labelled(Build(rules).value)
  {
    var head := Build(rules).value;
    BuildHoldsRules(rules);
    UnoptimizedIsLabelled(head);
    forall r
      ensures r in Rules(head) <==> r in rules
    {
      if r in Rules(head) || r in rules {
        if r in Rules(head) {
          RulesAreUsable(head, r);
        }
        assert UsableTokens(r.tokens);
        RulesAreStored(head, r.tokens, r.index);
        assert r == Rule(r.tokens, r.index);
      }
    }
  }

  /**
   * For every rule set, find on the optimised trie returns the best match among the rules; where
   * indices are distinct that is the result of the linear scan, captures included.
   */
  lemma TrieIsLinearScan(reader: ParamReader, rules: seq<Rule>, url: string)
    requires AllUsable(rules) && Build(rules).Some?
    ensures var start := Progress(0, NO_PARAMS);
            var found := Find(reader, OptimizedTrie(Build(rules).value), url, start);
            && IsBest(found, reader, rules, url, start)
            && (DistinctIndices(rules) ==> found == Scan(reader, rules, url, start))
  {
    var start := Progress(0, NO_PARAMS);
    var head := Build(rules).value;
    BuildRules(rules);
    OptimizeKeepsFind(reader, head, url, start);
    FindIsScan(reader, head, url, start);
    ScanIsBest(reader, Rules(head), url, start);
    if DistinctIndices(rules) {
      ScanDependsOnSet(reader, rules, Rules(head), url, start);
    }
  }

  // A router's rules: every pattern starts with a slash.

  ghost predicate StartWithSlash(rules: seq<Rule>) {
    forall i: nat :: i < |rules| ==> rules[i].tokens != [] && rules[i].tokens[0] == Char('/')
  }

  /** The head has no rule and at most the child for the slash. */
  predicate SlashHead(head: Node) {
    && head.ruleIndex == 0 && head.param == MAX && |head.children| < 2
    && forall c :: c in head.children ==> c.param == MAX && FirstChar(c.key) == '/'
  }

  lemma InsertKeepsSlashHead(head: Node, tokens: seq<Token>, index: nat)
    requires SlashHead(head) && tokens != [] && tokens[0] == Char('/')
    ensures Insert(head, tokens, index).Some? ==> SlashHead(Insert(head, tokens, index).value)
  {
    var t := tokens[0];
    if head.children != [] {
      assert head.children[0] in head.children;
      assert Selects(head.children[0], t);
    }
    var k := ChildFor(head.children, t, 0);
    var child := if k < |head.children| then head.children[k] else NewChild(t);
    if Insert(child, tokens[1..], index).Some? {
      InsertKeepsLabel(child, tokens[1..], index);
    }
  }

  /** So validate never refuses it. */
  lemma {:induction false} SlashHeadIsBuilt(rules: seq<Rule>)
    requires StartWithSlash(rules)
    ensures Build(rules).Some? ==> SlashHead(Build(rules).value) && IsSimpleNode(Build(rules).value)
  {
    if rules != [] {
      var front, last := rules[..|rules| - 1], rules[|rules| - 1];
      SlashHeadIsBuilt(front);
      if Build(front).Some? {
        InsertKeepsSlashHead(Build(front).value, last.tokens, last.index);
      }
    }
  }
}
