// A well-nested template as a tree of blocks, and what rendering the tree means. The tree is read off the
// pointers between blocks and their closes; rendering follows it from top to bottom with a stack of
// contexts, looks names up through two functions it knows nothing about, and either throws or gives a
// text. Where the stack is changed for a body it is the argument of a recursive call, so it is restored.
module MustacheTree {
  import opened JsonTree
  import opened MustacheParse

  /** `at` is the index of the action, `before` the text in front of its tag. */
  datatype Node =
    | Plain(at: nat, before: string, kind: Kind, name: string)
    | Block(at: nat, before: string, inverted: bool, name: string, body: seq<Node>, beforeClose: string)

  /** The actions of a template whose blocks all close. */
  type Nesting = actions: seq<Action> | WellNested(actions) ghost witness []

  // The tree of a range of actions.

  /** No pointer leads out of the range. */
  ghost predicate InRange(actions: seq<Action>, begin: nat, end: nat) {
    && begin <= end <= |actions|
    && forall i: nat :: begin <= i < end ==>
         && (IsBlock(actions[i]) ==> actions[i].pos < end)
         && (actions[i].kind == CloseBlock ==> begin <= actions[i].pos)
  }

  lemma BlockSplitsRange(actions: seq<Action>, begin: nat, end: nat)
    requires WellNested(actions) && InRange(actions, begin, end) && begin < end && IsBlock(actions[begin])
    ensures var close := actions[begin].pos;
            && begin < close < end && actions[close].kind == CloseBlock
            && InRange(actions, begin + 1, close) && InRange(actions, close + 1, end)
  {
    var close := actions[begin].pos;
    assert Closed(actions, [], begin);
    forall i: nat | begin + 1 <= i < close
      ensures IsBlock(actions[i]) ==> actions[i].pos < close
      ensures actions[i].kind == CloseBlock ==> begin + 1 <= actions[i].pos
    {
      if IsBlock(actions[i]) {
        assert Closed(actions, [], i);
      }
      if IsClose(actions, i) {
        assert Closed(actions, [], actions[i].pos);
      }
    }
    forall i: nat | close + 1 <= i < end && IsClose(actions, i)
      ensures close + 1 <= actions[i].pos
    {
      assert Closed(actions, [], actions[i].pos);
    }
  }

  lemma RangeAfter(actions: seq<Action>, begin: nat, end: nat)
    requires WellNested(actions) && InRange(actions, begin, end) && begin < end
    requires !IsBlock(actions[begin]) && actions[begin].kind != CloseBlock
    ensures InRange(actions, begin + 1, end)
  {
    forall i: nat | begin + 1 <= i < end && IsClose(actions, i)
      ensures begin + 1 <= actions[i].pos
    {
      assert Closed(actions, [], actions[i].pos);
    }
  }

  /** A range does not start with a close: that would point before itself. */
  lemma NoCloseFirst(actions: seq<Action>, begin: nat, end: nat)
    requires WellNested(actions) && InRange(actions, begin, end) && begin < end
    ensures actions[begin].kind != CloseBlock
  {
    assert !IsClose(actions, begin);
  }

  ghost function Tree(actions: seq<Action>, fragments: seq<string>, begin: nat, end: nat): seq<Node>
    requires WellNested(actions) && InRange(actions, begin, end) && |fragments| == |actions|
    decreases end - begin
  {
    if begin == end then []
    else
      var a := actions[begin];
      NoCloseFirst(actions, begin, end);
      if IsBlock(a) then
        BlockSplitsRange(actions, begin, end);
        [Block(begin, fragments[begin], a.kind == ElseBlock, a.name,
               Tree(actions, fragments, begin + 1, a.pos), fragments[a.pos])]
        + Tree(actions, fragments, a.pos + 1, end)
      else
        RangeAfter(actions, begin, end);
        [Plain(begin, fragments[begin], a.kind, a.name)] + Tree(actions, fragments, begin + 1, end)
  }

  /** The whole template: one block around everything, with the text behind the last tag. */
  ghost function Template(actions: seq<Action>, fragments: seq<string>): Node
    requires WellNested(actions) && |fragments| == |actions| > 0 && InRange(actions, 0, |actions| - 1)
  {
    Block(0, "", false, "", Tree(actions, fragments, 0, |actions| - 1), fragments[|actions| - 1])
  }

  /** The appended last action is neither a block nor a close, so nothing points past it. */
  lemma WholeRange(actions: seq<Action>)
    requires WellNested(actions) && actions != [] && actions[|actions| - 1].kind == Ignore
    ensures InRange(actions, 0, |actions| - 1)
  {
    forall i: nat | i < |actions| - 1 && IsBlock(actions[i])
      ensures actions[i].pos < |actions| - 1
    {
      assert Closed(actions, [], i);
    }
  }

  // What rendering means.

  datatype Found = Found(found: bool, context: Json)

  /** How names are looked up: a tag's lookup also depends on where the tag stands. */
  datatype Lookup = Lookup(tag: (nat, string, seq<Json>) -> Found, block: (string, seq<Json>) -> Found)

  datatype Outcome = Thrown | Out(text: string)

  function Then(first: Outcome, second: Outcome): Outcome {
    if first.Out? && second.Out? then Out(first.text + second.text) else Thrown
  }

  function HtmlChar(c: char): string {
    match c
    case '&' => "&amp;"
    case '<' => "&lt;"
    case '>' => "&gt;"
    case '\"' => "&quot;"
    case '\'' => "&#39;"
    case '/' => "&#x2F;"
    case '`' => "&#x60;"
    case '=' => "&#x3D;"
    case _ => [c]
  }

  function HtmlEscape(s: string): string {
    if s == "" then "" else HtmlEscape(s[..|s| - 1]) + HtmlChar(s[|s| - 1])
  }

  /** The text of a tag; containers and null are the "not implemented tag type" exception. */
  function TagValue(kind: Kind, context: Json): Outcome {
    match context
    case False | True | Number(_) => Out(Dump(context))
    case Str(s) => Out(if kind == Tag then HtmlEscape(s) else s)
    case _ => Thrown
  }

  /** What a block does with the context it names. */
  datatype Plan = Skip | Enter(context: Json) | ForEach(items: seq<Json>)

  function PlanOf(inverted: bool, f: Found): Plan {
    if inverted then
      if !f.found || f.context == Null || f.context == False || f.context == List([]) then Enter(Null) else Skip
    else if !f.found then Skip
    else
      match f.context
      case List(items) => ForEach(items)
      case False | Null => Skip
      case _ => Enter(f.context)
  }

  function RenderNode(lk: Lookup, n: Node, stack: seq<Json>): Outcome
    decreases n, if n.Block? then |n.body| + 3 else 0, 0
  {
    match n
    case Plain(at, before, kind, name) =>
      if kind == Ignore then Out(before) else Then(Out(before), TagValue(kind, lk.tag(at, name, stack).context))
    case Block(_, before, _, _, _, _) => Then(Out(before), RenderBlock(lk, n, stack))
  }

  /** A block without the text in front of it. */
  function RenderBlock(lk: Lookup, n: Node, stack: seq<Json>): Outcome
    requires n.Block?
    decreases n, |n.body| + 2, 0
  {
    match PlanOf(n.inverted, lk.block(n.name, stack))
    case Skip => Out("")
    case Enter(context) => Inside(lk, n, stack + [context])
    case ForEach(items) => RenderItems(lk, n, items, |items|, stack)
  }

  /** The body and the text in front of the close tag. */
  function Inside(lk: Lookup, n: Node, stack: seq<Json>): Outcome
    requires n.Block?
    decreases n, |n.body| + 1, 0
  {
    Then(RenderFrom(lk, n, 0, stack), Out(n.beforeClose))
  }

  function RenderFrom(lk: Lookup, n: Node, k: nat, stack: seq<Json>): Outcome
    requires n.Block? && k <= |n.body|
    decreases n, |n.body| - k, 0
  {
    if k == |n.body| then Out("")
    else Then(RenderNode(lk, n.body[k], stack), RenderFrom(lk, n, k + 1, stack))
  }

  /** Once for each of the first `count` items, with the item on top of the stack. */
  function RenderItems(lk: Lookup, n: Node, items: seq<Json>, count: nat, stack: seq<Json>): Outcome
    requires n.Block? && count <= |items|
    decreases n, |n.body| + 1, count + 1
  {
    if count == 0 then Out("")
    else Then(RenderItems(lk, n, items, count - 1, stack), Inside(lk, n, stack + [items[count - 1]]))
  }
}
