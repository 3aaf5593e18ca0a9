// render_internal: a loop over the actions that jumps along their pointers, and its agreement with the
// rendering of the tree.
module MustacheRender {
  import opened JsonTree
  import opened MustacheParse
  import opened MustacheTree

  /** What the loop still has in front of it: nodes, and closes of blocks it went into. */
  datatype Item = Do(node: Node) | End(before: string)

  function Items(nodes: seq<Node>): (items: seq<Item>)
    ensures |items| == |nodes|
  {
    if nodes == [] then [] else [Do(nodes[0])] + Items(nodes[1..])
  }

  /** The actions from `current` to `end` are these items. */
  ghost predicate LaidOut(actions: seq<Action>, fragments: seq<string>, current: nat, end: nat, todo: seq<Item>)
    requires current <= end <= |actions| == |fragments|
    decreases end - current
  {
    if todo == [] then current == end
    else
      && current < end && fragments[current] == Before(todo[0])
      && var a := actions[current];
         match todo[0]
         case End(_) => a.kind == CloseBlock && LaidOut(actions, fragments, current + 1, end, todo[1..])
         case Do(Plain(at, _, kind, name)) =>
           && at == current && a.kind == kind && a.name == name && !IsBlock(a) && kind != CloseBlock
           && LaidOut(actions, fragments, current + 1, end, todo[1..])
         case Do(Block(at, _, inverted, name, body, beforeClose)) =>
           && at == current && IsBlock(a) && inverted == (a.kind == ElseBlock) && a.name == name
           && current < a.pos < end && actions[a.pos].kind == CloseBlock && fragments[a.pos] == beforeClose
           && LaidOut(actions, fragments, current + 1, a.pos, Items(body))
           && LaidOut(actions, fragments, a.pos + 1, end, todo[1..])
  }

  function Before(item: Item): string {
    match item
    case End(before) => before
    case Do(node) => node.before
  }

  lemma FirstItem(first: Node, rest: seq<Node>)
    ensures Items([first] + rest) == [Do(first)] + Items(rest)
    ensures ([Do(first)] + Items(rest))[1..] == Items(rest)
  {
    assert ([first] + rest)[1..] == rest;
  }

  lemma LaidOutBlock(actions: seq<Action>, fragments: seq<string>, begin: nat, end: nat, tree: seq<Node>, body: seq<Node>, rest: seq<Node>)
    requires begin < end <= |actions| == |fragments| && IsBlock(actions[begin]) && begin < actions[begin].pos < end
    requires actions[actions[begin].pos].kind == CloseBlock
    requires var a := actions[begin];
             tree == [Block(begin, fragments[begin], a.kind == ElseBlock, a.name, body, fragments[a.pos])] + rest
    ensures (LaidOut(actions, fragments, begin + 1, actions[begin].pos, Items(body))
             && LaidOut(actions, fragments, actions[begin].pos + 1, end, Items(rest)))
            ==> LaidOut(actions, fragments, begin, end, Items(tree))
  {
    FirstItem(tree[0], rest);
  }

  lemma LaidOutPlain(actions: seq<Action>, fragments: seq<string>, begin: nat, end: nat, tree: seq<Node>, rest: seq<Node>)
    requires begin < end <= |actions| == |fragments| && !IsBlock(actions[begin]) && actions[begin].kind != CloseBlock
    requires tree == [Plain(begin, fragments[begin], actions[begin].kind, actions[begin].name)] + rest
    ensures LaidOut(actions, fragments, begin + 1, end, Items(rest)) ==> LaidOut(actions, fragments, begin, end, Items(tree))
  {
    FirstItem(tree[0], rest);
  }

  lemma {:induction false} TreeIsLaidOut(actions: Nesting, fragments: seq<string>, begin: nat, end: nat, tree: seq<Node>)
    requires InRange(actions, begin, end) && |fragments| == |actions| && tree == Tree(actions, fragments, begin, end)
    ensures LaidOut(actions, fragments, begin, end, Items(tree))
    decreases end - begin, 1
  {
    if begin < end {
      NoCloseFirst(actions, begin, end);
      if IsBlock(actions[begin]) {
        BlockSplitsRange(actions, begin, end);
        BlockIsLaidOut(actions, fragments, begin, end, tree,
                       Tree(actions, fragments, begin + 1, actions[begin].pos), Tree(actions, fragments, actions[begin].pos + 1, end));
      } else {
        RangeAfter(actions, begin, end);
        var rest := Tree(actions, fragments, begin + 1, end);
        TreeIsLaidOut(actions, fragments, begin + 1, end, rest);
        LaidOutPlain(actions, fragments, begin, end, tree, rest);
      }
    }
  }

  lemma {:induction false} BlockIsLaidOut(actions: Nesting, fragments: seq<string>, begin: nat, end: nat,
                                          tree: seq<Node>, body: seq<Node>, rest: seq<Node>)
    requires begin < end <= |actions| == |fragments| && IsBlock(actions[begin]) && begin < actions[begin].pos < end
    requires actions[actions[begin].pos].kind == CloseBlock
    requires InRange(actions, begin + 1, actions[begin].pos) && InRange(actions, actions[begin].pos + 1, end)
    requires body == Tree(actions, fragments, begin + 1, actions[begin].pos)
    requires rest == Tree(actions, fragments, actions[begin].pos + 1, end)
    requires var a := actions[begin];
             tree == [Block(begin, fragments[begin], a.kind == ElseBlock, a.name, body, fragments[a.pos])] + rest
    ensures LaidOut(actions, fragments, begin, end, Items(tree))
    decreases end - begin, 0
  {
    TreeIsLaidOut(actions, fragments, begin + 1, actions[begin].pos, body);
    TreeIsLaidOut(actions, fragments, actions[begin].pos + 1, end, rest);
    LaidOutBlock(actions, fragments, begin, end, tree, body, rest);
  }

  lemma {:induction false} LaidOutConcat(actions: seq<Action>, fragments: seq<string>, begin: nat, middle: nat, end: nat, s: seq<Item>, t: seq<Item>)
    requires begin <= middle <= end <= |actions| == |fragments|
    requires LaidOut(actions, fragments, begin, middle, s) && LaidOut(actions, fragments, middle, end, t)
    ensures LaidOut(actions, fragments, begin, end, s + t)
    decreases |s|
  {
    if s == [] {
      assert s + t == t;
    } else {
      assert (s + t)[1..] == s[1..] + t;
      var next := if s[0].Do? && s[0].node.Block? then actions[begin].pos + 1 else begin + 1;
      LaidOutConcat(actions, fragments, next, middle, end, s[1..], t);
    }
  }

  // What is left to do, as text and stack.

  datatype Rest = Failed | Done(text: string, stack: seq<Json>)

  function Prefixed(text: string, r: Rest): Rest {
    if r.Done? then Done(text + r.text, r.stack) else Failed
  }

  function After(first: Outcome, r: Rest): Rest {
    if first.Out? then Prefixed(first.text, r) else Failed
  }

  function RenderRest(lk: Lookup, todo: seq<Item>, stack: seq<Json>): Rest
    decreases |todo|
  {
    if todo == [] then Done("", stack)
    else
      match todo[0]
      case Do(node) => After(RenderNode(lk, node, stack), RenderRest(lk, todo[1..], stack))
      case End(before) =>
        if stack == [] then Failed else Prefixed(before, RenderRest(lk, todo[1..], stack[..|stack| - 1]))
  }

  lemma AfterThen(a: Outcome, b: Outcome, r: Rest)
    ensures After(Then(a, b), r) == After(a, After(b, r))
  {
    if a.Out? && b.Out? && r.Done? {
      assert a.text + b.text + r.text == a.text + (b.text + r.text);
    }
  }

  lemma PrefixedIsAfter(text: string, r: Rest)
    ensures Prefixed(text, r) == After(Out(text), r)
    ensures After(Out(""), r) == r
  {
    if r.Done? {
      assert "" + r.text == r.text;
    }
  }

  /** Nodes in front of other work are rendered first and leave the stack alone. */
  lemma {:induction false} RenderNodesFirst(lk: Lookup, n: Node, k: nat, rest: seq<Item>, stack: seq<Json>)
    requires n.Block? && k <= |n.body|
    ensures RenderRest(lk, Items(n.body[k..]) + rest, stack) == After(RenderFrom(lk, n, k, stack), RenderRest(lk, rest, stack))
    decreases |n.body| - k
  {
    if k == |n.body| {
      assert Items(n.body[k..]) + rest == rest;
      PrefixedIsAfter("", RenderRest(lk, rest, stack));
    } else {
      var todo := Items(n.body[k..]) + rest;
      assert n.body[k..][1..] == n.body[k + 1..];
      assert todo[0] == Do(n.body[k]) && todo[1..] == Items(n.body[k + 1..]) + rest;
      RenderNodesFirst(lk, n, k + 1, rest, stack);
      AfterThen(RenderNode(lk, n.body[k], stack), RenderFrom(lk, n, k + 1, stack), RenderRest(lk, rest, stack));
    }
  }

  /** Going into a block: its body, its close and then what follows the block, with the stack one higher. */
  lemma EnterBlock(lk: Lookup, n: Node, rest: seq<Item>, stack: seq<Json>, context: Json)
    requires n.Block?
    ensures RenderRest(lk, Items(n.body) + ([End(n.beforeClose)] + rest), stack + [context])
         == After(Inside(lk, n, stack + [context]), RenderRest(lk, rest, stack))
  {
    var inner := stack + [context];
    var behind := [End(n.beforeClose)] + rest;
    assert n.body[0..] == n.body;
    RenderNodesFirst(lk, n, 0, behind, inner);
    assert behind[1..] == rest && inner[..|inner| - 1] == stack;
    PrefixedIsAfter(n.beforeClose, RenderRest(lk, rest, stack));
    AfterThen(RenderFrom(lk, n, 0, inner), Out(n.beforeClose), RenderRest(lk, rest, stack));
  }

  /** Progress of the loop: the text written so far in front of what is left. */
  ghost predicate Proceeds(whole: Rest, text: string, rest: Rest) {
    whole == Prefixed(text, rest)
  }

  lemma ProceedsFurther(whole: Rest, a: string, middle: Rest, b: string, rest: Rest)
    requires Proceeds(whole, a, middle) && Proceeds(middle, b, rest)
    ensures Proceeds(whole, a + b, rest)
  {
    if rest.Done? {
      assert a + b + rest.text == a + (b + rest.text);
    }
  }

  /** At the end of the range the text written is the whole text. */
  lemma NothingLeft(actions: seq<Action>, fragments: seq<string>, end: nat, left: seq<Item>, lk: Lookup,
                    whole: Rest, text: string, stack: seq<Json>)
    requires end <= |actions| == |fragments| && LaidOut(actions, fragments, end, end, left)
    requires Proceeds(whole, text, RenderRest(lk, left, stack))
    ensures whole == Done(text, stack)
  {
    assert left == [];
    assert text + "" == text;
  }

  class Renderer {
    const actions: seq<Action>
    const fragments: seq<string>
    const lookup: Lookup
    var stack: seq<Json>
    var out: string

    constructor (actions: seq<Action>, fragments: seq<string>, lookup: Lookup, context: Json)
      ensures this.actions == actions && this.fragments == fragments && this.lookup == lookup
      ensures stack == [context] && out == ""
    {
      this.actions, this.fragments, this.lookup := actions, fragments, lookup;
      stack, out := [context], "";
    }

    /** Renders the actions from `begin` to `end` and the text behind them; false is an exception. */
    method RenderInternal(begin: nat, end: nat, ghost todo: seq<Item>) returns (ok: bool)
      requires begin <= end < |actions| == |fragments| && LaidOut(actions, fragments, begin, end, todo)
      modifies this
      ensures ok <==> RenderRest(lookup, todo, old(stack)).Done?
      ensures ok ==> var r := RenderRest(lookup, todo, old(stack));
                     stack == r.stack && out == old(out) + (r.text + fragments[end])
      decreases end - begin, 3
    {
      var current := begin;
      ghost var left, text, whole := todo, "", RenderRest(lookup, todo, stack);
      PrefixedIsAfter("", whole);
      while current < end
        invariant current <= end && LaidOut(actions, fragments, current, end, left)
        invariant Proceeds(whole, text, RenderRest(lookup, left, stack)) && out == old(out) + text
      {
        ok, current, left, text := Turn(current, end, left, whole, text, old(out));
        if !ok {
          return;
        }
      }
      NothingLeft(actions, fragments, end, left, lookup, whole, text, stack);
      out := out + fragments[end];
      ok := true;
    }

    /** One round of the loop; `whole` is what the text so far and the work left make. */
    method Turn(current: nat, end: nat, ghost left: seq<Item>, ghost whole: Rest, ghost text: string, ghost before: string)
      returns (ok: bool, next: nat, ghost rest: seq<Item>, ghost longer: string)
      requires current < end < |actions| == |fragments| && LaidOut(actions, fragments, current, end, left)
      requires Proceeds(whole, text, RenderRest(lookup, left, stack)) && out == before + text
      modifies this
      ensures !ok ==> whole == Failed
      ensures ok ==>
        && current < next <= end && LaidOut(actions, fragments, next, end, rest)
        && Proceeds(whole, longer, RenderRest(lookup, rest, stack)) && out == before + longer
      decreases end - current, 2
    {
      ghost var middle := RenderRest(lookup, left, stack);
      ghost var more;
      ok, next, rest, more := Act(current, end, left);
      longer := text + more;
      if ok {
        ProceedsFurther(whole, text, middle, more, RenderRest(lookup, rest, stack));
      }
    }

    /** One action: the text in front of it, what it does, and where the loop goes on. */
    method Act(current: nat, end: nat, ghost left: seq<Item>) returns (ok: bool, next: nat, ghost rest: seq<Item>, ghost text: string)
      requires current < end < |actions| == |fragments| && LaidOut(actions, fragments, current, end, left)
      modifies this
      ensures !ok ==> RenderRest(lookup, left, old(stack)) == Failed
      ensures ok ==>
        && current < next <= end && LaidOut(actions, fragments, next, end, rest)
        && Proceeds(RenderRest(lookup, left, old(stack)), text, RenderRest(lookup, rest, stack))
        && out == old(out) + text
      decreases end - current, 1
    {
      out := out + fragments[current];
      if IsBlock(actions[current]) {
        ghost var n := left[0].node;
        BlockFirst(lookup, n, left[1..], stack);
        assert left == [Do(n)] + left[1..];
        ghost var more;
        ok, next, rest, more := ActBlock(current, end, n, left[1..]);
        text := fragments[current] + more;
        if ok {
          ProceedsFurther(RenderRest(lookup, left, old(stack)), n.before,
                          After(RenderBlock(lookup, n, old(stack)), RenderRest(lookup, left[1..], old(stack))),
                          more, RenderRest(lookup, rest, stack));
        }
      } else {
        ghost var more;
        ok, more := ActSingle(current, end, left);
        rest, next, text := left[1..], current + 1, fragments[current] + more;
      }
    }

    /** A tag, a comment or the close of a block that was gone into. */
    method ActSingle(current: nat, end: nat, ghost left: seq<Item>) returns (ok: bool, ghost text: string)
      requires current < end < |actions| == |fragments| && LaidOut(actions, fragments, current, end, left)
      requires !IsBlock(actions[current])
      modifies this
      ensures !ok ==> RenderRest(lookup, left, old(stack)) == Failed
      ensures ok ==>
        && LaidOut(actions, fragments, current + 1, end, left[1..])
        && Proceeds(RenderRest(lookup, left, old(stack)), fragments[current] + text, RenderRest(lookup, left[1..], stack))
        && out == old(out) + text
    {
      var a := actions[current];
      ok, text := true, "";
      if a.kind == Tag || a.kind == UnescapeTag {
        var value := TagValue(a.kind, lookup.tag(current, a.name, stack).context);
        ok := value.Out?;
        if ok {
          out := out + value.text;
          text := value.text;
        }
      } else if a.kind == CloseBlock {
        ok := stack != [];
        if ok {
          stack := stack[..|stack| - 1];
        }
      }
    }

    /** A block, its text already written: skip it, go into it, or render it once for each item. */
    method ActBlock(current: nat, end: nat, ghost n: Node, ghost behind: seq<Item>)
      returns (ok: bool, next: nat, ghost rest: seq<Item>, ghost text: string)
      requires current < end < |actions| == |fragments| && n.Block?
      requires LaidOut(actions, fragments, current, end, [Do(n)] + behind)
      modifies this
      ensures !ok ==> After(RenderBlock(lookup, n, old(stack)), RenderRest(lookup, behind, old(stack))) == Failed
      ensures ok ==>
        && current < next <= end && LaidOut(actions, fragments, next, end, rest)
        && Proceeds(After(RenderBlock(lookup, n, old(stack)), RenderRest(lookup, behind, old(stack))), text, RenderRest(lookup, rest, stack))
        && out == old(out) + text
      decreases end - current, 0
    {
      var a := actions[current];
      BlockLayout(actions, fragments, current, end, n, behind);
      ok, rest, text := true, behind, "";
      match PlanOf(a.kind == ElseBlock, lookup.block(a.name, stack))
      case Skip =>
        next := a.pos + 1;
        PrefixedIsAfter("", RenderRest(lookup, behind, stack));
      case Enter(context) =>
        EnterBlock(lookup, n, behind, stack, context);
        stack := stack + [context];
        next := current + 1;
        rest := Items(n.body) + ([End(n.beforeClose)] + behind);
        Entered(Inside(lookup, n, stack), RenderRest(lookup, behind, old(stack)));
      case ForEach(items) =>
        ok := RenderEach(current + 1, a.pos, items, n);
        next := a.pos + 1;
        text := if ok then RenderItems(lookup, n, items, |items|, stack).text else "";
    }

    /** The body and the text in front of its close, once for each item. */
    method RenderEach(begin: nat, close: nat, items: seq<Json>, ghost n: Node) returns (ok: bool)
      requires n.Block? && begin <= close < |actions| == |fragments| && fragments[close] == n.beforeClose
      requires LaidOut(actions, fragments, begin, close, Items(n.body))
      modifies this
      ensures ok <==> RenderItems(lookup, n, items, |items|, old(stack)).Out?
      ensures ok ==> stack == old(stack) && out == old(out) + RenderItems(lookup, n, items, |items|, stack).text
      decreases close - begin, 6
    {
      for i := 0 to |items|
        invariant stack == old(stack) && RenderItems(lookup, n, items, i, stack).Out?
        invariant out == old(out) + RenderItems(lookup, n, items, i, stack).text
      {
        OneMoreItem(lookup, n, items, i, stack);
        ok := RenderItem(begin, close, items[i], n);
        if !ok {
          ThrownStays(lookup, n, items, i + 1, old(stack));
          return;
        }
      }
      ok := true;
    }

    /** The body and the text in front of its close, with one item on the stack. */
    method RenderItem(begin: nat, close: nat, item: Json, ghost n: Node) returns (ok: bool)
      requires n.Block? && begin <= close < |actions| == |fragments| && fragments[close] == n.beforeClose
      requires LaidOut(actions, fragments, begin, close, Items(n.body))
      modifies this
      ensures ok <==> Inside(lookup, n, old(stack) + [item]).Out?
      ensures ok ==> stack == old(stack) && out == old(out) + Inside(lookup, n, old(stack) + [item]).text
      decreases close - begin, 5
    {
      InsideAsRest(lookup, n, stack + [item]);
      stack := stack + [item];
      ok := RenderInternal(begin, close, Items(n.body));
      if ok {
        stack := stack[..|stack| - 1];
      }
    }
  }

  lemma Entered(inside: Outcome, rest: Rest)
    ensures Proceeds(After(inside, rest), "", After(inside, rest))
  {
    PrefixedIsAfter("", After(inside, rest));
  }

  lemma {:induction false} ThrownStays(lk: Lookup, n: Node, items: seq<Json>, i: nat, stack: seq<Json>)
    requires n.Block? && i <= |items| && RenderItems(lk, n, items, i, stack) == Thrown
    ensures RenderItems(lk, n, items, |items|, stack) == Thrown
    decreases |items| - i
  {
    if i < |items| {
      ThrownStays(lk, n, items, i + 1, stack);
    }
  }

  lemma OneMoreItem(lk: Lookup, n: Node, items: seq<Json>, i: nat, stack: seq<Json>)
    requires n.Block? && i < |items|
    ensures RenderItems(lk, n, items, i + 1, stack) == Then(RenderItems(lk, n, items, i, stack), Inside(lk, n, stack + [items[i]]))
  {
  }

  /** The text and stack of a body rendered as work that is left. */
  lemma InsideAsRest(lk: Lookup, n: Node, stack: seq<Json>)
    requires n.Block?
    ensures var r, inside := RenderRest(lk, Items(n.body), stack), Inside(lk, n, stack);
      && (r.Done? <==> inside.Out?)
      && (r.Done? ==> r.stack == stack && r.text + n.beforeClose == inside.text)
  {
    assert n.body[0..] == n.body && Items(n.body) + [] == Items(n.body);
    RenderNodesFirst(lk, n, 0, [], stack);
    PrefixedIsAfter("", Done("", stack));
    var body := RenderFrom(lk, n, 0, stack);
    assert body.Out? ==> body.text + "" == body.text;
  }

  lemma BlockFirst(lk: Lookup, n: Node, rest: seq<Item>, stack: seq<Json>)
    requires n.Block?
    ensures RenderRest(lk, [Do(n)] + rest, stack)
         == Prefixed(n.before, After(RenderBlock(lk, n, stack), RenderRest(lk, rest, stack)))
  {
    assert ([Do(n)] + rest)[1..] == rest;
    AfterThen(Out(n.before), RenderBlock(lk, n, stack), RenderRest(lk, rest, stack));
  }

  /** The places of a block's parts. */
  lemma BlockLayout(actions: seq<Action>, fragments: seq<string>, current: nat, end: nat, n: Node, behind: seq<Item>)
    requires current < end <= |actions| == |fragments| && n.Block?
    requires LaidOut(actions, fragments, current, end, [Do(n)] + behind)
    ensures var a := actions[current];
            && IsBlock(a) && n.inverted == (a.kind == ElseBlock) && n.name == a.name
            && current < a.pos < end && fragments[a.pos] == n.beforeClose
            && LaidOut(actions, fragments, current + 1, a.pos, Items(n.body))
            && LaidOut(actions, fragments, a.pos + 1, end, behind)
            && LaidOut(actions, fragments, current + 1, end, Items(n.body) + ([End(n.beforeClose)] + behind))
  {
    var a := actions[current];
    assert ([Do(n)] + behind)[1..] == behind;
    assert ([End(n.beforeClose)] + behind)[1..] == behind;
    LaidOutConcat(actions, fragments, current + 1, a.pos, end, Items(n.body), [End(n.beforeClose)] + behind);
  }

  /** The text is what the block tree of the template means, or rendering it throws. */
  ghost predicate RendersTree(actions: seq<Action>, fragments: seq<string>, lookup: Lookup, context: Json, ok: bool, text: string) {
    && WellNested(actions) && |fragments| == |actions| > 0 && actions[|actions| - 1].kind == Ignore
    && var meaning := (WholeRange(actions); Inside(lookup, Template(actions, fragments), [context]));
       ok == meaning.Out? && (ok ==> text == meaning.text)
  }

  /**
   * Rendering a whole template whose blocks all close: the loop ends, renders what the tree means, and
   * unless an exception is thrown leaves the context stack as it was.
   */
  method Render(actions: seq<Action>, fragments: seq<string>, lookup: Lookup, context: Json)
    returns (ok: bool, text: string, stack: seq<Json>)
    requires WellNested(actions) && |fragments| == |actions| > 0 && actions[|actions| - 1].kind == Ignore
    ensures RendersTree(actions, fragments, lookup, context, ok, text) && (ok ==> stack == [context])
  {
    var renderer := new Renderer(actions, fragments, lookup, context);
    var end := |actions| - 1;
    WholeRange(actions);
    ghost var root := Template(actions, fragments);
    TreeIsLaidOut(actions, fragments, 0, end, root.body);
    InsideAsRest(lookup, root, [context]);
    ok := renderer.RenderInternal(0, end, Items(root.body));
    text, stack := renderer.out, renderer.stack;
  }
}
