// The block structure of a mustache template: every {{#name}} or {{^name}} and its {{/name}} point at
// each other. A template is taken as the list of its tags. Parsing keeps a stack of blocks that wait for
// their close; a close tag has to fit the innermost one, and gets its position while the block gets that
// of the close. What the pointers have in common at every moment is the predicate Nested.
module MustacheParse {

  datatype Kind = Ignore | Tag | UnescapeTag | OpenBlock | ElseBlock | CloseBlock

  datatype TagText = TagText(kind: Kind, name: string)

  /** `pos` of a block is the index of its close action and the other way round. */
  datatype Action = Action(kind: Kind, name: string, pos: nat)

  predicate IsBlock(a: Action) {
    a.kind == OpenBlock || a.kind == ElseBlock
  }

  /** A block that is not waiting for its close any more. */
  predicate Closed(actions: seq<Action>, open: seq<nat>, i: nat) {
    i < |actions| && IsBlock(actions[i]) && i !in open
  }

  ghost predicate OpenIncreasing(actions: seq<Action>, open: seq<nat>) {
    && (forall k :: 0 <= k < |open| ==> open[k] < |actions| && IsBlock(actions[open[k]]))
    && forall k, l :: 0 <= k < l < |open| ==> open[k] < open[l]
  }

  ghost predicate ClosedPoint(actions: seq<Action>, open: seq<nat>) {
    forall i: nat :: Closed(actions, open, i) ==> PointsToClose(actions, i)
  }

  /** The block points forward to its close, which points back and carries the same name. */
  predicate PointsToClose(actions: seq<Action>, i: nat)
    requires i < |actions|
  {
    i < actions[i].pos < |actions| && actions[actions[i].pos].kind == CloseBlock
    && actions[actions[i].pos].pos == i && actions[actions[i].pos].name == actions[i].name
  }

  predicate IsClose(actions: seq<Action>, j: nat) {
    j < |actions| && actions[j].kind == CloseBlock
  }

  ghost predicate ClosesPoint(actions: seq<Action>, open: seq<nat>) {
    forall j: nat {:trigger IsClose(actions, j)} :: IsClose(actions, j) ==>
      Closed(actions, open, actions[j].pos) && actions[actions[j].pos].pos == j
  }

  ghost predicate NoCrossing(actions: seq<Action>, open: seq<nat>) {
    && (forall i: nat, j: nat :: Closed(actions, open, i) && Closed(actions, open, j) && i < j < actions[i].pos ==>
          actions[j].pos < actions[i].pos)
    && forall i: nat, k: nat :: Closed(actions, open, i) && k < |open| ==> !(i < open[k] < actions[i].pos)
  }

  /** What holds while the blocks in `open` wait for their close tags. */
  ghost predicate Nested(actions: seq<Action>, open: seq<nat>) {
    OpenIncreasing(actions, open) && ClosedPoint(actions, open) && ClosesPoint(actions, open) && NoCrossing(actions, open)
  }

  /** All blocks closed: blocks and closes point at each other and do not cross. */
  ghost predicate WellNested(actions: seq<Action>) {
    Nested(actions, [])
  }

  lemma AppendPlain(actions: seq<Action>, open: seq<nat>, a: Action)
    requires Nested(actions, open) && !IsBlock(a) && a.kind != CloseBlock
    ensures Nested(actions + [a], open)
  {
    var after := actions + [a];
    assert forall i: nat :: Closed(after, open, i) <==> Closed(actions, open, i);
    assert forall j: nat :: IsClose(after, j) <==> IsClose(actions, j);
  }

  lemma ClosedAfterOpen(actions: seq<Action>, open: seq<nat>, a: Action, i: nat)
    requires Nested(actions, open) && IsBlock(a)
    ensures Closed(actions + [a], open + [|actions|], i) <==> Closed(actions, open, i)
  {
    assert i in open + [|actions|] <==> i in open || i == |actions|;
  }

  lemma OpenKeepsPointers(actions: seq<Action>, open: seq<nat>, a: Action)
    requires Nested(actions, open) && IsBlock(a)
    ensures var after, waiting := actions + [a], open + [|actions|];
            OpenIncreasing(after, waiting) && ClosedPoint(after, waiting) && ClosesPoint(after, waiting)
  {
    forall i: nat
      ensures Closed(actions + [a], open + [|actions|], i) <==> Closed(actions, open, i)
    {
      ClosedAfterOpen(actions, open, a, i);
    }
    assert forall j: nat :: IsClose(actions + [a], j) <==> IsClose(actions, j);
  }

  lemma OpenKeepsNesting(actions: seq<Action>, open: seq<nat>, a: Action)
    requires Nested(actions, open) && IsBlock(a)
    ensures NoCrossing(actions + [a], open + [|actions|])
  {
    forall i: nat
      ensures Closed(actions + [a], open + [|actions|], i) <==> Closed(actions, open, i)
    {
      ClosedAfterOpen(actions, open, a, i);
    }
  }

  /** The innermost open block gets its close. */
  function Close(actions: seq<Action>, b: nat, name: string): seq<Action>
    requires b < |actions|
  {
    actions[b := actions[b].(pos := |actions|)] + [Action(CloseBlock, name, b)]
  }

  lemma ClosedAfterClose(actions: seq<Action>, open: seq<nat>, name: string, i: nat)
    requires Nested(actions, open) && open != []
    ensures var b := open[|open| - 1];
            var after, waiting := Close(actions, b, name), open[..|open| - 1];
            Closed(after, waiting, i) <==> Closed(actions, open, i) || i == b
  {
    var b, waiting := open[|open| - 1], open[..|open| - 1];
    assert open == waiting + [b];
    assert i in open <==> i in waiting || i == b;
    assert b !in waiting;
  }

  lemma AllClosedAfterClose(actions: seq<Action>, open: seq<nat>, name: string)
    requires Nested(actions, open) && open != []
    ensures var b := open[|open| - 1];
            forall i: nat :: Closed(Close(actions, b, name), open[..|open| - 1], i) <==> Closed(actions, open, i) || i == b
  {
    forall i: nat
      ensures Closed(Close(actions, open[|open| - 1], name), open[..|open| - 1], i)
         <==> Closed(actions, open, i) || i == open[|open| - 1]
    {
      ClosedAfterClose(actions, open, name, i);
    }
  }

  lemma CloseKeepsOpen(actions: seq<Action>, open: seq<nat>, name: string)
    requires OpenIncreasing(actions, open) && open != []
    ensures OpenIncreasing(Close(actions, open[|open| - 1], name), open[..|open| - 1])
    ensures forall k :: 0 <= k < |open| - 1 ==> open[k] < open[|open| - 1]
  {
  }

  lemma CloseKeepsClosedPoint(actions: seq<Action>, open: seq<nat>, name: string)
    requires Nested(actions, open) && open != [] && actions[open[|open| - 1]].name == name
    ensures ClosedPoint(Close(actions, open[|open| - 1], name), open[..|open| - 1])
  {
    var b := open[|open| - 1];
    var after, waiting := Close(actions, b, name), open[..|open| - 1];
    assert after[b] == actions[b].(pos := |actions|) && after[|actions|] == Action(CloseBlock, name, b);
    forall i: nat | Closed(after, waiting, i)
      ensures PointsToClose(after, i)
    {
      ClosedAfterClose(actions, open, name, i);
      if i != b {
        assert PointsToClose(actions, i);
        assert after[i] == actions[i] && after[actions[i].pos] == actions[actions[i].pos];
      }
    }
  }

  lemma CloseKeepsClosesPoint(actions: seq<Action>, open: seq<nat>, name: string)
    requires Nested(actions, open) && open != [] && actions[open[|open| - 1]].name == name
    ensures ClosesPoint(Close(actions, open[|open| - 1], name), open[..|open| - 1])
  {
    var b := open[|open| - 1];
    var after, waiting := Close(actions, b, name), open[..|open| - 1];
    assert b in open;
    forall j: nat | IsClose(after, j)
      ensures Closed(after, waiting, after[j].pos) && after[after[j].pos].pos == j
    {
      assert j < |actions| ==> after[j] == actions[j] && IsClose(actions, j) && Closed(actions, open, actions[j].pos);
      ClosedAfterClose(actions, open, name, after[j].pos);
    }
  }

  lemma CloseKeepsNesting(actions: seq<Action>, open: seq<nat>, name: string)
    requires Nested(actions, open) && open != [] && actions[open[|open| - 1]].name == name
    ensures NoCrossing(Close(actions, open[|open| - 1], name), open[..|open| - 1])
  {
    var b := open[|open| - 1];
    var after, waiting := Close(actions, b, name), open[..|open| - 1];
    AllClosedAfterClose(actions, open, name);
    CloseKeepsOpen(actions, open, name);
    assert forall i: nat :: Closed(actions, open, i) ==> after[i] == actions[i] && actions[i].pos < |actions|;
    assert after[b].pos == |actions|;
  }

  /** Names of the blocks that are open after some tags; a close tag that fits no open block spoils it. */
  datatype OpenNames = Spoiled | Names(names: seq<string>)

  function NamesAfter(before: OpenNames, t: TagText): OpenNames {
    match before
    case Spoiled => Spoiled
    case Names(names) =>
      if t.kind == OpenBlock || t.kind == ElseBlock then Names(names + [t.name])
      else if t.kind != CloseBlock then Names(names)
      else if names == [] || names[|names| - 1] != t.name then Spoiled
      else Names(names[..|names| - 1])
  }

  function OpenAfter(tags: seq<TagText>): OpenNames {
    if tags == [] then Names([]) else NamesAfter(OpenAfter(tags[..|tags| - 1]), tags[|tags| - 1])
  }

  lemma {:induction false} SpoiledStays(tags: seq<TagText>, n: nat)
    requires n <= |tags| && OpenAfter(tags[..n]) == Spoiled
    ensures OpenAfter(tags) == Spoiled
    decreases |tags|
  {
    if n < |tags| {
      assert tags[..|tags| - 1][..n] == tags[..n];
      SpoiledStays(tags[..|tags| - 1], n);
    } else {
      assert tags[..n] == tags;
    }
  }

  /** The open blocks carry the open names. */
  ghost predicate NamesOf(actions: seq<Action>, open: seq<nat>, names: OpenNames) {
    && names.Names? && |names.names| == |open|
    && forall k :: 0 <= k < |open| ==> open[k] < |actions| && actions[open[k]].name == names.names[k]
  }

  datatype Result = Parsed(actions: seq<Action>, open: seq<nat>) | NotMatched | NothingToClose

  /** What one tag does to the actions and the open blocks. */
  function AddTag(actions: seq<Action>, open: seq<nat>, t: TagText): Result
    requires forall k :: 0 <= k < |open| ==> open[k] < |actions|
  {
    match t.kind
    case OpenBlock | ElseBlock => Parsed(actions + [Action(t.kind, t.name, 0)], open + [|actions|])
    case CloseBlock =>
      if open == [] then NothingToClose
      else if actions[open[|open| - 1]].name != t.name then NotMatched
      else Parsed(Close(actions, open[|open| - 1], t.name), open[..|open| - 1])
    case _ => Parsed(actions + [Action(t.kind, t.name, 0)], open)
  }

  lemma AddTagKeepsNested(actions: seq<Action>, open: seq<nat>, t: TagText)
    requires Nested(actions, open)
    ensures var r := AddTag(actions, open, t); r.Parsed? ==> Nested(r.actions, r.open)
  {
    match t.kind
    case OpenBlock | ElseBlock =>
      OpenKeepsPointers(actions, open, Action(t.kind, t.name, 0));
      OpenKeepsNesting(actions, open, Action(t.kind, t.name, 0));
    case CloseBlock =>
      if open != [] && actions[open[|open| - 1]].name == t.name {
        CloseKeepsOpen(actions, open, t.name);
        CloseKeepsClosedPoint(actions, open, t.name);
        CloseKeepsClosesPoint(actions, open, t.name);
        CloseKeepsNesting(actions, open, t.name);
      }
    case _ => AppendPlain(actions, open, Action(t.kind, t.name, 0));
  }

  lemma AddTagNames(actions: seq<Action>, open: seq<nat>, t: TagText, names: OpenNames)
    requires NamesOf(actions, open, names) && OpenIncreasing(actions, open)
    ensures var r := AddTag(actions, open, t);
            && (r.Parsed? <==> NamesAfter(names, t) != Spoiled)
            && (r.Parsed? ==> NamesOf(r.actions, r.open, NamesAfter(names, t)))
  {
  }

  /** The actions are the tags, one for one. */
  ghost predicate ActionsOf(actions: seq<Action>, tags: seq<TagText>) {
    |actions| == |tags| && forall k :: 0 <= k < |tags| ==> actions[k].kind == tags[k].kind && actions[k].name == tags[k].name
  }

  lemma AddTagAppends(actions: seq<Action>, open: seq<nat>, t: TagText, tags: seq<TagText>)
    requires ActionsOf(actions, tags) && forall k :: 0 <= k < |open| ==> open[k] < |actions|
    ensures var r := AddTag(actions, open, t); r.Parsed? ==> ActionsOf(r.actions, tags + [t])
  {
  }

  /**
   * The loop of parse over the tags. `NothingToClose` stands for a close tag without an open block,
   * for which the original reads the end of an empty vector.
   */
  method Parse(tags: seq<TagText>) returns (r: Result)
    ensures r.Parsed? <==> OpenAfter(tags) != Spoiled
    ensures r.Parsed? ==> Nested(r.actions, r.open) && NamesOf(r.actions, r.open, OpenAfter(tags))
    ensures r.Parsed? ==> ActionsOf(r.actions, tags + [TagText(Ignore, "")])
    ensures OpenAfter(tags) == Names([]) <==> r.Parsed? && r.open == []
    ensures OpenAfter(tags) == Names([]) ==> WellNested(r.actions)
  {
    var actions: seq<Action>, blockPositions: seq<nat> := [], [];
    for i := 0 to |tags|
      invariant Nested(actions, blockPositions) && ActionsOf(actions, tags[..i])
      invariant NamesOf(actions, blockPositions, OpenAfter(tags[..i]))
    {
      var t := tags[i];
      assert tags[..i + 1] == tags[..i] + [t] && tags[..i + 1][..i] == tags[..i];
      AddTagKeepsNested(actions, blockPositions, t);
      AddTagNames(actions, blockPositions, t, OpenAfter(tags[..i]));
      AddTagAppends(actions, blockPositions, t, tags[..i]);
      r := AddTag(actions, blockPositions, t);
      if !r.Parsed? {
        SpoiledStays(tags, i + 1);
        return;
      }
      actions, blockPositions := r.actions, r.open;
    }
    assert tags[..|tags|] == tags;
    var last := TagText(Ignore, "");
    AddTagKeepsNested(actions, blockPositions, last);
    AddTagNames(actions, blockPositions, last, OpenAfter(tags));
    AddTagAppends(actions, blockPositions, last, tags);
    r := AddTag(actions, blockPositions, last);
  }
}
