// find_context: how the names of tags and blocks are looked up in the context stack.
module MustacheLookup {
  import opened JsonTree
  import opened MustacheParse
  import opened MustacheTree
  import opened MustacheRender

  const NOT_FOUND := Found(false, Str(""))

  function FieldOf(fields: seq<Field>, name: string): Found {
    if fields == [] then NOT_FOUND
    else if fields[0].key == name then Found(true, fields[0].value)
    else FieldOf(fields[1..], name)
  }

  function MemberOf(view: Json, name: string): Found {
    if view.Object? then FieldOf(view.fields, name) else NOT_FOUND
  }

  function NextDot(name: string, from: nat): (dot: nat)
    requires from <= |name|
    ensures from <= dot <= |name| && (dot < |name| ==> name[dot] == '.')
    decreases |name| - from
  {
    if from < |name| && name[from] != '.' then NextDot(name, from + 1) else from
  }

  /** The parts of a dotted name from a position on. */
  function Parts(name: string, from: nat): (parts: seq<string>)
    requires from <= |name|
    ensures parts != []
    decreases |name| - from
  {
    var dot := NextDot(name, from);
    if dot == |name| then [name[from..]] else [name[from..dot]] + Parts(name, dot + 1)
  }

  /** Member of a member, part by part. */
  function Descend(view: Json, parts: seq<string>): Found
    decreases |parts|
  {
    if parts == [] then Found(true, view)
    else
      var member := MemberOf(view, parts[0]);
      if member.found then Descend(member.context, parts[1..]) else NOT_FOUND
  }

  /** From the top of the stack down; a dotted name may be tried on the top only. */
  function SearchStack(stack: seq<Json>, parts: seq<string>, onlyFirst: bool): Found {
    if stack == [] then NOT_FOUND
    else
      var here := Descend(stack[|stack| - 1], parts);
      if here.found || (onlyFirst && |parts| > 1) then here else SearchStack(stack[..|stack| - 1], parts, onlyFirst)
  }

  function FindContext(name: string, stack: seq<Json>, onlyFirst: bool): Found {
    if name == "." then if stack == [] then NOT_FOUND else Found(true, stack[|stack| - 1])
    else SearchStack(stack, Parts(name, 0), onlyFirst)
  }

  /** isTagInsideObjectBlock: the backward scan over the actions. */
  function InsideObjectBlock(actions: seq<Action>, i: nat, openedBlock: int, top: Json): bool {
    if i == 0 || i > |actions| then false
    else
      var kind := actions[i - 1].kind;
      if kind == OpenBlock then (openedBlock == 0 && top.Object?) || InsideObjectBlock(actions, i - 1, openedBlock - 1, top)
      else InsideObjectBlock(actions, i - 1, if kind == CloseBlock then openedBlock + 1 else openedBlock, top)
  }

  function TagContext(actions: seq<Action>, current: nat, name: string, stack: seq<Json>): Found {
    FindContext(name, stack, stack != [] && InsideObjectBlock(actions, current, 0, stack[|stack| - 1]))
  }

  function LookupIn(actions: seq<Action>): Lookup {
    Lookup((current: nat, name: string, stack: seq<Json>) => TagContext(actions, current, name, stack),
           (name: string, stack: seq<Json>) => FindContext(name, stack, false))
  }

  /** What is found is on the stack, or a member reached from something on it. */
  lemma {:induction false} SearchFindsOnStack(stack: seq<Json>, parts: seq<string>, onlyFirst: bool)
    ensures SearchStack(stack, parts, onlyFirst).found <==>
      exists i: nat :: i < |stack| && Descend(stack[i], parts).found && (onlyFirst && |parts| > 1 ==> i == |stack| - 1)
    ensures SearchStack(stack, parts, onlyFirst).found ==>
      exists i: nat :: i < |stack| && SearchStack(stack, parts, onlyFirst) == Descend(stack[i], parts)
        && forall j: nat :: i < j < |stack| ==> !Descend(stack[j], parts).found
  {
    if stack != [] {
      var top, below := |stack| - 1, stack[..|stack| - 1];
      SearchFindsOnStack(below, parts, onlyFirst);
      if !Descend(stack[top], parts).found && !(onlyFirst && |parts| > 1) {
        if SearchStack(below, parts, onlyFirst).found {
          var i: nat :| i < |below| && SearchStack(below, parts, onlyFirst) == Descend(below[i], parts)
            && forall j: nat :: i < j < |below| ==> !Descend(below[j], parts).found;
          assert stack[i] == below[i];
          forall j: nat | i < j < |stack|
            ensures !Descend(stack[j], parts).found
          {
            assert j == top || stack[j] == below[j];
          }
        }
      }
    }
  }

  /**
   * render_string for a template whose blocks close: the parsed actions are rendered as the tree they
   * form, with names looked up in the context stack. `fragments` are the texts in front of the tags and
   * behind the last one.
   */
  method RenderString(tags: seq<TagText>, fragments: seq<string>, context: Json)
    returns (actions: seq<Action>, ok: bool, text: string)
    requires OpenAfter(tags) == Names([]) && |fragments| == |tags| + 1
    ensures ActionsOf(actions, tags + [TagText(Ignore, "")])
    ensures RendersTree(actions, fragments, LookupIn(actions), context, ok, text)
  {
    var parsed := MustacheParse.Parse(tags);
    actions := parsed.actions;
    var stack;
    ok, text, stack := Render(actions, fragments, LookupIn(actions), context);
  }
}
