// What tags, blocks and names put into the text, said with literal texts and stack entries.
module MustacheText {
  import opened JsonTree
  import opened MustacheParse
  import opened MustacheTree
  import opened MustacheLookup

  // Escaped text.

  /** The eight entities: four by name, four by the decimal or hexadecimal code of the character. */
  predicate Entity(e: string, c: char) {
    || (e == "&amp;" && c == '&') || (e == "&lt;" && c == '<') || (e == "&gt;" && c == '>') || (e == "&quot;" && c == '\"')
    || (e == "&#39;" && c as int == 39) || (e == "&#x2F;" && c as int == 0x2F)
    || (e == "&#x60;" && c as int == 0x60) || (e == "&#x3D;" && c as int == 0x3D)
  }

  predicate IsSpecial(c: char) {
    c == '&' || c == '<' || c == '>' || c == '\"' || c == '\'' || c == '/' || c == '`' || c == '='
  }

  /** How one character is written: the special ones as entities, every other as it is. */
  predicate Written(e: string, c: char) {
    if IsSpecial(c) then Entity(e, c) else e == [c]
  }

  /** The text is `s`, character by character. */
  ghost predicate HtmlText(text: string, s: string)
    decreases |s|
  {
    if s == "" then text == "" else exists e: string, rest: string :: Writes(text, s, e, rest) && HtmlText(rest, s[1..])
  }

  predicate Writes(text: string, s: string, e: string, rest: string)
    requires s != ""
  {
    text == e + rest && Written(e, s[0])
  }

  lemma WritesInFront(text: string, s: string, e: string, rest: string, after: string, c: char)
    requires s != ""
    ensures (s + [c])[1..] == s[1..] + [c]
    ensures Writes(text, s, e, rest) ==> Writes(text + after, s + [c], e, rest + after)
  {
    assert (e + rest) + after == e + (rest + after);
  }

  lemma WritesLast(e: string, c: char)
    ensures Written(e, c) ==> Writes("" + e, "" + [c], e, "")
  {
  }

  lemma {:induction false} HtmlTextGrows(text: string, s: string, e: string, c: char)
    requires HtmlText(text, s) && Written(e, c)
    ensures HtmlText(text + e, s + [c])
    decreases |s|
  {
    if s == "" {
      WritesLast(e, c);
      assert HtmlText("", ("" + [c])[1..]);
    } else {
      var f, rest :| Writes(text, s, f, rest) && HtmlText(rest, s[1..]);
      HtmlTextGrows(rest, s[1..], e, c);
      WritesInFront(text, s, f, rest, e, c);
    }
  }

  lemma {:induction false} EscapeWrites(s: string)
    ensures HtmlText(HtmlEscape(s), s)
  {
    if s != "" {
      var before, last := s[..|s| - 1], s[|s| - 1];
      EscapeWrites(before);
      HtmlTextGrows(HtmlEscape(before), before, HtmlChar(last), last);
      assert before + [last] == s;
    }
  }

  /** No entity begins another, and none begins like a plain character. */
  lemma WrittenIsUnique(e: string, c: char, rest: string, f: string, d: char, more: string)
    requires Written(e, c) && Written(f, d) && e + rest == f + more
    ensures c == d && e == f && rest == more
  {
    var text := e + rest;
    assert text[0] == e[0] && text[0] == f[0];
    if IsSpecial(c) && IsSpecial(d) {
      assert |e| >= 4 && |f| >= 4;
      assert text[1] == e[1] == f[1] && text[2] == e[2] == f[2] && text[3] == e[3] == f[3];
      assert |e| >= 5 && |f| >= 5 ==> text[4] == e[4] == f[4];
    }
    assert rest == text[|e|..] && more == text[|f|..];
  }

  /** An escaped text decodes to one string only. */
  lemma {:induction false} HtmlTextIsUnique(text: string, s: string, t: string)
    requires HtmlText(text, s) && HtmlText(text, t)
    ensures s == t
    decreases |s|
  {
    if s != "" && t != "" {
      var e, rest :| Writes(text, s, e, rest) && HtmlText(rest, s[1..]);
      var f, more :| Writes(text, t, f, more) && HtmlText(more, t[1..]);
      WrittenIsUnique(e, s[0], rest, f, t[0], more);
      HtmlTextIsUnique(rest, s[1..], t[1..]);
      assert s == [s[0]] + s[1..] && t == [t[0]] + t[1..];
    }
  }

  /** An entity begins here. */
  ghost predicate EntityAt(text: string, at: nat) {
    exists e: string, c: char :: Entity(e, c) && at + |e| <= |text| && text[at..at + |e|] == e
  }

  /** Of the special characters an escaped text has the ampersand alone, and that only as the beginning of an entity. */
  ghost predicate IsSafe(text: string) {
    forall i: nat :: i < |text| && IsSpecial(text[i]) ==> text[i] == '&' && EntityAt(text, i)
  }

  lemma FirstIsEntity(e: string, c: char, rest: string)
    requires Written(e, c)
    ensures forall i: nat :: i < |e| && IsSpecial(e[i]) ==> e[i] == '&' && EntityAt(e + rest, i)
  {
    forall i: nat | i < |e| && IsSpecial(e[i])
      ensures e[i] == '&' && EntityAt(e + rest, i)
    {
      assert i == 0;
      assert Entity(e, c) && (e + rest)[0..0 + |e|] == e;
    }
  }

  lemma EntityBehind(e: string, rest: string, j: nat)
    ensures EntityAt(rest, j) ==> EntityAt(e + rest, |e| + j)
  {
    if EntityAt(rest, j) {
      var f, d :| Entity(f, d) && j + |f| <= |rest| && rest[j..j + |f|] == f;
      assert (e + rest)[|e| + j..|e| + j + |f|] == rest[j..j + |f|];
    }
  }

  lemma SafeGrows(e: string, rest: string)
    requires IsSafe(rest) && forall i: nat :: i < |e| && IsSpecial(e[i]) ==> e[i] == '&' && EntityAt(e + rest, i)
    ensures IsSafe(e + rest)
  {
    forall i: nat | i < |e + rest| && IsSpecial((e + rest)[i])
      ensures (e + rest)[i] == '&' && EntityAt(e + rest, i)
    {
      if i >= |e| {
        EntityBehind(e, rest, i - |e|);
      }
    }
  }

  lemma {:induction false} HtmlTextIsSafe(text: string, s: string)
    requires HtmlText(text, s)
    ensures IsSafe(text)
    decreases |s|
  {
    if s != "" {
      var e, rest :| Writes(text, s, e, rest) && HtmlText(rest, s[1..]);
      HtmlTextIsSafe(rest, s[1..]);
      FirstIsEntity(e, s[0], rest);
      SafeGrows(e, rest);
    }
  }

  /** What a tag puts behind the text in front of it. */
  lemma TagIsWritten(lk: Lookup, at: nat, before: string, kind: Kind, name: string, stack: seq<Json>)
    requires kind == Tag || kind == UnescapeTag
    ensures var value := lk.tag(at, name, stack).context;
            var outcome := RenderNode(lk, Plain(at, before, kind, name), stack);
            match value
            case Str(s) =>
              exists text: string :: outcome == Out(before + text) && (if kind == Tag then HtmlText(text, s) && IsSafe(text) else text == s)
            case True => outcome == Out(before + "true")
            case False => outcome == Out(before + "false")
            case Number(text) => outcome == Out(before + text)
            case _ => outcome == Thrown
  {
    match lk.tag(at, name, stack).context
    case Str(s) =>
      EscapeWrites(s);
      HtmlTextIsSafe(HtmlEscape(s), s);
      assert RenderNode(lk, Plain(at, before, kind, name), stack) == Out(before + (if kind == Tag then HtmlEscape(s) else s));
    case _ =>
  }

  // Blocks.

  /** What an inverted block waits for. */
  predicate IsFalsy(f: Found) {
    !f.found || f.context == Null || f.context == False || f.context == List([])
  }

  ghost predicate Joins(text: string, texts: seq<string>)
    decreases |texts|
  {
    if texts == [] then text == ""
    else exists rest: string :: text == texts[0] + rest && Joins(rest, texts[1..])
  }

  lemma {:induction false} JoinsGrow(text: string, texts: seq<string>, last: string)
    requires Joins(text, texts)
    ensures Joins(text + last, texts + [last])
    decreases |texts|
  {
    var longer := texts + [last];
    if texts == [] {
      assert longer[1..] == [] && text + last == longer[0] + "" && Joins("", longer[1..]);
    } else {
      var rest :| text == texts[0] + rest && Joins(rest, texts[1..]);
      JoinsGrow(rest, texts[1..], last);
      assert longer[1..] == texts[1..] + [last] && text + last == longer[0] + (rest + last);
    }
  }

  /** The nodes of a body from the k-th on, one behind the other. */
  lemma {:induction false} RestInOrder(lk: Lookup, n: Node, k: nat, stack: seq<Json>, texts: seq<string>)
    requires n.Block? && k <= |n.body| == |texts|
    requires forall i: nat :: i < |texts| ==> RenderNode(lk, n.body[i], stack) == Out(texts[i])
    ensures RenderFrom(lk, n, k, stack).Out? && Joins(RenderFrom(lk, n, k, stack).text, texts[k..])
    decreases |texts| - k
  {
    if k < |texts| {
      RestInOrder(lk, n, k + 1, stack, texts);
      JoinsFirst(RenderFrom(lk, n, k + 1, stack).text, texts, k);
    }
  }

  lemma JoinsFirst(rest: string, texts: seq<string>, k: nat)
    requires k < |texts| && Joins(rest, texts[k + 1..])
    ensures Joins(texts[k] + rest, texts[k..])
  {
    assert texts[k..][1..] == texts[k + 1..];
  }

  /** The inside of a block is its nodes in order, and the text in front of its close. */
  lemma InsideInOrder(lk: Lookup, n: Node, stack: seq<Json>, texts: seq<string>)
    requires n.Block? && |texts| == |n.body|
    requires forall i: nat :: i < |texts| ==> RenderNode(lk, n.body[i], stack) == Out(texts[i])
    ensures Inside(lk, n, stack).Out? && Joins(Inside(lk, n, stack).text, texts + [n.beforeClose])
  {
    RestInOrder(lk, n, 0, stack, texts);
    assert texts[0..] == texts;
    JoinsGrow(RenderFrom(lk, n, 0, stack).text, texts, n.beforeClose);
  }

  lemma {:induction false} ItemsInOrder(lk: Lookup, n: Node, items: seq<Json>, count: nat, stack: seq<Json>, texts: seq<string>)
    requires n.Block? && count == |texts| <= |items|
    requires forall i: nat :: i < count ==> Inside(lk, n, stack + [items[i]]) == Out(texts[i])
    ensures RenderItems(lk, n, items, count, stack).Out? && Joins(RenderItems(lk, n, items, count, stack).text, texts)
  {
    if count > 0 {
      var before, last := texts[..count - 1], texts[count - 1];
      ItemsInOrder(lk, n, items, count - 1, stack, before);
      JoinsGrow(RenderItems(lk, n, items, count - 1, stack).text, before, last);
      assert before + [last] == texts;
      assert Inside(lk, n, stack + [items[count - 1]]) == Out(last);
    }
  }

  /** A block whose context is falsy is left out and its inverse goes in, with null on the stack; otherwise the inverse is left out. */
  lemma BlockOrInverse(lk: Lookup, block: Node, inverse: Node, stack: seq<Json>)
    requires block.Block? && !block.inverted && inverse.Block? && inverse.inverted && inverse.name == block.name
    ensures var f := lk.block(block.name, stack);
            if IsFalsy(f) then
              && RenderNode(lk, block, stack) == Out(block.before)
              && RenderNode(lk, inverse, stack) == Then(Out(inverse.before), Inside(lk, inverse, stack + [Null]))
            else
              && RenderNode(lk, inverse, stack) == Out(inverse.before)
              && (!f.context.List? ==> RenderNode(lk, block, stack) == Then(Out(block.before), Inside(lk, block, stack + [f.context])))
  {
    var f := lk.block(block.name, stack);
    assert inverse.before + "" == inverse.before && block.before + "" == block.before;
    if f.found && f.context.List? && f.context.items == [] {
      assert RenderBlock(lk, block, stack) == RenderItems(lk, block, f.context.items, 0, stack) == Out("");
    }
  }

  /** A block over a list goes in once for each item, in order, with the item on the stack. */
  lemma BlockOverList(lk: Lookup, block: Node, items: seq<Json>, stack: seq<Json>, texts: seq<string>)
    requires block.Block? && !block.inverted && lk.block(block.name, stack) == Found(true, List(items)) && |texts| == |items|
    requires forall i: nat :: i < |items| ==> Inside(lk, block, stack + [items[i]]) == Out(texts[i])
    ensures var outcome := RenderNode(lk, block, stack);
            outcome.Out? && Joins(outcome.text, [block.before] + texts)
  {
    ItemsInOrder(lk, block, items, |items|, stack, texts);
    var inside := RenderItems(lk, block, items, |items|, stack).text;
    assert RenderBlock(lk, block, stack) == Out(inside) && ([block.before] + texts)[1..] == texts;
    assert RenderNode(lk, block, stack) == Out(block.before + inside);
  }

  // Names.

  function WithDots(parts: seq<string>): string
    requires parts != []
    decreases |parts|
  {
    if |parts| == 1 then parts[0] else parts[0] + "." + WithDots(parts[1..])
  }

  /** The parts of a dotted name: the name is the parts with dots between them, and no part has a dot. */
  predicate Dotted(name: string, parts: seq<string>) {
    parts != [] && name == WithDots(parts) && forall k: nat :: k < |parts| ==> '.' !in parts[k]
  }

  lemma {:induction false} DotIsNext(name: string, from: nat, dot: nat)
    requires from <= dot <= |name| && (dot < |name| ==> name[dot] == '.') && '.' !in name[from..dot]
    ensures NextDot(name, from) == dot
    decreases dot - from
  {
    if from < dot {
      assert name[from] == name[from..dot][0];
      assert name[from + 1..dot] == name[from..dot][1..];
      DotIsNext(name, from + 1, dot);
    }
  }

  lemma PartsStep(name: string, from: nat, dot: nat)
    requires from <= dot <= |name| && (dot < |name| ==> name[dot] == '.') && '.' !in name[from..dot]
    ensures Parts(name, from) == if dot == |name| then [name[from..]] else [name[from..dot]] + Parts(name, dot + 1)
  {
    DotIsNext(name, from, dot);
  }

  lemma SplitAtDot(text: string, first: string, rest: string)
    requires text == first + "." + rest
    ensures |first| < |text| && text[|first|] == '.' && text[..|first|] == first && text[|first| + 1..] == rest
  {
  }

  lemma FirstPart(name: string, from: nat, dot: nat, first: string, rest: string)
    requires from <= |name| && name[from..] == first + "." + rest && dot == from + |first|
    ensures dot < |name| && name[dot] == '.' && name[from..dot] == first && name[dot + 1..] == rest
  {
    var text := name[from..];
    SplitAtDot(text, first, rest);
    assert name[from..dot] == text[..|first|] && name[dot + 1..] == text[|first| + 1..];
  }

  lemma OnlyPart(name: string, from: nat)
    requires from <= |name| && '.' !in name[from..]
    ensures Parts(name, from) == [name[from..]]
  {
    assert name[from..|name|] == name[from..];
    PartsStep(name, from, |name|);
  }

  lemma OtherParts(name: string, parts: seq<string>)
    requires Dotted(name, parts) && |parts| > 1
    ensures name == parts[0] + "." + WithDots(parts[1..]) && '.' !in parts[0] && Dotted(WithDots(parts[1..]), parts[1..])
  {
  }

  /** A name has one way to be taken apart, and `Parts` finds it. */
  lemma {:induction false} DottedIsParts(name: string, from: nat, parts: seq<string>)
    requires from <= |name| && Dotted(name[from..], parts)
    ensures parts == Parts(name, from)
    decreases |parts|
  {
    if |parts| == 1 {
      OnlyPart(name, from);
      assert name[from..] == parts[0];
    } else {
      var dot := from + |parts[0]|;
      OtherParts(name[from..], parts);
      FirstPart(name, from, dot, parts[0], WithDots(parts[1..]));
      DottedIsParts(name, dot + 1, parts[1..]);
      PartsStep(name, from, dot);
      assert parts == [parts[0]] + parts[1..];
    }
  }

  predicate IsFirst(fields: seq<Field>, i: nat, field: Field) {
    i < |fields| && fields[i] == field && forall j: nat :: j < i ==> fields[j].key != field.key
  }

  /** The first field with the name; a map has only one. */
  ghost predicate HasField(view: Json, name: string, value: Json) {
    view.Object? && exists i: nat :: IsFirst(view.fields, i, Field(name, value))
  }

  lemma {:induction false} FieldIsFirst(fields: seq<Field>, name: string, value: Json)
    ensures HasField(Object(fields), name, value) <==> FieldOf(fields, name) == Found(true, value)
  {
    if fields != [] {
      var rest := fields[1..];
      FieldIsFirst(rest, name, value);
      if fields[0].key != name {
        var field := Field(name, value);
        forall i: nat | IsFirst(rest, i, field)
          ensures IsFirst(fields, i + 1, field)
        {
          assert forall j: nat :: 0 < j < i + 1 ==> fields[j] == rest[j - 1];
        }
        forall i: nat | IsFirst(fields, i, field)
          ensures i > 0 && IsFirst(rest, i - 1, field)
        {
          assert i > 0 && forall j: nat :: j < i - 1 ==> rest[j] == fields[j + 1];
        }
      } else {
        assert IsFirst(fields, 0, fields[0]);
        assert forall i: nat :: IsFirst(fields, i, Field(name, value)) ==> i == 0;
      }
    }
  }

  /** From member to member down the parts. */
  ghost predicate Reaches(view: Json, parts: seq<string>, value: Json) {
    if parts == [] then view == value
    else exists member: Json :: HasField(view, parts[0], member) && Reaches(member, parts[1..], value)
  }

  lemma {:induction false} DescendReaches(view: Json, parts: seq<string>, value: Json)
    ensures Reaches(view, parts, value) <==> Descend(view, parts) == Found(true, value)
    decreases |parts|
  {
    if parts != [] {
      if view.Object? {
        forall member: Json
          ensures HasField(view, parts[0], member) <==> MemberOf(view, parts[0]) == Found(true, member)
          ensures Reaches(member, parts[1..], value) <==> Descend(member, parts[1..]) == Found(true, value)
        {
          FieldIsFirst(view.fields, parts[0], member);
          DescendReaches(member, parts[1..], value);
        }
        var found := MemberOf(view, parts[0]);
        if found.found {
          assert HasField(view, parts[0], found.context);
        }
      }
    }
  }

  /** The value is reached from the k-th entry of the stack and nothing from those above it. */
  ghost predicate TopmostReaching(stack: seq<Json>, parts: seq<string>, k: nat, value: Json) {
    && k < |stack| && Reaches(stack[k], parts, value)
    && forall j: nat, other: Json :: k < j < |stack| ==> !Reaches(stack[j], parts, other)
  }

  /** Where a value may be reached from: a dotted name in an object's block is tried on the top entry alone. */
  predicate IsTried(stack: seq<Json>, parts: seq<string>, onlyFirst: bool, k: nat) {
    onlyFirst && |parts| > 1 ==> k == |stack| - 1
  }

  lemma TopEntry(stack: seq<Json>, below: seq<Json>, top: Json, parts: seq<string>, value: Json)
    requires stack == below + [top]
    ensures Descend(top, parts).found ==>
      forall k: nat :: TopmostReaching(stack, parts, k, value) <==> k == |below| && Descend(top, parts) == Found(true, value)
    ensures !Descend(top, parts).found ==>
      forall k: nat :: TopmostReaching(stack, parts, k, value) <==> TopmostReaching(below, parts, k, value)
  {
    forall other: Json
      ensures Reaches(top, parts, other) <==> Descend(top, parts) == Found(true, other)
    {
      DescendReaches(top, parts, other);
    }
    assert forall k: nat :: k < |below| ==> stack[k] == below[k];
    if Descend(top, parts).found {
      assert stack[|below|] == top && Reaches(stack[|below|], parts, Descend(top, parts).context);
    }
  }

  lemma {:induction false} SearchIsTopmost(stack: seq<Json>, parts: seq<string>, onlyFirst: bool, value: Json)
    ensures SearchStack(stack, parts, onlyFirst) == Found(true, value) <==>
      exists k: nat :: TopmostReaching(stack, parts, k, value) && IsTried(stack, parts, onlyFirst, k)
  {
    if stack != [] {
      var top, below := stack[|stack| - 1], stack[..|stack| - 1];
      TopEntry(stack, below, top, parts, value);
      SearchIsTopmost(below, parts, onlyFirst, value);
      if Descend(top, parts) == Found(true, value) {
        assert TopmostReaching(stack, parts, |below|, value) && IsTried(stack, parts, onlyFirst, |below|);
      } else if !Descend(top, parts).found && !(onlyFirst && |parts| > 1) {
        assert forall k: nat :: IsTried(stack, parts, onlyFirst, k) && IsTried(below, parts, onlyFirst, k);
        assert forall k: nat :: TopmostReaching(stack, parts, k, value) <==> TopmostReaching(below, parts, k, value);
      }
    }
  }

  /** find_context: the dot alone is the top entry, every other name is taken apart at its dots and searched from the top down. */
  lemma NameIsFound(name: string, parts: seq<string>, stack: seq<Json>, onlyFirst: bool, value: Json)
    requires Dotted(name, parts)
    ensures FindContext(name, stack, onlyFirst) == Found(true, value) <==>
      if name == "." then stack != [] && stack[|stack| - 1] == value
      else exists k: nat :: TopmostReaching(stack, parts, k, value) && IsTried(stack, parts, onlyFirst, k)
    ensures !FindContext(name, stack, onlyFirst).found ==> FindContext(name, stack, onlyFirst).context == Str("")
  {
    assert name[0..] == name;
    DottedIsParts(name, 0, parts);
    SearchIsTopmost(stack, parts, onlyFirst, value);
    NothingIsEmpty(stack, parts, onlyFirst);
  }

  lemma {:induction false} NothingIsEmpty(stack: seq<Json>, parts: seq<string>, onlyFirst: bool)
    ensures !SearchStack(stack, parts, onlyFirst).found ==> SearchStack(stack, parts, onlyFirst).context == Str("")
  {
    if stack != [] {
      NothingReached(stack[|stack| - 1], parts);
      NothingIsEmpty(stack[..|stack| - 1], parts, onlyFirst);
    }
  }

  lemma {:induction false} NothingReached(view: Json, parts: seq<string>)
    ensures !Descend(view, parts).found ==> Descend(view, parts).context == Str("")
    decreases |parts|
  {
    if parts != [] && MemberOf(view, parts[0]).found {
      NothingReached(MemberOf(view, parts[0]).context, parts[1..]);
    }
  }

  /** How many actions from `from` up to `to` are of the kind. */
  function Count(actions: seq<Action>, kind: Kind, from: nat, to: nat): nat
    requires from <= to <= |actions|
  {
    if from == to then 0 else (if actions[to - 1].kind == kind then 1 else 0) + Count(actions, kind, from, to - 1)
  }

  /** There is a block in front of the tag from where as many blocks are opened as closes passed; inverted blocks do not count, their closes do. */
  ghost predicate HasOpenBlock(actions: seq<Action>, i: nat, surplus: int)
    requires i <= |actions|
  {
    exists b: nat :: OpensSurplus(actions, b, i, surplus)
  }

  predicate OpensSurplus(actions: seq<Action>, b: nat, i: nat, surplus: int)
    requires i <= |actions|
  {
    b < i && actions[b].kind == OpenBlock
    && Count(actions, OpenBlock, b + 1, i) == Count(actions, CloseBlock, b + 1, i) + surplus
  }

  lemma {:induction false} ScanBack(actions: seq<Action>, i: nat, openedBlock: int, top: Json)
    requires i <= |actions|
    ensures InsideObjectBlock(actions, i, openedBlock, top) <==> top.Object? && HasOpenBlock(actions, i, openedBlock)
  {
    if i > 0 {
      var kind := actions[i - 1].kind;
      var next := if kind == OpenBlock then openedBlock - 1 else if kind == CloseBlock then openedBlock + 1 else openedBlock;
      ScanBack(actions, i - 1, next, top);
      forall b: nat | b < i - 1
        ensures OpensSurplus(actions, b, i, openedBlock) <==> OpensSurplus(actions, b, i - 1, next)
      {
        assert Count(actions, OpenBlock, b + 1, i) - Count(actions, CloseBlock, b + 1, i) - openedBlock
            == Count(actions, OpenBlock, b + 1, i - 1) - Count(actions, CloseBlock, b + 1, i - 1) - next;
      }
      assert OpensSurplus(actions, i - 1, i, openedBlock) <==> kind == OpenBlock && openedBlock == 0;
      if HasOpenBlock(actions, i - 1, next) {
        var b: nat :| OpensSurplus(actions, b, i - 1, next);
        assert OpensSurplus(actions, b, i, openedBlock);
      }
    }
  }

  /** When a tag's dotted name is tried on the top of the stack alone. */
  lemma TagIsLookedUp(actions: seq<Action>, current: nat, name: string, stack: seq<Json>)
    requires current <= |actions|
    ensures LookupIn(actions).tag(current, name, stack)
         == FindContext(name, stack, stack != [] && stack[|stack| - 1].Object? && HasOpenBlock(actions, current, 0))
    ensures LookupIn(actions).block(name, stack) == FindContext(name, stack, false)
  {
    if stack != [] {
      ScanBack(actions, current, 0, stack[|stack| - 1]);
    }
  }
}
