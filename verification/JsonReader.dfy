// Reading a parsed document: strings are unescaped in the shared buffer as they are asked for, one
// at a time and in any order, and the rest of the document keeps what it stands for.
module JsonReader {
  import opened Options
  import opened JsonText
  import opened JsonTree
  import opened JsonParser
  import JsonGrammar
  import opened JsonWriter

  ghost predicate AgreeOutside(a: string, b: string, lo: nat, hi: nat) {
    |a| == |b| && forall k :: 0 <= k < |a| && (k < lo || hi <= k) ==> a[k] == b[k]
  }

  /** What happens inside the window of one item leaves every other item as it was. */
  lemma ItemReplaced(a: string, b: string, r: RValue, v: Json, cuts: seq<nat>, lo: nat, hi: nat, k: nat, item: RValue)
    requires hi <= |a| && r.RList? && v.List? && ReadsItems(a, r, v, cuts, lo, hi) && k < |r.items|
    requires AgreeOutside(a, b, cuts[k], cuts[k + 1]) && Reads(b, item, v.items[k], cuts[k], cuts[k + 1])
    ensures ReadsItems(b, RList(r.items[k := item]), v, cuts, lo, hi)
  {
    forall i | 0 <= i < |r.items|
      ensures Reads(b, r.items[k := item][i], v.items[i], cuts[i], cuts[i + 1])
    {
      if i != k {
        assert if i < k then cuts[i + 1] <= cuts[k] else cuts[k + 1] <= cuts[i];
        ReadsSame(a, b, r.items[i], v.items[i], cuts[i], cuts[i + 1], cuts[i], cuts[i + 1]);
      }
    }
  }

  lemma FieldReplaced(a: string, b: string, r: RValue, v: Json, cuts: seq<nat>, lo: nat, hi: nat, k: nat, value: RValue)
    requires hi <= |a| && r.RObject? && v.Object? && ReadsFields(a, r, v, cuts, lo, hi) && k < |r.fields|
    requires AgreeOutside(a, b, r.fields[k].keyEnd, cuts[k + 1])
    requires Reads(b, value, v.fields[k].value, r.fields[k].keyEnd, cuts[k + 1])
    ensures ReadsFields(b, RObject(r.fields[k := r.fields[k].(value := value)]), v, cuts, lo, hi)
  {
    var fields := r.fields[k := r.fields[k].(value := value)];
    forall i | 0 <= i < |r.fields|
      ensures ReadsField(b, fields[i], v.fields[i], cuts[i], cuts[i + 1])
    {
      if i != k {
        assert if i < k then cuts[i + 1] <= cuts[k] else cuts[k + 1] <= cuts[i];
        ReadsFieldSame(a, b, r.fields[i], v.fields[i], cuts[i], cuts[i + 1], cuts[i], cuts[i + 1]);
      } else {
        assert ReadsField(a, r.fields[k], v.fields[k], cuts[k], cuts[k + 1]);
        assert b[fields[k].keyStart..fields[k].keyEnd] == a[fields[k].keyStart..fields[k].keyEnd];
      }
    }
  }

  // One string, anywhere in the document.

  /** The indices lead to a string. */
  predicate StringAt(r: RValue, path: seq<nat>)
    decreases r
  {
    match r
    case RString(_, _) => path == []
    case RList(items) => path != [] && path[0] < |items| && StringAt(items[path[0]], path[1..])
    case RObject(fields) => path != [] && path[0] < |fields| && StringAt(fields[path[0]].value, path[1..])
    case _ => false
  }

  function TextAt(v: Json, path: seq<nat>): Option<string>
    decreases v
  {
    match v
    case Str(s) => if path == [] then Some(s) else None
    case List(items) => if path != [] && path[0] < |items| then TextAt(items[path[0]], path[1..]) else None
    case Object(fields) => if path != [] && path[0] < |fields| then TextAt(fields[path[0]].value, path[1..]) else None
    case _ => None
  }

  /** s() of the string an index chain leads to; `after` is the tree with that string's new end. */
  method ReadString(buf: array<char>, r: RValue, path: seq<nat>, ghost v: Json, ghost lo: nat, ghost hi: nat)
    returns (s: string, after: RValue)
    requires hi <= buf.Length && Reads(buf[..], r, v, lo, hi) && StringAt(r, path)
    modifies buf
    ensures TextAt(v, path) == Some(s)
    ensures Reads(buf[..], after, v, lo, hi) && AgreeOutside(old(buf[..]), buf[..], lo, hi)
    decreases r
  {
    ghost var before := buf[..];
    match r
    case RString(start, end) =>
      var newEnd := Unescape(buf, start, end, v.s);
      s, after := buf[start..newEnd], RString(start, newEnd);
    case RList(items) =>
      ghost var cuts :| ReadsItems(before, r, v, cuts, lo, hi);
      var k := path[0];
      var item;
      s, item := ReadString(buf, items[k], path[1..], v.items[k], cuts[k], cuts[k + 1]);
      after := RList(items[k := item]);
      ItemReplaced(before, buf[..], r, v, cuts, lo, hi, k, item);
    case RObject(fields) =>
      ghost var cuts :| ReadsFields(before, r, v, cuts, lo, hi);
      var k := path[0];
      assert ReadsField(before, fields[k], v.fields[k], cuts[k], cuts[k + 1]);
      var f := fields[k];
      var value;
      s, value := ReadString(buf, f.value, path[1..], v.fields[k].value, f.keyEnd, cuts[k + 1]);
      after := RObject(fields[k := f.(value := value)]);
      FieldReplaced(before, buf[..], r, v, cuts, lo, hi, k, value);
  }

  // The whole document.

  /** wvalue(const rvalue&): the tree, with every string unescaped on the way. */
  method Written(buf: array<char>, r: RValue, ghost v: Json, ghost lo: nat, ghost hi: nat) returns (w: Json, after: RValue)
    requires hi <= buf.Length && Reads(buf[..], r, v, lo, hi)
    modifies buf
    ensures w == v
    ensures Reads(buf[..], after, v, lo, hi) && AgreeOutside(old(buf[..]), buf[..], lo, hi)
    decreases r, 1
  {
    after := r;
    match r
    case RNull => w := Null;
    case RFalse => w := False;
    case RTrue => w := True;
    case RNumber(start, end) => w := Number(buf[start..end]);
    case RString(start, end) =>
      var newEnd := Unescape(buf, start, end, v.s);
      w, after := Str(buf[start..newEnd]), RString(start, newEnd);
    case RList(_) => w, after := WrittenList(buf, r, v, lo, hi);
    case RObject(_) => w, after := WrittenObject(buf, r, v, lo, hi);
  }

  method WrittenList(buf: array<char>, r: RValue, ghost v: Json, ghost lo: nat, ghost hi: nat) returns (w: Json, after: RValue)
    requires hi <= buf.Length && r.RList? && Reads(buf[..], r, v, lo, hi)
    modifies buf
    ensures w == v
    ensures Reads(buf[..], after, v, lo, hi) && AgreeOutside(old(buf[..]), buf[..], lo, hi)
    decreases r, 0
  {
    ghost var cuts :| ReadsItems(buf[..], r, v, cuts, lo, hi);
    var l: seq<Json> := [];
    after := r;
    for k := 0 to |r.items|
      invariant after.RList? && |after.items| == |r.items| && (forall i :: k <= i < |r.items| ==> after.items[i] == r.items[i])
      invariant l == v.items[..k]
      invariant ReadsItems(buf[..], after, v, cuts, lo, hi) && AgreeOutside(old(buf[..]), buf[..], lo, hi)
    {
      ghost var before := buf[..];
      var x, item := Written(buf, r.items[k], v.items[k], cuts[k], cuts[k + 1]);
      ItemReplaced(before, buf[..], after, v, cuts, lo, hi, k, item);
      l, after := l + [x], RList(after.items[k := item]);
    }
    w := List(l);
  }

  method WrittenObject(buf: array<char>, r: RValue, ghost v: Json, ghost lo: nat, ghost hi: nat) returns (w: Json, after: RValue)
    requires hi <= buf.Length && r.RObject? && Reads(buf[..], r, v, lo, hi)
    modifies buf
    ensures w == v
    ensures Reads(buf[..], after, v, lo, hi) && AgreeOutside(old(buf[..]), buf[..], lo, hi)
    decreases r, 0
  {
    ghost var cuts :| ReadsFields(buf[..], r, v, cuts, lo, hi);
    var o: seq<Field> := [];
    after := r;
    for k := 0 to |r.fields|
      invariant after.RObject? && |after.fields| == |r.fields| && (forall i :: k <= i < |r.fields| ==> after.fields[i] == r.fields[i])
      invariant o == v.fields[..k]
      invariant ReadsFields(buf[..], after, v, cuts, lo, hi) && AgreeOutside(old(buf[..]), buf[..], lo, hi)
    {
      ghost var before := buf[..];
      var x, f := WrittenField(buf, r.fields[k], v.fields[k], cuts[k], cuts[k + 1]);
      FieldReplaced(before, buf[..], after, v, cuts, lo, hi, k, f.value);
      o, after := o + [x], RObject(after.fields[k := f]);
    }
    w := Object(o);
  }

  method WrittenField(buf: array<char>, f: RField, ghost field: Field, ghost lo: nat, ghost hi: nat)
    returns (w: Field, after: RField)
    requires hi <= buf.Length && ReadsField(buf[..], f, field, lo, hi)
    modifies buf
    ensures w == field && after == f.(value := after.value)
    ensures Reads(buf[..], after.value, field.value, f.keyEnd, hi) && AgreeOutside(old(buf[..]), buf[..], f.keyEnd, hi)
    decreases f
  {
    var key := buf[f.keyStart..f.keyEnd];
    var x, value := Written(buf, f.value, field.value, f.keyEnd, hi);
    w, after := Field(key, x), f.(value := value);
  }

  /** load: a copy of the text with a NUL behind it, parsed where it stands. */
  method Load(data: string) returns (buf: array<char>, r: RValue)
    ensures fresh(buf)
    ensures var v := JsonTree.Parse(data + [NUL]);
            if v.None? then r == Error else r != Error && Reads(buf[..], r, v.value, 0, buf.Length)
  {
    buf := new char[|data| + 1];
    for i := 0 to |data|
      invariant buf[..i] == data[..i]
    {
      buf[i] := data[i];
    }
    buf[|data|] := NUL;
    assert buf[..] == data + [NUL];
    var parser := new Parser(buf);
    r := parser.Parse();
    if r != Error {
      ReadsSame(buf[..], buf[..], r, JsonTree.Parse(data + [NUL]).value, 0, parser.at, 0, buf.Length);
    }
  }

  /** Any text, loaded and read out in the buffer. */
  method LoadWritten(data: string) returns (w: Option<Json>)
    ensures w == JsonTree.Parse(data + [NUL])
    ensures forall v :: w == Some(v) <==> JsonGrammar.DocumentText(data + [NUL], v) && Nesting(v) <= 5000
  {
    JsonGrammar.ParseAccepts(data + [NUL]);
    var buf, r := Load(data);
    if r == Error {
      return None;
    }
    ghost var v := JsonTree.Parse(data + [NUL]).value;
    var x, _ := Written(buf, r, v, 0, buf.Length);
    w := Some(x);
  }

  /** A tree printed, loaded again and read out in the buffer comes back if and only if it is nested at most 5000 deep. */
  method LoadDumped(v: Json) returns (w: Option<Json>)
    requires Printable(v)
    ensures w == if Nesting(v) <= 5000 then Some(v) else None
  {
    var text := DumpInternal(v, "");
    assert text == Dump(v);
    w := LoadWritten(text);
    DumpParseRoundTrip(v);
  }
}
