// The in-place JSON parser: values point into the buffer, whose quotes it overwrites and whose
// strings it unescapes where they stand.
module JsonParser {
  import opened Options
  import opened Texts
  import opened JsonText
  import opened JsonNumber
  import opened JsonTree
  import JsonGrammar

  /** A parsed value: offsets into the buffer instead of pointers. */
  datatype RValue =
    | Error | RNull | RFalse | RTrue
    | RNumber(start: nat, end: nat)
    | RString(start: nat, end: nat)
    | RList(items: seq<RValue>)
    | RObject(fields: seq<RField>)

  datatype RField = RField(keyStart: nat, keyEnd: nat, value: RValue)

  /** Borders of `n` windows that follow each other inside [lo, hi). */
  predicate Cuts(cuts: seq<nat>, n: nat, lo: nat, hi: nat) {
    && |cuts| == n + 1 && lo <= cuts[0] && cuts[n] <= hi
    && forall i, j :: 0 <= i <= j <= n ==> cuts[i] <= cuts[j]
  }

  /**
   * `r` stands for `v` in the buffer and points into [lo, hi) only. The items of a list and the fields
   * of an object stand in windows of their own, one behind the other. The byte in front of a string
   * says whether its text still has to be unescaped.
   */
  ghost predicate Reads(buf: string, r: RValue, v: Json, lo: nat, hi: nat)
    requires hi <= |buf|
    decreases r, 1
  {
    match r
    case Error => false
    case RNull => v == Null
    case RFalse => v == False
    case RTrue => v == True
    case RNumber(start, end) => lo <= start <= end <= hi && v == Number(buf[start..end])
    case RString(start, end) => lo < start <= end < hi && v.Str? && ReadsString(buf, start, end, v.s)
    case RList(_) => v.List? && exists cuts :: ReadsItems(buf, r, v, cuts, lo, hi)
    case RObject(_) => v.Object? && exists cuts :: ReadsFields(buf, r, v, cuts, lo, hi)
  }

  ghost predicate ReadsItems(buf: string, r: RValue, v: Json, cuts: seq<nat>, lo: nat, hi: nat)
    requires hi <= |buf| && r.RList? && v.List?
    decreases r, 0
  {
    && |r.items| == |v.items| && Cuts(cuts, |r.items|, lo, hi)
    && forall i :: 0 <= i < |r.items| ==> Reads(buf, r.items[i], v.items[i], cuts[i], cuts[i + 1])
  }

  ghost predicate ReadsFields(buf: string, r: RValue, v: Json, cuts: seq<nat>, lo: nat, hi: nat)
    requires hi <= |buf| && r.RObject? && v.Object?
    decreases r, 0
  {
    && |r.fields| == |v.fields| && Cuts(cuts, |r.fields|, lo, hi)
    && forall i :: 0 <= i < |r.fields| ==> ReadsField(buf, r.fields[i], v.fields[i], cuts[i], cuts[i + 1])
  }

  /** The value stands behind its key. */
  ghost predicate ReadsField(buf: string, f: RField, field: Field, lo: nat, hi: nat)
    requires hi <= |buf|
    decreases f, 0
  {
    && lo < f.keyStart <= f.keyEnd < hi && buf[f.keyStart..f.keyEnd] == field.key
    && Reads(buf, f.value, field.value, f.keyEnd, hi)
  }

  predicate ReadsString(buf: string, start: nat, end: nat, s: string)
    requires 0 < start <= end < |buf|
  {
    if buf[start - 1] == NUL then buf[start..end] == s
    else WellEscaped(buf[..end], start) && Unescaped(buf[..end], start) == s
  }

  predicate Agree(a: string, b: string, lo: nat, hi: nat) {
    |a| == |b| && hi <= |a| && forall k :: lo <= k < hi ==> a[k] == b[k]
  }

  lemma PieceSame(a: string, b: string, at: nat)
    requires at < |a| && Agree(a, b, at, |a|)
    ensures PieceLength(b, at) == PieceLength(a, at)
    ensures PieceLength(a, at) > 0 ==> PieceBytes(b, at) == PieceBytes(a, at)
  {
  }

  lemma {:induction false} UnescapedSame(a: string, b: string, at: nat)
    requires at <= |a| && Agree(a, b, at, |a|) && WellEscaped(a, at)
    ensures WellEscaped(b, at) && Unescaped(b, at) == Unescaped(a, at)
    decreases |a| - at
  {
    if at < |a| {
      PieceSame(a, b, at);
      UnescapedSame(a, b, at + PieceLength(a, at));
    }
  }

  lemma ReadsStringSame(a: string, b: string, start: nat, end: nat, s: string)
    requires 0 < start <= end < |a| && Agree(a, b, start - 1, end) && ReadsString(a, start, end, s)
    ensures ReadsString(b, start, end, s)
  {
    if a[start - 1] == NUL {
      assert b[start..end] == a[start..end];
    } else {
      UnescapedSame(a[..end], b[..end], start);
    }
  }

  /** A value only depends on the bytes of its own window. */
  lemma {:induction false} ReadsSame(a: string, b: string, r: RValue, v: Json, lo: nat, hi: nat, low: nat, high: nat)
    requires low <= lo && hi <= high <= |b| && Agree(a, b, lo, hi) && Reads(a, r, v, lo, hi)
    ensures Reads(b, r, v, low, high)
  {
    match r
    case Error | RNull | RFalse | RTrue =>
    case RNumber(start, end) => assert b[start..end] == a[start..end];
    case RString(start, end) => ReadsStringSame(a, b, start, end, v.s);
    case RList(items) =>
      var cuts :| ReadsItems(a, r, v, cuts, lo, hi);
      forall i | 0 <= i < |items|
        ensures Reads(b, items[i], v.items[i], cuts[i], cuts[i + 1])
      {
        ReadsSame(a, b, items[i], v.items[i], cuts[i], cuts[i + 1], cuts[i], cuts[i + 1]);
      }
      assert ReadsItems(b, r, v, cuts, low, high);
    case RObject(fields) =>
      var cuts :| ReadsFields(a, r, v, cuts, lo, hi);
      forall i | 0 <= i < |fields|
        ensures ReadsField(b, fields[i], v.fields[i], cuts[i], cuts[i + 1])
      {
        ReadsFieldSame(a, b, fields[i], v.fields[i], cuts[i], cuts[i + 1], cuts[i], cuts[i + 1]);
      }
      assert ReadsFields(b, r, v, cuts, low, high);
  }

  lemma {:induction false} ReadsFieldSame(a: string, b: string, f: RField, field: Field, lo: nat, hi: nat, low: nat, high: nat)
    requires low <= lo && hi <= high <= |b| && Agree(a, b, lo, hi) && ReadsField(a, f, field, lo, hi)
    ensures ReadsField(b, f, field, low, high)
  {
    assert b[f.keyStart..f.keyEnd] == a[f.keyStart..f.keyEnd];
    ReadsSame(a, b, f.value, field.value, f.keyEnd, hi, f.keyEnd, high);
  }

  /** What the list and object loops have read, in front of what is still to come. */
  function Prepend<T>(done: seq<T>, rest: Option<Parsed<seq<T>>>): Option<Parsed<seq<T>>> {
    match rest
    case None => None
    case Some(p) => Some(Parsed(p.next, done + p.value))
  }

  /** One character or escape, decoded: its length in the text and what it stands for. */
  method ReadPiece(buf: array<char>, head: nat, ghost raw: string) returns (n: nat, bytes: string)
    requires head < |raw| <= buf.Length && PieceLength(raw, head) > 0
    requires forall k :: head <= k < |raw| ==> buf[k] == raw[k]
    ensures n == PieceLength(raw, head) && bytes == PieceBytes(raw, head)
  {
    if buf[head] != BACKSLASH {
      return 1, [buf[head]];
    }
    if buf[head + 1] == 'u' {
      return 6, CodeBytes(Code(buf[..], head + 2));
    }
    return 2, [EscapedChar(buf[head + 1])];
  }

  /** `*tail++ = ...` for each of the bytes. */
  method Put(buf: array<char>, ghost start: nat, tail: nat, bytes: string)
    requires start <= tail && tail + |bytes| <= buf.Length
    modifies buf
    ensures buf[start..tail + |bytes|] == old(buf[start..tail]) + bytes
    ensures forall k :: 0 <= k < tail || tail + |bytes| <= k < buf.Length ==> buf[k] == old(buf[k])
  {
    for i := 0 to |bytes|
      invariant forall k :: 0 <= k < i ==> buf[tail + k] == bytes[k]
      invariant forall k :: 0 <= k < tail || tail + i <= k < buf.Length ==> buf[k] == old(buf[k])
    {
      buf[tail + i] := bytes[i];
    }
  }

  /**
   * rvalue::s(): unescapes a string in place, unless that was done before, and returns its end; a
   * second call changes nothing. The write position never passes the read position.
   */
  method Unescape(buf: array<char>, start: nat, end: nat, ghost s: string) returns (newEnd: nat)
    requires 0 < start <= end < buf.Length && ReadsString(buf[..], start, end, s)
    modifies buf
    ensures start <= newEnd <= end
    ensures buf[start..newEnd] == s && ReadsString(buf[..], start, newEnd, s)
    ensures buf[start - 1] == NUL
    ensures old(buf[start - 1]) == NUL ==> newEnd == end && buf[..] == old(buf[..])
    ensures forall k :: 0 <= k < start - 1 || end < k < buf.Length ==> buf[k] == old(buf[k])
  {
    if buf[start - 1] == NUL {
      return end;
    }
    newEnd := Rewrite(buf, start, end, s);
    buf[newEnd] := NUL;
    buf[start - 1] := NUL;
  }

  /** The loop of unescape: reads at `head`, writes at `tail`, which is never behind it. */
  method Rewrite(buf: array<char>, start: nat, end: nat, ghost s: string) returns (tail: nat)
    requires start <= end < buf.Length && WellEscaped(buf[..end], start) && Unescaped(buf[..end], start) == s
    modifies buf
    ensures start <= tail <= end && buf[start..tail] == s
    ensures forall k :: 0 <= k < start || end <= k < buf.Length ==> buf[k] == old(buf[k])
  {
    ghost var raw, done := buf[..end], "";
    var head := start;
    tail := start;
    while head != end
      invariant start <= tail <= head <= end && WellEscaped(raw, head)
      invariant forall k :: head <= k < end ==> buf[k] == raw[k]
      invariant buf[start..tail] == done && done + Unescaped(raw, head) == s
      invariant forall k :: 0 <= k < start || end <= k < buf.Length ==> buf[k] == old(buf[k])
      decreases end - head
    {
      var n, bytes := ReadPiece(buf, head, raw);
      Put(buf, start, tail, bytes);
      UnescapedStep(raw, head, done, s);
      done := done + bytes;
      tail := tail + |bytes|;
      head := head + n;
    }
    assert done == s;
  }

  lemma UnescapedStep(raw: string, head: nat, done: string, s: string)
    requires head < |raw| && WellEscaped(raw, head) && done + Unescaped(raw, head) == s
    ensures done + PieceBytes(raw, head) + Unescaped(raw, head + PieceLength(raw, head)) == s
  {
  }

  /** The parser: the buffer and the `data` pointer into it. */
  class Parser {
    const buf: array<char>
    var at: nat
    /** What the buffer held at first; from `at` on it still does. */
    ghost const text: string

    ghost predicate Valid()
      reads this, buf
    {
      Terminated(text) && buf.Length == |text| && at < |text| && forall k :: at <= k < |text| ==> buf[k] == text[k]
    }

    constructor (buf: array<char>)
      requires Terminated(buf[..])
      ensures Valid() && this.buf == buf && text == buf[..] && at == 0
    {
      this.buf := buf;
      at := 0;
      text := buf[..];
    }

    method WsSkip()
      requires Valid()
      modifies this
      ensures Valid() && at == SkipSpace(text, old(at))
    {
      while IsSpace(buf[at])
        invariant Valid() && SkipSpace(text, at) == SkipSpace(text, old(at))
        decreases |text| - at
      {
        at := at + 1;
      }
    }

    /** Moves to the closing quote of the string whose content starts here. */
    method FindQuote() returns (found: bool, escaping: bool)
      requires Valid()
      modifies this
      ensures Valid() && at >= old(at)
      ensures found == StringEnd(text, old(at)).Some?
      ensures found ==> StringEnd(text, old(at)) == Some(at)
      ensures found && !escaping ==> forall k :: old(at) <= k < at ==> text[k] != BACKSLASH
    {
      ghost var start := at;
      escaping := false;
      while buf[at] != QUOTE
        invariant Valid() && start <= at && StringEnd(text, at) == StringEnd(text, start)
        invariant !escaping ==> forall k :: start <= k < at ==> text[k] != BACKSLASH
        decreases |text| - at
      {
        if buf[at] == NUL {
          return false, escaping;
        }
        if buf[at] == BACKSLASH {
          escaping := true;
          var n := EscapeLength();
          if n == 0 {
            at := at + 1;
            return false, escaping;
          }
          at := at + n;
        } else {
          at := at + 1;
        }
      }
      found := true;
    }

    /** Length of the escape at a backslash, 0 if it is not one. */
    method EscapeLength() returns (n: nat)
      requires Valid() && buf[at] == BACKSLASH
      ensures n == PieceLength(text, at) && at + n < |text|
    {
      if buf[at + 1] == 'u' {
        var hex := IsHex(buf[at + 2]) && IsHex(buf[at + 3]) && IsHex(buf[at + 4]) && IsHex(buf[at + 5]);
        return if hex then 6 else 0;
      }
      return if IsEscape(buf[at + 1]) then 2 else 0;
    }

    /** Overwrites the closing quote with NUL and the opening quote with `has_escaping`. */
    method DecodeString() returns (r: RValue)
      requires Valid()
      modifies this, buf
      ensures Valid() && at >= old(at)
      ensures forall k :: 0 <= k < old(at) ==> buf[k] == old(buf[k])
      ensures var p := ParseString(text, old(at));
              if p.None? then r == Error
              else r.RString? && at == p.value.next && Reads(buf[..], r, Str(p.value.value), old(at), at)
    {
      if buf[at] != QUOTE {
        return Error;
      }
      at := at + 1;
      var start := at;
      var found, escaping := FindQuote();
      if !found {
        return Error;
      }
      buf[at] := NUL;
      buf[start - 1] := if escaping then 1 as char else NUL;
      at := at + 1;
      r := RString(start, at - 1);
      DecodedString(text, buf[..], start, at - 1, escaping);
    }

    /** What every decoder promises about one value. */
    ghost predicate Decoded(r: RValue, p: Option<Parsed<Json>>, from: nat)
      reads this, buf
      requires Valid()
    {
      if p.None? then r == Error else r != Error && at == p.value.next && Reads(buf[..], r, p.value.value, from, at)
    }

    method DecodeWord(word: string, v: Json, r: RValue) returns (read: RValue)
      requires Valid() && word != "" && forall c :: c in word ==> c != NUL
      requires r in {RNull, RFalse, RTrue} && Reads([], r, v, 0, 0)
      modifies this
      ensures Valid() && at >= old(at) && Decoded(read, ParseWord(text, old(at), word, v), old(at))
    {
      var i := 0;
      while i < |word| && buf[at + i] == word[i]
        invariant i <= |word| && at + i < |text|
        invariant StartsWith(text, at, word) <==> StartsWith(text, at + i, word[i..])
      {
        assert word[i] in word;
        i := i + 1;
      }
      if i < |word| {
        return Error;
      }
      at := at + |word|;
      read := r;
    }

    method DecodeValue(depth: nat) returns (r: RValue)
      requires Valid()
      modifies this, buf
      ensures Valid() && at >= old(at)
      ensures forall k :: 0 <= k < old(at) ==> buf[k] == old(buf[k])
      ensures Decoded(r, ParseValue(text, old(at), depth), old(at))
      decreases |text| - at, 1
    {
      match buf[at]
      case '[' => r := DecodeList(depth + 1);
      case '{' => r := DecodeObject(depth + 1);
      case '\"' => r := DecodeString();
      case 't' => r := DecodeWord("true", True, RTrue);
      case 'f' => r := DecodeWord("false", False, RFalse);
      case 'n' => r := DecodeWord("null", Null, RNull);
      case _ =>
        var end := DecodeNumber(buf, at, text);
        if end.None? {
          return Error;
        }
        r := RNumber(at, end.value);
        assert text[at..end.value] == buf[at..end.value];
        at := end.value;
    }

    method DecodeList(depth: nat) returns (r: RValue)
      requires Valid() && buf[at] == '['
      modifies this, buf
      ensures Valid() && at >= old(at)
      ensures forall k :: 0 <= k < old(at) ==> buf[k] == old(buf[k])
      ensures Decoded(r, ParseList(text, old(at), depth), old(at))
      decreases |text| - at, 0
    {
      ghost var from := at;
      at := at + 1;
      if depth > MAX_DEPTH {
        return Error;
      }
      WsSkip();
      if buf[at] == ']' {
        at := at + 1;
        NoItems(buf[..], from, at);
        return RList([]);
      }
      r := Items(depth, from);
    }

    /** The loop of decode_list, from the first item on. */
    method Items(depth: nat, ghost from: nat) returns (r: RValue)
      requires Valid() && from <= at
      modifies this, buf
      ensures Valid() && at >= old(at)
      ensures forall k :: 0 <= k < old(at) ==> buf[k] == old(buf[k])
      ensures var p := ParseItems(text, old(at), depth);
              if p.None? then r == Error else r.RList? && at == p.value.next && Reads(buf[..], r, List(p.value.value), from, at)
      decreases |text| - at, 3
    {
      ghost var first := at;
      var items: seq<RValue> := [];
      ghost var done: seq<Json> := [];
      NothingDone(ParseItems(text, first, depth));
      NoItems(buf[..], from, at);
      while true
        invariant Valid() && first <= at
        invariant forall k :: 0 <= k < first ==> buf[k] == old(buf[k])
        invariant Reads(buf[..], RList(items), List(done), from, at)
        invariant ParseItems(text, first, depth) == Prepend(done, ParseItems(text, at, depth))
        decreases |text| - at
      {
        var turn;
        turn, items, done := ListTurn(items, done, depth, from);
        if turn == Last {
          return RList(items);
        }
        if turn == Failed {
          return Error;
        }
      }
    }

    /** What stands behind an item: the closing bracket, a comma and more items, or an error. */
    method Delimiter(close: char) returns (turn: Turn)
      requires Valid() && close in "]}"
      modifies this
      ensures Valid() && at >= old(at)
      ensures DelimiterAt(text, old(at), close, turn, at)
    {
      WsSkip();
      if buf[at] == close {
        at := at + 1;
        return Last;
      }
      if buf[at] != ',' {
        return Failed;
      }
      at := at + 1;
      WsSkip();
      turn := More;
    }

    /** One round of the loop of decode_list. */
    method ListTurn(items: seq<RValue>, ghost done: seq<Json>, depth: nat, ghost from: nat)
      returns (turn: Turn, more: seq<RValue>, ghost now: seq<Json>)
      requires Valid() && from <= at && Reads(buf[..], RList(items), List(done), from, at)
      modifies this, buf
      ensures Valid() && at >= old(at) && (turn == More ==> at > old(at))
      ensures forall k :: 0 <= k < old(at) ==> buf[k] == old(buf[k])
      ensures turn != Failed ==> Reads(buf[..], RList(more), List(now), from, at)
      ensures Continues(Prepend(done, ParseItems(text, old(at), depth)), turn, at, now, ParseItems(text, at, depth))
      decreases |text| - at, 2
    {
      ghost var before, pos := buf[..], at;
      more, now := items, done;
      var v := DecodeValue(depth + 1);
      if v == Error {
        return Failed, items, done;
      }
      ghost var x, end := ParseValue(text, pos, depth + 1).value.value, at;
      more := items + [v];
      now := done + [x];
      turn := Delimiter(']');
      ItemsProgress(text, pos, depth, done, turn, at);
      ItemAppended(before, buf[..], items, done, v, x, from, pos, end, at);
    }

    method DecodeObject(depth: nat) returns (r: RValue)
      requires Valid() && buf[at] == '{'
      modifies this, buf
      ensures Valid() && at >= old(at)
      ensures forall k :: 0 <= k < old(at) ==> buf[k] == old(buf[k])
      ensures Decoded(r, ParseObject(text, old(at), depth), old(at))
      decreases |text| - at, 0
    {
      ghost var from := at;
      at := at + 1;
      if depth > MAX_DEPTH {
        return Error;
      }
      WsSkip();
      if buf[at] == '}' {
        at := at + 1;
        NoItems(buf[..], from, at);
        return RObject([]);
      }
      r := Fields(depth, from);
    }

    /** The loop of decode_object, from the first field on. */
    method Fields(depth: nat, ghost from: nat) returns (r: RValue)
      requires Valid() && from <= at
      modifies this, buf
      ensures Valid() && at >= old(at)
      ensures forall k :: 0 <= k < old(at) ==> buf[k] == old(buf[k])
      ensures var p := ParseFields(text, old(at), depth);
              if p.None? then r == Error else r.RObject? && at == p.value.next && Reads(buf[..], r, Object(p.value.value), from, at)
      decreases |text| - at, 4
    {
      ghost var first := at;
      var fields: seq<RField> := [];
      ghost var done: seq<Field> := [];
      NothingDone(ParseFields(text, first, depth));
      NoItems(buf[..], from, at);
      while true
        invariant Valid() && first <= at
        invariant forall k :: 0 <= k < first ==> buf[k] == old(buf[k])
        invariant Reads(buf[..], RObject(fields), Object(done), from, at)
        invariant ParseFields(text, first, depth) == Prepend(done, ParseFields(text, at, depth))
        decreases |text| - at
      {
        var turn;
        turn, fields, done := ObjectTurn(fields, done, depth, from);
        if turn == Last {
          return RObject(fields);
        }
        if turn == Failed {
          return Error;
        }
      }
    }

    /** One round of the loop of decode_object. */
    method ObjectTurn(fields: seq<RField>, ghost done: seq<Field>, depth: nat, ghost from: nat)
      returns (turn: Turn, more: seq<RField>, ghost now: seq<Field>)
      requires Valid() && from <= at && Reads(buf[..], RObject(fields), Object(done), from, at)
      modifies this, buf
      ensures Valid() && at >= old(at) && (turn == More ==> at > old(at))
      ensures forall k :: 0 <= k < old(at) ==> buf[k] == old(buf[k])
      ensures turn != Failed ==> Reads(buf[..], RObject(more), Object(now), from, at)
      ensures Continues(Prepend(done, ParseFields(text, old(at), depth)), turn, at, now, ParseFields(text, at, depth))
      decreases |text| - at, 3
    {
      ghost var before, pos := buf[..], at;
      more, now := fields, done;
      var ok, f := DecodeField(depth);
      if !ok {
        return Failed, fields, done;
      }
      ghost var x, end := ParseField(text, pos, depth).value.value, at;
      more := fields + [f];
      now := done + [x];
      turn := Delimiter('}');
      FieldsProgress(text, pos, depth, done, turn, at);
      FieldAppended(before, buf[..], fields, done, f, x, from, pos, end, at);
    }

    /** Key, colon and value; `t.s()` unescapes the key at once. */
    method DecodeField(depth: nat) returns (ok: bool, f: RField)
      requires Valid()
      modifies this, buf
      ensures Valid() && at >= old(at)
      ensures forall k :: 0 <= k < old(at) ==> buf[k] == old(buf[k])
      ensures ok == ParseField(text, old(at), depth).Some?
      ensures ok ==> at == ParseField(text, old(at), depth).value.next
                     && ReadsField(buf[..], f, ParseField(text, old(at), depth).value.value, old(at), at)
      decreases |text| - at, 2
    {
      ghost var from := at;
      var start, end;
      ok, start, end := DecodeKey();
      f := RField(start, end, Error);
      if !ok {
        return;
      }
      ghost var before, pos := buf[..], at;
      var v := DecodeValue(depth + 1);
      if v == Error {
        return false, f;
      }
      f := RField(start, end, v);
      FieldRead(before, buf[..], f, ParseField(text, from, depth).value.value, from, pos, at);
    }

    /** Key and colon; `t.s()` unescapes the key at once. */
    method DecodeKey() returns (ok: bool, start: nat, end: nat)
      requires Valid()
      modifies this, buf
      ensures Valid() && at >= old(at)
      ensures forall k :: 0 <= k < old(at) ==> buf[k] == old(buf[k])
      ensures var key := ParseString(text, old(at));
              && ok == (key.Some? && text[SkipSpace(text, key.value.next)] == ':')
              && (ok ==>
                    && at == SkipSpace(text, SkipSpace(text, key.value.next) + 1)
                    && old(at) < start <= end < at && buf[start..end] == key.value.value)
    {
      ghost var from := at;
      start, end := 0, 0;
      var t := DecodeString();
      if t == Error {
        return false, 0, 0;
      }
      WsSkip();
      if buf[at] != ':' {
        return false, 0, 0;
      }
      at := at + 1;
      start := t.start;
      end := Unescape(buf, start, t.end, ParseString(text, from).value.value);
      WsSkip();
      ok := true;
    }

    /** The whole document: read exactly when the text is one by the grammar, at most 5000 levels deep. */
    method Parse() returns (r: RValue)
      requires Valid() && at == 0
      modifies this, buf
      ensures Valid()
      ensures var v := JsonTree.Parse(text);
              if v.None? then r == Error else r != Error && Reads(buf[..], r, v.value, 0, at)
      ensures r != Error <==> exists v :: JsonGrammar.DocumentText(text, v) && Nesting(v) <= 5000
      ensures forall v :: JsonGrammar.DocumentText(text, v) && Nesting(v) <= 5000 ==> Reads(buf[..], r, v, 0, at)
    {
      JsonGrammar.ParseAccepts(text);
      WsSkip();
      ghost var first := at;
      r := DecodeValue(0);
      if r == Error {
        return;
      }
      ghost var before, end := buf[..], at;
      WsSkip();
      if buf[at] != NUL {
        return Error;
      }
      ReadsSame(before, buf[..], r, ParseValue(text, first, 0).value.value, first, end, 0, at);
    }
  }

  datatype Turn = More | Last | Failed

  lemma NothingDone<T>(p: Option<Parsed<seq<T>>>)
    ensures Prepend([], p) == p
  {
    if p.Some? {
      assert [] + p.value.value == p.value.value;
    }
  }

  /** What one round of a loop makes of the whole result: failed, finished, or the rest is still to come. */
  ghost predicate Continues<T(!new)>(whole: Option<Parsed<seq<T>>>, turn: Turn, at: nat, now: seq<T>, rest: Option<Parsed<seq<T>>>) {
    match turn
    case Failed => whole == None
    case Last => whole == Some(Parsed(at, now))
    case More => whole == Prepend(now, rest)
  }

  /** What stands behind an item, and where reading goes on. */
  ghost predicate DelimiterAt(text: string, end: nat, close: char, turn: Turn, at: nat)
    requires Terminated(text) && end < |text|
  {
    var behind := SkipSpace(text, end);
    if text[behind] == close then turn == Last && at == behind + 1
    else if text[behind] != ',' then turn == Failed
    else turn == More && at == SkipSpace(text, behind + 1)
  }

  lemma ItemsProgress(text: string, pos: nat, depth: nat, done: seq<Json>, turn: Turn, at: nat)
    requires Terminated(text) && pos < |text| && at < |text| && ParseValue(text, pos, depth + 1).Some?
    requires DelimiterAt(text, ParseValue(text, pos, depth + 1).value.next, ']', turn, at)
    ensures Continues(Prepend(done, ParseItems(text, pos, depth)), turn, at, done + [ParseValue(text, pos, depth + 1).value.value],
                      ParseItems(text, at, depth))
  {
    var x := ParseValue(text, pos, depth + 1).value.value;
    var rest := ParseItems(text, at, depth);
    if turn == More && rest.Some? {
      assert done + ([x] + rest.value.value) == done + [x] + rest.value.value;
    }
  }

  lemma FieldsProgress(text: string, pos: nat, depth: nat, done: seq<Field>, turn: Turn, at: nat)
    requires Terminated(text) && pos < |text| && at < |text| && ParseField(text, pos, depth).Some?
    requires DelimiterAt(text, ParseField(text, pos, depth).value.next, '}', turn, at)
    ensures Continues(Prepend(done, ParseFields(text, pos, depth)), turn, at, done + [ParseField(text, pos, depth).value.value],
                      ParseFields(text, at, depth))
  {
    var x := ParseField(text, pos, depth).value.value;
    var rest := ParseFields(text, at, depth);
    if turn == More && rest.Some? {
      assert done + ([x] + rest.value.value) == done + [x] + rest.value.value;
    }
  }

  lemma CutsGrow(cuts: seq<nat>, n: nat, lo: nat, hi: nat, end: nat)
    requires Cuts(cuts, n, lo, hi) && hi <= end
    ensures Cuts(cuts + [end], n + 1, lo, end)
  {
  }

  /** Earlier items survive the decoding of the next one, which stands behind them. */
  lemma ItemAppended(a: string, b: string, items: seq<RValue>, done: seq<Json>, v: RValue, x: Json, from: nat, pos: nat, end: nat, at: nat)
    requires from <= pos <= end <= at <= |b| && Agree(a, b, 0, pos)
    requires Reads(a, RList(items), List(done), from, pos) && Reads(b, v, x, pos, end)
    ensures Reads(b, RList(items + [v]), List(done + [x]), from, at)
  {
    ReadsSame(a, b, RList(items), List(done), from, pos, from, pos);
    var cuts :| ReadsItems(b, RList(items), List(done), cuts, from, pos);
    ReadsSame(b, b, v, x, pos, end, cuts[|items|], at);
    CutsGrow(cuts, |items|, from, pos, at);
    var longer, more, now := cuts + [at], items + [v], done + [x];
    forall i | 0 <= i < |more|
      ensures Reads(b, more[i], now[i], longer[i], longer[i + 1])
    {
      assert i < |items| ==> more[i] == items[i] && now[i] == done[i] && longer[i + 1] == cuts[i + 1];
    }
    assert ReadsItems(b, RList(more), List(now), longer, from, at);
  }

  lemma FieldRead(a: string, b: string, f: RField, field: Field, from: nat, pos: nat, at: nat)
    requires from <= pos <= at <= |b| && Agree(a, b, 0, pos)
    requires from < f.keyStart <= f.keyEnd < pos && a[f.keyStart..f.keyEnd] == field.key
    requires Reads(b, f.value, field.value, pos, at)
    ensures ReadsField(b, f, field, from, at)
  {
    assert b[f.keyStart..f.keyEnd] == a[f.keyStart..f.keyEnd];
    ReadsSame(b, b, f.value, field.value, pos, at, f.keyEnd, at);
  }

  lemma FieldAppended(a: string, b: string, fields: seq<RField>, done: seq<Field>, f: RField, x: Field, from: nat, pos: nat, end: nat, at: nat)
    requires from <= pos <= end <= at <= |b| && Agree(a, b, 0, pos)
    requires Reads(a, RObject(fields), Object(done), from, pos) && ReadsField(b, f, x, pos, end)
    ensures Reads(b, RObject(fields + [f]), Object(done + [x]), from, at)
  {
    ReadsSame(a, b, RObject(fields), Object(done), from, pos, from, pos);
    var cuts :| ReadsFields(b, RObject(fields), Object(done), cuts, from, pos);
    ReadsFieldSame(b, b, f, x, pos, end, cuts[|fields|], at);
    CutsGrow(cuts, |fields|, from, pos, at);
    var longer, more, now := cuts + [at], fields + [f], done + [x];
    forall i | 0 <= i < |more|
      ensures ReadsField(b, more[i], now[i], longer[i], longer[i + 1])
    {
      assert i < |fields| ==> more[i] == fields[i] && now[i] == done[i] && longer[i + 1] == cuts[i + 1];
    }
    assert ReadsFields(b, RObject(more), Object(now), longer, from, at);
  }

  lemma NoItems(buf: string, lo: nat, hi: nat)
    requires lo <= hi <= |buf|
    ensures Reads(buf, RList([]), List([]), lo, hi) && Reads(buf, RObject([]), Object([]), lo, hi)
  {
    assert ReadsItems(buf, RList([]), List([]), [lo], lo, hi);
    assert ReadsFields(buf, RObject([]), Object([]), [lo], lo, hi);
  }

  /** The string found by the scan reads back as its unescaped text once the quotes are overwritten. */
  lemma DecodedString(text: string, buf: string, start: nat, end: nat, escaping: bool)
    requires Terminated(text) && 0 < start <= end < |text| && |buf| == |text| && StringEnd(text, start) == Some(end)
    requires forall k :: start <= k < end ==> buf[k] == text[k]
    requires buf[start - 1] == if escaping then 1 as char else NUL
    requires !escaping ==> forall k :: start <= k < end ==> text[k] != BACKSLASH
    ensures WellEscaped(text[..end], start) && ReadsString(buf, start, end, Unescaped(text[..end], start))
  {
    StringEndWellEscaped(text, start);
    UnescapedSame(text[..end], buf[..end], start);
    if !escaping {
      PlainIsUnescaped(buf[..end], start);
      assert buf[..end][start..] == buf[start..end];
    }
  }
}
