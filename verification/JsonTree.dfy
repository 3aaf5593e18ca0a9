// JSON trees: printing, parsing, and the round trip between them. The parser is written as functions from a
// position to a value and the position behind it, or nothing; it counts its depth, two levels for each
// nesting. A printed value parses to itself wherever it stands in a text, unless it is nested too deeply.
module JsonTree {
  import opened Options
  import opened Texts
  import Decimal
  import opened JsonText
  import opened JsonNumber

  /** A number is kept as its text; the reader converts it on demand. */
  datatype Json =
    | Null | False | True
    | Number(text: string)
    | Str(s: string)
    | List(items: seq<Json>)
    | Object(fields: seq<Field>)

  datatype Field = Field(key: string, value: Json)

  // dump_internal

  function DumpString(s: string): string {
    [QUOTE] + Escape(s) + [QUOTE]
  }

  function Dump(v: Json): string
    decreases v, if v.List? then |v.items| + 1 else if v.Object? then |v.fields| + 1 else 0
  {
    match v
    case Null => "null"
    case False => "false"
    case True => "true"
    case Number(text) => text
    case Str(s) => DumpString(s)
    case List(items) => "[" + DumpItems(v, 0)
    case Object(fields) => "{" + DumpFields(v, 0)
  }

  /** Everything behind the opening bracket, from item `k` on. */
  function DumpItems(v: Json, k: nat): (out: string)
    requires v.List? && k <= |v.items|
    ensures out != ""
    decreases v, |v.items| - k
  {
    if k == |v.items| then "]"
    else if k == 0 then Dump(v.items[k]) + DumpItems(v, k + 1)
    else "," + (Dump(v.items[k]) + DumpItems(v, k + 1))
  }

  function DumpFields(v: Json, k: nat): (out: string)
    requires v.Object? && k <= |v.fields|
    ensures out != ""
    decreases v, |v.fields| - k
  {
    if k == |v.fields| then "}"
    else if k == 0 then DumpField(v, k) + DumpFields(v, k + 1)
    else "," + (DumpField(v, k) + DumpFields(v, k + 1))
  }

  function DumpField(v: Json, k: nat): string
    requires v.Object? && k < |v.fields|
    decreases v, 0
  {
    DumpString(v.fields[k].key) + (":" + Dump(v.fields[k].value))
  }

  // The parser

  const MAX_DEPTH := 10000

  datatype Parsed<T> = Parsed(next: nat, value: T)

  predicate IsSpace(c: char) {
    c == ' ' || c == '\t' || c == '\r' || c == '\n'
  }

  function SkipSpace(text: string, pos: nat): (next: nat)
    requires Terminated(text) && pos < |text|
    ensures pos <= next < |text| && !IsSpace(text[next])
    decreases |text| - pos
  {
    if IsSpace(text[pos]) then SkipSpace(text, pos + 1) else pos
  }

  /** decode_string: the unescaped content and the position behind the closing quote. */
  function ParseString(text: string, pos: nat): (r: Option<Parsed<string>>)
    requires Terminated(text) && pos < |text|
    ensures r.Some? ==> pos < r.value.next < |text|
  {
    if text[pos] != QUOTE then None
    else
      match StringEnd(text, pos + 1)
      case None => None
      case Some(end) =>
        StringEndWellEscaped(text, pos + 1);
        Some(Parsed(end + 1, Unescaped(text[..end], pos + 1)))
  }

  function ParseWord(text: string, pos: nat, word: string, v: Json): (r: Option<Parsed<Json>>)
    requires Terminated(text) && word != "" && forall c :: c in word ==> c != NUL
    ensures r.Some? ==> pos < r.value.next < |text|
  {
    if StartsWith(text, pos, word) then
      StartsWithAt(text, pos, word, |word| - 1);
      assert word[|word| - 1] in word;
      Some(Parsed(pos + |word|, v))
    else None
  }

  /** decode_value. */
  function ParseValue(text: string, pos: nat, depth: nat): (r: Option<Parsed<Json>>)
    requires Terminated(text) && pos < |text|
    ensures r.Some? ==> pos < r.value.next < |text|
    decreases |text| - pos, 1
  {
    match text[pos]
    case '[' => ParseList(text, pos, depth + 1)
    case '{' => ParseObject(text, pos, depth + 1)
    case '\"' =>
      (match ParseString(text, pos)
       case None => None
       case Some(s) => Some(Parsed(s.next, Str(s.value))))
    case 't' => ParseWord(text, pos, "true", True)
    case 'f' => ParseWord(text, pos, "false", False)
    case 'n' => ParseWord(text, pos, "null", Null)
    case _ =>
      match NumberEnd(text, pos, Minus)
      case None => None
      case Some(end) => Some(Parsed(end, Number(text[pos..end])))
  }

  function ParseList(text: string, pos: nat, depth: nat): (r: Option<Parsed<Json>>)
    requires Terminated(text) && pos < |text| && text[pos] == '['
    ensures r.Some? ==> pos < r.value.next < |text|
    decreases |text| - pos, 0
  {
    if depth > MAX_DEPTH then None
    else
      var first := SkipSpace(text, pos + 1);
      if text[first] == ']' then Some(Parsed(first + 1, List([])))
      else
        match ParseItems(text, first, depth)
        case None => None
        case Some(items) => Some(Parsed(items.next, List(items.value)))
  }

  /** The loop of decode_list, from the start of an item on. */
  function ParseItems(text: string, pos: nat, depth: nat): (r: Option<Parsed<seq<Json>>>)
    requires Terminated(text) && pos < |text|
    ensures r.Some? ==> pos < r.value.next < |text|
    decreases |text| - pos, 2
  {
    match ParseValue(text, pos, depth + 1)
    case None => None
    case Some(v) =>
      var behind := SkipSpace(text, v.next);
      if text[behind] == ']' then Some(Parsed(behind + 1, [v.value]))
      else if text[behind] != ',' then None
      else
        match ParseItems(text, SkipSpace(text, behind + 1), depth)
        case None => None
        case Some(rest) => Some(Parsed(rest.next, [v.value] + rest.value))
  }

  function ParseObject(text: string, pos: nat, depth: nat): (r: Option<Parsed<Json>>)
    requires Terminated(text) && pos < |text| && text[pos] == '{'
    ensures r.Some? ==> pos < r.value.next < |text|
    decreases |text| - pos, 0
  {
    if depth > MAX_DEPTH then None
    else
      var first := SkipSpace(text, pos + 1);
      if text[first] == '}' then Some(Parsed(first + 1, Object([])))
      else
        match ParseFields(text, first, depth)
        case None => None
        case Some(fields) => Some(Parsed(fields.next, Object(fields.value)))
  }

  /** One field: key, colon, value. */
  function ParseField(text: string, pos: nat, depth: nat): (r: Option<Parsed<Field>>)
    requires Terminated(text) && pos < |text|
    ensures r.Some? ==> pos < r.value.next < |text|
    decreases |text| - pos, 2
  {
    match ParseString(text, pos)
    case None => None
    case Some(key) =>
      var colon := SkipSpace(text, key.next);
      if text[colon] != ':' then None
      else
        match ParseValue(text, SkipSpace(text, colon + 1), depth + 1)
        case None => None
        case Some(v) => Some(Parsed(v.next, Field(key.value, v.value)))
  }

  /** The loop of decode_object, from the start of a field on. */
  function ParseFields(text: string, pos: nat, depth: nat): (r: Option<Parsed<seq<Field>>>)
    requires Terminated(text) && pos < |text|
    ensures r.Some? ==> pos < r.value.next < |text|
    decreases |text| - pos, 3
  {
    match ParseField(text, pos, depth)
    case None => None
    case Some(f) =>
      var behind := SkipSpace(text, f.next);
      if text[behind] == '}' then Some(Parsed(behind + 1, [f.value]))
      else if text[behind] != ',' then None
      else
        match ParseFields(text, SkipSpace(text, behind + 1), depth)
        case None => None
        case Some(rest) => Some(Parsed(rest.next, [f.value] + rest.value))
  }

  /** A whole document; what stands behind the first NUL is not looked at. */
  function Parse(text: string): Option<Json>
    requires Terminated(text)
  {
    match ParseValue(text, SkipSpace(text, 0), 0)
    case None => None
    case Some(v) => if text[SkipSpace(text, v.next)] == NUL then Some(v.value) else None
  }

  // The round trip

  /** Every number is the text of a 64-bit integer, signed or unsigned. */
  predicate Printable(v: Json) {
    match v
    case Number(text) => exists n: int :: -0x8000_0000_0000_0000 <= n < 0x1_0000_0000_0000_0000 && text == Decimal.Text(n)
    case List(items) => forall i :: 0 <= i < |items| ==> Printable(items[i])
    case Object(fields) => forall i :: 0 <= i < |fields| ==> Printable(fields[i].value)
    case _ => true
  }

  /** No container lies deeper than the parser goes. */
  predicate Fits(v: Json, depth: nat) {
    match v
    case List(items) => depth + 1 <= MAX_DEPTH && forall i :: 0 <= i < |items| ==> Fits(items[i], depth + 2)
    case Object(fields) => depth + 1 <= MAX_DEPTH && forall i :: 0 <= i < |fields| ==> Fits(fields[i].value, depth + 2)
    case _ => true
  }

  /** What may follow a value: anything a number would not swallow. */
  predicate Delimited(text: string, end: nat) {
    end < |text| && !IsNumberChar(text[end])
  }

  /** Parsing at a position gives a value that ends at a position, or fails. */
  predicate Yields<T(==)>(r: Option<Parsed<T>>, fits: bool, next: nat, value: T) {
    r == if fits then Some(Parsed(next, value)) else None
  }

  lemma RawRoundTrip(text: string, start: nat, s: string, raw: string)
    requires StartsWith(text, start, Escape(s)) && start + |Escape(s)| <= |text| && raw == text[..start + |Escape(s)|]
    ensures WellEscaped(raw, start) && Unescaped(raw, start) == s
  {
    StartsWithIsSlice(text, start, Escape(s));
    assert raw[start..start + |Escape(s)|] == text[start..start + |Escape(s)|];
    StartsWithIsSlice(raw, start, Escape(s));
    UnescapeEscape(raw, start, s);
  }

  lemma StringLayout(text: string, pos: nat, s: string)
    requires StartsWith(text, pos, DumpString(s))
    ensures pos < |text| && text[pos] == QUOTE
    ensures StartsWith(text, pos + 1, Escape(s)) && StartsWith(text, pos + 1, Escape(s) + [QUOTE])
  {
    assert DumpString(s) == [QUOTE] + (Escape(s) + [QUOTE]);
    StartsWithParts(text, pos, [QUOTE], Escape(s) + [QUOTE]);
    StartsWithAt(text, pos, [QUOTE], 0);
    StartsWithParts(text, pos + 1, Escape(s), [QUOTE]);
  }

  lemma ParseStringTo(text: string, pos: nat, start: nat, end: nat, raw: string, s: string)
    requires Terminated(text) && start == pos + 1 < |text| && text[pos] == QUOTE && StringEnd(text, start) == Some(end)
    requires raw == text[..end]
    ensures WellEscaped(raw, start) && Unescaped(raw, start) == s ==> Yields(ParseString(text, pos), true, end + 1, s)
  {
  }

  lemma StringRoundTrip(text: string, pos: nat, s: string)
    requires Terminated(text) && StartsWith(text, pos, DumpString(s)) && pos + |DumpString(s)| < |text|
    ensures Yields(ParseString(text, pos), true, pos + |DumpString(s)|, s)
  {
    StringLayout(text, pos, s);
    StringEndOfEscaped(text, pos + 1, s);
    var end := pos + 1 + |Escape(s)|;
    var raw := text[..end];
    RawRoundTrip(text, pos + 1, s, raw);
    ParseStringTo(text, pos, pos + 1, end, raw, s);
  }

  lemma ParseValueAtQuote(text: string, pos: nat, depth: nat)
    requires Terminated(text) && pos < |text| && text[pos] == QUOTE && ParseString(text, pos).Some?
    ensures var s := ParseString(text, pos).value;
            ParseValue(text, pos, depth) == Some(Parsed(s.next, Str(s.value)))
  {
  }

  lemma ParseValueAtNumber(text: string, pos: nat, depth: nat)
    requires Terminated(text) && pos < |text| && (text[pos] == '-' || Decimal.IsDigit(text[pos]))
    requires NumberEnd(text, pos, Minus).Some?
    ensures var end := NumberEnd(text, pos, Minus).value;
            ParseValue(text, pos, depth) == Some(Parsed(end, Number(text[pos..end])))
  {
  }

  /** At an opening bracket: too deep, empty, or the loop over the items. */
  lemma ParseValueAtBracket(text: string, pos: nat, depth: nat)
    requires Terminated(text) && pos + 1 < |text| && text[pos] == '[' && !IsSpace(text[pos + 1])
    ensures ParseValue(text, pos, depth)
         == if depth + 1 > MAX_DEPTH then None
            else if text[pos + 1] == ']' then Some(Parsed(pos + 2, List([])))
            else
              match ParseItems(text, pos + 1, depth + 1)
              case None => None
              case Some(items) => Some(Parsed(items.next, List(items.value)))
  {
    NoSpace(text, pos + 1);
  }

  lemma ParseValueAtBrace(text: string, pos: nat, depth: nat)
    requires Terminated(text) && pos + 1 < |text| && text[pos] == '{' && !IsSpace(text[pos + 1])
    ensures ParseValue(text, pos, depth)
         == if depth + 1 > MAX_DEPTH then None
            else if text[pos + 1] == '}' then Some(Parsed(pos + 2, Object([])))
            else
              match ParseFields(text, pos + 1, depth + 1)
              case None => None
              case Some(fields) => Some(Parsed(fields.next, Object(fields.value)))
  {
    NoSpace(text, pos + 1);
  }

  lemma NumberRoundTrip(text: string, pos: nat, number: string, depth: nat)
    requires Terminated(text) && Printable(Number(number)) && StartsWith(text, pos, number)
    requires Delimited(text, pos + |number|)
    ensures Yields(ParseValue(text, pos, depth), true, pos + |number|, Number(number))
  {
    var n :| number == Decimal.Text(n);
    IntegerIsScanned(text, pos, n);
    StartsWithIsSlice(text, pos, number);
    StartsWithAt(text, pos, number, 0);
    assert number[0] == '-' || Decimal.IsDigit(number[0]);
    ParseValueAtNumber(text, pos, depth);
  }

  lemma NoSpace(text: string, pos: nat)
    requires Terminated(text) && pos < |text| && !IsSpace(text[pos])
    ensures SkipSpace(text, pos) == pos
  {
  }

  /** A printed value does not begin with a space, a closing bracket or a comma. */
  lemma DumpStarts(v: Json)
    requires Printable(v)
    ensures Dump(v) != "" && !IsSpace(Dump(v)[0]) && Dump(v)[0] != ']' && Dump(v)[0] != '}'
  {
    if v.Number? {
      var n :| v.text == Decimal.Text(n);
      assert v.text[0] == '-' || Decimal.IsDigit(v.text[0]);
    }
  }

  lemma ScalarRoundTrip(text: string, pos: nat, v: Json, depth: nat)
    requires Terminated(text) && Printable(v) && !v.List? && !v.Object?
    requires StartsWith(text, pos, Dump(v)) && Delimited(text, pos + |Dump(v)|)
    ensures Yields(ParseValue(text, pos, depth), true, pos + |Dump(v)|, v)
  {
    match v
    case Number(number) => NumberRoundTrip(text, pos, number, depth);
    case Str(s) =>
      StartsWithAt(text, pos, Dump(v), 0);
      StringRoundTrip(text, pos, s);
      ParseValueAtQuote(text, pos, depth);
    case Null | False | True => StartsWithAt(text, pos, Dump(v), 0);
  }

  /** Parsing a printed value gives it back, or fails exactly when it is nested too deeply. */
  lemma {:induction false} ValueRoundTrip(text: string, pos: nat, v: Json, depth: nat)
    requires Terminated(text) && Printable(v)
    requires StartsWith(text, pos, Dump(v)) && Delimited(text, pos + |Dump(v)|)
    ensures Yields(ParseValue(text, pos, depth), Fits(v, depth), pos + |Dump(v)|, v)
    decreases v, 1, 0
  {
    if v.List? {
      ListRoundTrip(text, pos, v, depth, pos + |Dump(v)|);
    } else if v.Object? {
      ObjectRoundTrip(text, pos, v, depth, pos + |Dump(v)|);
    } else {
      ScalarRoundTrip(text, pos, v, depth);
    }
  }

  lemma {:induction false} ListRoundTrip(text: string, pos: nat, v: Json, depth: nat, end: nat)
    requires Terminated(text) && v.List? && Printable(v)
    requires StartsWith(text, pos, Dump(v)) && end == pos + |Dump(v)| < |text|
    ensures Yields(ParseValue(text, pos, depth), Fits(v, depth), end, v)
    decreases v, 0, |v.items| + 1
  {
    ListLayout(text, pos, v);
    ListFits(v, depth);
    if v.items == [] {
      ParseValueAtBracket(text, pos, depth);
    } else {
      ItemsRoundTrip(text, pos + 1, v, 0, depth + 1, end);
      ListRound(text, pos, depth, end, ItemsFit(v, 0, depth + 2), v);
    }
  }

  lemma ListLayout(text: string, pos: nat, v: Json)
    requires v.List? && Printable(v) && StartsWith(text, pos, Dump(v))
    ensures pos + 1 < |text| && text[pos] == '[' && !IsSpace(text[pos + 1])
    ensures if v.items == [] then text[pos + 1] == ']' && |Dump(v)| == 2
            else text[pos + 1] != ']' && StartsWith(text, pos + 1, ItemsText(v, 0)) && |Dump(v)| == 1 + |ItemsText(v, 0)|
  {
    StartsWithAt(text, pos, Dump(v), 0);
    StartsWithParts(text, pos, "[", DumpItems(v, 0));
    StartsWithAt(text, pos + 1, DumpItems(v, 0), 0);
    if v.items != [] {
      DumpStarts(v.items[0]);
    }
  }

  lemma ListFits(v: Json, depth: nat)
    requires v.List?
    ensures Fits(v, depth) <==> depth + 1 <= MAX_DEPTH && ItemsFit(v, 0, depth + 2)
  {
    ItemsFitIffAll(v, 0, depth + 2);
  }

  /** A list around the items. */
  lemma ListRound(text: string, pos: nat, depth: nat, end: nat, fits: bool, v: Json)
    requires Terminated(text) && pos + 1 < |text| && text[pos] == '[' && text[pos + 1] != ']' && !IsSpace(text[pos + 1])
    requires v.List?
    ensures Yields(ParseItems(text, pos + 1, depth + 1), fits, end, v.items[0..]) ==>
      Yields(ParseValue(text, pos, depth), depth + 1 <= MAX_DEPTH && fits, end, v)
  {
    ParseValueAtBracket(text, pos, depth);
    assert v.items[0..] == v.items;
  }

  /** The text of the items from `k` on, without the comma in front. */
  function ItemsText(v: Json, k: nat): string
    requires v.List? && k < |v.items|
  {
    Dump(v.items[k]) + DumpItems(v, k + 1)
  }

  /** Where things stand in the text of the items from `k` on. */
  lemma ItemsLayout(text: string, pos: nat, v: Json, k: nat)
    requires v.List? && k < |v.items| && StartsWith(text, pos, ItemsText(v, k))
    ensures var behind := pos + |Dump(v.items[k])|;
            && StartsWith(text, pos, Dump(v.items[k])) && behind < |text|
            && if k + 1 == |v.items| then
                 text[behind] == ']' && behind + 1 == pos + |ItemsText(v, k)|
               else
                 && text[behind] == ',' && StartsWith(text, behind + 1, ItemsText(v, k + 1))
                 && behind + 1 + |ItemsText(v, k + 1)| == pos + |ItemsText(v, k)|
  {
    var behind := pos + |Dump(v.items[k])|;
    StartsWithParts(text, pos, Dump(v.items[k]), DumpItems(v, k + 1));
    StartsWithAt(text, behind, DumpItems(v, k + 1), 0);
    if k + 1 < |v.items| {
      StartsWithParts(text, behind, ",", ItemsText(v, k + 1));
    }
  }

  /** One round of the list loop when no space stands behind the item and the comma. */
  lemma ItemsRound(text: string, pos: nat, depth: nat, behind: nat, end: nat, first: bool, others: bool, x: Json, rest: seq<Json>)
    requires Terminated(text) && pos < |text| && behind < |text|
    requires Yields(ParseValue(text, pos, depth + 1), first, behind, x)
    requires if text[behind] == ']' then others && rest == [] && end == behind + 1
             else
               && text[behind] == ',' && behind + 1 < |text| && !IsSpace(text[behind + 1])
               && Yields(ParseItems(text, behind + 1, depth), others, end, rest)
    ensures Yields(ParseItems(text, pos, depth), first && others, end, [x] + rest)
  {
    NoSpace(text, behind);
    if text[behind] == ',' {
      NoSpace(text, behind + 1);
    } else {
      assert [x] + rest == [x];
    }
  }

  lemma {:induction false} ItemsRoundTrip(text: string, pos: nat, v: Json, k: nat, depth: nat, end: nat)
    requires Terminated(text) && v.List? && Printable(v) && k < |v.items|
    requires StartsWith(text, pos, ItemsText(v, k)) && end == pos + |ItemsText(v, k)| < |text|
    ensures Yields(ParseItems(text, pos, depth), ItemsFit(v, k, depth + 1), end, v.items[k..])
    decreases v, 0, |v.items| - k
  {
    var x := v.items[k];
    var behind := pos + |Dump(x)|;
    ItemsLayout(text, pos, v, k);
    ValueRoundTrip(text, pos, x, depth + 1);
    if k + 1 < |v.items| {
      DumpStarts(v.items[k + 1]);
      StartsWithAt(text, behind + 1, ItemsText(v, k + 1), 0);
      ItemsRoundTrip(text, behind + 1, v, k + 1, depth, end);
    }
    ItemsRound(text, pos, depth, behind, end,
               Fits(x, depth + 1), ItemsFit(v, k + 1, depth + 1), x, v.items[k + 1..]);
    ItemsFrom(v.items, k);
  }

  lemma ItemsFrom<T>(s: seq<T>, k: nat)
    requires k < |s|
    ensures s[k..] == [s[k]] + s[k + 1..]
    ensures k + 1 == |s| ==> s[k..] == [s[k]]
  {
  }

  predicate ItemsFit(v: Json, k: nat, depth: nat)
    requires v.List? && k <= |v.items|
    decreases |v.items| - k
  {
    k == |v.items| || (Fits(v.items[k], depth) && ItemsFit(v, k + 1, depth))
  }

  lemma {:induction false} ItemsFitIffAll(v: Json, k: nat, depth: nat)
    requires v.List? && k <= |v.items|
    ensures ItemsFit(v, k, depth) <==> forall i :: k <= i < |v.items| ==> Fits(v.items[i], depth)
    decreases |v.items| - k
  {
    if k < |v.items| {
      ItemsFitIffAll(v, k + 1, depth);
    }
  }

  lemma {:induction false} ObjectRoundTrip(text: string, pos: nat, v: Json, depth: nat, end: nat)
    requires Terminated(text) && v.Object? && Printable(v)
    requires StartsWith(text, pos, Dump(v)) && end == pos + |Dump(v)| < |text|
    ensures Yields(ParseValue(text, pos, depth), Fits(v, depth), end, v)
    decreases v, 0, |v.fields| + 2
  {
    ObjectLayout(text, pos, v);
    ObjectFits(v, depth);
    if v.fields == [] {
      ParseValueAtBrace(text, pos, depth);
    } else {
      FieldsRoundTrip(text, pos + 1, v, 0, depth + 1, end);
      ObjectRound(text, pos, depth, end, FieldsFit(v, 0, depth + 2), v);
    }
  }

  lemma ObjectFits(v: Json, depth: nat)
    requires v.Object?
    ensures Fits(v, depth) <==> depth + 1 <= MAX_DEPTH && FieldsFit(v, 0, depth + 2)
  {
    FieldsFitIffAll(v, 0, depth + 2);
  }

  /** An object around the fields. */
  lemma ObjectRound(text: string, pos: nat, depth: nat, end: nat, fits: bool, v: Json)
    requires Terminated(text) && pos + 1 < |text| && text[pos] == '{' && text[pos + 1] == QUOTE
    requires v.Object?
    ensures Yields(ParseFields(text, pos + 1, depth + 1), fits, end, v.fields[0..]) ==>
      Yields(ParseValue(text, pos, depth), depth + 1 <= MAX_DEPTH && fits, end, v)
  {
    ParseValueAtBrace(text, pos, depth);
    assert v.fields[0..] == v.fields;
  }

  lemma ObjectLayout(text: string, pos: nat, v: Json)
    requires v.Object? && StartsWith(text, pos, Dump(v))
    ensures pos + 1 < |text| && text[pos] == '{' && !IsSpace(text[pos + 1])
    ensures if v.fields == [] then text[pos + 1] == '}' && |Dump(v)| == 2
            else text[pos + 1] == QUOTE && StartsWith(text, pos + 1, FieldsText(v, 0)) && |Dump(v)| == 1 + |FieldsText(v, 0)|
  {
    StartsWithAt(text, pos, Dump(v), 0);
    StartsWithParts(text, pos, "{", DumpFields(v, 0));
    StartsWithAt(text, pos + 1, DumpFields(v, 0), 0);
    if v.fields != [] {
      FieldsTextStarts(v, 0);
    }
  }

  function FieldsText(v: Json, k: nat): string
    requires v.Object? && k < |v.fields|
  {
    DumpField(v, k) + DumpFields(v, k + 1)
  }

  lemma FieldsTextStarts(v: Json, k: nat)
    requires v.Object? && k < |v.fields|
    ensures FieldsText(v, k) != "" && FieldsText(v, k)[0] == QUOTE
  {
    assert DumpField(v, k)[0] == QUOTE;
  }

  lemma FieldLayout(text: string, pos: nat, v: Json, k: nat)
    requires v.Object? && k < |v.fields| && Printable(v) && StartsWith(text, pos, DumpField(v, k))
    ensures var colon := pos + |DumpString(v.fields[k].key)|;
            && StartsWith(text, pos, DumpString(v.fields[k].key)) && StartsWith(text, colon + 1, Dump(v.fields[k].value))
            && colon + 1 < |text| && text[colon] == ':' && !IsSpace(text[colon + 1])
            && colon + 1 + |Dump(v.fields[k].value)| == pos + |DumpField(v, k)|
  {
    var key, x := v.fields[k].key, v.fields[k].value;
    var colon := pos + |DumpString(key)|;
    StartsWithParts(text, pos, DumpString(key), ":" + Dump(x));
    StartsWithAt(text, colon, ":" + Dump(x), 0);
    StartsWithParts(text, colon, ":", Dump(x));
    DumpStarts(x);
    StartsWithAt(text, colon + 1, Dump(x), 0);
  }

  /** A field when no space stands behind the key and the colon. */
  lemma FieldRound(text: string, pos: nat, depth: nat, colon: nat, end: nat, fits: bool, key: string, x: Json)
    requires Terminated(text) && pos < |text| && colon + 1 < |text| && text[colon] == ':' && !IsSpace(text[colon + 1])
    requires Yields(ParseString(text, pos), true, colon, key)
    requires Yields(ParseValue(text, colon + 1, depth + 1), fits, end, x)
    ensures Yields(ParseField(text, pos, depth), fits, end, Field(key, x))
  {
    NoSpace(text, colon);
    NoSpace(text, colon + 1);
  }

  lemma {:induction false} FieldRoundTrip(text: string, pos: nat, v: Json, k: nat, depth: nat)
    requires Terminated(text) && v.Object? && Printable(v) && k < |v.fields|
    requires StartsWith(text, pos, DumpField(v, k)) && Delimited(text, pos + |DumpField(v, k)|)
    ensures Yields(ParseField(text, pos, depth), Fits(v.fields[k].value, depth + 1),
                   pos + |DumpField(v, k)|, v.fields[k])
    decreases v, 0, 0
  {
    var key, x := v.fields[k].key, v.fields[k].value;
    var colon := pos + |DumpString(key)|;
    FieldLayout(text, pos, v, k);
    StringRoundTrip(text, pos, key);
    ValueRoundTrip(text, colon + 1, x, depth + 1);
    FieldRound(text, pos, depth, colon, pos + |DumpField(v, k)|, Fits(x, depth + 1), key, x);
  }

  /** Where things stand in the text of the fields from `k` on. */
  lemma FieldsLayout(text: string, pos: nat, v: Json, k: nat)
    requires v.Object? && k < |v.fields| && StartsWith(text, pos, FieldsText(v, k))
    ensures var behind := pos + |DumpField(v, k)|;
            && StartsWith(text, pos, DumpField(v, k)) && behind < |text|
            && if k + 1 == |v.fields| then
                 text[behind] == '}' && behind + 1 == pos + |FieldsText(v, k)|
               else
                 && text[behind] == ',' && StartsWith(text, behind + 1, FieldsText(v, k + 1))
                 && behind + 1 + |FieldsText(v, k + 1)| == pos + |FieldsText(v, k)|
  {
    var behind := pos + |DumpField(v, k)|;
    StartsWithParts(text, pos, DumpField(v, k), DumpFields(v, k + 1));
    StartsWithAt(text, behind, DumpFields(v, k + 1), 0);
    if k + 1 < |v.fields| {
      StartsWithParts(text, behind, ",", FieldsText(v, k + 1));
    }
  }

  /** One round of the object loop when no space stands behind the field and the comma. */
  lemma FieldsRound(text: string, pos: nat, depth: nat, behind: nat, end: nat, first: bool, others: bool, x: Field, rest: seq<Field>)
    requires Terminated(text) && pos < |text| && behind < |text|
    requires Yields(ParseField(text, pos, depth), first, behind, x)
    requires if text[behind] == '}' then others && rest == [] && end == behind + 1
             else
               && text[behind] == ',' && behind + 1 < |text| && !IsSpace(text[behind + 1])
               && Yields(ParseFields(text, behind + 1, depth), others, end, rest)
    ensures Yields(ParseFields(text, pos, depth), first && others, end, [x] + rest)
  {
    NoSpace(text, behind);
    if text[behind] == ',' {
      NoSpace(text, behind + 1);
    } else {
      assert [x] + rest == [x];
    }
  }

  lemma {:induction false} FieldsRoundTrip(text: string, pos: nat, v: Json, k: nat, depth: nat, end: nat)
    requires Terminated(text) && v.Object? && Printable(v) && k < |v.fields|
    requires StartsWith(text, pos, FieldsText(v, k)) && end == pos + |FieldsText(v, k)| < |text|
    ensures Yields(ParseFields(text, pos, depth), FieldsFit(v, k, depth + 1), end, v.fields[k..])
    decreases v, 0, |v.fields| - k + 1
  {
    var behind := FirstField(text, pos, v, k, depth, end);
    if k + 1 < |v.fields| {
      FieldsRoundTrip(text, behind + 1, v, k + 1, depth, end);
    }
    FieldsRound(text, pos, depth, behind, end,
                Fits(v.fields[k].value, depth + 1), FieldsFit(v, k + 1, depth + 1), v.fields[k], v.fields[k + 1..]);
    ItemsFrom(v.fields, k);
  }

  lemma {:induction false} FirstField(text: string, pos: nat, v: Json, k: nat, depth: nat, end: nat) returns (behind: nat)
    requires Terminated(text) && v.Object? && Printable(v) && k < |v.fields|
    requires StartsWith(text, pos, FieldsText(v, k)) && end == pos + |FieldsText(v, k)| < |text|
    ensures behind < |text| && text[behind] in "},"
    ensures Yields(ParseField(text, pos, depth), Fits(v.fields[k].value, depth + 1), behind, v.fields[k])
    ensures if k + 1 == |v.fields| then
              text[behind] == '}' && behind + 1 == end
            else
              && text[behind] == ',' && StartsWith(text, behind + 1, FieldsText(v, k + 1))
              && behind + 1 + |FieldsText(v, k + 1)| == end
              && !IsSpace(text[behind + 1])
    decreases v, 0, 1
  {
    behind := pos + |DumpField(v, k)|;
    FieldsLayout(text, pos, v, k);
    FieldRoundTrip(text, pos, v, k, depth);
    if k + 1 < |v.fields| {
      FieldsTextStarts(v, k + 1);
      StartsWithAt(text, behind + 1, FieldsText(v, k + 1), 0);
    }
  }

  predicate FieldsFit(v: Json, k: nat, depth: nat)
    requires v.Object? && k <= |v.fields|
    decreases |v.fields| - k
  {
    k == |v.fields| || (Fits(v.fields[k].value, depth) && FieldsFit(v, k + 1, depth))
  }

  lemma {:induction false} FieldsFitIffAll(v: Json, k: nat, depth: nat)
    requires v.Object? && k <= |v.fields|
    ensures FieldsFit(v, k, depth) <==> forall i :: k <= i < |v.fields| ==> Fits(v.fields[i].value, depth)
    decreases |v.fields| - k
  {
    if k < |v.fields| {
      FieldsFitIffAll(v, k + 1, depth);
    }
  }

  // Whole documents

  /** How deeply containers are nested. */
  function Nesting(v: Json): nat
    decreases v, if v.List? then |v.items| + 1 else if v.Object? then |v.fields| + 1 else 0
  {
    match v
    case List(items) => 1 + ItemsNesting(v, |items|)
    case Object(fields) => 1 + FieldsNesting(v, |fields|)
    case _ => 0
  }

  function Max(a: nat, b: nat): nat {
    if a < b then b else a
  }

  function ItemsNesting(v: Json, n: nat): nat
    requires v.List? && n <= |v.items|
    decreases v, n
  {
    if n == 0 then 0 else Max(ItemsNesting(v, n - 1), Nesting(v.items[n - 1]))
  }

  function FieldsNesting(v: Json, n: nat): nat
    requires v.Object? && n <= |v.fields|
    decreases v, n
  {
    if n == 0 then 0 else Max(FieldsNesting(v, n - 1), Nesting(v.fields[n - 1].value))
  }

  lemma {:induction false} NestingOfItems(v: Json, n: nat, limit: nat)
    requires v.List? && n <= |v.items|
    ensures ItemsNesting(v, n) <= limit <==> forall i :: 0 <= i < n ==> Nesting(v.items[i]) <= limit
    decreases n
  {
    if n > 0 {
      NestingOfItems(v, n - 1, limit);
    }
  }

  lemma {:induction false} NestingOfFields(v: Json, n: nat, limit: nat)
    requires v.Object? && n <= |v.fields|
    ensures FieldsNesting(v, n) <= limit <==> forall i :: 0 <= i < n ==> Nesting(v.fields[i].value) <= limit
    decreases n
  {
    if n > 0 {
      NestingOfFields(v, n - 1, limit);
    }
  }

  /** Two levels of the parser's count go into every level of nesting. */
  lemma {:induction false} FitsIffNesting(v: Json, depth: nat)
    requires depth <= MAX_DEPTH && depth % 2 == 0
    ensures Fits(v, depth) <==> depth + 2 * Nesting(v) <= MAX_DEPTH
  {
    match v
    case List(items) =>
      if depth + 2 <= MAX_DEPTH {
        var limit := (MAX_DEPTH - depth - 2) / 2;
        assert depth + 2 + 2 * limit == MAX_DEPTH;
        NestingOfItems(v, |items|, limit);
        forall i | 0 <= i < |items|
          ensures Fits(items[i], depth + 2) <==> Nesting(items[i]) <= limit
        {
          FitsIffNesting(items[i], depth + 2);
        }
      }
    case Object(fields) =>
      if depth + 2 <= MAX_DEPTH {
        var limit := (MAX_DEPTH - depth - 2) / 2;
        assert depth + 2 + 2 * limit == MAX_DEPTH;
        NestingOfFields(v, |fields|, limit);
        forall i | 0 <= i < |fields|
          ensures Fits(fields[i].value, depth + 2) <==> Nesting(fields[i].value) <= limit
        {
          FitsIffNesting(fields[i].value, depth + 2);
        }
      }
    case _ =>
  }

  /** Parsing what was printed gives back the same tree if and only if it is nested at most 5000 deep; else it is refused. */
  lemma DumpParseRoundTrip(v: Json)
    requires Printable(v)
    ensures Parse(Dump(v) + [NUL]) == if Nesting(v) <= 5000 then Some(v) else None
  {
    var text := Dump(v) + [NUL];
    DumpStarts(v);
    NoSpace(text, 0);
    NoSpace(text, |Dump(v)|);
    StartsWithIsSlice(text, 0, Dump(v));
    assert text[0..|Dump(v)|] == Dump(v);
    ValueRoundTrip(text, 0, v, 0);
    FitsIffNesting(v, 0);
  }
}
