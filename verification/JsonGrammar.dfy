// The texts the JSON parser accepts, written down as a grammar over literal characters.
module JsonGrammar {
  import opened Options
  import opened Texts
  import opened JsonText
  import opened JsonNumber
  import opened JsonTree

  // White space.

  predicate Space(c: char) {
    c == ' ' || c == '\t' || c == '\r' || c == '\n'
  }

  predicate Spaces(text: string, from: nat, to: nat) {
    from <= to <= |text| && forall i :: from <= i < to ==> Space(text[i])
  }

  lemma {:induction false} SkipSpaceIsSpaces(text: string, pos: nat)
    requires Terminated(text) && pos < |text|
    ensures Spaces(text, pos, SkipSpace(text, pos)) && !Space(text[SkipSpace(text, pos)])
    decreases |text| - pos
  {
    if IsSpace(text[pos]) {
      SkipSpaceIsSpaces(text, pos + 1);
    }
  }

  lemma {:induction false} SpacesAreSkipped(text: string, pos: nat, next: nat)
    requires Terminated(text) && Spaces(text, pos, next) && next < |text| && !Space(text[next])
    ensures SkipSpace(text, pos) == next
    decreases next - pos
  {
    if pos < next {
      SpacesAreSkipped(text, pos + 1, next);
    }
  }

  // Numbers.

  predicate NumberDigit(c: char) {
    c == '0' || c == '1' || c == '2' || c == '3' || c == '4' || c == '5' || c == '6' || c == '7' || c == '8' || c == '9'
  }

  predicate NumberChar(c: char) {
    NumberDigit(c) || c == '-' || c == '+' || c == '.' || c == 'e' || c == 'E'
  }

  /** Digits up to the end. */
  predicate Digits(text: string, i: nat, end: nat)
    requires end <= |text|
    decreases if i < end then end - i else 0
  {
    i == end || (i < end && NumberDigit(text[i]) && Digits(text, i + 1, end))
  }

  /** Behind the letter: a sign or a digit, then digits. */
  predicate Exponent(text: string, i: nat, end: nat)
    requires end <= |text|
  {
    i < end && (text[i] == '+' || text[i] == '-' || NumberDigit(text[i])) && Digits(text, i + 1, end)
  }

  /** Behind the point: digits, perhaps none, and perhaps an exponent. */
  predicate Fraction(text: string, i: nat, end: nat)
    requires end <= |text|
    decreases if i < end then end - i else 0
  {
    || i == end
    || (i < end && NumberDigit(text[i]) && Fraction(text, i + 1, end))
    || (i < end && (text[i] == 'e' || text[i] == 'E') && Exponent(text, i + 1, end))
  }

  /** Behind a first digit other than 0. */
  predicate MoreDigits(text: string, i: nat, end: nat)
    requires end <= |text|
    decreases if i < end then end - i else 0
  {
    || i == end
    || (i < end && NumberDigit(text[i]) && MoreDigits(text, i + 1, end))
    || (i < end && text[i] == '.' && Fraction(text, i + 1, end))
    || (i < end && (text[i] == 'e' || text[i] == 'E') && Exponent(text, i + 1, end))
  }

  /** Behind a leading 0: a fraction or nothing. */
  predicate AfterZero(text: string, i: nat, end: nat)
    requires end <= |text|
  {
    i == end || (i < end && text[i] == '.' && Fraction(text, i + 1, end))
  }

  predicate Unsigned(text: string, i: nat, end: nat)
    requires end <= |text|
  {
    i < end && if text[i] == '0' then AfterZero(text, i + 1, end) else NumberDigit(text[i]) && MoreDigits(text, i + 1, end)
  }

  predicate NumberText(text: string, i: nat, end: nat)
    requires end <= |text|
  {
    i < end && if text[i] == '-' then Unsigned(text, i + 1, end) else Unsigned(text, i, end)
  }

  /** What may still follow in a state of the scanner. */
  predicate Follows(state: NumberState, text: string, i: nat, end: nat)
    requires end <= |text|
  {
    match state
    case Minus => NumberText(text, i, end)
    case AfterMinus => Unsigned(text, i, end)
    case ZeroFirst => AfterZero(text, i, end)
    case InDigits => MoreDigits(text, i, end)
    case DigitsAfterPoints => Fraction(text, i, end)
    case E => Exponent(text, i, end)
    case DigitsAfterE => Digits(text, i, end)
    case Invalid => false
  }

  /** One step of the scanner is one step of the grammar. */
  lemma StateFollows(state: NumberState, text: string, i: nat, end: nat)
    requires i < end <= |text| && state != Invalid
    ensures Follows(state, text, i, end) <==>
      IsNumberChar(text[i]) && Follows(NextState(state, text[i]), text, i + 1, end)
    ensures IsNumberChar(text[i]) <==> NumberChar(text[i])
  {
  }

  lemma AcceptingFollows(state: NumberState, text: string, end: nat)
    requires end <= |text|
    ensures Follows(state, text, end, end) <==> Accepting(state)
  {
  }

  /** The scanner ends exactly where a number ends that no further character could belong to. */
  lemma {:induction false} NumberEndIsGrammar(text: string, i: nat, state: NumberState, end: nat)
    requires Terminated(text) && i <= end < |text|
    ensures NumberEnd(text, i, state) == Some(end) <==> Follows(state, text, i, end) && !NumberChar(text[end])
    decreases end - i
  {
    if state != Invalid {
      if i < end {
        StateFollows(state, text, i, end);
        if IsNumberChar(text[i]) {
          NumberEndIsGrammar(text, i + 1, NextState(state, text[i]), end);
        }
      } else {
        AcceptingFollows(state, text, end);
      }
    }
  }

  // Strings.

  /** The value of a hexadecimal digit, -1 for any other character. */
  function HexValue(c: char): int {
    match c
    case '0' => 0 case '1' => 1 case '2' => 2 case '3' => 3 case '4' => 4
    case '5' => 5 case '6' => 6 case '7' => 7 case '8' => 8 case '9' => 9
    case 'a' => 10 case 'b' => 11 case 'c' => 12 case 'd' => 13 case 'e' => 14 case 'f' => 15
    case 'A' => 10 case 'B' => 11 case 'C' => 12 case 'D' => 13 case 'E' => 14 case 'F' => 15
    case _ => -1
  }

  lemma HexIsValue(c: char)
    ensures IsHex(c) <==> HexValue(c) >= 0
    ensures IsHex(c) ==> FromHex(c) == HexValue(c)
  {
  }

  /** The UTF-8 encoding (section 3 of RFC 3629) of a code below 2^16, surrogates included. */
  predicate IsUtf8(bytes: string, code: int) {
    if |bytes| == 1 then
      0 <= code < 0x80 && bytes[0] as int == code
    else if |bytes| == 2 then
      && 0x80 <= code < 0x800 && 0xC0 <= bytes[0] as int < 0xE0 && 0x80 <= bytes[1] as int < 0xC0
      && code == (bytes[0] as int - 0xC0) * 64 + (bytes[1] as int - 0x80)
    else
      && |bytes| == 3 && 0x800 <= code < 0x1_0000
      && 0xE0 <= bytes[0] as int < 0xF0 && 0x80 <= bytes[1] as int < 0xC0 && 0x80 <= bytes[2] as int < 0xC0
      && code == (bytes[0] as int - 0xE0) * 4096 + (bytes[1] as int - 0x80) * 64 + (bytes[2] as int - 0x80)
  }

  lemma CodeBytesAreUtf8(code: int)
    requires 0 <= code < 0x1_0000
    ensures IsUtf8(CodeBytes(code), code)
  {
  }

  lemma Utf8IsUnique(a: string, b: string, code: int)
    requires IsUtf8(a, code) && IsUtf8(b, code)
    ensures a == b
  {
    assert |a| == |b|;
    if |a| == 2 {
      assert a[0] == b[0] && a[1] == b[1];
    } else if |a| == 3 {
      var x, y := (a[1] as int - 0x80) * 64 + (a[2] as int - 0x80), (b[1] as int - 0x80) * 64 + (b[2] as int - 0x80);
      assert 0 <= x < 4096 && 0 <= y < 4096;
      assert a[0] == b[0] && a[1] == b[1] && a[2] == b[2];
    }
  }

  /** A character of string text that stands for itself. */
  predicate Plain(c: char) {
    c != '\"' && c != '\\' && c != '\0'
  }

  /** What the character behind a backslash stands for. */
  predicate Escapes(c: char, meant: char) {
    match c
    case '\"' => meant == '\"'
    case '\\' => meant == '\\'
    case '/' => meant == '/'
    case 'b' => meant as int == 8
    case 'f' => meant as int == 12
    case 'n' => meant == '\n'
    case 'r' => meant == '\r'
    case 't' => meant == '\t'
    case _ => false
  }

  /** Four hexadecimal digits. */
  predicate HexCode(text: string, at: nat, code: int) {
    && at + 4 <= |text|
    && HexValue(text[at]) >= 0 && HexValue(text[at + 1]) >= 0 && HexValue(text[at + 2]) >= 0 && HexValue(text[at + 3]) >= 0
    && code == HexValue(text[at]) * 4096 + HexValue(text[at + 1]) * 256 + HexValue(text[at + 2]) * 16 + HexValue(text[at + 3])
  }

  /** One character of string text, or one escape, and the bytes it stands for. */
  ghost predicate Piece(text: string, at: nat, next: nat, bytes: string) {
    && at < next <= |text|
    && if text[at] != '\\' then Plain(text[at]) && next == at + 1 && bytes == [text[at]]
       else if at + 1 < |text| && text[at + 1] == 'u' then next == at + 6 && exists code :: HexCode(text, at + 2, code) && IsUtf8(bytes, code)
       else next == at + 2 && |bytes| == 1 && Escapes(text[at + 1], bytes[0])
  }

  lemma HexCodeIsCode(text: string, at: nat, code: int)
    ensures HexCode(text, at, code) <==> IsHex4(text, at) && Code(text, at) == code
  {
    if at + 4 <= |text| {
      HexIsValue(text[at]);
      HexIsValue(text[at + 1]);
      HexIsValue(text[at + 2]);
      HexIsValue(text[at + 3]);
    }
  }

  lemma EscapeIsEscape(c: char, meant: char)
    requires c != 'u'
    ensures Escapes(c, meant) <==> IsEscape(c) && EscapedChar(c) == meant
  {
  }

  lemma HexPieceIsPiece(text: string, at: nat, next: nat, bytes: string)
    requires at + 1 < |text| && text[at] == '\\' && text[at + 1] == 'u'
    ensures Piece(text, at, next, bytes) <==>
      PieceLength(text, at) > 0 && next == at + PieceLength(text, at) && bytes == PieceBytes(text, at)
  {
    if IsHex4(text, at + 2) {
      var code := Code(text, at + 2);
      HexCodeIsCode(text, at + 2, code);
      CodeBytesAreUtf8(code);
      if Piece(text, at, next, bytes) {
        var other :| HexCode(text, at + 2, other) && IsUtf8(bytes, other);
        Utf8IsUnique(bytes, CodeBytes(code), code);
      }
    } else if Piece(text, at, next, bytes) {
      var other :| HexCode(text, at + 2, other) && IsUtf8(bytes, other);
      HexCodeIsCode(text, at + 2, other);
    }
  }

  /** Scan and unescape take exactly these pieces, except for the quote and NUL, at which they stop before. */
  lemma PieceIsPiece(text: string, at: nat, next: nat, bytes: string)
    requires at < |text|
    ensures Piece(text, at, next, bytes) <==>
      && text[at] != '\"' && text[at] != '\0'
      && PieceLength(text, at) > 0 && next == at + PieceLength(text, at) && bytes == PieceBytes(text, at)
  {
    if text[at] == '\\' && at + 1 < |text| {
      if text[at + 1] == 'u' {
        HexPieceIsPiece(text, at, next, bytes);
      } else if |bytes| == 1 {
        EscapeIsEscape(text[at + 1], bytes[0]);
      }
    }
  }

  /** The text between two positions stands for a string. */
  ghost predicate StringText(text: string, at: nat, end: nat, s: string)
    decreases if at < end then end - at else 0
  {
    if at == end then s == ""
    else exists next: nat, bytes: string, rest: string ::
      at < next <= end && Piece(text, at, next, bytes) && StringText(text, next, end, rest) && s == bytes + rest
  }

  /** The scan that ends at a quote goes on behind a piece. */
  lemma ScanGoesOn(text: string, at: nat, end: nat, next: nat)
    requires Terminated(text) && at < |text| && StringEnd(text, at) == Some(end) && at < end
    requires next == at + PieceLength(text, at)
    ensures text[at] != QUOTE && text[at] != NUL && at < next <= end && StringEnd(text, next) == Some(end)
  {
  }

  lemma UnescapeGoesOn(text: string, at: nat, end: nat, raw: string, next: nat)
    requires at < next <= end <= |text| && next == at + PieceLength(text, at) && raw == text[..end] && WellEscaped(raw, next)
    ensures WellEscaped(raw, at) && Unescaped(raw, at) == PieceBytes(text, at) + Unescaped(raw, next)
  {
    PieceInPrefix(text, at, raw);
  }

  lemma PieceInPrefix(text: string, at: nat, raw: string)
    requires raw <= text && at < |raw| && PieceLength(text, at) > 0 && at + PieceLength(text, at) <= |raw|
    ensures PieceLength(raw, at) == PieceLength(text, at) && PieceBytes(raw, at) == PieceBytes(text, at)
  {
  }

  lemma {:induction false} ScannedIsText(text: string, at: nat, end: nat, raw: string)
    requires Terminated(text) && at < |text| && StringEnd(text, at) == Some(end) && raw == text[..end]
    ensures WellEscaped(raw, at) && StringText(text, at, end, Unescaped(raw, at))
    decreases end - at
  {
    if at < end {
      var next := at + PieceLength(text, at);
      ScanGoesOn(text, at, end, next);
      ScannedIsText(text, next, end, raw);
      UnescapeGoesOn(text, at, end, raw, next);
      TextInFront(text, at, next, end, PieceBytes(text, at), Unescaped(raw, next), Unescaped(raw, at));
    }
  }

  lemma TextInFront(text: string, at: nat, next: nat, end: nat, bytes: string, rest: string, s: string)
    requires at < next <= end <= |text| && next == at + PieceLength(text, at) && bytes == PieceBytes(text, at)
    requires text[at] != QUOTE && text[at] != NUL && s == bytes + rest && StringText(text, next, end, rest)
    ensures StringText(text, at, end, s)
  {
    PieceIsPiece(text, at, next, bytes);
    assert Piece(text, at, next, bytes);
  }

  lemma {:induction false} TextIsScanned(text: string, at: nat, end: nat, s: string, raw: string)
    requires Terminated(text) && at <= end < |text| && text[end] == '\"' && StringText(text, at, end, s) && raw == text[..end]
    ensures StringEnd(text, at) == Some(end) && WellEscaped(raw, at) && Unescaped(raw, at) == s
    decreases end - at
  {
    if at < end {
      var next: nat, bytes: string, rest: string :|
        at < next <= end && Piece(text, at, next, bytes) && StringText(text, next, end, rest) && s == bytes + rest;
      PieceIsPiece(text, at, next, bytes);
      TextIsScanned(text, next, end, rest, raw);
      StringEndStep(text, at, next - at);
      UnescapeGoesOn(text, at, end, raw, next);
    }
  }

  /** A string between its quotes. */
  ghost predicate Quoted(text: string, pos: nat, end: nat, s: string) {
    && pos + 1 < end <= |text| && text[pos] == '\"' && text[end - 1] == '\"' && StringText(text, pos + 1, end - 1, s)
  }

  lemma QuotedIsParsed(text: string, pos: nat, end: nat, s: string)
    requires Terminated(text) && Quoted(text, pos, end, s)
    ensures ParseString(text, pos) == Some(Parsed(end, s))
  {
    var start, close := pos + 1, end - 1;
    var raw := text[..close];
    TextIsScanned(text, start, close, s, raw);
    ParseStringTo(text, pos, start, close, raw, s);
  }

  lemma ParsedIsQuoted(text: string, pos: nat)
    requires Terminated(text) && pos < |text| && ParseString(text, pos).Some?
    ensures var r := ParseString(text, pos).value; Quoted(text, pos, r.next, r.value)
  {
    var start, close := pos + 1, StringEnd(text, pos + 1).value;
    ScannedIsText(text, start, close, text[..close]);
  }

  // Values.

  predicate Word(text: string, pos: nat, end: nat, word: string) {
    end == pos + |word| <= |text| && text[pos..end] == word
  }

  /** The text between two positions is a JSON value. Behind a number stands nothing a number could go on with. */
  ghost predicate ValueText(text: string, pos: nat, end: nat, v: Json)
    decreases if pos < end then end - pos else 0, 1
  {
    && pos < end < |text|
    && match v
       case Null => Word(text, pos, end, "null")
       case False => Word(text, pos, end, "false")
       case True => Word(text, pos, end, "true")
       case Number(digits) => NumberText(text, pos, end) && !NumberChar(text[end]) && digits == text[pos..end]
       case Str(s) => Quoted(text, pos, end, s)
       case List(items) => ListText(text, pos, end, items)
       case Object(fields) => ObjectText(text, pos, end, fields)
  }

  ghost predicate ListText(text: string, pos: nat, end: nat, items: seq<Json>)
    requires pos < end < |text|
    decreases end - pos, 0
  {
    text[pos] == '[' && exists first: nat :: pos < first < end && Spaces(text, pos + 1, first) && InList(text, first, end, items)
  }

  ghost predicate ObjectText(text: string, pos: nat, end: nat, fields: seq<Field>)
    requires pos < end < |text|
    decreases end - pos, 0
  {
    text[pos] == '{' && exists first: nat :: pos < first < end && Spaces(text, pos + 1, first) && InObject(text, first, end, fields)
  }

  ghost predicate InList(text: string, first: nat, end: nat, items: seq<Json>)
    decreases if first < end then end - first else 0, 3
  {
    first < end <= |text| && if items == [] then text[first] == ']' && end == first + 1 else ItemsText(text, first, end, items)
  }

  /** Items with commas between them, up to and with the closing bracket; white space around every one. */
  ghost predicate ItemsText(text: string, pos: nat, end: nat, items: seq<Json>)
    requires items != []
    decreases if pos < end then end - pos else 0, 2
  {
    exists mid: nat, behind: nat ::
      && pos < mid <= behind < end <= |text| && ValueText(text, pos, mid, items[0]) && Spaces(text, mid, behind)
      && BehindItem(text, behind, end, items[1..])
  }

  ghost predicate BehindItem(text: string, behind: nat, end: nat, rest: seq<Json>)
    requires behind < end <= |text|
    decreases end - behind, 0
  {
    if rest == [] then text[behind] == ']' && end == behind + 1
    else text[behind] == ',' && exists next: nat :: behind < next < end && Spaces(text, behind + 1, next) && ItemsText(text, next, end, rest)
  }

  ghost predicate InObject(text: string, first: nat, end: nat, fields: seq<Field>)
    decreases if first < end then end - first else 0, 4
  {
    first < end <= |text| && if fields == [] then text[first] == '}' && end == first + 1 else FieldsText(text, first, end, fields)
  }

  /** A key, a colon and a value; white space around the colon. */
  ghost predicate FieldText(text: string, pos: nat, end: nat, f: Field)
    decreases if pos < end then end - pos else 0, 2
  {
    exists mid: nat, colon: nat, start: nat ::
      && pos < mid <= colon < start < end <= |text| && Quoted(text, pos, mid, f.key) && Spaces(text, mid, colon)
      && text[colon] == ':' && Spaces(text, colon + 1, start) && ValueText(text, start, end, f.value)
  }

  ghost predicate FieldsText(text: string, pos: nat, end: nat, fields: seq<Field>)
    requires fields != []
    decreases if pos < end then end - pos else 0, 3
  {
    exists mid: nat, behind: nat ::
      && pos < mid <= behind < end <= |text| && FieldText(text, pos, mid, fields[0]) && Spaces(text, mid, behind)
      && BehindField(text, behind, end, fields[1..])
  }

  ghost predicate BehindField(text: string, behind: nat, end: nat, rest: seq<Field>)
    requires behind < end <= |text|
    decreases end - behind, 0
  {
    if rest == [] then text[behind] == '}' && end == behind + 1
    else text[behind] == ',' && exists next: nat :: behind < next < end && Spaces(text, behind + 1, next) && FieldsText(text, next, end, rest)
  }

  // Every text of the grammar is parsed.

  predicate AllFit(items: seq<Json>, depth: nat) {
    forall i :: 0 <= i < |items| ==> Fits(items[i], depth)
  }

  predicate AllFieldsFit(fields: seq<Field>, depth: nat) {
    forall i :: 0 <= i < |fields| ==> Fits(fields[i].value, depth)
  }

  lemma WordIsParsed(text: string, pos: nat, end: nat, word: string, v: Json)
    requires Terminated(text) && word != "" && (forall c :: c in word ==> c != NUL) && Word(text, pos, end, word)
    ensures ParseWord(text, pos, word, v) == Some(Parsed(end, v)) && text[pos] == word[0]
  {
    StartsWithIsSlice(text, pos, word);
    assert text[pos..end][0] == text[pos];
  }

  /** A value begins with a character of its own. */
  lemma ValueBegins(text: string, pos: nat, end: nat, v: Json)
    requires pos < |text|
    ensures ValueText(text, pos, end, v) ==> !Space(text[pos]) && text[pos] != ']' && text[pos] != '}'
    ensures ValueText(text, pos, end, v) && v.Number? ==> text[pos] == '-' || NumberDigit(text[pos])
  {
    if ValueText(text, pos, end, v) {
      assert text[pos..end][0] == text[pos];
      match v
      case Null => assert Word(text, pos, end, "null");
      case False => assert Word(text, pos, end, "false");
      case True => assert Word(text, pos, end, "true");
      case Number(_) => assert NumberText(text, pos, end);
      case Str(s) => assert Quoted(text, pos, end, s);
      case List(items) => assert ListText(text, pos, end, items);
      case Object(fields) => assert ObjectText(text, pos, end, fields);
    }
  }

  lemma ScalarIsParsed(text: string, pos: nat, end: nat, v: Json, depth: nat)
    requires Terminated(text) && ValueText(text, pos, end, v) && !v.List? && !v.Object?
    ensures Yields(ParseValue(text, pos, depth), true, end, v)
  {
    match v
    case Null => WordIsParsed(text, pos, end, "null", v);
    case False => WordIsParsed(text, pos, end, "false", v);
    case True => WordIsParsed(text, pos, end, "true", v);
    case Number(_) =>
      ValueBegins(text, pos, end, v);
      NumberEndIsGrammar(text, pos, Minus, end);
      ParseValueAtNumber(text, pos, depth);
    case Str(s) =>
      QuotedIsParsed(text, pos, end, s);
      ParseValueAtQuote(text, pos, depth);
  }

  /** One round of the list loop. */
  lemma ItemsRoundSpaced(text: string, pos: nat, depth: nat, mid: nat, behind: nat, next: nat, end: nat,
                         first: bool, others: bool, x: Json, rest: seq<Json>, items: seq<Json>)
    requires Terminated(text) && pos < |text| && mid < |text| && behind == SkipSpace(text, mid) && next < |text|
    requires if text[behind] == ']' then others && rest == [] && end == behind + 1
             else text[behind] == ',' && behind + 1 < |text| && next == SkipSpace(text, behind + 1)
    requires items == [x] + rest
    ensures Yields(ParseValue(text, pos, depth + 1), first, mid, x)
            && (text[behind] == ',' ==> Yields(ParseItems(text, next, depth), others, end, rest))
            ==> Yields(ParseItems(text, pos, depth), first && others, end, items)
  {
    assert rest == [] ==> items == [x];
  }

  lemma FieldsRoundSpaced(text: string, pos: nat, depth: nat, mid: nat, behind: nat, next: nat, end: nat,
                          first: bool, others: bool, x: Field, rest: seq<Field>, fields: seq<Field>)
    requires Terminated(text) && pos < |text| && mid < |text| && behind == SkipSpace(text, mid) && next < |text|
    requires if text[behind] == '}' then others && rest == [] && end == behind + 1
             else text[behind] == ',' && behind + 1 < |text| && next == SkipSpace(text, behind + 1)
    requires fields == [x] + rest
    ensures Yields(ParseField(text, pos, depth), first, mid, x)
            && (text[behind] == ',' ==> Yields(ParseFields(text, next, depth), others, end, rest))
            ==> Yields(ParseFields(text, pos, depth), first && others, end, fields)
  {
    assert rest == [] ==> fields == [x];
  }

  lemma FieldRoundSpaced(text: string, pos: nat, depth: nat, mid: nat, colon: nat, start: nat, end: nat, fits: bool, f: Field)
    requires Terminated(text) && pos < |text| && mid < |text| && colon == SkipSpace(text, mid) && text[colon] == ':'
    requires colon + 1 < |text| && start == SkipSpace(text, colon + 1) && ParseString(text, pos) == Some(Parsed(mid, f.key))
    ensures Yields(ParseValue(text, start, depth + 1), fits, end, f.value) ==> Yields(ParseField(text, pos, depth), fits, end, f)
  {
  }

  lemma ListOfItems(text: string, pos: nat, first: nat, end: nat, items: seq<Json>, depth: nat, fits: bool)
    requires Terminated(text) && pos + 1 < |text| && text[pos] == '[' && first == SkipSpace(text, pos + 1) && text[first] != ']'
    ensures Yields(ParseItems(text, first, depth + 1), fits, end, items) ==>
      Yields(ParseValue(text, pos, depth), depth + 1 <= MAX_DEPTH && fits, end, List(items))
  {
  }

  lemma ObjectOfFields(text: string, pos: nat, first: nat, end: nat, fields: seq<Field>, depth: nat, fits: bool)
    requires Terminated(text) && pos + 1 < |text| && text[pos] == '{' && first == SkipSpace(text, pos + 1) && text[first] != '}'
    ensures Yields(ParseFields(text, first, depth + 1), fits, end, fields) ==>
      Yields(ParseValue(text, pos, depth), depth + 1 <= MAX_DEPTH && fits, end, Object(fields))
  {
  }

  lemma {:induction false} ValueIsParsed(text: string, pos: nat, end: nat, v: Json, depth: nat)
    requires Terminated(text) && pos < end < |text|
    ensures ValueText(text, pos, end, v) ==> Yields(ParseValue(text, pos, depth), Fits(v, depth), end, v)
    decreases end - pos, 1
  {
    if ValueText(text, pos, end, v) {
      if v.List? {
        ListIsParsed(text, pos, end, v.items, depth);
      } else if v.Object? {
        ObjectIsParsed(text, pos, end, v.fields, depth);
      } else {
        ScalarIsParsed(text, pos, end, v, depth);
      }
    }
  }

  lemma {:induction false} ListIsParsed(text: string, pos: nat, end: nat, items: seq<Json>, depth: nat)
    requires Terminated(text) && pos < end < |text| && ListText(text, pos, end, items)
    ensures Yields(ParseValue(text, pos, depth), Fits(List(items), depth), end, List(items))
    decreases end - pos, 0
  {
    var first: nat :| pos < first < end && Spaces(text, pos + 1, first) && InList(text, first, end, items);
    if items == [] {
      SpacesAreSkipped(text, pos + 1, first);
    } else {
      ItemsBegin(text, first, end, items);
      SpacesAreSkipped(text, pos + 1, first);
      ItemsAreParsed(text, first, end, items, depth + 1);
      ListOfItems(text, pos, first, end, items, depth, AllFit(items, depth + 2));
    }
  }

  lemma ItemsBegin(text: string, pos: nat, end: nat, items: seq<Json>)
    requires items != [] && ItemsText(text, pos, end, items)
    ensures pos < end <= |text| && !Space(text[pos]) && text[pos] != ']'
  {
    var mid: nat, behind: nat :|
      && pos < mid <= behind < end <= |text| && ValueText(text, pos, mid, items[0]) && Spaces(text, mid, behind)
      && BehindItem(text, behind, end, items[1..]);
    ValueBegins(text, pos, mid, items[0]);
  }

  lemma {:induction false} ItemsAreParsed(text: string, pos: nat, end: nat, items: seq<Json>, depth: nat)
    requires Terminated(text) && items != [] && ItemsText(text, pos, end, items)
    ensures pos < |text| && Yields(ParseItems(text, pos, depth), AllFit(items, depth + 1), end, items)
    decreases end - pos, 1
  {
    var mid: nat, behind: nat :|
      && pos < mid <= behind < end <= |text| && ValueText(text, pos, mid, items[0]) && Spaces(text, mid, behind)
      && BehindItem(text, behind, end, items[1..]);
    var rest := items[1..];
    ValueIsParsed(text, pos, mid, items[0], depth + 1);
    SpacesAreSkipped(text, mid, behind);
    var next := ItemsBehindAreParsed(text, behind, end, rest, depth);
    ItemsRoundSpaced(text, pos, depth, mid, behind, next, end, Fits(items[0], depth + 1), AllFit(rest, depth + 1), items[0], rest, items);
    AllFitParts(items, depth + 1);
  }

  lemma {:induction false} ItemsBehindAreParsed(text: string, behind: nat, end: nat, rest: seq<Json>, depth: nat) returns (next: nat)
    requires Terminated(text) && behind < end <= |text| && BehindItem(text, behind, end, rest)
    ensures next < |text| && (text[behind] == ']' || text[behind] == ',')
    ensures text[behind] == ']' <==> rest == []
    ensures if rest == [] then end == behind + 1
            else behind + 1 < |text| && next == SkipSpace(text, behind + 1) && Yields(ParseItems(text, next, depth), AllFit(rest, depth + 1), end, rest)
    decreases end - behind, 0
  {
    next := behind;
    if rest != [] {
      next :| behind < next < end && Spaces(text, behind + 1, next) && ItemsText(text, next, end, rest);
      ItemsBegin(text, next, end, rest);
      SpacesAreSkipped(text, behind + 1, next);
      ItemsAreParsed(text, next, end, rest, depth);
    }
  }

  lemma AllFitParts(items: seq<Json>, depth: nat)
    requires items != []
    ensures AllFit(items, depth) <==> Fits(items[0], depth) && AllFit(items[1..], depth)
  {
    assert forall i :: 0 <= i < |items| - 1 ==> items[1..][i] == items[i + 1];
    if Fits(items[0], depth) && AllFit(items[1..], depth) {
      forall i | 0 <= i < |items|
        ensures Fits(items[i], depth)
      {
        assert i > 0 ==> items[i] == items[1..][i - 1];
      }
    }
  }

  lemma AllFieldsFitParts(fields: seq<Field>, depth: nat)
    requires fields != []
    ensures AllFieldsFit(fields, depth) <==> Fits(fields[0].value, depth) && AllFieldsFit(fields[1..], depth)
  {
    assert forall i :: 0 <= i < |fields| - 1 ==> fields[1..][i] == fields[i + 1];
    if Fits(fields[0].value, depth) && AllFieldsFit(fields[1..], depth) {
      forall i | 0 <= i < |fields|
        ensures Fits(fields[i].value, depth)
      {
        assert i > 0 ==> fields[i] == fields[1..][i - 1];
      }
    }
  }

  lemma {:induction false} ObjectIsParsed(text: string, pos: nat, end: nat, fields: seq<Field>, depth: nat)
    requires Terminated(text) && pos < end < |text| && ObjectText(text, pos, end, fields)
    ensures Yields(ParseValue(text, pos, depth), Fits(Object(fields), depth), end, Object(fields))
    decreases end - pos, 0
  {
    var first: nat :| pos < first < end && Spaces(text, pos + 1, first) && InObject(text, first, end, fields);
    if fields == [] {
      SpacesAreSkipped(text, pos + 1, first);
    } else {
      FieldsBegin(text, first, end, fields);
      SpacesAreSkipped(text, pos + 1, first);
      FieldsAreParsed(text, first, end, fields, depth + 1);
      ObjectOfFields(text, pos, first, end, fields, depth, AllFieldsFit(fields, depth + 2));
    }
  }

  lemma FieldsBegin(text: string, pos: nat, end: nat, fields: seq<Field>)
    requires fields != [] && FieldsText(text, pos, end, fields)
    ensures pos < end <= |text| && text[pos] == '\"'
  {
    var mid: nat, behind: nat :|
      && pos < mid <= behind < end <= |text| && FieldText(text, pos, mid, fields[0]) && Spaces(text, mid, behind)
      && BehindField(text, behind, end, fields[1..]);
  }

  lemma {:induction false} FieldIsParsed(text: string, pos: nat, end: nat, f: Field, depth: nat)
    requires Terminated(text) && FieldText(text, pos, end, f)
    ensures pos < |text| && Yields(ParseField(text, pos, depth), Fits(f.value, depth + 1), end, f)
    decreases end - pos, 1
  {
    var mid: nat, colon: nat, start: nat :|
      && pos < mid <= colon < start < end <= |text| && Quoted(text, pos, mid, f.key) && Spaces(text, mid, colon)
      && text[colon] == ':' && Spaces(text, colon + 1, start) && ValueText(text, start, end, f.value);
    KeyIsParsed(text, pos, mid, colon, start, end, f);
    ValueIsParsed(text, start, end, f.value, depth + 1);
    FieldRoundSpaced(text, pos, depth, mid, colon, start, end, Fits(f.value, depth + 1), f);
  }

  lemma KeyIsParsed(text: string, pos: nat, mid: nat, colon: nat, start: nat, end: nat, f: Field)
    requires Terminated(text) && pos < mid <= colon < start < end < |text| && Quoted(text, pos, mid, f.key) && Spaces(text, mid, colon)
    requires text[colon] == ':' && Spaces(text, colon + 1, start) && ValueText(text, start, end, f.value)
    ensures ParseString(text, pos) == Some(Parsed(mid, f.key)) && SkipSpace(text, mid) == colon && SkipSpace(text, colon + 1) == start
  {
    QuotedIsParsed(text, pos, mid, f.key);
    SpacesAreSkipped(text, mid, colon);
    ValueBegins(text, start, end, f.value);
    SpacesAreSkipped(text, colon + 1, start);
  }

  lemma {:induction false} FieldsAreParsed(text: string, pos: nat, end: nat, fields: seq<Field>, depth: nat)
    requires Terminated(text) && fields != [] && FieldsText(text, pos, end, fields)
    ensures pos < |text| && Yields(ParseFields(text, pos, depth), AllFieldsFit(fields, depth + 1), end, fields)
    decreases end - pos, 2
  {
    var mid: nat, behind: nat :|
      && pos < mid <= behind < end <= |text| && FieldText(text, pos, mid, fields[0]) && Spaces(text, mid, behind)
      && BehindField(text, behind, end, fields[1..]);
    var rest := fields[1..];
    FieldIsParsed(text, pos, mid, fields[0], depth);
    SpacesAreSkipped(text, mid, behind);
    var next := FieldsBehindAreParsed(text, behind, end, rest, depth);
    FieldsRoundSpaced(text, pos, depth, mid, behind, next, end,
                      Fits(fields[0].value, depth + 1), AllFieldsFit(rest, depth + 1), fields[0], rest, fields);
    AllFieldsFitParts(fields, depth + 1);
  }

  lemma {:induction false} FieldsBehindAreParsed(text: string, behind: nat, end: nat, rest: seq<Field>, depth: nat) returns (next: nat)
    requires Terminated(text) && behind < end <= |text| && BehindField(text, behind, end, rest)
    ensures next < |text| && (text[behind] == '}' || text[behind] == ',')
    ensures text[behind] == '}' <==> rest == []
    ensures if rest == [] then end == behind + 1
            else behind + 1 < |text| && next == SkipSpace(text, behind + 1) && Yields(ParseFields(text, next, depth), AllFieldsFit(rest, depth + 1), end, rest)
    decreases end - behind, 0
  {
    next := behind;
    if rest != [] {
      next :| behind < next < end && Spaces(text, behind + 1, next) && FieldsText(text, next, end, rest);
      FieldsBegin(text, next, end, rest);
      SpacesAreSkipped(text, behind + 1, next);
      FieldsAreParsed(text, next, end, rest, depth);
    }
  }

  // Nothing else is parsed.

  lemma ItemsTextOf(text: string, pos: nat, mid: nat, behind: nat, end: nat, x: Json, rest: seq<Json>, items: seq<Json>)
    requires pos < mid <= behind < end <= |text| && Spaces(text, mid, behind) && items == [x] + rest
    ensures ValueText(text, pos, mid, x) && BehindItem(text, behind, end, rest) ==> ItemsText(text, pos, end, items)
  {
    assert items[0] == x && items[1..] == rest;
  }

  lemma FieldsTextOf(text: string, pos: nat, mid: nat, behind: nat, end: nat, f: Field, rest: seq<Field>, fields: seq<Field>)
    requires pos < mid <= behind < end <= |text| && Spaces(text, mid, behind) && fields == [f] + rest
    ensures FieldText(text, pos, mid, f) && BehindField(text, behind, end, rest) ==> FieldsText(text, pos, end, fields)
  {
    assert fields[0] == f && fields[1..] == rest;
  }

  lemma {:induction false} ParsedIsValue(text: string, pos: nat, depth: nat, r: Option<Parsed<Json>>)
    requires Terminated(text) && pos < |text| && r == ParseValue(text, pos, depth)
    ensures r.Some? ==> ValueText(text, pos, r.value.next, r.value.value) && Fits(r.value.value, depth)
    decreases |text| - pos, 1
  {
    if text[pos] == '[' {
      ParsedIsList(text, pos, depth + 1, r);
    } else if text[pos] == '{' {
      ParsedIsObject(text, pos, depth + 1, r);
    } else {
      ParsedIsScalar(text, pos, depth, r);
    }
  }

  lemma ParsedIsScalar(text: string, pos: nat, depth: nat, r: Option<Parsed<Json>>)
    requires Terminated(text) && pos < |text| && text[pos] != '[' && text[pos] != '{' && r == ParseValue(text, pos, depth)
    ensures r.Some? ==> ValueText(text, pos, r.value.next, r.value.value) && Fits(r.value.value, depth)
  {
    if r.Some? {
      match text[pos]
      case '\"' => ParsedIsQuoted(text, pos);
      case 't' => StartsWithIsSlice(text, pos, "true");
      case 'f' => StartsWithIsSlice(text, pos, "false");
      case 'n' => StartsWithIsSlice(text, pos, "null");
      case _ => NumberEndIsGrammar(text, pos, Minus, r.value.next);
    }
  }

  lemma {:induction false} ParsedIsList(text: string, pos: nat, depth: nat, r: Option<Parsed<Json>>)
    requires Terminated(text) && pos < |text| && text[pos] == '[' && r == ParseList(text, pos, depth)
    ensures r.Some? ==>
      && r.value.value.List? && ListText(text, pos, r.value.next, r.value.value.items)
      && depth <= MAX_DEPTH && AllFit(r.value.value.items, depth + 1)
    decreases |text| - pos, 0
  {
    if r.Some? {
      var first, items := SkipSpace(text, pos + 1), ParseItems(text, SkipSpace(text, pos + 1), depth);
      SkipSpaceIsSpaces(text, pos + 1);
      ParsedAreItems(text, first, depth, items);
      assert InList(text, first, r.value.next, r.value.value.items);
    }
  }

  /** What the loop finds behind one of the items. */
  predicate ItemsGoOn(text: string, behind: nat, depth: nat, end: nat, rest: seq<Json>)
    requires Terminated(text) && behind < |text|
  {
    if text[behind] == ']' then rest == [] && end == behind + 1
    else text[behind] == ',' && behind + 1 < |text| && ParseItems(text, SkipSpace(text, behind + 1), depth) == Some(Parsed(end, rest))
  }

  lemma ParseItemsGoesOn(text: string, pos: nat, depth: nat, r: Parsed<seq<Json>>) returns (x: Parsed<Json>, behind: nat, rest: seq<Json>)
    requires Terminated(text) && pos < |text| && ParseItems(text, pos, depth) == Some(r)
    ensures ParseValue(text, pos, depth + 1) == Some(x) && x.next < |text| && behind == SkipSpace(text, x.next)
    ensures r.value == [x.value] + rest && ItemsGoOn(text, behind, depth, r.next, rest)
  {
    x := ParseValue(text, pos, depth + 1).value;
    behind := SkipSpace(text, x.next);
    rest := if text[behind] == ']' then [] else ParseItems(text, SkipSpace(text, behind + 1), depth).value.value;
  }

  lemma {:induction false} ParsedAreItems(text: string, pos: nat, depth: nat, r: Option<Parsed<seq<Json>>>)
    requires Terminated(text) && pos < |text| && r == ParseItems(text, pos, depth)
    ensures r.Some? ==> r.value.value != [] && ItemsText(text, pos, r.value.next, r.value.value) && AllFit(r.value.value, depth + 1)
    decreases |text| - pos, 2
  {
    if r.Some? {
      var x, behind, rest := ParseItemsGoesOn(text, pos, depth, r.value);
      ParsedIsValue(text, pos, depth + 1, Some(x));
      SkipSpaceIsSpaces(text, x.next);
      ParsedBehindItems(text, behind, depth, r.value.next, rest);
      ItemsTextOf(text, pos, x.next, behind, r.value.next, x.value, rest, r.value.value);
      assert r.value.value[0] == x.value && r.value.value[1..] == rest;
      AllFitParts(r.value.value, depth + 1);
    }
  }

  lemma {:induction false} ParsedBehindItems(text: string, behind: nat, depth: nat, end: nat, rest: seq<Json>)
    requires Terminated(text) && behind < |text| && ItemsGoOn(text, behind, depth, end, rest)
    ensures behind < end <= |text| && BehindItem(text, behind, end, rest) && AllFit(rest, depth + 1)
    decreases |text| - behind, 0
  {
    if text[behind] == ',' {
      SkipSpaceIsSpaces(text, behind + 1);
      var next := SkipSpace(text, behind + 1);
      ParsedAreItems(text, next, depth, Some(Parsed(end, rest)));
    }
  }

  lemma {:induction false} ParsedIsObject(text: string, pos: nat, depth: nat, r: Option<Parsed<Json>>)
    requires Terminated(text) && pos < |text| && text[pos] == '{' && r == ParseObject(text, pos, depth)
    ensures r.Some? ==>
      && r.value.value.Object? && ObjectText(text, pos, r.value.next, r.value.value.fields)
      && depth <= MAX_DEPTH && AllFieldsFit(r.value.value.fields, depth + 1)
    decreases |text| - pos, 0
  {
    if r.Some? {
      var first, fields := SkipSpace(text, pos + 1), ParseFields(text, SkipSpace(text, pos + 1), depth);
      SkipSpaceIsSpaces(text, pos + 1);
      ParsedAreFields(text, first, depth, fields);
      assert InObject(text, first, r.value.next, r.value.value.fields);
    }
  }

  lemma {:induction false} ParsedIsField(text: string, pos: nat, depth: nat, r: Option<Parsed<Field>>)
    requires Terminated(text) && pos < |text| && r == ParseField(text, pos, depth)
    ensures r.Some? ==> FieldText(text, pos, r.value.next, r.value.value) && Fits(r.value.value.value, depth + 1)
    decreases |text| - pos, 2
  {
    if r.Some? {
      var key := ParseString(text, pos).value;
      var colon := SkipSpace(text, key.next);
      var start := SkipSpace(text, colon + 1);
      ParsedIsQuoted(text, pos);
      SkipSpaceIsSpaces(text, key.next);
      SkipSpaceIsSpaces(text, colon + 1);
      ParsedIsValue(text, start, depth + 1, ParseValue(text, start, depth + 1));
    }
  }

  /** What the loop finds behind one of the fields. */
  predicate FieldsGoOn(text: string, behind: nat, depth: nat, end: nat, rest: seq<Field>)
    requires Terminated(text) && behind < |text|
  {
    if text[behind] == '}' then rest == [] && end == behind + 1
    else text[behind] == ',' && behind + 1 < |text| && ParseFields(text, SkipSpace(text, behind + 1), depth) == Some(Parsed(end, rest))
  }

  lemma ParseFieldsGoesOn(text: string, pos: nat, depth: nat, r: Parsed<seq<Field>>) returns (f: Parsed<Field>, behind: nat, rest: seq<Field>)
    requires Terminated(text) && pos < |text| && ParseFields(text, pos, depth) == Some(r)
    ensures ParseField(text, pos, depth) == Some(f) && f.next < |text| && behind == SkipSpace(text, f.next)
    ensures r.value == [f.value] + rest && FieldsGoOn(text, behind, depth, r.next, rest)
  {
    f := ParseField(text, pos, depth).value;
    behind := SkipSpace(text, f.next);
    rest := if text[behind] == '}' then [] else ParseFields(text, SkipSpace(text, behind + 1), depth).value.value;
  }

  lemma {:induction false} ParsedAreFields(text: string, pos: nat, depth: nat, r: Option<Parsed<seq<Field>>>)
    requires Terminated(text) && pos < |text| && r == ParseFields(text, pos, depth)
    ensures r.Some? ==> r.value.value != [] && FieldsText(text, pos, r.value.next, r.value.value) && AllFieldsFit(r.value.value, depth + 1)
    decreases |text| - pos, 3
  {
    if r.Some? {
      var f, behind, rest := ParseFieldsGoesOn(text, pos, depth, r.value);
      ParsedIsField(text, pos, depth, Some(f));
      SkipSpaceIsSpaces(text, f.next);
      ParsedBehindFields(text, behind, depth, r.value.next, rest);
      FieldsTextOf(text, pos, f.next, behind, r.value.next, f.value, rest, r.value.value);
      assert r.value.value[0] == f.value && r.value.value[1..] == rest;
      AllFieldsFitParts(r.value.value, depth + 1);
    }
  }

  lemma {:induction false} ParsedBehindFields(text: string, behind: nat, depth: nat, end: nat, rest: seq<Field>)
    requires Terminated(text) && behind < |text| && FieldsGoOn(text, behind, depth, end, rest)
    ensures behind < end <= |text| && BehindField(text, behind, end, rest) && AllFieldsFit(rest, depth + 1)
    decreases |text| - behind, 0
  {
    if text[behind] == ',' {
      SkipSpaceIsSpaces(text, behind + 1);
      var next := SkipSpace(text, behind + 1);
      ParsedAreFields(text, next, depth, Some(Parsed(end, rest)));
    }
  }

  // Documents.

  /** White space, a value, white space, and the end of the text (its first NUL). */
  ghost predicate DocumentText(text: string, v: Json) {
    exists pos: nat, end: nat, last: nat ::
      Spaces(text, 0, pos) && ValueText(text, pos, end, v) && Spaces(text, end, last) && last < |text| && text[last] == '\0'
  }

  /** The parser accepts exactly the documents that are nested at most 5000 deep, and reads them as the grammar says. */
  lemma ParseIsGrammar(text: string, v: Json)
    requires Terminated(text)
    ensures Parse(text) == Some(v) <==> DocumentText(text, v) && Nesting(v) <= 5000
  {
    FitsIffNesting(v, 0);
    if Parse(text) == Some(v) {
      DocumentIsSpelled(text, v);
    }
    if DocumentText(text, v) && Nesting(v) <= 5000 {
      DocumentIsParsed(text, v);
    }
  }

  lemma ParseAccepts(text: string)
    requires Terminated(text)
    ensures Parse(text).Some? <==> exists v :: DocumentText(text, v) && Nesting(v) <= 5000
    ensures forall v :: DocumentText(text, v) && Nesting(v) <= 5000 ==> Parse(text) == Some(v)
  {
    forall v
      ensures Parse(text) == Some(v) <==> DocumentText(text, v) && Nesting(v) <= 5000
    {
      ParseIsGrammar(text, v);
    }
    if Parse(text).Some? {
      ParseIsGrammar(text, Parse(text).value);
    }
  }

  lemma DocumentIsSpelled(text: string, v: Json)
    requires Terminated(text) && Parse(text) == Some(v)
    ensures DocumentText(text, v) && Fits(v, 0)
  {
    var pos := SkipSpace(text, 0);
    var r := ParseValue(text, pos, 0);
    SkipSpaceIsSpaces(text, 0);
    ParsedIsValue(text, pos, 0, r);
    SkipSpaceIsSpaces(text, r.value.next);
  }

  lemma DocumentIsParsed(text: string, v: Json)
    requires Terminated(text) && DocumentText(text, v) && Fits(v, 0)
    ensures Parse(text) == Some(v)
  {
    var pos: nat, end: nat, last: nat :|
      Spaces(text, 0, pos) && ValueText(text, pos, end, v) && Spaces(text, end, last) && last < |text| && text[last] == '\0';
    ValueBegins(text, pos, end, v);
    SpacesAreSkipped(text, 0, pos);
    SpacesAreSkipped(text, end, last);
    ValueIsParsed(text, pos, end, v, 0);
  }
}
