// JSON string texts, what the printer, the parser and the reader of values have in common: escaping,
// unescaping and the scan for the closing quote. A char is one byte of the original's text. Raw text
// falls into pieces, each a plain character or one escape; the scan and unescape step from piece to
// piece, and every character is printed as one piece.
module JsonText {
  import opened Options
  import opened Texts

  const QUOTE := '\"'
  const BACKSLASH := '\\'
  const NUL := '\0'
  const BACKSPACE := 8 as char
  const FORM_FEED := 12 as char

  // escape

  function HexDigit(d: int): (c: char)
    requires 0 <= d < 16
    ensures IsHex(c) && FromHex(c) == d
  {
    if d < 10 then ('0' as int + d) as char else ('a' as int + d - 10) as char
  }

  function EscapeChar(c: char): (e: string)
    ensures e != ""
  {
    if c == QUOTE then "\\\""
    else if c == BACKSLASH then "\\\\"
    else if c == '\n' then "\\n"
    else if c == BACKSPACE then "\\b"
    else if c == FORM_FEED then "\\f"
    else if c == '\r' then "\\r"
    else if c == '\t' then "\\t"
    else if c as int < 0x20 then "\\u00" + [HexDigit(c as int / 16), HexDigit(c as int % 16)]
    else [c]
  }

  function Escape(s: string): string {
    if s == "" then "" else EscapeChar(s[0]) + Escape(s[1..])
  }

  method EscapeOnto(s: string, ret: string) returns (out: string)
    ensures out == ret + Escape(s)
  {
    out := ret;
    for i := 0 to |s|
      invariant out + Escape(s[i..]) == ret + Escape(s)
    {
      assert s[i..][1..] == s[i + 1..];
      out := out + EscapeChar(s[i]);
    }
  }

  // unescape

  predicate IsHex(c: char) {
    '0' <= c <= '9' || 'a' <= c <= 'f' || 'A' <= c <= 'F'
  }

  function FromHex(c: char): (d: int)
    requires IsHex(c)
    ensures 0 <= d < 16
  {
    if c >= 'a' then c as int - 'a' as int + 10
    else if c >= 'A' then c as int - 'A' as int + 10
    else c as int - '0' as int
  }

  predicate IsHex4(s: string, at: nat) {
    at + 4 <= |s| && IsHex(s[at]) && IsHex(s[at + 1]) && IsHex(s[at + 2]) && IsHex(s[at + 3])
  }

  function Code(s: string, at: nat): (code: int)
    requires IsHex4(s, at)
    ensures 0 <= code < 0x1_0000
  {
    FromHex(s[at]) * 0x1000 + FromHex(s[at + 1]) * 0x100 + FromHex(s[at + 2]) * 0x10 + FromHex(s[at + 3])
  }

  /** The bytes of a code unit: one, two or three of them (surrogates are not joined). */
  function CodeBytes(code: int): (bytes: string)
    requires 0 <= code < 0x1_0000
    ensures 1 <= |bytes| <= 3
    ensures forall c :: c in bytes ==> c as int < 0x100
  {
    if code >= 0x800 then
      [(0xE0 + code / 0x1000) as char, (0x80 + code / 0x40 % 0x40) as char, (0x80 + code % 0x40) as char]
    else if code >= 0x80 then [(0xC0 + code / 0x40) as char, (0x80 + code % 0x40) as char]
    else [code as char]
  }

  predicate IsEscape(c: char) {
    c == QUOTE || c == BACKSLASH || c == '/' || c == 'b' || c == 'f' || c == 'n' || c == 'r' || c == 't'
  }

  function EscapedChar(c: char): char
    requires IsEscape(c)
  {
    match c
    case 'b' => BACKSPACE
    case 'f' => FORM_FEED
    case 'n' => '\n'
    case 'r' => '\r'
    case 't' => '\t'
    case _ => c
  }

  /** Length of the piece at a position of raw string text; 0 where the parser gives up. */
  function PieceLength(raw: string, at: nat): (n: nat)
    requires at < |raw|
    ensures at + n <= |raw|
  {
    if raw[at] != BACKSLASH then 1
    else if at + 1 < |raw| && IsEscape(raw[at + 1]) then 2
    else if at + 1 < |raw| && raw[at + 1] == 'u' && IsHex4(raw, at + 2) then 6
    else 0
  }

  /** The bytes one piece stands for. */
  function PieceBytes(raw: string, at: nat): (bytes: string)
    requires at < |raw| && PieceLength(raw, at) > 0
    ensures 1 <= |bytes| <= PieceLength(raw, at)
  {
    if raw[at] != BACKSLASH then [raw[at]]
    else if PieceLength(raw, at) == 2 then [EscapedChar(raw[at + 1])]
    else CodeBytes(Code(raw, at + 2))
  }

  /** Raw text the parser lets through between two quotes: every backslash starts a known escape. */
  predicate WellEscaped(raw: string, at: nat)
    requires at <= |raw|
    decreases |raw| - at
  {
    at == |raw| || (PieceLength(raw, at) > 0 && WellEscaped(raw, at + PieceLength(raw, at)))
  }

  function Unescaped(raw: string, at: nat): string
    requires at <= |raw| && WellEscaped(raw, at)
    decreases |raw| - at
  {
    if at == |raw| then "" else PieceBytes(raw, at) + Unescaped(raw, at + PieceLength(raw, at))
  }

  /** Without a backslash there is nothing to do: what the `has_escaping` flag relies on. */
  lemma {:induction false} PlainIsUnescaped(raw: string, at: nat)
    requires at <= |raw| && forall i :: at <= i < |raw| ==> raw[i] != BACKSLASH
    ensures WellEscaped(raw, at) && Unescaped(raw, at) == raw[at..]
    decreases |raw| - at
  {
    if at < |raw| {
      PlainIsUnescaped(raw, at + 1);
    }
  }

  /** Unescaping never makes text longer, so it can be done in place. */
  lemma {:induction false} UnescapedNotLonger(raw: string, at: nat)
    requires at <= |raw| && WellEscaped(raw, at)
    ensures |Unescaped(raw, at)| <= |raw| - at
    decreases |raw| - at
  {
    if at < |raw| {
      UnescapedNotLonger(raw, at + PieceLength(raw, at));
    }
  }

  lemma HexPairCode(text: string, at: nat, c: char)
    requires c as int < 0x20 && StartsWith(text, at, "00" + [HexDigit(c as int / 16), HexDigit(c as int % 16)])
    ensures IsHex4(text, at) && Code(text, at) == c as int && CodeBytes(Code(text, at)) == [c]
  {
    var piece := "00" + [HexDigit(c as int / 16), HexDigit(c as int % 16)];
    assert |piece| == 4;
    StartsWithAt(text, at, piece, 0);
    StartsWithAt(text, at, piece, 1);
    StartsWithAt(text, at, piece, 2);
    StartsWithAt(text, at, piece, 3);
  }

  /** Reading a printed character where it stands: one piece, standing for that character. */
  lemma EscapedCharIsPiece(text: string, at: nat, c: char)
    requires StartsWith(text, at, EscapeChar(c))
    ensures at < |text| && text[at] != QUOTE && text[at] != NUL
    ensures PieceLength(text, at) == |EscapeChar(c)| && PieceBytes(text, at) == [c]
  {
    var e := EscapeChar(c);
    StartsWithAt(text, at, e, 0);
    if e[0] == BACKSLASH {
      StartsWithAt(text, at, e, 1);
      if e[1] == 'u' {
        assert e == "\\u" + ("00" + [HexDigit(c as int / 16), HexDigit(c as int % 16)]);
        StartsWithParts(text, at, "\\u", "00" + [HexDigit(c as int / 16), HexDigit(c as int % 16)]);
        HexPairCode(text, at + 2, c);
      }
    }
  }

  /** unescape undoes escape, for every byte string. */
  lemma {:induction false} UnescapeEscape(raw: string, at: nat, s: string)
    requires StartsWith(raw, at, Escape(s)) && at + |Escape(s)| == |raw|
    ensures WellEscaped(raw, at) && Unescaped(raw, at) == s
    decreases |s|
  {
    if s != "" {
      var next := at + |EscapeChar(s[0])|;
      StartsWithParts(raw, at, EscapeChar(s[0]), Escape(s[1..]));
      EscapedCharIsPiece(raw, at, s[0]);
      UnescapeEscape(raw, next, s[1..]);
      PieceThenRest(raw, at, s[0], s[1..]);
      assert s == [s[0]] + s[1..];
    }
  }

  lemma PieceThenRest(raw: string, at: nat, c: char, rest: string)
    requires at < |raw| && PieceLength(raw, at) > 0 && PieceBytes(raw, at) == [c]
    requires WellEscaped(raw, at + PieceLength(raw, at)) && Unescaped(raw, at + PieceLength(raw, at)) == rest
    ensures WellEscaped(raw, at) && Unescaped(raw, at) == [c] + rest
  {
  }

  lemma EscapeRoundTrip(s: string)
    ensures WellEscaped(Escape(s), 0) && Unescaped(Escape(s), 0) == s
  {
    StartsWithIsSlice(Escape(s), 0, Escape(s));
    UnescapeEscape(Escape(s), 0, s);
  }

  // decode_string: the scan for the closing quote

  predicate Terminated(text: string) {
    text != "" && text[|text| - 1] == NUL
  }

  /** Position of the closing quote of string text that starts at `at`. */
  function StringEnd(text: string, at: nat): (end: Option<nat>)
    requires Terminated(text) && at < |text|
    ensures end.Some? ==> at <= end.value < |text| - 1 && text[end.value] == QUOTE
    decreases |text| - at
  {
    if text[at] == NUL then None
    else if text[at] == QUOTE then Some(at)
    else if PieceLength(text, at) == 0 || at + PieceLength(text, at) == |text| then None
    else StringEnd(text, at + PieceLength(text, at))
  }

  lemma PieceInside(text: string, at: nat)
    requires Terminated(text) && at < |text| && text[at] != NUL && PieceLength(text, at) > 0
    ensures at + PieceLength(text, at) < |text|
  {
  }

  /** What the scan accepts is well escaped, and the pieces are the ones it saw. */
  lemma {:induction false} StringEndWellEscaped(text: string, at: nat)
    requires Terminated(text) && at < |text| && StringEnd(text, at).Some?
    ensures WellEscaped(text[..StringEnd(text, at).value], at)
    decreases |text| - at
  {
    var end := StringEnd(text, at).value;
    if text[at] != QUOTE {
      PieceInside(text, at);
      var next := at + PieceLength(text, at);
      StringEndWellEscaped(text, next);
      assert PieceLength(text[..end], at) == PieceLength(text, at);
    }
  }

  lemma StringEndOfEscaped(text: string, at: nat, s: string)
    requires Terminated(text) && StartsWith(text, at, Escape(s) + [QUOTE])
    ensures StringEnd(text, at) == Some(at + |Escape(s)|)
  {
    StringEndAt(text, at, s, at + |Escape(s)|);
  }

  lemma {:induction false} StringEndAt(text: string, at: nat, s: string, end: nat)
    requires Terminated(text) && StartsWith(text, at, Escape(s) + [QUOTE]) && end == at + |Escape(s)|
    ensures at < |text| && StringEnd(text, at) == Some(end)
    decreases |s|
  {
    StartsWithAt(text, at, Escape(s) + [QUOTE], 0);
    if s != "" {
      var e, rest := EscapeChar(s[0]), Escape(s[1..]) + [QUOTE];
      assert Escape(s) + [QUOTE] == e + rest;
      StartsWithParts(text, at, e, rest);
      EscapedCharIsPiece(text, at, s[0]);
      StringEndAt(text, at + |e|, s[1..], end);
      StringEndStep(text, at, |e|);
    }
  }

  lemma StringEndStep(text: string, at: nat, n: nat)
    requires Terminated(text) && at < |text| && text[at] != NUL && text[at] != QUOTE
    requires n == PieceLength(text, at) > 0 && at + n < |text|
    ensures StringEnd(text, at) == StringEnd(text, at + n)
  {
  }
}
