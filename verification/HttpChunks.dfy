// Chunked bodies (section 4.1 of RFC 7230) and what the parser makes of them.
module HttpChunks {
  import opened Bytes
  import opened HttpBody

  /** A chunk: size digits, whatever stands behind them on the size line, and the data. */
  datatype Chunk = Chunk(digits: seq<byte>, parameters: seq<byte>, data: seq<byte>)

  const LIMIT: nat := 0xFFFF_FFFF_FFFF_FFEF

  /** The octet is the hexadecimal digit for a value, upper or lower case. */
  predicate IsHexDigit(octet: byte, d: nat) {
    match d
    case 0 => octet == 48 case 1 => octet == 49 case 2 => octet == 50 case 3 => octet == 51 case 4 => octet == 52
    case 5 => octet == 53 case 6 => octet == 54 case 7 => octet == 55 case 8 => octet == 56 case 9 => octet == 57
    case 10 => octet == 65 || octet == 97 case 11 => octet == 66 || octet == 98 case 12 => octet == 67 || octet == 99
    case 13 => octet == 68 || octet == 100 case 14 => octet == 69 || octet == 101 case 15 => octet == 70 || octet == 102
    case _ => false
  }

  /** Hexadecimal text of a number, leading zeros allowed. */
  predicate IsHexText(text: seq<byte>, n: nat)
    decreases |text|
  {
    if text == [] then n == 0
    else IsHexDigit(text[|text| - 1], n % 16) && IsHexText(text[..|text| - 1], n / 16)
  }

  /** The parser's table holds these digits and no others. */
  lemma UnhexIsDigit(octet: byte)
    ensures Unhex(octet) >= 0 ==> IsHexDigit(octet, Unhex(octet))
    ensures forall d: nat :: IsHexDigit(octet, d) ==> Unhex(octet) == d
  {
  }

  predicate AllHex(digits: seq<byte>) {
    forall i :: 0 <= i < |digits| ==> Unhex(digits[i]) >= 0
  }

  function HexOf(digits: seq<byte>): nat
    requires AllHex(digits)
  {
    if digits == [] then 0 else HexOf(digits[..|digits| - 1]) * 16 + Unhex(digits[|digits| - 1])
  }

  lemma {:induction false} HexTextIsRead(text: seq<byte>, n: nat)
    ensures IsHexText(text, n) <==> AllHex(text) && HexOf(text) == n
    decreases |text|
  {
    if text != [] {
      var front, last := text[..|text| - 1], text[|text| - 1];
      HexTextIsRead(front, n / 16);
      UnhexIsDigit(last);
      assert AllHex(text) <==> AllHex(front) && Unhex(last) >= 0;
    }
  }

  /** An extension: a semicolon or a space, and anything but a carriage return. */
  predicate Parameters(text: seq<byte>) {
    text != [] ==> (text[0] == 59 || text[0] == 32) && forall i :: 0 <= i < |text| ==> text[i] != 13
  }

  /** A size line the header limit admits. */
  predicate SizeLine(digits: seq<byte>, parameters: seq<byte>, size: nat) {
    digits != [] && IsHexText(digits, size) && Parameters(parameters) && |digits| + |parameters| + 2 <= 81920
  }

  predicate WellFormed(c: Chunk) {
    SizeLine(c.digits, c.parameters, |c.data|) && 0 < |c.data| <= LIMIT
  }

  predicate LastChunk(c: Chunk) {
    SizeLine(c.digits, c.parameters, 0) && c.data == []
  }

  function Wire(c: Chunk): seq<byte> {
    c.digits + (c.parameters + ([13, 10] + (c.data + [13, 10])))
  }

  function WireAll(chunks: seq<Chunk>): seq<byte> {
    if chunks == [] then [] else WireAll(chunks[..|chunks| - 1]) + Wire(chunks[|chunks| - 1])
  }

  function Body(chunks: seq<Chunk>): seq<byte> {
    if chunks == [] then [] else Body(chunks[..|chunks| - 1]) + chunks[|chunks| - 1].data
  }

  /** In front of a size line. */
  predicate AtChunk(p: Parser) {
    p.state == ChunkSizeStart && p.nread == 0 && p.errno == Ok
  }

  lemma {:induction false} HexPrefix(digits: seq<byte>)
    requires AllHex(digits) && digits != []
    ensures AllHex(digits[..|digits| - 1]) && HexOf(digits[..|digits| - 1]) <= HexOf(digits)
    ensures HexOf(digits) <= LIMIT ==> !WouldOverflow(HexOf(digits[..|digits| - 1]), 16)
  {
  }

  /** The size digits are accumulated exactly. */
  lemma {:induction false} RunDigits(p: Parser, digits: seq<byte>)
    requires AtChunk(p) && AllHex(digits) && digits != [] && HexOf(digits) <= LIMIT && |digits| <= MAX_HEADER_SIZE
    ensures Run(p, digits) == p.(state := ChunkSize, contentLength := HexOf(digits), nread := |digits|)
    decreases |digits|
  {
    HexPrefix(digits);
    var front := digits[..|digits| - 1];
    if front == [] {
      assert Run(p, front) == p && HexOf(front) == 0;
    } else {
      RunDigits(p, front);
    }
  }

  lemma {:induction false} RunParameters(p: Parser, text: seq<byte>)
    requires p.state == ChunkSize && p.errno == Ok && Parameters(text) && p.nread + |text| <= MAX_HEADER_SIZE
    ensures Run(p, text) == p.(state := if text == [] then ChunkSize else ChunkParameters, nread := p.nread + |text|)
    decreases |text|
  {
    if text != [] {
      RunParameters(p, text[..|text| - 1]);
      assert Unhex(SEMICOLON) == -1 && Unhex(SPACE) == -1;
    }
  }

  lemma RunTwo(p: Parser, a: byte, b: byte)
    ensures Run(p, [a, b]) == Step(Step(p, a), b)
  {
    assert [a, b][..1] == [a] && [a][..0] == [];
    assert Run(p, [a]) == Step(p, a);
  }

  /** A size line leaves the size behind. */
  lemma RunSizeLine(p: Parser, digits: seq<byte>, parameters: seq<byte>, size: nat)
    requires AtChunk(p) && SizeLine(digits, parameters, size) && size <= LIMIT
    ensures Run(p, digits + (parameters + [13, 10]))
         == p.(state := if size == 0 then TrailerStart else ChunkData, contentLength := size, nread := 0)
  {
    HexTextIsRead(digits, size);
    RunDigits(p, digits);
    var sized := Run(p, digits);
    RunParameters(sized, parameters);
    RunConcat(p, digits, parameters + [CR, LF]);
    RunConcat(sized, parameters, [CR, LF]);
    RunTwo(Run(sized, parameters), CR, LF);
    assert Unhex(CR) == -1;
  }

  /** Data octets are handed on; with the last one the chunk is over. */
  lemma {:induction false} RunData(p: Parser, data: seq<byte>)
    requires p.state == ChunkData && p.errno == Ok && |data| <= p.contentLength && p.contentLength > 0
    ensures Run(p, data) == p.(body := p.body + data, contentLength := p.contentLength - |data|,
                               state := if |data| == p.contentLength then ChunkDataAlmostDone else ChunkData)
    decreases |data|
  {
    if data == [] {
      assert p.body + [] == p.body;
    } else {
      var front, last := data[..|data| - 1], data[|data| - 1];
      RunData(p, front);
      assert p.body + front + [last] == p.body + data;
    }
  }

  /** The data of a chunk and the line end behind it. */
  lemma RunDataLine(p: Parser, data: seq<byte>)
    requires p.state == ChunkData && p.errno == Ok && |data| == p.contentLength > 0
    ensures Run(p, data + [CR, LF]) == p.(body := p.body + data, contentLength := 0, nread := 0, state := ChunkSizeStart)
  {
    RunData(p, data);
    RunConcat(p, data, [CR, LF]);
    RunTwo(Run(p, data), CR, LF);
  }

  lemma RunChunk(p: Parser, c: Chunk)
    requires AtChunk(p) && WellFormed(c)
    ensures Run(p, Wire(c)) == p.(body := p.body + c.data, contentLength := 0)
  {
    var line, rest := c.digits + (c.parameters + [CR, LF]), c.data + [CR, LF];
    assert Wire(c) == line + rest;
    RunSizeLine(p, c.digits, c.parameters, |c.data|);
    RunConcat(p, line, rest);
    RunDataLine(p.(state := ChunkData, contentLength := |c.data|), c.data);
  }

  /** In front of the next size line, with more of the body delivered. */
  predicate Delivered(p: Parser, q: Parser, data: seq<byte>) {
    q == p.(body := p.body + data, contentLength := q.contentLength)
  }

  lemma RunNextChunk(p: Parser, octets: seq<byte>, data: seq<byte>, c: Chunk)
    requires AtChunk(p) && Delivered(p, Run(p, octets), data) && WellFormed(c)
    ensures Delivered(p, Run(p, octets + Wire(c)), data + c.data)
  {
    RunConcat(p, octets, Wire(c));
    RunChunk(Run(p, octets), c);
    assert p.body + data + c.data == p.body + (data + c.data);
  }

  lemma {:induction false} RunChunks(p: Parser, chunks: seq<Chunk>)
    requires AtChunk(p) && forall i :: 0 <= i < |chunks| ==> WellFormed(chunks[i])
    ensures Delivered(p, Run(p, WireAll(chunks)), Body(chunks))
  {
    if chunks == [] {
      assert p.body + [] == p.body;
    } else {
      var front, last := chunks[..|chunks| - 1], chunks[|chunks| - 1];
      RunChunks(p, front);
      RunNextChunk(p, WireAll(front), Body(front), last);
    }
  }

  lemma RunOne(p: Parser, a: byte)
    ensures Run(p, [a]) == Step(p, a)
  {
    assert [a][..0] == [];
  }

  /** The last chunk and the carriage return behind it. */
  lemma RunLastChunk(p: Parser, last: Chunk)
    requires AtChunk(p) && LastChunk(last)
    ensures Run(p, LastLine(last)) == p.(state := HeadersAlmostDone, contentLength := 0, nread := 1)
  {
    var line := last.digits + (last.parameters + [CR, LF]);
    RunSizeLine(p, last.digits, last.parameters, 0);
    RunConcat(p, line, [CR]);
    RunOne(Run(p, line), CR);
  }

  function LastLine(last: Chunk): seq<byte> {
    last.digits + (last.parameters + [13, 10]) + [13]
  }

  /** The whole message but its final line feed. */
  function Unfinished(chunks: seq<Chunk>, last: Chunk): seq<byte> {
    WireAll(chunks) + LastLine(last)
  }

  lemma RunUnfinished(p: Parser, chunks: seq<Chunk>, last: Chunk)
    requires AtChunk(p) && (forall i :: 0 <= i < |chunks| ==> WellFormed(chunks[i])) && LastChunk(last)
    ensures Run(p, Unfinished(chunks, last))
         == p.(state := HeadersAlmostDone, contentLength := 0, nread := 1, body := p.body + Body(chunks))
  {
    RunChunks(p, chunks);
    RunConcat(p, WireAll(chunks), LastLine(last));
    RunLastChunk(Run(p, WireAll(chunks)), last);
  }

  lemma RunFinalLineFeed(p: Parser, octets: seq<byte>)
    requires var q := Run(p, octets); q.state == HeadersAlmostDone && q.errno == Ok && q.nread == 1
    ensures Run(p, octets + [LF]) == Run(p, octets).(completions := Run(p, octets).completions + 1, nread := 2)
  {
    RunConcat(p, octets, [LF]);
    RunOne(Run(p, octets), LF);
  }

  /**
   * A chunked body: everything up to the final line feed delivers exactly the decoded body and no
   * completion; the final line feed completes the message, once.
   */
  lemma ChunkedBody(chunks: seq<Chunk>, last: Chunk, length: nat)
    requires (forall i :: 0 <= i < |chunks| ==> WellFormed(chunks[i])) && LastChunk(last)
    ensures var before := Run(Start(true, length), Unfinished(chunks, last));
            && before.body == Body(chunks) && before.completions == 0 && before.errno == Ok
            && Run(Start(true, length), Unfinished(chunks, last) + [10]) == before.(completions := 1, nread := 2)
  {
    var p, octets := Start(true, length), Unfinished(chunks, last);
    RunUnfinished(p, chunks, last);
    assert [] + Body(chunks) == Body(chunks);
    RunFinalLineFeed(p, octets);
  }

  /** No message is reported complete before its last octet: completions never go down. */
  lemma {:induction false} CompletionsGrow(p: Parser, octets: seq<byte>)
    ensures Run(p, octets).completions >= p.completions
  {
    if octets != [] {
      CompletionsGrow(p, octets[..|octets| - 1]);
    }
  }

  lemma NotCompleteEarlier(p: Parser, octets: seq<byte>, n: nat)
    requires n <= |octets|
    ensures Run(p, octets[..n]).completions <= Run(p, octets).completions
  {
    assert octets == octets[..n] + octets[n..];
    RunConcat(p, octets[..n], octets[n..]);
    CompletionsGrow(Run(p, octets[..n]), octets[n..]);
  }
}
