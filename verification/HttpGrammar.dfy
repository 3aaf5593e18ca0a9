// Which octets the parser lets through behind the headers of a chunked message: beginnings of
// well-formed chunked messages, and nothing else.
module HttpGrammar {
  import opened Bytes
  import opened HttpBody
  import opened HttpChunks

  predicate AllWellFormed(chunks: seq<Chunk>) {
    forall i :: 0 <= i < |chunks| ==> WellFormed(chunks[i])
  }

  /** A chunk that has begun: what there is of its size line, and of its data. */
  datatype Begun = Begun(digits: seq<byte>, parameters: seq<byte>, size: nat, data: seq<byte>)

  /** The size line so far. */
  predicate SizeBegun(b: Begun) {
    && b.digits != [] && IsHexText(b.digits, b.size) && b.size <= LIMIT && Parameters(b.parameters)
    && |b.digits| + |b.parameters| <= 81920
  }

  function SizeSoFar(b: Begun): seq<byte> {
    b.digits + b.parameters
  }

  /** The octets of the begun chunk, by the state they lead to. */
  function PartOf(state: State, b: Begun): seq<byte> {
    match state
    case ChunkSize | ChunkParameters => SizeSoFar(b)
    case ChunkSizeAlmostDone => SizeSoFar(b) + [13]
    case ChunkData | ChunkDataAlmostDone => SizeSoFar(b) + [13, 10] + b.data
    case ChunkDataDone => SizeSoFar(b) + [13, 10] + b.data + [13]
    case TrailerStart => SizeSoFar(b) + [13, 10]
    case HeadersAlmostDone => SizeSoFar(b) + [13, 10] + [13]
    case _ => []
  }

  predicate Fitting(p: Parser, b: Begun) {
    match p.state
    case ChunkSizeStart => p.nread == 0
    case ChunkSize => SizeBegun(b) && b.parameters == [] && p.contentLength == b.size && p.nread == |SizeSoFar(b)|
    case ChunkParameters => SizeBegun(b) && b.parameters != [] && p.contentLength == b.size && p.nread == |SizeSoFar(b)|
    case ChunkSizeAlmostDone => SizeBegun(b) && p.contentLength == b.size && p.nread == |SizeSoFar(b)| + 1 <= 81920
    case ChunkData => SizeBegun(b) && |SizeSoFar(b)| + 2 <= 81920 && |b.data| < b.size && p.contentLength == b.size - |b.data|
    case ChunkDataAlmostDone | ChunkDataDone => SizeBegun(b) && |SizeSoFar(b)| + 2 <= 81920 && 0 < b.size == |b.data|
    case TrailerStart | HeadersAlmostDone => SizeBegun(b) && |SizeSoFar(b)| + 2 <= 81920 && b.size == 0
    case _ => false
  }

  function DataOf(state: State, b: Begun): seq<byte> {
    if state == ChunkData || state == ChunkDataAlmostDone || state == ChunkDataDone then b.data else []
  }

  /** Whole chunks, and the begun one. */
  predicate Shape(p: Parser, octets: seq<byte>, chunks: seq<Chunk>, b: Begun) {
    && p.errno == Ok && p.completions == 0 && AllWellFormed(chunks) && Fitting(p, b)
    && octets == WireAll(chunks) + PartOf(p.state, b)
    && p.body == Body(chunks) + DataOf(p.state, b)
  }

  lemma HexGrows(digits: seq<byte>, size: nat, ch: byte)
    requires Unhex(ch) >= 0
    ensures IsHexText(digits, size) ==> IsHexText(digits + [ch], size * 16 + Unhex(ch))
  {
    UnhexIsDigit(ch);
    assert (digits + [ch])[..|digits|] == digits;
    assert (size * 16 + Unhex(ch)) / 16 == size && (size * 16 + Unhex(ch)) % 16 == Unhex(ch);
  }

  /** What one octet makes of a parser and a begun chunk. */
  predicate Goes(p: Parser, b: Begun, ch: byte, next: Parser, after: Begun) {
    && Fitting(next, after) && PartOf(next.state, after) == PartOf(p.state, b) + [ch]
    && next.completions == p.completions
  }

  lemma FirstDigitGoes(p: Parser, ch: byte, b: Begun) returns (after: Begun)
    requires p.errno == Ok && p.state == ChunkSizeStart && Fitting(p, b) && Step(p, ch).errno == Ok
    ensures Goes(p, b, ch, Step(p, ch), after) && Step(p, ch).state == ChunkSize && Step(p, ch).body == p.body
  {
    HexGrows([], 0, ch);
    assert [] + [ch] == [ch];
    after := Begun([ch], [], Unhex(ch), []);
    assert SizeSoFar(after) == [ch];
  }

  lemma DigitGoes(p: Parser, ch: byte, b: Begun) returns (after: Begun)
    requires p.errno == Ok && p.state == ChunkSize && Fitting(p, b) && Step(p, ch).errno == Ok && Unhex(ch) >= 0
    ensures Goes(p, b, ch, Step(p, ch), after) && Step(p, ch).state == ChunkSize && Step(p, ch).body == p.body
  {
    var size := b.size * 16 + Unhex(ch);
    HexGrows(b.digits, b.size, ch);
    NoWrap(b.size, 16, Unhex(ch));
    after := Begun(b.digits + [ch], [], size, b.data);
    assert SizeSoFar(b) == b.digits && SizeSoFar(after) == b.digits + [ch];
    assert Unhex(13) == -1;
  }

  lemma ExtensionGoes(p: Parser, ch: byte, b: Begun) returns (after: Begun)
    requires p.errno == Ok && (p.state == ChunkSize || p.state == ChunkParameters) && Fitting(p, b) && Step(p, ch).errno == Ok
    requires ch != 13 && (p.state == ChunkSize ==> Unhex(ch) == -1)
    ensures Goes(p, b, ch, Step(p, ch), after) && Step(p, ch).state == ChunkParameters && Step(p, ch).body == p.body
  {
    after := b.(parameters := b.parameters + [ch]);
    assert SizeSoFar(after) == SizeSoFar(b) + [ch];
  }

  lemma SizeLineGoes(p: Parser, ch: byte, b: Begun)
    requires p.errno == Ok && (p.state == ChunkSize || p.state == ChunkParameters) && Fitting(p, b) && Step(p, ch).errno == Ok
    requires ch == 13
    ensures Goes(p, b, ch, Step(p, ch), b) && Step(p, ch).state == ChunkSizeAlmostDone && Step(p, ch).body == p.body
  {
  }

  lemma LineFeedGoes(p: Parser, ch: byte, b: Begun) returns (after: Begun)
    requires p.errno == Ok && p.state == ChunkSizeAlmostDone && Fitting(p, b) && Step(p, ch).errno == Ok
    ensures Goes(p, b, ch, Step(p, ch), after) && Step(p, ch).body == p.body && after.data == []
    ensures Step(p, ch).state == ChunkData || Step(p, ch).state == TrailerStart
  {
    after := b.(data := []);
    assert SizeSoFar(after) == SizeSoFar(b);
    assert SizeSoFar(b) + [13] + [10] == SizeSoFar(b) + [13, 10] == SizeSoFar(b) + [13, 10] + [];
  }

  lemma DataGoes(p: Parser, ch: byte, b: Begun) returns (after: Begun)
    requires p.errno == Ok && p.state == ChunkData && Fitting(p, b) && Step(p, ch).errno == Ok
    ensures Goes(p, b, ch, Step(p, ch), after) && Step(p, ch).body == p.body + [ch] && after.data == b.data + [ch]
    ensures Step(p, ch).state == ChunkData || Step(p, ch).state == ChunkDataAlmostDone
  {
    after := b.(data := b.data + [ch]);
    assert SizeSoFar(after) == SizeSoFar(b);
    assert SizeSoFar(b) + [13, 10] + (b.data + [ch]) == SizeSoFar(b) + [13, 10] + b.data + [ch];
  }

  lemma DataEndGoes(p: Parser, ch: byte, b: Begun)
    requires p.errno == Ok && p.state == ChunkDataAlmostDone && Fitting(p, b) && Step(p, ch).errno == Ok
    ensures Goes(p, b, ch, Step(p, ch), b) && Step(p, ch).state == ChunkDataDone && Step(p, ch).body == p.body
  {
  }

  lemma TrailerGoes(p: Parser, ch: byte, b: Begun)
    requires p.errno == Ok && p.state == TrailerStart && Fitting(p, b) && Step(p, ch).errno == Ok && ch == 13
    ensures Goes(p, b, ch, Step(p, ch), b) && Step(p, ch).state == HeadersAlmostDone && Step(p, ch).body == p.body
  {
  }

  /** The line feed behind the data makes the begun chunk a whole one. */
  lemma ChunkIsWhole(p: Parser, ch: byte, b: Begun) returns (c: Chunk)
    requires p.errno == Ok && p.state == ChunkDataDone && Fitting(p, b) && Step(p, ch).errno == Ok
    ensures WellFormed(c) && Wire(c) == PartOf(p.state, b) + [ch] && c.data == b.data
    ensures Step(p, ch) == p.(nread := 0, state := ChunkSizeStart)
  {
    c := Chunk(b.digits, b.parameters, b.data);
    assert Wire(c) == SizeSoFar(b) + [13, 10] + b.data + [13] + [10];
  }

  lemma Appended(whole: seq<byte>, part: seq<byte>, octets: seq<byte>, ch: byte, longer: seq<byte>)
    requires octets == whole + part && longer == part + [ch]
    ensures octets + [ch] == whole + longer
  {
  }

  /** An octet inside a chunk. */
  lemma PartGrows(p: Parser, octets: seq<byte>, chunks: seq<Chunk>, b: Begun, ch: byte, next: Parser, after: Begun)
    requires Shape(p, octets, chunks, b) && Goes(p, b, ch, next, after) && next.errno == Ok
    requires next.body == Body(chunks) + DataOf(next.state, after)
    ensures Shape(next, octets + [ch], chunks, after)
  {
    Appended(WireAll(chunks), PartOf(p.state, b), octets, ch, PartOf(next.state, after));
  }

  lemma InSizeLine(p: Parser, b: Begun, ch: byte) returns (after: Begun)
    requires p.errno == Ok && Fitting(p, b) && Step(p, ch).errno == Ok
    requires p.state == ChunkSizeStart || p.state == ChunkSize || p.state == ChunkParameters
    ensures Goes(p, b, ch, Step(p, ch), after) && Step(p, ch).body == p.body && DataOf(Step(p, ch).state, after) == []
  {
    if p.state == ChunkSizeStart {
      after := FirstDigitGoes(p, ch, b);
    } else if ch == 13 {
      SizeLineGoes(p, ch, b);
      after := b;
    } else if p.state == ChunkSize && Unhex(ch) >= 0 {
      after := DigitGoes(p, ch, b);
    } else {
      after := ExtensionGoes(p, ch, b);
    }
  }

  lemma BehindSizeLine(p: Parser, b: Begun, ch: byte) returns (after: Begun)
    requires p.errno == Ok && Fitting(p, b) && Step(p, ch).errno == Ok && Step(p, ch).completions == p.completions
    requires p.state == ChunkSizeAlmostDone || p.state == ChunkData || p.state == ChunkDataAlmostDone || p.state == TrailerStart
    requires p.state == TrailerStart ==> ch == 13
    ensures Goes(p, b, ch, Step(p, ch), after)
    ensures Step(p, ch).body == p.body + (if p.state == ChunkData then [ch] else [])
    ensures DataOf(Step(p, ch).state, after) == DataOf(p.state, b) + (if p.state == ChunkData then [ch] else [])
  {
    after := b;
    match p.state
    case ChunkSizeAlmostDone => after := LineFeedGoes(p, ch, b);
    case ChunkData => after := DataGoes(p, ch, b);
    case ChunkDataAlmostDone => DataEndGoes(p, ch, b);
    case TrailerStart => TrailerGoes(p, ch, b);
  }

  /** The octet that ends a chunk. */
  lemma WholeChunk(p: Parser, octets: seq<byte>, chunks: seq<Chunk>, b: Begun, ch: byte) returns (more: seq<Chunk>)
    requires Shape(p, octets, chunks, b) && p.state == ChunkDataDone && Step(p, ch).errno == Ok
    ensures Shape(Step(p, ch), octets + [ch], more, b)
  {
    var c := ChunkIsWhole(p, ch, b);
    more := chunks + [c];
    assert more[..|chunks|] == chunks;
    Appended(WireAll(chunks), PartOf(p.state, b), octets, ch, Wire(c));
    assert octets + [ch] == WireAll(more) + [];
    assert p.body == Body(more) + [];
  }

  lemma InsideChunk(p: Parser, b: Begun, ch: byte, before: seq<byte>) returns (after: Begun)
    requires p.errno == Ok && Fitting(p, b) && p.state != ChunkDataDone && p.body == before + DataOf(p.state, b)
    requires Step(p, ch).errno == Ok && Step(p, ch).completions == p.completions && Step(p, ch).state != Trailer
    ensures Goes(p, b, ch, Step(p, ch), after) && Step(p, ch).body == before + DataOf(Step(p, ch).state, after)
  {
    if p.state == ChunkSizeStart || p.state == ChunkSize || p.state == ChunkParameters {
      after := InSizeLine(p, b, ch);
    } else {
      after := BehindSizeLine(p, b, ch);
      assert before + DataOf(p.state, b) + [ch] == before + (DataOf(p.state, b) + [ch]);
    }
  }

  lemma StepKeepsShape(p: Parser, octets: seq<byte>, chunks: seq<Chunk>, b: Begun, ch: byte, next: Parser, longer: seq<byte>)
    returns (more: seq<Chunk>, after: Begun)
    requires next == Step(p, ch) && next.errno == Ok && next.completions == 0 && next.state != Trailer && longer == octets + [ch]
    ensures Shape(p, octets, chunks, b) ==> Shape(next, longer, more, after)
  {
    more, after := chunks, b;
    if Shape(p, octets, chunks, b) {
      if p.state == ChunkDataDone {
        more := WholeChunk(p, octets, chunks, b, ch);
      } else {
        after := InsideChunk(p, b, ch, Body(chunks));
        PartGrows(p, octets, chunks, b, ch, next, after);
      }
    }
  }

  lemma CompletionsStay(p: Parser, ch: byte)
    ensures Step(p, ch).completions >= p.completions
    ensures p.errno != Ok ==> Step(p, ch) == p
    ensures p.state == Trailer && Step(p, ch).errno == Ok ==> Step(p, ch).state == Trailer
  {
  }

  /**
   * What is let through before the message is complete is a beginning of a well-formed chunked message:
   * whole chunks and one begun; only a trailer field is not looked into.
   */
  lemma {:induction false} AcceptedIsBeginning(start: Parser, octets: seq<byte>) returns (chunks: seq<Chunk>, b: Begun)
    requires AtChunk(start) && start.body == [] && start.completions == 0
    requires Unrefused(Run(start, octets))
    ensures Shape(Run(start, octets), octets, chunks, b)
  {
    if octets == [] {
      chunks, b := [], Begun([], [], 0, []);
    } else {
      var front, last := octets[..|octets| - 1], octets[|octets| - 1];
      UnrefusedBefore(start, front, last, octets);
      chunks, b := AcceptedIsBeginning(start, front);
      chunks, b := StepKeepsShape(Run(start, front), front, chunks, b, last, Run(start, octets), octets);
    }
  }

  predicate Unrefused(p: Parser) {
    p.errno == Ok && p.completions == 0 && p.state != Trailer
  }

  lemma UnrefusedBefore(start: Parser, front: seq<byte>, last: byte, octets: seq<byte>)
    requires octets != [] && front == octets[..|octets| - 1] && last == octets[|octets| - 1] && Unrefused(Run(start, octets))
    ensures Unrefused(Run(start, front)) && Run(start, octets) == Step(Run(start, front), last) && octets == front + [last]
  {
    CompletionsStay(Run(start, front), last);
  }

  lemma CompletesAtLineFeed(p: Parser, ch: byte)
    requires p.completions == 0 && Step(p, ch).completions > 0
    requires p.errno == Ok ==> p.state != BodyIdentity && p.state != MessageDone && p.state != HeadersDone
    ensures Unrefused(p) && ch == 10 && (p.state == TrailerStart || p.state == HeadersAlmostDone) && Step(p, ch).body == p.body
  {
  }

  predicate Chunked(p: Parser) {
    p.errno == Ok ==> p.state != BodyIdentity && p.state != MessageDone && p.state != HeadersDone
  }

  lemma {:induction false} StaysChunked(start: Parser, octets: seq<byte>)
    requires Chunked(start)
    ensures Chunked(Run(start, octets))
  {
    if octets != [] {
      StaysChunked(start, octets[..|octets| - 1]);
    }
  }

  /** A message is complete only as a well-formed one: its last octet is the line feed behind the last chunk's line or an empty line. */
  lemma CompletedIsMessage(start: Parser, front: seq<byte>, ch: byte, octets: seq<byte>) returns (chunks: seq<Chunk>, last: Chunk)
    requires AtChunk(start) && start.body == [] && start.completions == 0 && octets == front + [ch]
    requires Run(start, front).completions == 0 && Run(start, octets).completions > 0
    ensures AllWellFormed(chunks) && LastChunk(last) && ch == 10 && Run(start, octets).body == Body(chunks)
    ensures front == Unfinished(chunks, last) || front + [13] == Unfinished(chunks, last)
  {
    assert octets[..|octets| - 1] == front;
    StaysChunked(start, front);
    CompletesAtLineFeed(Run(start, front), ch);
    var b;
    chunks, b := AcceptedIsBeginning(start, front);
    last := Chunk(b.digits, b.parameters, []);
    LastLineIs(chunks, b, last);
    assert Body(chunks) + [] == Body(chunks);
  }

  lemma LastLineIs(chunks: seq<Chunk>, b: Begun, last: Chunk)
    requires last == Chunk(b.digits, b.parameters, [])
    ensures WireAll(chunks) + PartOf(HeadersAlmostDone, b) == Unfinished(chunks, last)
    ensures WireAll(chunks) + PartOf(TrailerStart, b) + [13] == Unfinished(chunks, last)
  {
    assert PartOf(HeadersAlmostDone, b) == LastLine(last) == PartOf(TrailerStart, b) + [13];
  }
}
