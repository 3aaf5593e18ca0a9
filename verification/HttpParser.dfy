// http_parser_execute in its body states: whole runs of body octets are taken at once and reported
// through a mark into the buffer.
module HttpParser {
  import opened Bytes
  import opened HttpBody
  import opened HttpChunks

  datatype Mark = None | At(pos: nat)

  /** `k` body octets at once are `k` single steps. */
  lemma {:induction false} RunBody(p: Parser, octets: seq<byte>)
    requires p.errno == Ok && (p.state == ChunkData || p.state == BodyIdentity)
    requires 0 < p.contentLength && |octets| <= p.contentLength
    ensures Run(p, octets)
         == if |octets| < p.contentLength then
              p.(contentLength := p.contentLength - |octets|, body := p.body + octets)
            else if p.state == ChunkData then
              p.(contentLength := 0, body := p.body + octets, state := ChunkDataAlmostDone)
            else
              p.(contentLength := 0, body := p.body + octets, state := MessageDone, completions := p.completions + 1)
    decreases |octets|
  {
    if octets == [] {
      assert p.body + [] == p.body;
    } else {
      var front, last := octets[..|octets| - 1], octets[|octets| - 1];
      RunBody(p, front);
      assert p.body + front + [last] == p.body + octets;
    }
  }

  lemma {:induction false} FailedStays(p: Parser, octets: seq<byte>)
    requires p.errno != Ok
    ensures Run(p, octets) == p
  {
    if octets != [] {
      FailedStays(p, octets[..|octets| - 1]);
    }
  }

  lemma RunPrefix(p: Parser, data: seq<byte>, pos: nat, k: nat)
    requires pos + k <= |data|
    ensures Run(p, data[..pos + k]) == Run(Run(p, data[..pos]), data[pos..pos + k])
  {
    assert data[..pos + k] == data[..pos] + data[pos..pos + k];
    RunConcat(p, data[..pos], data[pos..pos + k]);
  }

  lemma RunNext(p: Parser, data: seq<byte>, pos: nat)
    requires pos < |data|
    ensures Run(p, data[..pos + 1]) == Step(Run(p, data[..pos]), data[pos])
  {
    assert data[..pos + 1][..pos] == data[..pos];
  }

  /** The part of the body that is marked but not yet reported. */
  function Marked(data: seq<byte>, p: nat, mark: Mark): seq<byte>
    requires p <= |data| && (mark != None ==> mark.pos <= p)
  {
    if mark == None then [] else data[mark.pos..p]
  }

  lemma MarkGrows(body: seq<byte>, data: seq<byte>, mark: Mark, p: nat, next: nat)
    requires p <= next <= |data| && (mark != None ==> mark.pos <= p)
    ensures body + Marked(data, p, mark) + data[p..next]
         == body + Marked(data, next, if mark == None then At(p) else mark)
  {
    if mark != None {
      assert data[mark.pos..next] == data[mark.pos..p] + data[p..next];
    }
  }

  /** Once an octet was refused the rest of the buffer changes nothing. */
  lemma FailedAt(start: Parser, data: seq<byte>, p: nat)
    requires p < |data| && Step(Run(start, data[..p]), data[p]).errno != Ok
    ensures Run(start, data) == Step(Run(start, data[..p]), data[p])
  {
    var rest := |data| - p - 1;
    RunNext(start, data, p);
    RunPrefix(start, data, p + 1, rest);
    assert data[..p + 1 + rest] == data;
    FailedStays(Run(start, data[..p + 1]), data[p + 1..p + 1 + rest]);
  }

  function Concat(buffers: seq<seq<byte>>): seq<byte> {
    if buffers == [] then [] else Concat(buffers[..|buffers| - 1]) + buffers[|buffers| - 1]
  }

  /** What the buffers of a connection lead to when a parser that has completed its message takes no more of them. */
  function Fed(p: Parser, buffers: seq<seq<byte>>): Parser {
    if buffers == [] then p
    else
      var q := Fed(p, buffers[..|buffers| - 1]);
      if q.completions > 0 then q else Run(q, buffers[|buffers| - 1])
  }

  /** Some first buffers, as one run: all of them, or as many as complete the message. */
  lemma {:induction false} FedIsRun(p: Parser, buffers: seq<seq<byte>>) returns (n: nat)
    ensures n <= |buffers| && Fed(p, buffers) == Run(p, Concat(buffers[..n]))
    ensures n < |buffers| ==> Fed(p, buffers).completions > 0
  {
    n := |buffers|;
    assert buffers[..n] == buffers;
    if buffers != [] {
      var front, last := buffers[..n - 1], buffers[n - 1];
      var m := FedIsRun(p, front);
      assert front[..m] == buffers[..m];
      if Fed(p, front).completions > 0 {
        n := m;
      } else {
        RunConcat(p, Concat(front), last);
      }
    }
  }

  lemma {:induction false} ConcatPrefix(buffers: seq<seq<byte>>, n: nat)
    requires n <= |buffers|
    ensures Concat(buffers[..n]) <= Concat(buffers)
  {
    if n == |buffers| {
      assert buffers[..n] == buffers;
    } else {
      assert buffers[..|buffers| - 1][..n] == buffers[..n];
      ConcatPrefix(buffers[..|buffers| - 1], n);
    }
  }

  /** A body of known length, however its connection is cut into buffers. */
  predicate ReceivesIdentity(n: nat, octets: seq<byte>, now: Parser) {
    && now.errno == Ok && now.body == octets[..if |octets| < n then |octets| else n]
    && (now.completions > 0 <==> |octets| >= n)
  }

  lemma PrefixIsReceived(n: nat, fed: seq<byte>, octets: seq<byte>)
    requires fed <= octets && (|fed| < |octets| ==> |fed| >= n)
    ensures ReceivesIdentity(n, octets, AfterIdentity(n, fed))
  {
  }

  lemma IdentityIsReceived(n: nat, buffers: seq<seq<byte>>)
    requires 0 < n < ULLONG_MAX
    ensures ReceivesIdentity(n, Concat(buffers), Fed(Start(false, n), buffers))
  {
    var p := Start(false, n);
    var k := FedIsRun(p, buffers);
    var fed := Concat(buffers[..k]);
    ConcatPrefix(buffers, k);
    IdentityBody(n, fed);
    assert k == |buffers| ==> buffers[..k] == buffers;
    PrefixIsReceived(n, fed, Concat(buffers));
  }

  predicate IsChunkedMessage(chunks: seq<Chunk>, last: Chunk, octets: seq<byte>) {
    (forall i :: 0 <= i < |chunks| ==> WellFormed(chunks[i])) && LastChunk(last) && octets == Unfinished(chunks, last) + [10]
  }

  /** A chunked body, likewise: the decoded data, and one completion. */
  lemma ChunksAreReceived(length: nat, buffers: seq<seq<byte>>, chunks: seq<Chunk>, last: Chunk)
    requires IsChunkedMessage(chunks, last, Concat(buffers))
    ensures var now := Fed(Start(true, length), buffers);
      now.body == Body(chunks) && now.completions == 1 && now.errno == Ok
  {
    var p, octets, unfinished := Start(true, length), Concat(buffers), Unfinished(chunks, last);
    var k := FedIsRun(p, buffers);
    var fed := Concat(buffers[..k]);
    ConcatPrefix(buffers, k);
    ChunkedBody(chunks, last, length);
    assert buffers[..|buffers|] == buffers;
    if |fed| < |octets| {
      assert unfinished[..|fed|] == octets[..|fed|] == fed;
      NotCompleteEarlier(p, unfinished, |fed|);
    }
    assert fed == octets;
  }

  lemma {:induction false} FedStays(p: Parser, buffers: seq<seq<byte>>, n: nat)
    requires n <= |buffers| && Fed(p, buffers[..n]).errno != Ok
    ensures Fed(p, buffers) == Fed(p, buffers[..n])
    decreases |buffers| - n
  {
    if n < |buffers| {
      assert buffers[..n + 1][..n] == buffers[..n];
      FailedStays(Fed(p, buffers[..n]), buffers[n]);
      FedStays(p, buffers, n + 1);
    } else {
      assert buffers[..n] == buffers;
    }
  }

  lemma Received(start: Parser, buffers: seq<seq<byte>>)
    ensures forall n: nat | 0 < n < ULLONG_MAX && start == Start(false, n) ::
              ReceivesIdentity(n, Concat(buffers), Fed(start, buffers))
    ensures forall length: nat, chunks, last | IsChunkedMessage(chunks, last, Concat(buffers)) && start == Start(true, length) ::
              Fed(start, buffers).body == Body(chunks) && Fed(start, buffers).completions == 1 && Fed(start, buffers).errno == Ok
  {
    forall n: nat | 0 < n < ULLONG_MAX && start == Start(false, n)
      ensures ReceivesIdentity(n, Concat(buffers), Fed(start, buffers))
    {
      IdentityIsReceived(n, buffers);
    }
    forall length: nat, chunks, last | IsChunkedMessage(chunks, last, Concat(buffers)) && start == Start(true, length)
      ensures Fed(start, buffers).body == Body(chunks) && Fed(start, buffers).completions == 1 && Fed(start, buffers).errno == Ok
    {
      ChunksAreReceived(length, buffers, chunks, last);
    }
  }

  class HttpParser {
    var state: State
    var contentLength: nat
    var nread: nat
    var errno: Errno
    /** What on_body has appended to the request. */
    var body: seq<byte>
    var completions: nat

    ghost function Abstract(): Parser
      reads this
    {
      Parser(state, contentLength, nread, errno, body, completions)
    }

    ghost predicate Valid()
      reads this
    {
      Invariant(Abstract())
    }

    constructor (chunked: bool, contentLength: nat)
      requires contentLength <= ULLONG_MAX
      ensures Abstract() == Start(chunked, contentLength) && Valid()
    {
      var p := Start(chunked, contentLength);
      state, this.contentLength, nread, errno, body, completions := p.state, p.contentLength, 0, Ok, [], p.completions;
    }

    /**
     * The parser is where the single steps lead to; only when the octet behind chunk data is refused
     * the part of the data that is still marked is not reported.
     */
    ghost predicate Follows(q: Parser)
      reads this
    {
      && Abstract() == q.(body := body) && body <= q.body
      && (errno == Ok || state != ChunkDataAlmostDone ==> body == q.body)
    }

    /** One buffer; ends in the state the octets one by one lead to, with the same calls made. */
    method Execute(data: seq<byte>)
      requires Valid()
      modifies this
      ensures Valid() && Follows(Run(old(Abstract()), data))
    {
      ghost var start := Abstract();
      InvariantAlways(start, data);
      if errno != Ok {
        FailedStays(start, data);
        return;
      }
      var p, bodyMark := 0, None;
      while p < |data|
        invariant p <= |data| && errno == Ok
        invariant MarkedRun(Run(start, data[..p]), data, p, bodyMark)
      {
        p, bodyMark := Octet(start, data, p, bodyMark);
        if errno != Ok {
          return;
        }
      }
      if bodyMark != None {
        body := body + data[bodyMark.pos..p];
      }
      assert data[..p] == data;
    }

    /** feed: nothing more is taken once the message is complete; false closes the connection. */
    method Feed(buffer: seq<byte>) returns (ok: bool)
      requires Valid()
      modifies this
      ensures Valid()
      ensures if old(completions) > 0 then ok && Abstract() == old(Abstract())
              else Follows(Run(old(Abstract()), buffer)) && (ok <==> errno == Ok)
    {
      if completions > 0 {
        return true;
      }
      Execute(buffer);
      ok := errno == Ok;
    }

    /**
     * The buffers of a connection, one after the other, until one is refused. However the octets are
     * split, a body of known length and a chunked body are received as their own lemmas say.
     */
    method FeedAll(buffers: seq<seq<byte>>) returns (ok: bool)
      requires Valid() && errno == Ok
      modifies this
      ensures Valid() && Follows(Fed(old(Abstract()), buffers))
      ensures forall n: nat | 0 < n < ULLONG_MAX && old(Abstract()) == Start(false, n) ::
                ReceivesIdentity(n, Concat(buffers), Abstract())
      ensures forall length: nat, chunks, last | IsChunkedMessage(chunks, last, Concat(buffers)) && old(Abstract()) == Start(true, length) ::
                body == Body(chunks) && completions == 1 && errno == Ok
    {
      ghost var start := Abstract();
      ok := true;
      for i := 0 to |buffers|
        invariant Valid() && Follows(Fed(start, buffers[..i])) && errno == Ok
      {
        assert buffers[..i + 1][..i] == buffers[..i];
        ok := Feed(buffers[i]);
        if errno != Ok {
          FedStays(start, buffers, i + 1);
          Received(start, buffers);
          return;
        }
      }
      assert buffers[..|buffers|] == buffers;
      Received(start, buffers);
    }

    /** The parser is where the octets so far lead to, but for the marked part of the body. */
    ghost predicate MarkedRun(q: Parser, data: seq<byte>, p: nat, mark: Mark)
      requires p <= |data|
      reads this
    {
      && (mark != None ==> mark.pos <= p && (state == ChunkData || state == ChunkDataAlmostDone || state == BodyIdentity))
      && q == Abstract().(body := body + Marked(data, p, mark))
    }

    /** One pass through the loop over the buffer. */
    method Octet(ghost start: Parser, data: seq<byte>, p: nat, mark: Mark) returns (next: nat, bodyMark: Mark)
      requires p < |data| && errno == Ok && MarkedRun(Run(start, data[..p]), data, p, mark)
      requires Invariant(start)
      modifies this
      ensures p < next <= |data|
      ensures errno == Ok ==> MarkedRun(Run(start, data[..next]), data, next, bodyMark)
      ensures errno != Ok ==> Follows(Run(start, data))
    {
      ghost var q := Run(start, data[..p]);
      InvariantAlways(start, data[..p]);
      if state == ChunkData || state == BodyIdentity {
        next, bodyMark := BodyOctets(q, data, p, mark);
        RunPrefix(start, data, p, next - p);
      } else {
        RunNext(start, data, p);
        next := p + 1;
        bodyMark := OtherOctet(q, data, p, mark);
        if Step(q, data[p]).errno != Ok {
          FailedAt(start, data, p);
        }
      }
    }

    /** Any other state; the carriage return behind chunk data reports what is still marked. */
    method OtherOctet(ghost q: Parser, data: seq<byte>, p: nat, mark: Mark) returns (bodyMark: Mark)
      requires p < |data| && errno == Ok && MarkedRun(q, data, p, mark) && Invariant(q)
      requires state != ChunkData && state != BodyIdentity
      modifies this
      ensures errno == Step(q, data[p]).errno
      ensures errno == Ok ==> MarkedRun(Step(q, data[p]), data, p + 1, bodyMark)
      ensures errno != Ok ==> Follows(Step(q, data[p]))
    {
      bodyMark := Report(q, data, p, mark);
      Single(data[p]);
    }

    /** CROW_CALLBACK_DATA(body) at the carriage return behind chunk data. */
    method Report(ghost q: Parser, data: seq<byte>, p: nat, mark: Mark) returns (bodyMark: Mark)
      requires p < |data| && MarkedRun(q, data, p, mark)
      modifies this`body
      ensures MarkedRun(q, data, p, bodyMark) && body <= q.body
      ensures state == ChunkDataAlmostDone && data[p] == CR ==> bodyMark == None && body == q.body
      ensures mark == None ==> bodyMark == None && body == q.body
    {
      bodyMark := mark;
      if state == ChunkDataAlmostDone && data[p] == CR && mark != None {
        body := body + data[mark.pos..p];
        bodyMark := None;
      }
      assert bodyMark == None ==> body + [] == body;
    }

    /** The body states: as many octets as the buffer and the length allow. */
    method BodyOctets(ghost q: Parser, data: seq<byte>, p: nat, mark: Mark) returns (next: nat, bodyMark: Mark)
      requires p < |data| && errno == Ok && MarkedRun(q, data, p, mark) && Invariant(q)
      requires state == ChunkData || state == BodyIdentity
      modifies this
      ensures p < next <= |data| && errno == Ok
      ensures MarkedRun(Run(q, data[p..next]), data, next, bodyMark)
    {
      var toRead := if contentLength < |data| - p then contentLength else |data| - p;
      next := p + toRead;
      bodyMark := if mark == None then At(p) else mark;
      RunBody(q, data[p..next]);
      MarkGrows(body, data, mark, p, next);
      contentLength := contentLength - toRead;
      if contentLength == 0 {
        if state == ChunkData {
          state := ChunkDataAlmostDone;
        } else {
          state := MessageDone;
          body := body + data[bodyMark.pos..next];
          bodyMark := None;
          completions := completions + 1;
          assert body + [] == body;
        }
      }
    }

    /** All other states. */
    method Single(ch: byte)
      requires errno == Ok && state != ChunkData && state != BodyIdentity
      modifies this
      ensures Abstract() == Step(old(Abstract()), ch)
    {
      if ParsingHeader(state) {
        nread := nread + 1;
        if nread > MAX_HEADER_SIZE {
          errno := HeaderOverflow;
          return;
        }
      }
      match state
      case HeadersDone =>
        if ch != LF {
          errno := Strict;
        } else {
          nread, completions := 0, completions + 1;
        }
      case ChunkSizeStart =>
        if Unhex(ch) == -1 {
          errno := InvalidChunkSize;
        } else {
          contentLength, state := Unhex(ch), ChunkSize;
        }
      case ChunkSize =>
        if ch == CR {
          state := ChunkSizeAlmostDone;
        } else if Unhex(ch) == -1 {
          if ch == SEMICOLON || ch == SPACE {
            state := ChunkParameters;
          } else {
            errno := InvalidChunkSize;
          }
        } else {
          var t := (contentLength * 16 + Unhex(ch)) % SIZE_T_MODULUS;
          if (ULLONG_MAX - 16) / 16 < contentLength {
            errno := InvalidContentLength;
          } else {
            contentLength := t;
          }
        }
      case ChunkParameters =>
        if ch == CR {
          state := ChunkSizeAlmostDone;
        }
      case ChunkSizeAlmostDone =>
        if ch != LF {
          errno := Strict;
        } else {
          nread := 0;
          state := if contentLength == 0 then TrailerStart else ChunkData;
        }
      case TrailerStart =>
        if ch == CR {
          state := HeadersAlmostDone;
        } else if ch == LF {
          state := HeadersAlmostDone;
          completions := completions + 1;
        } else {
          state := Trailer;
        }
      case Trailer =>
      case HeadersAlmostDone =>
        if ch != LF {
          errno := Strict;
        } else {
          completions := completions + 1;
        }
      case ChunkDataAlmostDone =>
        if ch != CR {
          errno := Strict;
        } else {
          state := ChunkDataDone;
        }
      case ChunkDataDone =>
        if ch != LF {
          errno := Strict;
        } else {
          nread, state := 0, ChunkSizeStart;
        }
      case MessageDone => completions := completions + 1;
    }
  }
}
