// The frame reader: what each completed read does, and that however the payload reads are split
// the frames are handled one after the other.
module WebSocketReader {
  import opened Options
  import opened Bytes
  import opened NetworkOrder
  import opened WebSocketFrames

  datatype State = MiniHeader | Len16 | Len64 | Mask | Payload | Closed

  /** What the connection does on behalf of a frame. */
  datatype Event =
    | Message(data: seq<byte>, binary: bool)    // the message handler is called
    | PongSent(data: seq<byte>)                 // the answer to a ping
    | PongReceived
    | CloseAnswered(data: seq<byte>)            // close handler called, close frame sent back
    | CloseConfirmed(data: seq<byte>)           // the answer to our own close frame
    | Oversized                                 // the error handler is called, the connection closed

  datatype Reader = Reader(
    state: State, fin: bool, opcode: nat, hasMask: bool, mask: seq<byte>, remaining: nat,
    fragment: seq<byte>, message: seq<byte>, binary: bool, sentClose: bool, maxPayload: nat)

  const BUFFER := 4096

  // handle_fragment

  /** What stays between frames. */
  datatype Collected = Collected(message: seq<byte>, binary: bool, sentClose: bool, open: bool)

  /** A data frame joins the message; the last fragment hands it over. */
  function Joined(c: Collected, fin: bool, data: seq<byte>): (Collected, seq<Event>) {
    var whole := c.message + data;
    if fin then (c.(message := []), [Message(whole, c.binary)]) else (c.(message := whole), [])
  }

  function HandleFragment(c: Collected, fin: bool, opcode: nat, data: seq<byte>): (Collected, seq<Event>) {
    if opcode == CONTINUATION then Joined(c, fin, data)
    else if opcode == TEXT then Joined(c.(binary := false), fin, data)
    else if opcode == BINARY then Joined(c.(binary := true), fin, data)
    else if opcode == CLOSE then
      (c.(open := false, sentClose := true), [if c.sentClose then CloseConfirmed(data) else CloseAnswered(data)])
    else if opcode == PING then (c, [PongSent(data)])
    else if opcode == PONG then (c, [PongReceived])
    else (c, [])
  }

  // do_read: one completed read

  /** Octets asked for; the payload is read in pieces of at most the buffer. */
  function Wanted(r: Reader): nat {
    match r.state
    case MiniHeader => 2
    case Len16 => 2
    case Len64 => 8
    case Mask => 4
    case Payload => if r.remaining < BUFFER then r.remaining else BUFFER
    case Closed => 0
  }

  /** Headers arrive whole, payload reads may bring less than asked for, but something. */
  predicate Brings(r: Reader, chunk: seq<byte>) {
    r.state != Closed && |chunk| <= Wanted(r) && if r.state == Payload then Wanted(r) > 0 ==> chunk != [] else |chunk| == Wanted(r)
  }

  /** The length is known: too long, a mask to read, or straight on to the payload. */
  function WithLength(r: Reader, length: nat): (Reader, seq<Event>) {
    if length > r.maxPayload then (r.(remaining := length, state := Closed), [Oversized])
    else (r.(remaining := length, state := if r.hasMask then Mask else Payload), [])
  }

  function CollectedIn(r: Reader): Collected {
    Collected(r.message, r.binary, r.sentClose, true)
  }

  /** The frame is complete: unmask, handle, start over. */
  function Completed(r: Reader): (Reader, seq<Event>)
    requires r.hasMask ==> |r.mask| == 4
  {
    var data := if r.hasMask then Masked(r.mask, r.fragment) else r.fragment;
    var (c, events) := HandleFragment(CollectedIn(r), r.fin, r.opcode, data);
    (r.(fragment := [], message := c.message, binary := c.binary, sentClose := c.sentClose,
        state := if c.open then MiniHeader else Closed), events)
  }

  predicate Sound(r: Reader) {
    r.state == Payload && r.hasMask ==> |r.mask| == 4
  }

  function Feed(r: Reader, chunk: seq<byte>): (next: (Reader, seq<Event>))
    requires Sound(r) && Brings(r, chunk)
    ensures Sound(next.0)
  {
    match r.state
    case MiniHeader =>
      var started := r.(fin := chunk[0] >= 128, opcode := chunk[0] % 16, hasMask := chunk[1] >= 128);
      if chunk[1] % 128 == 127 then (started.(state := Len64), [])
      else if chunk[1] % 128 == 126 then (started.(state := Len16), [])
      else WithLength(started, chunk[1] % 128)
    case Len16 => WithLength(r, FromBig(chunk))
    case Len64 => WithLength(r, FromBig(chunk))
    case Mask => (r.(mask := chunk, state := Payload), [])
    case Payload =>
      var more := r.(fragment := r.fragment + chunk, remaining := r.remaining - |chunk|);
      if more.remaining == 0 then Completed(more) else (more, [])
  }

  /** The reads a connection can complete one after the other. */
  predicate CanRead(r: Reader, chunks: seq<seq<byte>>)
    requires Sound(r)
    decreases |chunks|
  {
    chunks == [] || (Brings(r, chunks[0]) && CanRead(Feed(r, chunks[0]).0, chunks[1..]))
  }

  function Read(r: Reader, chunks: seq<seq<byte>>): (Reader, seq<Event>)
    requires Sound(r) && CanRead(r, chunks)
    decreases |chunks|
  {
    if chunks == [] then (r, [])
    else
      var (next, events) := Feed(r, chunks[0]);
      var (last, more) := Read(next, chunks[1..]);
      (last, events + more)
  }

  function Flat(chunks: seq<seq<byte>>): seq<byte> {
    if chunks == [] then [] else chunks[0] + Flat(chunks[1..])
  }

  // Frame by frame

  predicate Acceptable(f: Frame, maxPayload: nat) {
    WellFormed(f) && |f.payload| <= maxPayload
  }

  function WireAll(fs: seq<Frame>): seq<byte>
    requires forall i :: 0 <= i < |fs| ==> WellFormed(fs[i])
  {
    if fs == [] then [] else Wire(fs[0]) + WireAll(fs[1..])
  }

  /** What the frames mean, one after the other, up to a close frame. */
  function HandleAll(c: Collected, fs: seq<Frame>): (Collected, seq<Event>)
    decreases |fs|
  {
    if fs == [] || !c.open then (c, [])
    else
      var (next, events) := HandleFragment(c, fs[0].fin, fs[0].opcode, fs[0].payload);
      var (last, more) := HandleAll(next, fs[1..]);
      (last, events + more)
  }

  /** The reader stands inside (or at the start of) a frame with `tail` still to come. */
  predicate Within(r: Reader, f: Frame, tail: seq<byte>)
    requires WellFormed(f)
  {
    if r.state == MiniHeader then tail == Wire(f) && r.fragment == []
    else
      && r.fin == f.fin && r.opcode == f.opcode && r.hasMask == f.mask.Some?
      && match r.state
         case Len16 => f.form == Medium && r.fragment == [] && tail == LengthOctets(f) + (MaskOctets(f) + PayloadOctets(f))
         case Len64 => f.form == Long && r.fragment == [] && tail == LengthOctets(f) + (MaskOctets(f) + PayloadOctets(f))
         case Mask => r.hasMask && r.fragment == [] && r.remaining == |f.payload| && tail == MaskOctets(f) + PayloadOctets(f)
         case Payload =>
           && (r.hasMask ==> r.mask == f.mask.value)
           && r.fragment + tail == PayloadOctets(f) && r.remaining == |tail|
         case Closed => false
  }

  /** Nothing but the frame in progress has changed. */
  predicate SameConnection(r: Reader, next: Reader) {
    CollectedIn(next) == CollectedIn(r) && next.maxPayload == r.maxPayload
  }

  /** Between frames, holding what has been collected, or closed. */
  predicate Between(r: Reader, c: Collected, maxPayload: nat) {
    (r.state, r.fragment, r.message, r.binary, r.sentClose, r.maxPayload)
    == (if c.open then MiniHeader else Closed, [], c.message, c.binary, c.sentClose, maxPayload)
  }

  predicate Prefix(chunk: seq<byte>, tail: seq<byte>, rest: seq<byte>) {
    |chunk| <= |tail| + |rest| && chunk == (tail + rest)[..|chunk|]
  }

  lemma PrefixOfTail(chunk: seq<byte>, tail: seq<byte>, rest: seq<byte>)
    requires Prefix(chunk, tail, rest) && |chunk| <= |tail|
    ensures chunk == tail[..|chunk|] && tail == chunk + tail[|chunk|..]
  {
    assert (tail + rest)[..|chunk|] == tail[..|chunk|];
  }

  /** A header read in a frame: one part further into the same frame. */
  lemma MiniHeaderStep(r: Reader, f: Frame, chunk: seq<byte>)
    requires r.state == MiniHeader && r.fragment == [] && Acceptable(f, r.maxPayload)
    requires chunk == [FirstOctet(f), SecondOctet(f)]
    ensures Feed(r, chunk).1 == [] && SameConnection(r, Feed(r, chunk).0)
    ensures Feed(r, chunk).0.state != MiniHeader
    ensures Within(Feed(r, chunk).0, f, LengthOctets(f) + (MaskOctets(f) + PayloadOctets(f)))
  {
    var next := Feed(r, chunk).0;
    assert next.fin == f.fin && next.opcode == f.opcode && next.hasMask == f.mask.Some?;
    assert f.form == Short ==> LengthOctets(f) + (MaskOctets(f) + PayloadOctets(f)) == MaskOctets(f) + PayloadOctets(f);
    NoMask(f);
    assert [] + PayloadOctets(f) == PayloadOctets(f);
  }

  lemma NoMask(f: Frame)
    requires WellFormed(f)
    ensures f.mask.None? ==> MaskOctets(f) + PayloadOctets(f) == PayloadOctets(f)
    ensures [] + PayloadOctets(f) == PayloadOctets(f)
  {
  }

  lemma LengthStep(r: Reader, f: Frame, chunk: seq<byte>)
    requires r.state == Len16 || r.state == Len64
    requires Acceptable(f, r.maxPayload) && Sound(r) && Brings(r, chunk)
    requires Within(r, f, LengthOctets(f) + (MaskOctets(f) + PayloadOctets(f))) && chunk == LengthOctets(f)
    ensures Feed(r, chunk).1 == [] && SameConnection(r, Feed(r, chunk).0)
    ensures Feed(r, chunk).0.state != MiniHeader
    ensures Within(Feed(r, chunk).0, f, MaskOctets(f) + PayloadOctets(f))
  {
    ModulusValues();
    assert Modulus(2) == 0x1_0000;
    BigEndianRoundTrip(|f.payload|, |chunk|);
    NoMask(f);
  }

  lemma MaskStep(r: Reader, f: Frame, chunk: seq<byte>)
    requires r.state == Mask && Acceptable(f, r.maxPayload) && Sound(r) && Brings(r, chunk)
    requires Within(r, f, MaskOctets(f) + PayloadOctets(f)) && chunk == MaskOctets(f)
    ensures Feed(r, chunk).1 == [] && SameConnection(r, Feed(r, chunk).0)
    ensures Feed(r, chunk).0.state != MiniHeader
    ensures Within(Feed(r, chunk).0, f, PayloadOctets(f))
  {
    NoMask(f);
  }

  /** A payload read: further into the payload, or the frame is handled with the payload unmasked. */
  lemma PayloadStep(r: Reader, f: Frame, chunk: seq<byte>, tail: seq<byte>)
    requires r.state == Payload && Acceptable(f, r.maxPayload) && Sound(r) && Brings(r, chunk)
    requires Within(r, f, chunk + tail)
    ensures if tail != [] then
              Feed(r, chunk).1 == [] && SameConnection(r, Feed(r, chunk).0)
              && Feed(r, chunk).0.state != MiniHeader && Within(Feed(r, chunk).0, f, tail)
            else
              var (c, events) := HandleFragment(CollectedIn(r), f.fin, f.opcode, f.payload);
              Feed(r, chunk).1 == events && Between(Feed(r, chunk).0, c, r.maxPayload)
  {
    var more := r.(fragment := r.fragment + chunk, remaining := r.remaining - |chunk|);
    assert r.fragment + (chunk + tail) == more.fragment + tail;
    if tail == [] {
      assert more.fragment + [] == more.fragment;
      if r.hasMask {
        UnmaskMasked(f.mask.value, f.payload);
      }
    }
  }

  /** What one read does in a frame with `tail` still to come, `rest` behind it. */
  predicate Steps(r: Reader, f: Frame, chunk: seq<byte>, tail: seq<byte>, next: Reader, events: seq<Event>)
    requires WellFormed(f)
  {
    && |chunk| <= |tail| && tail == chunk + tail[|chunk|..]
    && if r.state == Payload && |chunk| == |tail| then
         var (c, handled) := HandleFragment(CollectedIn(r), f.fin, f.opcode, f.payload);
         events == handled && Between(next, c, r.maxPayload)
       else
         events == [] && SameConnection(r, next) && next.state != MiniHeader && Within(next, f, tail[|chunk|..])
  }

  lemma FrameStep(r: Reader, f: Frame, chunk: seq<byte>, tail: seq<byte>, rest: seq<byte>)
    requires Acceptable(f, r.maxPayload) && Sound(r) && Brings(r, chunk)
    requires Within(r, f, tail) && Prefix(chunk, tail, rest)
    ensures Steps(r, f, chunk, tail, Feed(r, chunk).0, Feed(r, chunk).1)
  {
    match r.state
    case MiniHeader =>
      PrefixOfTail(chunk, tail, rest);
      assert chunk == [FirstOctet(f), SecondOctet(f)];
      assert tail[2..] == LengthOctets(f) + (MaskOctets(f) + PayloadOctets(f));
      MiniHeaderStep(r, f, chunk);
    case Len16 | Len64 =>
      PrefixOfTail(chunk, tail, rest);
      assert chunk == LengthOctets(f);
      assert tail[|chunk|..] == MaskOctets(f) + PayloadOctets(f);
      LengthStep(r, f, chunk);
    case Mask =>
      PrefixOfTail(chunk, tail, rest);
      assert chunk == MaskOctets(f);
      assert tail[|chunk|..] == PayloadOctets(f);
      MaskStep(r, f, chunk);
    case Payload =>
      PrefixOfTail(chunk, tail, rest);
      PayloadStep(r, f, chunk, tail[|chunk|..]);
  }

  /** A close frame is the last one. */
  predicate ClosesLast(fs: seq<Frame>) {
    forall i :: 0 <= i < |fs| - 1 ==> fs[i].opcode != CLOSE
  }

  predicate AllAcceptable(fs: seq<Frame>, maxPayload: nat) {
    forall i :: 0 <= i < |fs| ==> Acceptable(fs[i], maxPayload)
  }

  /** The reads took the reader to the end of a frame. */
  predicate EndsBetween(r: Reader) {
    r.state == MiniHeader || r.state == Closed
  }

  lemma ChunksFront(chunks: seq<seq<byte>>, tail: seq<byte>, rest: seq<byte>)
    requires chunks != [] && Flat(chunks) == tail + rest
    ensures Prefix(chunks[0], tail, rest)
    ensures |chunks[0]| <= |tail| ==> Flat(chunks[1..]) == tail[|chunks[0]|..] + rest
  {
    var chunk := chunks[0];
    assert (chunk + Flat(chunks[1..]))[..|chunk|] == chunk;
    assert (chunk + Flat(chunks[1..]))[|chunk|..] == Flat(chunks[1..]);
    if |chunk| <= |tail| {
      assert (tail + rest)[|chunk|..] == tail[|chunk|..] + rest;
    }
  }

  /** What the reads of frames, the first of them begun already, amount to. */
  predicate ReadsAs(r: Reader, chunks: seq<seq<byte>>, c: Collected, fs: seq<Frame>)
    requires Sound(r) && CanRead(r, chunks)
  {
    Read(r, chunks).1 == HandleAll(c, fs).1 && Between(Read(r, chunks).0, HandleAll(c, fs).0, r.maxPayload)
  }

  lemma {:induction false} ReadInFrame(r: Reader, fs: seq<Frame>, chunks: seq<seq<byte>>, tail: seq<byte>)
    requires fs != [] && AllAcceptable(fs, r.maxPayload) && ClosesLast(fs)
    requires Sound(r) && CanRead(r, chunks) && EndsBetween(Read(r, chunks).0)
    requires Within(r, fs[0], tail) && Flat(chunks) == tail + WireAll(fs[1..])
    ensures ReadsAs(r, chunks, CollectedIn(r), fs)
    decreases |chunks|, 0
  {
    assert |Wire(fs[0])| >= 2 && |Flat([])| == 0;
    assert chunks != [];
    var f, rest, chunk := fs[0], WireAll(fs[1..]), chunks[0];
    ChunksFront(chunks, tail, rest);
    FrameStep(r, f, chunk, tail, rest);
    var next := Feed(r, chunk).0;
    if r.state == Payload && |chunk| == |tail| {
      var c := HandleFragment(CollectedIn(r), f.fin, f.opcode, f.payload).0;
      assert Flat(chunks[1..]) == rest by { assert [] + rest == rest && tail[|chunk|..] == []; }
      ReadBetween(next, fs[1..], chunks[1..], c);
    } else {
      ReadInFrame(next, fs, chunks[1..], tail[|chunk|..]);
      assert [] + Read(next, chunks[1..]).1 == Read(next, chunks[1..]).1;
    }
  }

  lemma {:induction false} ReadBetween(r: Reader, fs: seq<Frame>, chunks: seq<seq<byte>>, c: Collected)
    requires AllAcceptable(fs, r.maxPayload) && ClosesLast(fs) && (c.open || fs == [])
    requires Sound(r) && CanRead(r, chunks) && EndsBetween(Read(r, chunks).0)
    requires Between(r, c, r.maxPayload) && Flat(chunks) == WireAll(fs)
    ensures ReadsAs(r, chunks, c, fs)
    decreases |chunks|, 1
  {
    if fs == [] {
      assert |Flat(chunks)| == 0;
      assert chunks == [];
    } else {
      ReadInFrame(r, fs, chunks, Wire(fs[0]));
    }
  }
}
