// WebSocket frames octet by octet, bit by bit where they are masked, and what is delivered of them.
module WebSocketWire {
  import opened Options
  import opened Bytes
  import opened NetworkOrder
  import opened WebSocketFrames
  import opened WebSocketReader
  import opened WebSocketMessages

  /** Bit `i` of a number, bit 0 the lowest. */
  function BitAt(n: nat, i: nat): (bit: nat)
    ensures bit == 0 || bit == 1
    decreases i
  {
    if i == 0 then n % 2 else BitAt(n / 2, i - 1)
  }

  lemma {:induction false} XorBitsAt(a: nat, b: nat, bits: nat, i: nat)
    requires i < bits
    ensures BitAt(XorBits(a, b, bits), i) == 1 <==> BitAt(a, i) != BitAt(b, i)
    decreases bits
  {
    var x := XorBits(a / 2, b / 2, bits - 1);
    assert XorBits(a, b, bits) / 2 == x;
    if i > 0 {
      XorBitsAt(a / 2, b / 2, bits - 1, i - 1);
    }
  }

  /** A bit of the result is set exactly when it is set in one of the operands and not in the other. */
  predicate IsXor(x: byte, a: byte, b: byte) {
    forall i: nat :: i < 8 ==> (BitAt(x, i) == 1 <==> BitAt(a, i) != BitAt(b, i))
  }

  lemma {:induction false} SameBits(x: nat, y: nat, bits: nat)
    requires x < Pow2(bits) && y < Pow2(bits)
    requires forall i: nat :: i < bits ==> BitAt(x, i) == BitAt(y, i)
    ensures x == y
    decreases bits
  {
    if bits > 0 {
      assert BitAt(x, 0) == BitAt(y, 0);
      forall i: nat | i < bits - 1
        ensures BitAt(x / 2, i) == BitAt(y / 2, i)
      {
        assert BitAt(x, i + 1) == BitAt(y, i + 1);
      }
      SameBits(x / 2, y / 2, bits - 1);
    }
  }

  lemma OctetIsEightBits()
    ensures Pow2(8) == 256
  {
    assert Pow2(4) == 16 && Pow2(8) == 16 * Pow2(4);
  }

  lemma XorIsBitwise(x: byte, a: byte, b: byte)
    ensures x == Xor(a, b) <==> IsXor(x, a, b)
  {
    var y := Xor(a, b);
    forall i: nat | i < 8
      ensures BitAt(y, i) == 1 <==> BitAt(a, i) != BitAt(b, i)
    {
      XorBitsAt(a, b, 8, i);
    }
    if IsXor(x, a, b) {
      forall i: nat | i < 8
        ensures BitAt(x, i) == BitAt(y, i)
      {
        assert BitAt(x, i) == 1 <==> BitAt(a, i) != BitAt(b, i);
      }
      OctetIsEightBits();
      SameBits(x, y, 8);
    }
  }

  // One frame.

  /** The value of octets, the first the most significant. */
  function BigValue(octets: seq<byte>): nat {
    if octets == [] then 0 else BigValue(octets[..|octets| - 1]) * 256 + octets[|octets| - 1]
  }

  lemma {:induction false} BigEndianOfValue(octets: seq<byte>)
    ensures BigEndian(BigValue(octets), |octets|) == octets
  {
    if octets != [] {
      var front, last := octets[..|octets| - 1], octets[|octets| - 1];
      BigEndianOfValue(front);
      assert BigValue(octets) / 256 == BigValue(front) && BigValue(octets) % 256 == last;
      assert octets == front + [last];
    }
  }

  lemma {:induction false} ValueOfBigEndian(n: nat, width: nat)
    requires n < Modulus(width)
    ensures BigValue(BigEndian(n, width)) == n
  {
    if width > 0 {
      assert n / 256 < Modulus(width - 1);
      ValueOfBigEndian(n / 256, width - 1);
      assert BigEndian(n, width)[..width - 1] == BigEndian(n / 256, width - 1);
    }
  }

  predicate LengthOnWire(octets: seq<byte>, f: Frame) {
    match f.form
    case Short => octets == []
    case Medium => |octets| == 2 && BigValue(octets) == |f.payload|
    case Long => |octets| == 8 && BigValue(octets) == |f.payload|
  }

  /** Every octet of the data combined bit by bit with the octet of the key whose turn it is. */
  predicate PayloadOnWire(octets: seq<byte>, f: Frame) {
    && |octets| == |f.payload|
    && if f.mask.None? then octets == f.payload
       else |f.mask.value| == 4 && forall i :: 0 <= i < |octets| ==> IsXor(octets[i], f.payload[i], f.mask.value[i % 4])
  }

  /**
   * The octets of a frame as section 5.2 of RFC 6455 lays them out: final bit and opcode, mask bit and
   * length, a longer length, the masking key, the data.
   */
  predicate OnWire(first: byte, second: byte, length: seq<byte>, key: seq<byte>, data: seq<byte>, f: Frame) {
    && first == (if f.fin then 128 else 0) + f.opcode && f.opcode < 16
    && second == (if f.mask.Some? then 128 else 0)
                 + (match f.form case Short => |f.payload| case Medium => 126 case Long => 127)
    && (f.form.Short? ==> |f.payload| < 126)
    && LengthOnWire(length, f)
    && (if f.mask.Some? then |key| == 4 && key == f.mask.value else key == [])
    && PayloadOnWire(data, f)
  }

  ghost predicate IsOnWire(octets: seq<byte>, f: Frame) {
    exists first: byte, second: byte, length: seq<byte>, key: seq<byte>, data: seq<byte> ::
      OnWire(first, second, length, key, data, f) && octets == [first, second] + (length + (key + data))
  }

  lemma {:induction false} ValueIsBelow(octets: seq<byte>)
    ensures BigValue(octets) < Modulus(|octets|)
  {
    if octets != [] {
      ValueIsBelow(octets[..|octets| - 1]);
    }
  }

  lemma LengthIsLength(octets: seq<byte>, f: Frame)
    requires LengthOnWire(octets, f)
    ensures octets == LengthOctets(f)
    ensures f.form.Medium? ==> |f.payload| < 0x1_0000
    ensures f.form.Long? ==> |f.payload| < SIZE_T_MODULUS
  {
    BigEndianOfValue(octets);
    ValueIsBelow(octets);
    ModulusValues();
    assert Modulus(2) == 0x1_0000;
  }

  lemma PayloadIsPayload(octets: seq<byte>, f: Frame)
    requires PayloadOnWire(octets, f) && WellFormed(f)
    ensures octets == PayloadOctets(f)
  {
    if f.mask.Some? {
      forall i | 0 <= i < |octets|
        ensures octets[i] == PayloadOctets(f)[i]
      {
        XorIsBitwise(octets[i], f.payload[i], f.mask.value[i % 4]);
      }
    }
  }

  /** The octets of a frame are exactly these. */
  lemma WireIsOnWire(octets: seq<byte>, f: Frame)
    ensures IsOnWire(octets, f) <==> WellFormed(f) && octets == Wire(f)
  {
    if IsOnWire(octets, f) {
      var first: byte, second: byte, length: seq<byte>, key: seq<byte>, data: seq<byte> :|
        OnWire(first, second, length, key, data, f) && octets == [first, second] + (length + (key + data));
      LengthIsLength(length, f);
      PayloadIsPayload(data, f);
    }
    if WellFormed(f) && octets == Wire(f) {
      WireHasParts(f);
    }
  }

  lemma WireHasParts(f: Frame)
    requires WellFormed(f)
    ensures OnWire(FirstOctet(f), SecondOctet(f), LengthOctets(f), MaskOctets(f), PayloadOctets(f), f)
  {
    ModulusValues();
    assert Modulus(2) == 0x1_0000;
    if f.form.Medium? {
      ValueOfBigEndian(|f.payload|, 2);
    } else if f.form.Long? {
      ValueOfBigEndian(|f.payload|, 8);
    }
    if f.mask.Some? {
      forall i | 0 <= i < |f.payload|
        ensures IsXor(PayloadOctets(f)[i], f.payload[i], f.mask.value[i % 4])
      {
        XorIsBitwise(PayloadOctets(f)[i], f.payload[i], f.mask.value[i % 4]);
      }
    }
  }

  // Messages.

  /** Section 11.8 of RFC 6455. */
  lemma Opcodes()
    ensures CONTINUATION == 0 && TEXT == 1 && BINARY == 2 && CLOSE == 8 && PING == 9 && PONG == 10
  {
  }

  /** Every part is the frame whose turn it is. */
  ghost predicate FramesOnWire(parts: seq<seq<byte>>, fs: seq<Frame>) {
    |parts| == |fs| && forall i :: 0 <= i < |fs| ==> IsOnWire(parts[i], fs[i])
  }

  lemma {:induction false} PartsAreWire(parts: seq<seq<byte>>, fs: seq<Frame>)
    requires |parts| == |fs| && forall i :: 0 <= i < |fs| ==> WellFormed(fs[i]) && parts[i] == Wire(fs[i])
    ensures Flat(parts) == WireAll(fs)
    decreases |fs|
  {
    if fs != [] {
      PartsAreWire(parts[1..], fs[1..]);
    }
  }

  lemma FramesAreWire(parts: seq<seq<byte>>, fs: seq<Frame>)
    requires FramesOnWire(parts, fs)
    ensures forall i :: 0 <= i < |fs| ==> WellFormed(fs[i]) && parts[i] == Wire(fs[i])
  {
    forall i | 0 <= i < |fs|
      ensures WellFormed(fs[i]) && parts[i] == Wire(fs[i])
    {
      WireIsOnWire(parts[i], fs[i]);
    }
  }

  /** A frame of a message: opcode 1 or 2 in front, 0 behind, and the final bit on the last fragment. */
  predicate IsDataFrame(f: Frame, m: Msg, k: nat)
    requires k < |m.fragments|
  {
    && f.fin == (k == |m.fragments| - 1)
    && f.opcode == (if k > 0 then 0 else if m.binary then 2 else 1)
    && f.mask == m.fragments[k].mask && f.form == m.fragments[k].form && f.payload == m.fragments[k].payload
  }

  lemma DataFrameIsOne(f: Frame, m: Msg, k: nat)
    requires k < |m.fragments|
    ensures IsDataFrame(f, m, k) <==> f == DataFrame(m, k)
  {
  }

  /**
   * Octets that are the frames of the messages, masked bit by bit: however the payload reads are split,
   * the handlers get the messages and the answers to the pings between them.
   */
  lemma WireMessagesAreDelivered(r: Reader, msgs: seq<Msg>, chunks: seq<seq<byte>>, parts: seq<seq<byte>>)
    requires r.state == MiniHeader && r.fragment == [] && r.message == []
    requires forall i :: 0 <= i < |msgs| ==> WellFormedMsg(msgs[i], r.maxPayload)
    requires CanRead(r, chunks) && EndsBetween(Read(r, chunks).0)
    requires FramesOnWire(parts, FramesOf(msgs)) && Flat(chunks) == Flat(parts)
    ensures Read(r, chunks).1 == EventsOf(msgs) && Read(r, chunks).0.state == MiniHeader
  {
    FramesAreWire(parts, FramesOf(msgs));
    PartsAreWire(parts, FramesOf(msgs));
    HandlersGetTheMessages(r, msgs, chunks);
  }

  /** The reads the reader asks for bring every acceptable frame to its end. */
  lemma {:induction false} EveryFrameIsRead(r: Reader, f: Frame, tail: seq<byte>) returns (chunks: seq<seq<byte>>)
    requires Acceptable(f, r.maxPayload) && Sound(r) && Within(r, f, tail) && r.state != Closed
    ensures CanRead(r, chunks) && Flat(chunks) == tail && EndsBetween(Read(r, chunks).0)
    decreases |tail|
  {
    var chunk := if r.state == Payload && |tail| <= Wanted(r) then tail else tail[..Wanted(r)];
    var rest := tail[|chunk|..];
    assert tail == chunk + rest && tail + [] == tail;
    FrameStep(r, f, chunk, tail, []);
    var next := Feed(r, chunk).0;
    var more: seq<seq<byte>> := [];
    if !(r.state == Payload && rest == []) {
      more := EveryFrameIsRead(next, f, rest);
    }
    chunks := [chunk] + more;
    assert chunks[1..] == more;
  }

  // What is not delivered.

  /** A length above the limit is reported as soon as it is read, and ends the connection. */
  lemma TooLongIsRefused(r: Reader, f: Frame)
    requires r.state == MiniHeader && WellFormed(f) && !Acceptable(f, r.maxPayload)
    ensures var (next, events) := Feed(r, [FirstOctet(f), SecondOctet(f)]);
      if f.form.Short? then next.state == Closed && events == [Oversized]
      else
        && Brings(next, LengthOctets(f)) && events == []
        && Feed(next, LengthOctets(f)).0.state == Closed && Feed(next, LengthOctets(f)).1 == [Oversized]
  {
    if !f.form.Short? {
      LengthIsAsked(r, f);
      TooLongByLength(Feed(r, [FirstOctet(f), SecondOctet(f)]).0, f, LengthOctets(f));
    }
  }

  lemma LengthIsAsked(r: Reader, f: Frame)
    requires r.state == MiniHeader && WellFormed(f) && !f.form.Short?
    ensures var (next, events) := Feed(r, [FirstOctet(f), SecondOctet(f)]);
      next.state == (if f.form.Medium? then Len16 else Len64) && next.maxPayload == r.maxPayload && events == []
  {
  }

  lemma TooLongByLength(r: Reader, f: Frame, length: seq<byte>)
    requires WellFormed(f) && !f.form.Short? && length == LengthOctets(f)
    requires r.state == (if f.form.Medium? then Len16 else Len64) && |f.payload| > r.maxPayload
    ensures Sound(r) && Brings(r, length) && Feed(r, length).0.state == Closed && Feed(r, length).1 == [Oversized]
  {
    ModulusValues();
    assert Modulus(2) == 0x1_0000;
    BigEndianRoundTrip(|f.payload|, |length|);
  }

  /** A close frame ends the connection: it is answered unless it is an answer itself, and nothing behind it is handled. */
  lemma CloseIsAnsweredOnce(c: Collected, f: Frame, rest: seq<Frame>)
    requires c.open && f.opcode == 8
    ensures HandleAll(c, [f] + rest).1 == [if c.sentClose then CloseConfirmed(f.payload) else CloseAnswered(f.payload)]
    ensures !HandleAll(c, [f] + rest).0.open && HandleAll(c, [f] + rest).0.sentClose
  {
    assert ([f] + rest)[1..] == rest;
    var (next, events) := HandleFragment(c, f.fin, f.opcode, f.payload);
    assert events + [] == events;
  }

  /** Frames with other opcodes are dropped. */
  lemma UnknownIsDropped(c: Collected, f: Frame, rest: seq<Frame>)
    requires c.open && (3 <= f.opcode < 8 || 10 < f.opcode)
    ensures HandleAll(c, [f] + rest) == HandleAll(c, rest)
  {
    assert ([f] + rest)[1..] == rest;
    var (last, more) := HandleAll(c, rest);
    assert [] + more == more;
  }
}
