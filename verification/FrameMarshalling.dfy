// How a camera frame becomes a message, on the shared-memory path and on the TCP path, and how the
// exporter reads it back.
module FrameMarshalling {
  import opened Bytes

  /** cv::Mat as far as it is transported. */
  datatype Mat = Mat(cols: int, rows: int, kind: int, step: nat, pixels: seq<byte>)

  predicate IsInt(n: int) {
    -0x8000_0000 <= n < 0x8000_0000
  }

  predicate IsMat(m: Mat) {
    IsInt(m.cols) && IsInt(m.rows) && IsInt(m.kind) && m.step < SIZE_T_MODULUS
  }

  /** Memory image of an `int` in two's complement. */
  function IntImage(n: int): (s: seq<byte>)
    requires IsInt(n)
    ensures |s| == INT
  {
    Encode(if n < 0 then n + INT_MODULUS else n, INT)
  }

  function IntOf(s: seq<byte>): int
    requires |s| == INT
  {
    var n := Decode(s);
    if n >= 0x8000_0000 then n - INT_MODULUS else n
  }

  lemma IntRoundTrip(n: int)
    requires IsInt(n)
    ensures IntOf(IntImage(n)) == n
  {
    ModulusValues();
    DecodeEncode(if n < 0 then n + INT_MODULUS else n, INT);
  }

  const CONTENT_OFFSET: nat := 3 * INT + SIZE_T

  function Header(m: Mat): (s: seq<byte>)
    requires IsMat(m)
    ensures |s| == CONTENT_OFFSET
  {
    IntImage(m.cols) + IntImage(m.rows) + IntImage(m.kind) + Encode(m.step, SIZE_T)
  }

  /** The message of the webcam daemon. */
  function Marshalled(m: Mat): seq<byte>
    requires IsMat(m)
  {
    Header(m) + m.pixels
  }

  /** unmarshalMessages, for one message. */
  function Unmarshalled(data: seq<byte>): Mat
    requires |data| >= CONTENT_OFFSET
  {
    Mat(IntOf(data[..INT]), IntOf(data[INT..2 * INT]), IntOf(data[2 * INT..3 * INT]),
        Decode(data[3 * INT..CONTENT_OFFSET]), data[CONTENT_OFFSET..])
  }

  /** The message on the TCP path: a packet number, and a frame with room for a size that is never written. */
  function TcpMessage(packetNum: nat, m: Mat): seq<byte>
    requires IsMat(m)
  {
    Encode(packetNum, SIZE_T) + (Marshalled(m) + Zeros(SIZE_T))
  }

  lemma HeaderFields(m: Mat, rest: seq<byte>)
    requires IsMat(m)
    ensures var data := Header(m) + rest;
            && data[..INT] == IntImage(m.cols) && data[INT..2 * INT] == IntImage(m.rows)
            && data[2 * INT..3 * INT] == IntImage(m.kind)
            && data[3 * INT..CONTENT_OFFSET] == Encode(m.step, SIZE_T) && data[CONTENT_OFFSET..] == rest
  {
  }

  /** A little-endian number of four octets. */
  function Number4(data: seq<byte>, at: nat): nat
    requires at + 4 <= |data|
  {
    data[at] as int + 0x100 * data[at + 1] as int + 0x1_0000 * data[at + 2] as int + 0x100_0000 * data[at + 3] as int
  }

  /** Two's complement in 32 bits. */
  predicate Stands(n: int, number: nat) {
    if n >= 0 then number == n else number == n + 0x1_0000_0000
  }

  lemma {:induction false} NumberOfOctets(s: seq<byte>)
    requires |s| >= 4
    ensures Decode(s) == Number4(s, 0) + 0x1_0000_0000 * Decode(s[4..])
  {
    assert s[1..][1..] == s[2..] && s[2..][1..] == s[3..] && s[3..][1..] == s[4..];
    assert Decode(s[3..]) == s[3] + 256 * Decode(s[4..]);
    assert Decode(s[2..]) == s[2] + 256 * Decode(s[3..]);
    assert Decode(s[1..]) == s[1] + 256 * Decode(s[2..]);
  }

  lemma FourOctets(n: nat)
    requires n < 0x1_0000_0000
    ensures Number4(Encode(n, 4), 0) == n
  {
    ModulusValues();
    DecodeEncode(n, 4);
    NumberOfOctets(Encode(n, 4));
  }

  lemma EightOctets(n: nat)
    requires n < SIZE_T_MODULUS
    ensures Number4(Encode(n, 8), 0) + 0x1_0000_0000 * Number4(Encode(n, 8), 4) == n
  {
    var s := Encode(n, 8);
    SizeTRoundTrip(n);
    NumberOfOctets(s);
    NumberOfOctets(s[4..]);
    assert s[4..][4..] == [];
  }

  lemma SameNumber4(data: seq<byte>, at: nat, s: seq<byte>)
    requires at + 4 <= |data| && s == data[at..at + 4]
    ensures Number4(data, at) == Number4(s, 0)
  {
    assert forall i: nat :: i < 4 ==> s[i] == data[at + i];
  }

  lemma StepNumber(data: seq<byte>, s: seq<byte>)
    requires |data| >= 20 && s == data[12..20]
    ensures Number4(data, 12) == Number4(s, 0) && Number4(data, 16) == Number4(s, 4)
  {
  }

  /** Where the numbers of a frame stand: columns, rows, type, and a step of eight octets, all little-endian. */
  lemma FrameLayout(m: Mat)
    requires -0x8000_0000 <= m.cols < 0x8000_0000 && -0x8000_0000 <= m.rows < 0x8000_0000
    requires -0x8000_0000 <= m.kind < 0x8000_0000 && m.step < 0x1_0000_0000_0000_0000
    ensures IsMat(m)
    ensures var data := Marshalled(m);
            && |data| == 20 + |m.pixels| && data[20..] == m.pixels
            && Stands(m.cols, Number4(data, 0)) && Stands(m.rows, Number4(data, 4)) && Stands(m.kind, Number4(data, 8))
            && Number4(data, 12) + 0x1_0000_0000 * Number4(data, 16) == m.step
  {
    var data := Marshalled(m);
    HeaderFields(m, m.pixels);
    SameNumber4(data, 0, data[..4]);
    SameNumber4(data, 4, data[4..8]);
    SameNumber4(data, 8, data[8..12]);
    StepNumber(data, Encode(m.step, 8));
    FourOctets(if m.cols < 0 then m.cols + INT_MODULUS else m.cols);
    FourOctets(if m.rows < 0 then m.rows + INT_MODULUS else m.rows);
    FourOctets(if m.kind < 0 then m.kind + INT_MODULUS else m.kind);
    EightOctets(m.step);
  }

  /** Whatever stands behind the header becomes the pixels. */
  lemma UnmarshalHeader(m: Mat, rest: seq<byte>)
    requires IsMat(m)
    ensures Unmarshalled(Header(m) + rest) == m.(pixels := rest)
  {
    HeaderFields(m, rest);
    IntRoundTrip(m.cols);
    IntRoundTrip(m.rows);
    IntRoundTrip(m.kind);
    SizeTRoundTrip(m.step);
  }

  /** Through shared memory a frame arrives as it was. */
  lemma WebcamRoundTrip(m: Mat)
    requires IsMat(m)
    ensures Unmarshalled(Marshalled(m)) == m
  {
    UnmarshalHeader(m, m.pixels);
  }

  /** Over TCP the frame arrives with eight zero octets behind its pixels. */
  lemma TcpRoundTrip(packetNum: nat, m: Mat)
    requires IsMat(m)
    ensures Unmarshalled(TcpMessage(packetNum, m)[SIZE_T..]) == m.(pixels := m.pixels + Zeros(SIZE_T))
  {
    UnmarshalHeader(m, m.pixels + Zeros(SIZE_T));
    assert TcpMessage(packetNum, m)[SIZE_T..] == Header(m) + (m.pixels + Zeros(SIZE_T));
  }

  // The code.

  /** WebCamStreamDaemon::PutOnSHMQueue: the message buffer is filled by successive copies. */
  method MarshalFrame(m: Mat) returns (data: array<byte>)
    requires IsMat(m)
    ensures fresh(data) && data[..] == Marshalled(m)
  {
    data := new byte[|m.pixels| + CONTENT_OFFSET];
    CopyInto(data, 0, IntImage(m.cols));
    CopyInto(data, INT, IntImage(m.rows));
    CopyInto(data, 2 * INT, IntImage(m.kind));
    CopyInto(data, 3 * INT, Encode(m.step, SIZE_T));
    CopyInto(data, CONTENT_OFFSET, m.pixels);
  }

  method UnmarshalMessages(messages: seq<seq<byte>>) returns (output: seq<Mat>)
    requires forall i :: 0 <= i < |messages| ==> |messages[i]| >= CONTENT_OFFSET
    ensures |output| == |messages|
    ensures forall i :: 0 <= i < |messages| ==> output[i] == Unmarshalled(messages[i])
  {
    output := [];
    for i := 0 to |messages|
      invariant |output| == i && forall k :: 0 <= k < i ==> output[k] == Unmarshalled(messages[k])
    {
      output := output + [Unmarshalled(messages[i])];
    }
  }

  /** `memcpy(initial + offset, ...)` followed by `offset += ...`. */
  method CopyBehind(message: array<byte>, offset: nat, image: seq<byte>) returns (next: nat)
    requires offset + |image| <= message.Length
    modifies message
    ensures next == offset + |image| && message[..next] == old(message[..offset]) + image
    ensures forall k :: next <= k < message.Length ==> message[k] == old(message[k])
  {
    next := offset + |image|;
    ghost var before := message[..];
    CopyInto(message, offset, image);
    assert message[..next] == before[..offset] + image;
    forall k | next <= k < message.Length
      ensures message[k] == before[k]
    {
      assert message[..][k] == before[k];
    }
  }

  class TCPFrameProducer {
    var packetNum: nat
    var published: seq<seq<byte>>

    constructor ()
      ensures packetNum == 0 && published == []
    {
      packetNum, published := 0, [];
    }

    /** HandleWebcamFrame without compression; an empty frame is skipped and takes no packet number. */
    method HandleWebcamFrame(m: Mat)
      requires IsMat(m) && packetNum < SIZE_T_MODULUS
      modifies this
      ensures m.pixels == [] ==> packetNum == old(packetNum) && published == old(published)
      ensures m.pixels != [] ==>
        packetNum == (old(packetNum) + 1) % SIZE_T_MODULUS && published == old(published) + [TcpMessage(old(packetNum), m)]
    {
      if m.pixels == [] {
        return;
      }
      var message := new byte[3 * INT + 2 * SIZE_T + |m.pixels|](_ => 0);
      var offset := CopyBehind(message, 0, IntImage(m.cols));
      offset := CopyBehind(message, offset, IntImage(m.rows));
      offset := CopyBehind(message, offset, IntImage(m.kind));
      offset := CopyBehind(message, offset, Encode(m.step, SIZE_T));
      offset := CopyBehind(message, offset, m.pixels);
      assert message[..offset] == Marshalled(m);
      assert message[offset..] == Zeros(SIZE_T);
      assert message[..] == message[..offset] + message[offset..];
      published := published + [Encode(packetNum, SIZE_T) + message[..]];
      packetNum := (packetNum + 1) % SIZE_T_MODULUS;
    }
  }

  /**
   * TCPStreamer::PutOnSHMQueue without compression. The packet number is cut off and nothing else: the
   * number and what is enqueued are the message again, a bare number enqueues nothing, and of what
   * HandleWebcamFrame publishes the frame itself is enqueued.
   */
  method StripPacketNumber(tcpMessage: seq<byte>) returns (enqueued: seq<seq<byte>>)
    requires |tcpMessage| >= SIZE_T
    ensures |enqueued| <= 1 && (enqueued == [] <==> |tcpMessage| == SIZE_T)
    ensures enqueued != [] ==> tcpMessage[..SIZE_T] + enqueued[0] == tcpMessage
    ensures forall packetNum, m | IsMat(m) && tcpMessage == TcpMessage(packetNum, m) ::
              |enqueued| == 1 && |enqueued[0]| >= 20 && Unmarshalled(enqueued[0]) == m.(pixels := m.pixels + Zeros(8))
  {
    var rest := tcpMessage[SIZE_T..];
    if rest == [] {
      return [];
    }
    enqueued := [rest];
    forall packetNum, m | IsMat(m) && tcpMessage == TcpMessage(packetNum, m)
      ensures |rest| >= 20 && Unmarshalled(rest) == m.(pixels := m.pixels + Zeros(8))
    {
      TcpRoundTrip(packetNum, m);
    }
  }
}
