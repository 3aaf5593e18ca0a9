// WebSocket frames as section 5.2 of RFC 6455 lays them out, and the headers the server writes.
module WebSocketFrames {
  import opened Options
  import opened Bytes
  import opened NetworkOrder

  datatype LengthForm = Short | Medium | Long

  /** A frame; `payload` is what the peer means, before masking. */
  datatype Frame = Frame(fin: bool, opcode: nat, mask: Option<seq<byte>>, form: LengthForm, payload: seq<byte>)

  const CONTINUATION := 0
  const TEXT := 1
  const BINARY := 2
  const CLOSE := 8
  const PING := 9
  const PONG := 10

  predicate WellFormed(f: Frame) {
    && f.opcode < 16
    && (f.mask.Some? ==> |f.mask.value| == 4)
    && match f.form
       case Short => |f.payload| < 126
       case Medium => |f.payload| < 0x1_0000
       case Long => |f.payload| < SIZE_T_MODULUS
  }

  function Bit(a: nat, b: nat): (x: nat)
    ensures x < 2
  {
    (a + b) % 2
  }

  /** Exclusive or of the low `bits` bits. */
  function XorBits(a: nat, b: nat, bits: nat): (x: nat)
    ensures x < Pow2(bits)
    decreases bits, a, b
  {
    if bits == 0 then 0 else Bit(a, b) + 2 * XorBits(a / 2, b / 2, bits - 1)
  }

  function Pow2(n: nat): (p: nat)
    ensures p > 0
  {
    if n == 0 then 1 else 2 * Pow2(n - 1)
  }

  lemma BitTwice(a: nat, b: nat, rest: nat)
    ensures Bit(Bit(a, b) + 2 * rest, b) == a % 2 && (Bit(a, b) + 2 * rest) / 2 == rest
  {
  }

  lemma {:induction false} XorBitsTwice(a: nat, b: nat, bits: nat)
    requires a < Pow2(bits)
    ensures XorBits(XorBits(a, b, bits), b, bits) == a
  {
    if bits > 0 {
      XorBitsTwice(a / 2, b / 2, bits - 1);
      BitTwice(a, b, XorBits(a / 2, b / 2, bits - 1));
    }
  }

  function Xor(a: byte, b: byte): byte {
    assert Pow2(4) == 16 && Pow2(8) == 16 * Pow2(4);
    XorBits(a, b, 8)
  }

  lemma XorTwice(a: byte, b: byte)
    ensures Xor(Xor(a, b), b) == a
  {
    assert Pow2(4) == 16 && Pow2(8) == 16 * Pow2(4);
    XorBitsTwice(a, b, 8);
  }

  /** Octet i is combined with octet i mod 4 of the key; the same both ways. */
  function Masked(mask: seq<byte>, data: seq<byte>): (r: seq<byte>)
    requires |mask| == 4
    ensures |r| == |data|
    ensures forall i :: 0 <= i < |data| ==> r[i] == Xor(data[i], mask[i % 4])
  {
    seq(|data|, i requires 0 <= i < |data| => Xor(data[i], mask[i % 4]))
  }

  lemma UnmaskMasked(mask: seq<byte>, data: seq<byte>)
    requires |mask| == 4
    ensures Masked(mask, Masked(mask, data)) == data
  {
    forall i | 0 <= i < |data|
      ensures Masked(mask, Masked(mask, data))[i] == data[i]
    {
      XorTwice(data[i], mask[i % 4]);
    }
  }

  function FirstOctet(f: Frame): byte
    requires f.opcode < 16
  {
    (if f.fin then 128 else 0) + f.opcode
  }

  function SecondOctet(f: Frame): byte
    requires f.form.Short? ==> |f.payload| < 126
  {
    (if f.mask.Some? then 128 else 0)
    + match f.form
      case Short => |f.payload|
      case Medium => 126
      case Long => 127
  }

  function LengthOctets(f: Frame): seq<byte> {
    match f.form
    case Short => []
    case Medium => BigEndian(|f.payload|, 2)
    case Long => BigEndian(|f.payload|, 8)
  }

  function MaskOctets(f: Frame): seq<byte> {
    if f.mask.Some? then f.mask.value else []
  }

  function PayloadOctets(f: Frame): (octets: seq<byte>)
    requires WellFormed(f)
    ensures |octets| == |f.payload|
  {
    if f.mask.Some? then Masked(f.mask.value, f.payload) else f.payload
  }

  /** The frame on the wire. */
  function Wire(f: Frame): seq<byte>
    requires WellFormed(f)
  {
    [FirstOctet(f), SecondOctet(f)] + (LengthOctets(f) + (MaskOctets(f) + PayloadOctets(f)))
  }

  // build_header

  /** What the server sends in front of a payload of some size. */
  function BuildHeader(opcode: nat, size: nat): seq<byte>
    requires opcode < 16 && size < SIZE_T_MODULUS
  {
    if size < 126 then [128 + opcode, size]
    else if size < 0x1_0000 then [128 + opcode, 126] + Encode(Swapped(size, 2), 2)
    else [128 + opcode, 127] + Encode(Swapped64(size), 8)
  }

  function ServerFrame(opcode: nat, payload: seq<byte>): Frame {
    Frame(true, opcode, None,
          if |payload| < 126 then Short else if |payload| < 0x1_0000 then Medium else Long, payload)
  }

  /** The header in front of the payload is a well-formed final unmasked frame with the shortest length form. */
  lemma HeaderMakesFrame(opcode: nat, payload: seq<byte>)
    requires opcode < 16 && |payload| < SIZE_T_MODULUS
    ensures WellFormed(ServerFrame(opcode, payload))
    ensures BuildHeader(opcode, |payload|) + payload == Wire(ServerFrame(opcode, payload))
  {
    var size := |payload|;
    if size < 126 {
    } else if size < 0x1_0000 {
      EncodeDecode(BigEndian(size, 2));
    } else {
      Swapped64IsBigEndian(size);
    }
  }
}
