// SHA-1 as FIPS 180-4 defines it: functions and constants (sections 4.1.1 and 4.2.1), padding
// (5.1.1), initial value (5.3.1) and the hash computation (6.1.2). Words are 32-bit vectors and messages
// are octets, so a length in bits is eight times the number of octets. The message schedule and the
// rounds are functions of their step number, and the digest is a fold over the blocks of the padded
// message.
module Sha1Standard {
  import opened Bytes
  import opened NetworkOrder

  datatype Hash = Hash(a: bv32, b: bv32, c: bv32, d: bv32, e: bv32)

  const INITIAL := Hash(0x67452301, 0xefcdab89, 0x98badcfe, 0x10325476, 0xc3d2e1f0)

  function Rotl1(x: bv32): bv32 {
    (x << 1) | (x >> 31)
  }

  function Rotl5(x: bv32): bv32 {
    (x << 5) | (x >> 27)
  }

  function Rotl30(x: bv32): bv32 {
    (x << 30) | (x >> 2)
  }

  function Ch(x: bv32, y: bv32, z: bv32): bv32 {
    (x & y) ^ (!x & z)
  }

  function Parity(x: bv32, y: bv32, z: bv32): bv32 {
    x ^ y ^ z
  }

  function Maj(x: bv32, y: bv32, z: bv32): bv32 {
    (x & y) ^ (x & z) ^ (y & z)
  }

  function Logical(t: nat, x: bv32, y: bv32, z: bv32): bv32 {
    if t < 20 then Ch(x, y, z) else if t < 40 then Parity(x, y, z) else if t < 60 then Maj(x, y, z) else Parity(x, y, z)
  }

  function Constant(t: nat): bv32 {
    if t < 20 then 0x5a827999 else if t < 40 then 0x6ed9eba1 else if t < 60 then 0x8f1bbcdc else 0xca62c1d6
  }

  /** Four octets, the first the most significant. */
  function Word(o: byte, p: byte, q: byte, r: byte): bv32 {
    ((o as bv32) << 24) | ((p as bv32) << 16) | ((q as bv32) << 8) | (r as bv32)
  }

  /** The message schedule of a block. */
  function Schedule(block: seq<byte>, t: nat): bv32
    requires |block| == 64
    decreases t, |block|
  {
    if t < 16 then Word(block[4 * t], block[4 * t + 1], block[4 * t + 2], block[4 * t + 3])
    else Rotl1(Mix(Schedule(block, t - 3), Schedule(block, t - 8), Schedule(block, t - 14), Schedule(block, t - 16)))
  }

  function Mix(w: bv32, x: bv32, y: bv32, z: bv32): bv32 {
    w ^ x ^ y ^ z
  }

  function Sum5(v: bv32, w: bv32, x: bv32, y: bv32, z: bv32): bv32 {
    v + w + x + y + z
  }

  /** The working variables after `t` rounds. */
  function Rounds(h: Hash, block: seq<byte>, t: nat): Hash
    requires |block| == 64
    decreases t, |block|
  {
    if t == 0 then h
    else
      var v := Rounds(h, block, t - 1);
      Hash(Sum5(Rotl5(v.a), Logical(t - 1, v.b, v.c, v.d), v.e, Constant(t - 1), Schedule(block, t - 1)),
           v.a, Rotl30(v.b), v.c, v.d)
  }

  function Added(h: Hash, v: Hash): Hash {
    Hash(h.a + v.a, h.b + v.b, h.c + v.c, h.d + v.d, h.e + v.e)
  }

  const ROUNDS: nat := 80

  function Compress(h: Hash, block: seq<byte>): Hash
    requires |block| == 64
  {
    Added(h, Rounds(h, block, ROUNDS))
  }

  /** All whole blocks, one after the other. */
  function Blocks(octets: seq<byte>): Hash
    requires |octets| % 64 == 0
  {
    if octets == [] then INITIAL
    else Compress(Blocks(octets[..|octets| - 64]), octets[|octets| - 64..])
  }

  /** Octets of zeros between the one bit and the length. */
  function Gap(n: nat): (k: nat)
    ensures k < 64 && (n + 1 + k) % 64 == 56
  {
    (119 - n % 64) % 64
  }

  function PaddingLead(n: nat): (p: seq<byte>)
    ensures |p| == Gap(n) + 1
  {
    [128] + Zeros(Gap(n))
  }

  function LengthField(bits: nat): (f: seq<byte>)
    ensures |f| == 8
  {
    BigEndian(bits, 8)
  }

  /** The bit 1, zeros, and the length in bits as a 64-bit big-endian number. */
  function Padding(n: nat): (p: seq<byte>)
    ensures |p| == Gap(n) + 9
  {
    PaddingLead(n) + LengthField(8 * n)
  }

  lemma WholeBlocks(n: nat)
    ensures (n + (Gap(n) + 9)) % 64 == 0
  {
    var m := n + 1 + Gap(n);
    assert m % 64 == 56;
    assert (m + 8) % 64 == 0;
  }

  function Digest(message: seq<byte>): Hash {
    WholeBlocks(|message|);
    Blocks(message + Padding(|message|))
  }
}
