// The incremental SHA-1 object, and the messages for which it computes the standard's digest. Octets are
// buffered until a block is full and folded in then, whatever pieces the message comes in. The code has its
// own forms of the logical functions, and writes only the low 32 bits of the length when it pads.
module Sha1 {
  import opened Bytes
  import opened NetworkOrder
  import opened Sha1Standard

  // The code's own forms of the logical functions.

  function Rotate1(x: bv32): (r: bv32)
    ensures r == Rotl1(x)
  {
    (x << 1) ^ (x >> 31)
  }

  function Rotate5(x: bv32): (r: bv32)
    ensures r == Rotl5(x)
  {
    (x << 5) ^ (x >> 27)
  }

  function Rotate30(x: bv32): (r: bv32)
    ensures r == Rotl30(x)
  {
    (x << 30) ^ (x >> 2)
  }

  lemma OrIsXor(x: bv32, y: bv32, z: bv32)
    ensures (x & y) | (!x & z) == (x & y) ^ (!x & z)
    ensures (x & y) | (x & z) | (y & z) == (x & y) ^ (x & z) ^ (y & z)
  {
  }

  function CodeChoose(x: bv32, y: bv32, z: bv32): (r: bv32)
    ensures r == Ch(x, y, z)
  {
    OrIsXor(x, y, z);
    (x & y) | (!x & z)
  }

  function CodeMajority(x: bv32, y: bv32, z: bv32): (r: bv32)
    ensures r == Maj(x, y, z)
  {
    OrIsXor(x, y, z);
    (x & y) | (x & z) | (y & z)
  }

  function CodeLogical(t: nat, x: bv32, y: bv32, z: bv32): (r: bv32)
    ensures r == Logical(t, x, y, z)
  {
    if t < 20 then CodeChoose(x, y, z) else if t < 40 then x ^ y ^ z else if t < 60 then CodeMajority(x, y, z) else x ^ y ^ z
  }

  lemma OctetBack(x: bv32)
    requires x < 256
    ensures (x as byte) as bv32 == x
  {
  }

  lemma WordOfOctets(w: bv32)
    ensures (((w >> 24) & 0xFF) << 24) | (((w >> 16) & 0xFF) << 16) | (((w >> 8) & 0xFF) << 8) | (w & 0xFF) == w
  {
  }

  lemma BelowOctet(x: bv32)
    ensures x & 0xFF < 256
  {
  }

  function LowOctet(x: bv32): (o: byte)
    ensures o as bv32 == x & 0xFF
  {
    BelowOctet(x);
    OctetBack(x & 0xFF);
    (x & 0xFF) as byte
  }

  /** The 20 octets of a digest, most significant first. */
  function DigestOctets(h: Hash): seq<byte> {
    WordOctets(h.a) + WordOctets(h.b) + WordOctets(h.c) + WordOctets(h.d) + WordOctets(h.e)
  }

  function WordOctets(w: bv32): (o: seq<byte>)
    ensures |o| == 4 && Word(o[0], o[1], o[2], o[3]) == w
  {
    WordOfOctets(w);
    [LowOctet(w >> 24), LowOctet(w >> 16), LowOctet(w >> 8), LowOctet(w)]
  }

  lemma NextBlock(octets: seq<byte>, block: seq<byte>)
    requires |octets| % 64 == 0 && |block| == 64
    ensures |octets + block| % 64 == 0 && Blocks(octets + block) == Compress(Blocks(octets), block)
    ensures octets + block + [] == octets + block
  {
    var all := octets + block;
    assert all[..|all| - 64] == octets && all[|all| - 64..] == block;
  }

  // What getDigest appends: the length field is written from the low 32 bits only.

  function LowHalf(bits: nat): (f: seq<byte>)
    ensures |f| == 8
  {
    Zeros(4) + BigEndian(bits % 0x1_0000_0000, 4)
  }

  function CodePadding(n: nat): (p: seq<byte>)
    ensures |p| == Gap(n) + 9
  {
    PaddingLead(n) + LowHalf(8 * n)
  }

  lemma NextOctet(start: seq<byte>, data: seq<byte>, i: nat)
    requires i < |data|
    ensures start + data[..i] + [data[i]] == start + data[..i + 1]
  {
  }

  lemma NextCount(n: nat)
    ensures (n % SIZE_T_MODULUS + 1) % SIZE_T_MODULUS == (n + 1) % SIZE_T_MODULUS
  {
  }

  /** The byte count may have wrapped: the low half of the bit count is right all the same. */
  lemma BitCount(n: nat)
    ensures n % SIZE_T_MODULUS * 8 % SIZE_T_MODULUS % 0x1_0000_0000 == 8 * n % 0x1_0000_0000
  {
    var q, r := n / SIZE_T_MODULUS, n % SIZE_T_MODULUS;
    assert 8 * n == 8 * r + 0x1_0000_0000 * (0x8_0000_0000 * q);
    var p := 8 * r / SIZE_T_MODULUS;
    assert 8 * r == 8 * r % SIZE_T_MODULUS + 0x1_0000_0000 * (0x1_0000_0000 * p);
  }

  lemma PaddedMessage(message: seq<byte>)
    ensures message + PaddingLead(|message|) + LowHalf(8 * |message|) == message + CodePadding(|message|)
    ensures |message + CodePadding(|message|)| % 64 == 0
  {
    WholeBlocks(|message|);
  }

  lemma NothingBuffered(whole: seq<byte>, rest: seq<byte>)
    requires |whole| % 64 == 0 && |rest| < 64 && |whole + rest| % 64 == 0
    ensures whole + rest == whole
  {
  }

  lemma FillsTo56(whole: nat, n: nat, k: nat)
    requires k < 64 && whole % 64 == 0 && whole + 56 == n + 1 + k
    ensures k == Gap(n)
  {
    OnlyGap(n, k);
  }

  lemma OnlyGap(n: nat, k: nat)
    requires k < 64 && (n + 1 + k) % 64 == 56
    ensures k == Gap(n)
  {
    var j := Gap(n);
    var a, b := (n + 1 + k) / 64, (n + 1 + j) / 64;
    assert n + 1 + k == 64 * a + 56 && n + 1 + j == 64 * b + 56;
    assert k - j == 64 * (a - b);
  }

  /** A word of the schedule from four earlier ones. */
  function NextWord(ghost block: seq<byte>, ghost t: nat, x3: bv32, x8: bv32, x14: bv32, x16: bv32): (x: bv32)
    requires |block| == 64 && t >= 16
    requires x3 == Schedule(block, t - 3) && x8 == Schedule(block, t - 8)
    requires x14 == Schedule(block, t - 14) && x16 == Schedule(block, t - 16)
    ensures x == Schedule(block, t)
  {
    Rotate1(Mix(x3, x8, x14, x16))
  }

  /** The first `n` words are those of the schedule. */
  ghost predicate Scheduled(w: seq<bv32>, block: seq<byte>, n: nat) {
    |block| == 64 && n <= |w| && forall t {:trigger w[t]} :: 0 <= t < n ==> w[t] == Schedule(block, t)
  }

  lemma OneMoreWord(w: seq<bv32>, block: seq<byte>, n: nat, x: bv32)
    requires Scheduled(w, block, n) && n < |w| && x == Schedule(block, n)
    ensures Scheduled(w[n := x], block, n + 1)
  {
  }

  class SHA1 {
    var digest: Hash
    const block: array<byte>
    var blockByteIndex: nat
    var byteCount: nat
    /** Everything processed since the reset, and the whole blocks of it. */
    ghost var fed: seq<byte>
    ghost var whole: seq<byte>

    ghost predicate Valid()
      reads this, block
    {
      && block.Length == 64 && blockByteIndex < 64
      && |whole| % 64 == 0 && fed == whole + block[..blockByteIndex]
      && byteCount == |fed| % SIZE_T_MODULUS
      && digest == Blocks(whole)
    }

    constructor ()
      ensures Valid() && fed == [] && fresh(block)
    {
      block := new byte[64];
      new;
      Reset();
    }

    method Reset()
      requires block.Length == 64
      modifies this
      ensures Valid() && fed == []
    {
      digest := INITIAL;
      blockByteIndex, byteCount := 0, 0;
      fed, whole := [], [];
    }

    method ProcessByte(octet: byte)
      requires Valid()
      modifies this, block
      ensures Valid() && fed == old(fed) + [octet]
      ensures blockByteIndex == if old(blockByteIndex) == 63 then 0 else old(blockByteIndex) + 1
    {
      NextCount(|fed|);
      block[blockByteIndex] := octet;
      blockByteIndex := blockByteIndex + 1;
      byteCount := (byteCount + 1) % SIZE_T_MODULUS;
      fed := fed + [octet];
      assert fed == whole + block[..blockByteIndex];
      if blockByteIndex == 64 {
        blockByteIndex := 0;
        CompleteBlock();
      }
    }

    /** The block is full: it joins the whole blocks. */
    method CompleteBlock()
      requires block.Length == 64 && |whole| % 64 == 0 && digest == Blocks(whole) && fed == whole + block[..64]
      requires blockByteIndex == 0 && byteCount == |fed| % SIZE_T_MODULUS
      modifies this`digest, this`whole
      ensures Valid()
    {
      ghost var full := block[..64];
      assert block[..] == full && block[..0] == [];
      NextBlock(whole, full);
      ProcessBlock();
      whole := whole + full;
    }

    method ProcessBytes(data: seq<byte>)
      requires Valid()
      modifies this, block
      ensures Valid() && fed == old(fed) + data
    {
      ghost var start := fed;
      for i := 0 to |data|
        invariant Valid() && fed == start + data[..i]
      {
        ProcessByte(data[i]);
        NextOctet(start, data, i);
      }
      assert data[..|data|] == data;
    }

    method ProcessBlock()
      requires block.Length == 64
      modifies this`digest
      ensures digest == Compress(old(digest), block[..])
    {
      var w := Expand();
      var v := digest;
      for i := 0 to ROUNDS
        invariant v == Rounds(digest, block[..], i)
      {
        var temp := Sum5(Rotate5(v.a), CodeLogical(i, v.b, v.c, v.d), v.e, Constant(i), w[i]);
        v := Hash(temp, v.a, Rotate30(v.b), v.c, v.d);
      }
      digest := Added(digest, v);
    }

    /** The 80 words of the block. */
    method Expand() returns (w: array<bv32>)
      requires block.Length == 64
      ensures fresh(w) && w.Length == ROUNDS && Scheduled(w[..], block[..], ROUNDS)
    {
      w := new bv32[ROUNDS];
      ghost var b := block[..];
      Load(w);
      for i := 16 to ROUNDS
        invariant Scheduled(w[..], b, i)
      {
        var x := NextWord(b, i, w[i - 3], w[i - 8], w[i - 14], w[i - 16]);
        ghost var longer := w[..][i := x];
        OneMoreWord(w[..], b, i, x);
        w[i] := x;
        assert w[..] == longer;
      }
    }

    /** The first 16 words are the block itself. */
    method Load(w: array<bv32>)
      requires block.Length == 64 && w.Length == ROUNDS
      modifies w
      ensures Scheduled(w[..], block[..], 16)
    {
      ghost var b := block[..];
      for i := 0 to 16
        invariant Scheduled(w[..], b, i)
      {
        var x := Word(block[4 * i], block[4 * i + 1], block[4 * i + 2], block[4 * i + 3]);
        assert x == Schedule(b, i);
        ghost var longer := w[..][i := x];
        OneMoreWord(w[..], b, i, x);
        w[i] := x;
        assert w[..] == longer;
      }
    }

    method ProcessZeros(n: nat)
      requires Valid()
      modifies this, block
      ensures Valid() && fed == old(fed) + Zeros(n)
    {
      for i := 0 to n
        invariant Valid() && fed == old(fed) + Zeros(i)
      {
        ProcessByte(0);
      }
    }

    /** Zeros through the end of the block. */
    method FinishBlock() returns (ghost n: nat)
      requires Valid() && blockByteIndex > 56
      modifies this, block
      ensures Valid() && fed == old(fed) + Zeros(n) && n == 64 - old(blockByteIndex) && blockByteIndex == 0
    {
      ghost var begun, first := fed, blockByteIndex;
      n := 0;
      while blockByteIndex != 0
        invariant Valid() && fed == begun + Zeros(n)
        invariant if blockByteIndex == 0 then n == 64 - first else blockByteIndex == first + n
        decreases 64 - n
      {
        ProcessByte(0);
        n := n + 1;
      }
    }

    /** Zeros up to octet 56 of a block, through the end of this one if need be. */
    method FillBlock(ghost message: seq<byte>)
      requires Valid() && fed == message + [128]
      modifies this, block
      ensures Valid() && fed == message + PaddingLead(|message|)
    {
      ghost var begun, n := fed, 0;
      if blockByteIndex > 56 {
        n := FinishBlock();
      }
      ghost var first, skipped := blockByteIndex, n;
      while blockByteIndex < 56
        invariant Valid() && fed == begun + Zeros(n)
        invariant blockByteIndex <= 56 && n == skipped + (blockByteIndex - first)
        decreases 56 - blockByteIndex
      {
        ProcessByte(0);
        n := n + 1;
      }
      FillsTo56(|whole|, |message|, n);
    }

    /** Pads, and returns the digest of everything processed; the object must be reset before it is used again. */
    method GetDigest() returns (d: Hash)
      requires Valid()
      modifies this, block
      ensures Valid() && fed == old(fed) + CodePadding(|old(fed)|)
      ensures |old(fed)| < 0x2000_0000 ==> d == Digest(old(fed))
    {
      ghost var message := fed;
      var bitCount := byteCount * 8 % SIZE_T_MODULUS;
      ProcessByte(128);
      FillBlock(message);
      BitCount(|message|);
      ProcessLength(BigEndian(bitCount % 0x1_0000_0000, 4));
      Finished(message);
      d := digest;
    }

    /** Four zeros and the four octets of the length. */
    method ProcessLength(low: seq<byte>)
      requires Valid()
      modifies this, block
      ensures Valid() && fed == old(fed) + (Zeros(4) + low)
    {
      ProcessZeros(4);
      ProcessBytes(low);
    }

    lemma Finished(message: seq<byte>)
      requires Valid() && fed == message + PaddingLead(|message|) + (Zeros(4) + BigEndian(8 * |message| % 0x1_0000_0000, 4))
      ensures fed == message + CodePadding(|message|)
      ensures |message| < 0x2000_0000 ==> digest == Digest(message)
    {
      PaddedMessage(message);
      NothingBuffered(whole, block[..blockByteIndex]);
      if |message| < 0x2000_0000 {
        DigestIsStandard(message);
      }
    }

    method GetDigestBytes() returns (octets: seq<byte>)
      requires Valid()
      modifies this, block
      ensures Valid()
      ensures |old(fed)| < 0x2000_0000 ==> octets == DigestOctets(Digest(old(fed)))
    {
      var d := GetDigest();
      octets := DigestOctets(d);
    }
  }

  // For which messages that is the standard's digest.

  lemma {:induction false} NoOctets(width: nat)
    ensures BigEndian(0, width) == Zeros(width)
  {
    if width > 0 {
      NoOctets(width - 1);
    }
  }

  lemma {:induction false} AllZero(s: seq<byte>)
    requires forall i :: 0 <= i < |s| ==> s[i] == 0
    ensures FromBig(s) == 0
  {
    if s != [] {
      AllZero(s[..|s| - 1]);
    }
  }

  lemma HighOctets(high: nat, width: nat)
    requires high < Modulus(width)
    ensures BigEndian(high, width) == Zeros(width) <==> high == 0
  {
    if high == 0 {
      NoOctets(width);
    } else if BigEndian(high, width) == Zeros(width) {
      AllZero(BigEndian(high, width));
      BigEndianRoundTrip(high, width);
    }
  }

  lemma SplitField(bits: nat)
    requires bits < SIZE_T_MODULUS
    ensures LengthField(bits)
         == BigEndian(bits / 0x1_0000_0000, 4) + BigEndian(bits % 0x1_0000_0000, 4)
  {
    ModulusValues();
    BigEndianSplit(bits, 4, 4);
  }

  lemma SameHalves(high: seq<byte>, low: seq<byte>)
    requires |high| == 4
    ensures Zeros(4) + low == high + low <==> high == Zeros(4)
  {
    assert (Zeros(4) + low)[..4] == Zeros(4) && (high + low)[..4] == high;
  }

  /** The length is written as the standard wants it exactly when it fits into 32 bits. */
  lemma FieldIsStandard(bits: nat)
    requires bits < SIZE_T_MODULUS
    ensures LowHalf(bits) == LengthField(bits) <==> bits < 0x1_0000_0000
  {
    var high := bits / 0x1_0000_0000;
    ModulusValues();
    SplitField(bits);
    HighOctets(high, 4);
    SameHalves(BigEndian(high, 4), BigEndian(bits % 0x1_0000_0000, 4));
  }

  lemma SameTails(lead: seq<byte>, s: seq<byte>, t: seq<byte>)
    ensures lead + s == lead + t <==> s == t
  {
    assert (lead + s)[|lead|..] == s && (lead + t)[|lead|..] == t;
  }

  /** The padding is the standard's exactly for messages below 2^29 octets (among those the standard defines). */
  lemma PaddingIsStandard(n: nat)
    requires 8 * n < SIZE_T_MODULUS
    ensures CodePadding(n) == Padding(n) <==> n < 0x2000_0000
  {
    FieldIsStandard(8 * n);
    SameTails(PaddingLead(n), LowHalf(8 * n), LengthField(8 * n));
  }

  /** getDigest computes the digest of FIPS 180-4 for every message below 2^29 octets. */
  lemma DigestIsStandard(message: seq<byte>)
    requires |message| < 0x2000_0000
    ensures (|message| + |CodePadding(|message|)|) % 64 == 0
    ensures Blocks(message + CodePadding(|message|)) == Digest(message)
  {
    WholeBlocks(|message|);
    PaddingIsStandard(|message|);
  }
}
