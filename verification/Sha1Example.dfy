// The example of FIPS 180-4 itself: the digest of the three octets "abc", computed by the verifier. A round
// needs sixteen words of the schedule and the working variables; the state of these after every tenth round is
// written down, and ten rounds lead from each to the next.
module Sha1Example {
  import opened Bytes
  import opened NetworkOrder
  import opened Sha1Standard

  /** Sixteen words of the schedule. */
  datatype Window = Window(w0: bv32, w1: bv32, w2: bv32, w3: bv32, w4: bv32, w5: bv32, w6: bv32, w7: bv32,
                           w8: bv32, w9: bv32, w10: bv32, w11: bv32, w12: bv32, w13: bv32, w14: bv32, w15: bv32)

  datatype State = State(h: Hash, w: Window)

  function Round(s: State, t: nat): State {
    var h, w := s.h, s.w;
    State(Hash(Sum5(Rotl5(h.a), Logical(t, h.b, h.c, h.d), h.e, Constant(t), w.w0), h.a, Rotl30(h.b), h.c, h.d),
          Window(w.w1, w.w2, w.w3, w.w4, w.w5, w.w6, w.w7, w.w8, w.w9, w.w10, w.w11, w.w12, w.w13, w.w14, w.w15,
                 Rotl1(Mix(w.w13, w.w8, w.w2, w.w0))))
  }

  /** `n` rounds from round `t` on. */
  function Rounded(s: State, t: nat, n: nat): State
    decreases n
  {
    if n == 0 then s else Rounded(Round(s, t), t + 1, n - 1)
  }

  function WindowOf(word: nat -> bv32, t: nat): Window {
    Window(word(t), word(t + 1), word(t + 2), word(t + 3), word(t + 4), word(t + 5), word(t + 6), word(t + 7),
           word(t + 8), word(t + 9), word(t + 10), word(t + 11), word(t + 12), word(t + 13), word(t + 14), word(t + 15))
  }

  function WindowAt(block: seq<byte>, t: nat): Window
    requires |block| == 64
  {
    WindowOf((i: nat) => Schedule(block, i), t)
  }

  /** The working variables after `t` rounds, and the schedule from there on. */
  function StateAt(h: Hash, block: seq<byte>, t: nat): State
    requires |block| == 64
  {
    State(Rounds(h, block, t), WindowAt(block, t))
  }

  predicate IsNext(states: nat -> State, t: nat) {
    states(t + 1) == Round(states(t), t)
  }

  ghost predicate IsRun(states: nat -> State) {
    forall t: nat :: IsNext(states, t)
  }

  lemma {:induction false} RoundedInRun(states: nat -> State, t: nat, n: nat)
    requires IsRun(states)
    ensures Rounded(states(t), t, n) == states(t + n)
    decreases n
  {
    if n > 0 {
      assert IsNext(states, t);
      RoundedInRun(states, t + 1, n - 1);
    }
  }

  /** The rounds need no more of the schedule than a window of sixteen words. */
  lemma WindowsAreEnough(h: Hash, block: seq<byte>, states: nat -> State)
    requires |block| == 64 && forall t: nat :: states(t) == StateAt(h, block, t)
    ensures IsRun(states)
  {
    forall t: nat
      ensures IsNext(states, t)
    {
      NextState(h, block, t);
    }
  }

  lemma NextState(h: Hash, block: seq<byte>, t: nat)
    requires |block| == 64
    ensures StateAt(h, block, t + 1) == Round(StateAt(h, block, t), t)
  {
  }

  function Abc(): seq<byte> {
    [97, 98, 99]
  }

  predicate WordsAreAbc(word: nat -> bv32) {
    word(0) == 0x61626380 && word(15) == 24 && forall t: nat :: 0 < t < 15 ==> word(t) == 0
  }

  lemma WindowOfAbc(word: nat -> bv32)
    requires WordsAreAbc(word)
    ensures WindowOf(word, 0) == Stage(0).w
  {
  }

  lemma PaddedAbc(block: seq<byte>, zeros: seq<byte>, field: seq<byte>)
    requires block == Abc() + ([128] + zeros + field) && field == [0, 0, 0, 0, 0, 0, 0, 24]
    requires |zeros| == 52 && forall i :: 0 <= i < 52 ==> zeros[i] == 0
    ensures |block| == 64 && WindowAt(block, 0) == Stage(0).w
  {
    WordsOfAbc();
    var word := (i: nat) => Schedule(block, i);
    forall t: nat | t < 16
      ensures word(t) == if t == 0 then 0x61626380 else if t == 15 then 24 else 0
    {
      OctetsOfAbc(block, zeros, field, t);
    }
    WindowOfAbc(word);
  }

  /** The message, the one bit, zeros, and 24 as the number of bits. */
  lemma BlockOfAbc(block: seq<byte>)
    requires block == Abc() + Padding(3)
    ensures |block| == 64 && WindowAt(block, 0) == Stage(0).w
  {
    FieldOf24();
    PaddedAbc(block, Zeros(Gap(3)), LengthField(24));
  }

  lemma OctetsOfAbc(block: seq<byte>, zeros: seq<byte>, field: seq<byte>, t: nat)
    requires block == Abc() + ([128] + zeros + field) && field == [0, 0, 0, 0, 0, 0, 0, 24] && t < 16
    requires |zeros| == 52 && forall i :: 0 <= i < 52 ==> zeros[i] == 0
    ensures |block| == 64
    ensures Schedule(block, t) == if t == 0 then Word(97, 98, 99, 128) else if t == 15 then Word(0, 0, 0, 24) else Word(0, 0, 0, 0)
  {
  }

  lemma WordsOfAbc()
    ensures Word(97, 98, 99, 128) == 0x61626380 && Word(0, 0, 0, 24) == 24 && Word(0, 0, 0, 0) == 0
  {
  }

  lemma FieldOf24()
    ensures LengthField(24) == [0, 0, 0, 0, 0, 0, 0, 24]
  {
  }

  lemma EightyRounds(block: seq<byte>)
    requires |block| == 64 && StateAt(INITIAL, block, 0) == Stage(0)
    ensures Rounds(INITIAL, block, 80) == Stage(8).h
  {
    var states := (t: nat) => StateAt(INITIAL, block, t);
    WindowsAreEnough(INITIAL, block, states);
    Rounds0To10(states);
    Rounds10To20(states);
    Rounds20To30(states);
    Rounds30To40(states);
    Rounds40To50(states);
    Rounds50To60(states);
    Rounds60To70(states);
    Rounds70To80(states);
  }

  lemma AddedUp(h: Hash)
    requires h == Stage(8).h
    ensures Added(INITIAL, h) == Hash(0xa9993e36, 0x4706816a, 0xba3e2571, 0x7850c26c, 0x9cd0d89d)
  {
  }

  /** The digest of "abc". */
  lemma DigestOfAbc()
    ensures Digest(Abc()) == Hash(0xa9993e36, 0x4706816a, 0xba3e2571, 0x7850c26c, 0x9cd0d89d)
  {
    var block := Abc() + Padding(3);
    BlockOfAbc(block);
    EightyRounds(block);
    OneBlock(block);
    AddedUp(Rounds(INITIAL, block, 80));
  }

  lemma OneBlock(block: seq<byte>)
    requires |block| == 64
    ensures Blocks(block) == Added(INITIAL, Rounds(INITIAL, block, 80))
  {
    assert block[..|block| - 64] == [] && block[|block| - 64..] == block;
  }

  /** `k` is the square root of `n`, in units of 2^-30 and rounded down. */
  predicate IsRoot(k: nat, n: nat) {
    k * k <= n * 0x1000_0000_0000_0000 < (k + 1) * (k + 1)
  }

  lemma RootsOfConstants()
    ensures IsRoot(0x5a827999, 2) && IsRoot(0x6ed9eba1, 3) && IsRoot(0x8f1bbcdc, 5) && IsRoot(0xca62c1d6, 10)
  {
  }

  lemma ConstantsAreRoots(t: nat)
    requires t < 80
    ensures IsRoot(Constant(t) as nat, if t < 20 then 2 else if t < 40 then 3 else if t < 60 then 5 else 10)
  {
    RootsOfConstants();
    ConstantNumbers(t);
  }

  lemma ConstantNumbers(t: nat)
    ensures Constant(t) as nat == if t < 20 then 0x5a827999 else if t < 40 then 0x6ed9eba1 else if t < 60 then 0x8f1bbcdc else 0xca62c1d6
  {
    assert (0x5a827999 as bv32) as nat == 0x5a827999 && (0x6ed9eba1 as bv32) as nat == 0x6ed9eba1;
    assert (0x8f1bbcdc as bv32) as nat == 0x8f1bbcdc && (0xca62c1d6 as bv32) as nat == 0xca62c1d6;
  }

  /** The state after ten times `k` rounds over the block of "abc". */
  function Stage(k: nat): State {
    match k
    case 0 =>
      State(Hash(0x67452301, 0xefcdab89, 0x98badcfe, 0x10325476, 0xc3d2e1f0),
      Window(0x61626380, 0x00000000, 0x00000000, 0x00000000, 0x00000000, 0x00000000, 0x00000000, 0x00000000,
             0x00000000, 0x00000000, 0x00000000, 0x00000000, 0x00000000, 0x00000000, 0x00000000, 0x00000018))
    case 1 =>
      State(Hash(0x8351f929, 0x4b6ae328, 0x27a301f5, 0x664f8c30, 0x0ff1f290),
      Window(0x00000000, 0x00000000, 0x00000000, 0x00000000, 0x00000000, 0x00000018, 0xc2c4c700, 0x00000000,
             0x00000030, 0x85898e01, 0x00000000, 0x00000060, 0x0b131c03, 0x00000030, 0x85898ec1, 0x16263806))
    case 2 =>
      State(Hash(0xfd9e1d7d, 0xdc64901d, 0x20aa99ca, 0xd3a49608, 0xc82f758b),
      Window(0x00000000, 0x00000060, 0x0b131c03, 0x00000030, 0x85898ec1, 0x16263806, 0x00000000, 0x00000180,
             0x2c4c700c, 0x000000f0, 0x93afb507, 0x5898e048, 0x8e9a9202, 0x00000600, 0xb131c0f0, 0x16263bc6))
    case 3 =>
      State(Hash(0xc5fbaf5d, 0x8370b52e, 0xd2aa1365, 0x6f8d7ef5, 0x12104ee9),
      Window(0x93afb507, 0x5898e048, 0x8e9a9202, 0x00000600, 0xb131c0f0, 0x16263bc6, 0x4ebed41e, 0x626380a1,
             0x16263806, 0x000018c0, 0xd2e138c4, 0x00000f00, 0x3afb5079, 0x898e04e5, 0xe2ba3c2b, 0x000060c0))
    case 4 =>
      State(Hash(0x32de1cba, 0x4c986405, 0xf718e5cf, 0x03d447f6, 0xf72eec32),
      Window(0xd2e138c4, 0x00000f00, 0x3afb5079, 0x898e04e5, 0xe2ba3c2b, 0x000060c0, 0x053a37cd, 0x74458547,
             0xda9415ed, 0x26380a16, 0x626383a1, 0x4ebf54de, 0x3835b44b, 0x0000f600, 0x1e84c7a3, 0x98e04d98))
    case 5 =>
      State(Hash(0x120731c5, 0xbaf39337, 0xafab40b2, 0x2806e11b, 0x8714787c),
      Window(0x626383a1, 0x4ebf54de, 0x3835b44b, 0x0000f600, 0x1e84c7a3, 0x98e04d98, 0x651d16a0, 0x62658ca1,
             0x458544d6, 0x44584cb7, 0x7ba06619, 0x6380aea2, 0x0ae55269, 0x627b49a1, 0x7cd45c9d, 0x000f0000))
    case 6 =>
      State(Hash(0x3f52de5a, 0x09d785fd, 0x3498bfd4, 0xf211824f, 0xd79915ab),
      Window(0x7ba06619, 0x6380aea2, 0x0ae55269, 0x627b49a1, 0x7cd45c9d, 0x000f0000, 0xfb50753a, 0xec6765e8,
             0xba3c2be2, 0x0060c000, 0x3a37cd05, 0x458546f4, 0xb8599dd6, 0x380a1a26, 0x01e02203, 0xe7cc3456))
    case 7 =>
      State(Hash(0x3f2588c2, 0x497093c0, 0xde37534a, 0x030f7cad, 0x4405957e),
      Window(0x3a37cd05, 0x458546f4, 0xb8599dd6, 0x380a1a26, 0x01e02203, 0xe7cc3456, 0xe6e60b69, 0x00f60a00,
             0x5795ef4f, 0x822e0879, 0x7e577ce2, 0x07ef2103, 0x8544e945, 0xeb39dab8, 0xc205991a, 0x80aecb63))
    case _ =>
      State(Hash(0x42541b35, 0x5738d5e1, 0x21834873, 0x681e6df6, 0xd8fdf6ad),
      Window(0x7e577ce2, 0x07ef2103, 0x8544e945, 0xeb39dab8, 0xc205991a, 0x80aecb63, 0x7d84ca48, 0x7b499b62,
             0x8e8010a8, 0x4b5b8a77, 0x3216b69a, 0x0507e88d, 0x705bee96, 0x60c0ff00, 0xa28362d0, 0x1da6b91d))
  }

  lemma Rounds0To10(states: nat -> State)
    requires IsRun(states) && states(0) == Stage(0)
    ensures states(10) == Stage(1)
  {
    RoundedInRun(states, 0, 10);
  }

  lemma Rounds10To20(states: nat -> State)
    requires IsRun(states) && states(10) == Stage(1)
    ensures states(20) == Stage(2)
  {
    RoundedInRun(states, 10, 10);
  }

  lemma Rounds20To30(states: nat -> State)
    requires IsRun(states) && states(20) == Stage(2)
    ensures states(30) == Stage(3)
  {
    RoundedInRun(states, 20, 10);
  }

  lemma Rounds30To40(states: nat -> State)
    requires IsRun(states) && states(30) == Stage(3)
    ensures states(40) == Stage(4)
  {
    RoundedInRun(states, 30, 10);
  }

  lemma Rounds40To50(states: nat -> State)
    requires IsRun(states) && states(40) == Stage(4)
    ensures states(50) == Stage(5)
  {
    RoundedInRun(states, 40, 10);
  }

  lemma Rounds50To60(states: nat -> State)
    requires IsRun(states) && states(50) == Stage(5)
    ensures states(60) == Stage(6)
  {
    RoundedInRun(states, 50, 10);
  }

  lemma Rounds60To70(states: nat -> State)
    requires IsRun(states) && states(60) == Stage(6)
    ensures states(70) == Stage(7)
  {
    RoundedInRun(states, 60, 10);
  }

  lemma Rounds70To80(states: nat -> State)
    requires IsRun(states) && states(70) == Stage(7)
    ensures states(80) == Stage(8)
  {
    RoundedInRun(states, 70, 10);
  }
}
