// crc8 of utils.cpp: the table-driven loop against the shift register that defines it. The register is eight
// bits wide, its polynomial is 0x1D, it starts at 0 and takes the message most significant bit first. One
// octet of input decides the next table index completely, so the table replaces eight single steps; and
// an error inside one octet is a burst no longer than the register, which never goes unnoticed.
module Crc8 {
  import opened ShiftRegister

  /** Polynomial 0x1D; the bit leaving the top of the register is combined with the message bit. */
  function TakeBit8(crc: bv8, bit: bool): bv8 {
    if (crc ^ (if bit then 0x80 else 0)) & 0x80 == 0x80 then (crc << 1) ^ 0x1D else crc << 1
  }

  /** The message bits of one octet, most significant first. */
  function HighFirst(o: bv8): (bits: Bits)
    ensures |bits| == 8
  {
    [o & 0x80 != 0, o & 0x40 != 0, o & 0x20 != 0, o & 0x10 != 0,
     o & 0x08 != 0, o & 0x04 != 0, o & 0x02 != 0, o & 0x01 != 0]
  }

  function Checksum8(data: seq<bv8>): bv8 {
    Run(TakeBit8, 0, Message(HighFirst, data))
  }

  /** 0xFF shifted down 0 to 7 times. */
  const LOW_MASKS: seq<bv8> := [0xFF, 0x7F, 0x3F, 0x1F, 0x0F, 0x07, 0x03, 0x01]

  predicate AgreeBelow8(n: nat, a: bv8, b: bv8) {
    n < |LOW_MASKS| && a & LOW_MASKS[n] == b & LOW_MASKS[n]
  }

  lemma LowMasks(n: nat)
    requires n <= 7
    ensures LOW_MASKS[n] & 1 != 0
    ensures n < 7 ==> LOW_MASKS[n + 1] == LOW_MASKS[n] >> 1
  {
    if n == 0 {} else if n == 1 {} else if n == 2 {} else if n == 3 {}
    else if n == 4 {} else if n == 5 {} else if n == 6 {} else {}
  }

  lemma AgreementBeforeBit8(a: bv8, p: bool, b: bv8, q: bool, mask: bv8)
    requires mask & 1 != 0 && TakeBit8(a, p) & mask == TakeBit8(b, q) & mask
    ensures a & (mask >> 1) == b & (mask >> 1)
  {
  }

  /** One differing message bit shows at the bottom of the register. */
  lemma OppositeBits8(crc: bv8, bit: bool)
    ensures TakeBit8(crc, bit) ^ TakeBit8(crc, !bit) == 0x1D
  {
  }

  lemma DifferAtBottom(x: bv8, y: bv8, mask: bv8)
    requires x ^ y == 0x1D && mask & 1 != 0
    ensures x & mask != y & mask
  {
    assert (x ^ y) & mask == (x & mask) ^ (y & mask);
  }

  lemma BitIsInjective8(a: bv8, b: bv8, bit: bool)
    requires TakeBit8(a, bit) == TakeBit8(b, bit)
    ensures a == b
  {
  }

  lemma StepIsInjective8()
    ensures Injective(TakeBit8)
  {
    forall a, b, bit | TakeBit8(a, bit) == TakeBit8(b, bit)
      ensures a == b
    {
      BitIsInjective8(a, b, bit);
    }
  }

  lemma AgreementMoves8(k: nat, a: bv8, b: bv8, p: bool, q: bool)
    requires k < 7 && AgreeBelow8(k, TakeBit8(a, p), TakeBit8(b, q))
    ensures AgreeBelow8(k + 1, a, b)
  {
    LowMasks(k);
    AgreementBeforeBit8(a, p, b, q, LOW_MASKS[k]);
  }

  lemma DisagreeBelow8(k: nat, x: bv8, y: bv8)
    requires k < 8 && x ^ y == 0x1D
    ensures !AgreeBelow8(k, x, y)
  {
    LowMasks(k);
    DifferAtBottom(x, y, LOW_MASKS[k]);
  }

  lemma OppositeBitsDisagree8(k: nat, r: bv8, bit: bool)
    requires k < 8
    ensures !AgreeBelow8(k, TakeBit8(r, bit), TakeBit8(r, !bit))
  {
    OppositeBits8(r, bit);
    DisagreeBelow8(k, TakeBit8(r, bit), TakeBit8(r, !bit));
  }

  lemma StepTracks8()
    ensures Tracks(TakeBit8, AgreeBelow8, 8)
  {
    forall k: nat, a, b, p, q | k + 1 < 8 && AgreeBelow8(k, TakeBit8(a, p), TakeBit8(b, q))
      ensures AgreeBelow8(k + 1, a, b)
    {
      AgreementMoves8(k, a, b, p, q);
    }
    forall k: nat, r | k < 8
      ensures !AgreeBelow8(k, TakeBit8(r, true), TakeBit8(r, false))
      ensures !AgreeBelow8(k, TakeBit8(r, false), TakeBit8(r, true))
    {
      OppositeBitsDisagree8(k, r, true);
      OppositeBitsDisagree8(k, r, false);
    }
  }

  lemma SameBits8(a: bv8, b: bv8)
    requires (a & 0x80 != 0) == (b & 0x80 != 0) && (a & 0x40 != 0) == (b & 0x40 != 0)
    requires (a & 0x20 != 0) == (b & 0x20 != 0) && (a & 0x10 != 0) == (b & 0x10 != 0)
    requires (a & 0x08 != 0) == (b & 0x08 != 0) && (a & 0x04 != 0) == (b & 0x04 != 0)
    requires (a & 0x02 != 0) == (b & 0x02 != 0) && (a & 0x01 != 0) == (b & 0x01 != 0)
    ensures a == b
  {
  }

  lemma HighFirstFacts()
    ensures EightBitsEach(HighFirst)
  {
    forall a, b | HighFirst(a) == HighFirst(b)
      ensures a == b
    {
      var u, v := HighFirst(a), HighFirst(b);
      assert u[0] == v[0] && u[1] == v[1] && u[2] == v[2] && u[3] == v[3]
          && u[4] == v[4] && u[5] == v[5] && u[6] == v[6] && u[7] == v[7];
      SameBits8(a, b);
    }
  }

  /** Strings of equal length that differ in one octet get different checksums. */
  lemma Crc8DetectsOneOctet(head: seq<bv8>, a: bv8, b: bv8, tail: seq<bv8>)
    requires a != b
    ensures Checksum8(head + [a] + tail) != Checksum8(head + [b] + tail)
  {
    StepIsInjective8();
    StepTracks8();
    HighFirstFacts();
    assert [a][0] != [b][0];
    OctetBurstIsDetected(TakeBit8, AgreeBelow8, 8, HighFirst, 0, head, [a], [b], tail);
  }

  // One table entry stands for eight shifts.

  function Xor8(a: bv8, b: bv8): bv8 { a ^ b }
  predicate Leaving8(w: bv8) { w & 0x80 == 0x80 }
  function Up8(w: bv8): bv8 { w << 1 }

  /** The same step on a bit kept at the top of a word: the solver handles this form well. */
  function TakeHighBit8(crc: bv8, bit: bv8): bv8 {
    if (crc ^ bit) & 0x80 == 0x80 then (crc << 1) ^ 0x1D else crc << 1
  }

  lemma HighBitCombinesFirst8(crc: bv8, word: bv8)
    ensures TakeHighBit8(crc ^ word, 0) == TakeHighBit8(crc, word & 0x80) ^ (word << 1)
  {
  }

  lemma BitCombinesFirst8(crc: bv8, word: bv8)
    ensures TakeBit8(Xor8(crc, word), false) == Xor8(TakeBit8(crc, Leaving8(word)), Up8(word))
  {
    HighBitCombinesFirst8(crc, word);
    if word & 0x80 == 0x80 {
      assert TakeBit8(crc, true) == TakeHighBit8(crc, 0x80);
    } else {
      assert word & 0x80 == 0;
      assert TakeBit8(crc, false) == TakeHighBit8(crc, 0);
    }
  }

  lemma Combines8()
    ensures CombinesFirst(TakeBit8, Xor8, Leaving8, Up8)
  {
    forall r, w {
      BitCombinesFirst8(r, w);
    }
  }

  function Entry8(i: bv8): bv8 {
    Run(TakeBit8, i, ClearBits(8))
  }

  lemma EmittedByOctet8(w: bv8)
    ensures Emitted(Leaving8, Up8, w, 8) == HighFirst(w)
    ensures Iterate(Up8, w, 8) == 0
  {
    UnrollEmitted(Leaving8, Up8, w);
    UnrollIterate(Up8, w);
    assert w << 1 << 1 << 1 << 1 << 1 << 1 << 1 << 1 == 0;
  }

  /** `table[crc ^ o]` is the register after the eight bits of `o`. */
  lemma TableReplacesBits8(crc: bv8, o: bv8)
    ensures Run(TakeBit8, crc, HighFirst(o)) == Entry8(crc ^ o)
  {
    Combines8();
    EmittedByOctet8(o);
    WordCombinesFirst(TakeBit8, Xor8, Leaving8, Up8, crc, o, 8);
    XorZero8(Run(TakeBit8, crc, HighFirst(o)));
  }

  lemma XorZero8(a: bv8)
    ensures a ^ 0 == a
  {
  }

  // The code.

  /** The first `n` entries are filled. */
  ghost predicate Filled8(table: seq<bv8>, n: nat) {
    n <= |table| == 256 && forall i :: 0 <= i < n ==> table[i] == Entry8(i as bv8)
  }

  ghost predicate IsTable8(table: seq<bv8>) {
    Filled8(table, 256)
  }

  lemma OneMoreEntry8(table: seq<bv8>, i: nat, entry: bv8)
    requires i < 256 && Filled8(table, i) && entry == Entry8(i as bv8)
    ensures Filled8(table[i := entry], i + 1)
  {
  }

  method GenerateCrc8Table(table: array<bv8>)
    requires table.Length == 256
    modifies table
    ensures IsTable8(table[..])
  {
    var i := 0;
    while i < 256
      invariant 0 <= i <= 256 && Filled8(table[..], i)
    {
      var entry := ShiftEightTimes8(i as bv8);
      OneMoreEntry8(table[..], i, entry);
      ghost var filled := table[..][i := entry];
      table[i] := entry;
      assert table[..] == filled;
      i := i + 1;
    }
  }

  method ShiftEightTimes8(i: bv8) returns (crc: bv8)
    ensures crc == Entry8(i)
  {
    crc := i;
    var j := 0;
    while j < 8
      invariant 0 <= j <= 8
      invariant Run(TakeBit8, crc, ClearBits(8 - j)) == Entry8(i)
    {
      crc := ShiftOnce8(crc, 7 - j);
      j := j + 1;
    }
  }

  /** One round of the inner loop; `left` more follow. */
  method ShiftOnce8(crc: bv8, ghost left: nat) returns (r: bv8)
    ensures Run(TakeBit8, crc, ClearBits(left + 1)) == Run(TakeBit8, r, ClearBits(left))
  {
    r := if crc & 0x80 != 0 then (crc << 1) ^ 0x1D else crc << 1;
    NoInput8(crc);
    assert r == TakeBit8(crc, false);
    assert ClearBits(left + 1)[1..] == ClearBits(left);
  }

  lemma NoInput8(crc: bv8)
    ensures crc & 0x80 != 0 ==> TakeBit8(crc, false) == (crc << 1) ^ 0x1D
    ensures crc & 0x80 == 0 ==> TakeBit8(crc, false) == crc << 1
  {
    XorZero8(crc);
    HighBitIsOne8(crc);
  }

  lemma HighBitIsOne8(crc: bv8)
    ensures crc & 0x80 != 0 <==> crc & 0x80 == 0x80
  {
  }

  /** `table[0]` is 0 in a finished table too, so the table is generated on every call. */
  method ComputeCrc8(table: array<bv8>, data: seq<bv8>) returns (crc: bv8)
    requires table.Length == 256 && (table[0] == 0 || IsTable8(table[..]))
    modifies table
    ensures crc == Checksum8(data)
  {
    if table[0] == 0 {
      GenerateCrc8Table(table);
    }
    crc := 0;
    var i := 0;
    while i < |data|
      invariant 0 <= i <= |data|
      invariant IsTable8(table[..])
      invariant crc == Checksum8(data[..i])
    {
      crc := UpdateCrc8(table, crc, data[i]);
      NextOctet(TakeBit8, HighFirst, 0, data, i);
      i := i + 1;
    }
    assert data[..i] == data;
  }

  method UpdateCrc8(table: array<bv8>, crc: bv8, o: bv8) returns (r: bv8)
    requires IsTable8(table[..])
    ensures r == Run(TakeBit8, crc, HighFirst(o))
  {
    TableReplacesBits8(crc, o);
    Lookup8(table[..], crc ^ o);
    r := table[(crc ^ o) as int];
  }

  lemma Lookup8(table: seq<bv8>, index: bv8)
    requires IsTable8(table)
    ensures index as int < 256 && table[index as int] == Entry8(index)
  {
    assert (index as int) as bv8 == index;
  }
}
