// crc16 of utils.cpp: the table-driven loop against the shift register that defines it. The register is sixteen
// bits wide and reflected, its polynomial is 0xA001, it starts at 0xFFFF, takes the message least
// significant bit first, and its complement is the checksum. One octet of input decides which table entry
// is combined with the rest, so the table replaces eight single steps; and an error inside two adjacent
// octets is a burst no longer than the register, which never goes unnoticed.
module Crc16 {
  import opened ShiftRegister

  // crc16: reflected polynomial 0xA001, register starts at 0xFFFF, result complemented.

  /** The bit leaving the register is combined with the incoming message bit. */
  function TakeBit16(crc: bv16, bit: bool): bv16 {
    if (crc ^ (if bit then 1 else 0)) & 1 == 1 then (crc >> 1) ^ 0xA001 else crc >> 1
  }

  /** The message bits of one octet, least significant first. */
  function LowFirst(o: bv8): (bits: Bits)
    ensures |bits| == 8
  {
    [o & 0x01 != 0, o & 0x02 != 0, o & 0x04 != 0, o & 0x08 != 0,
     o & 0x10 != 0, o & 0x20 != 0, o & 0x40 != 0, o & 0x80 != 0]
  }

  function Register16(data: seq<bv8>): bv16 {
    Run(TakeBit16, 0xFFFF, Message(LowFirst, data))
  }

  function Checksum16(data: seq<bv8>): bv16 {
    !Register16(data)
  }

  /** 0xFFFF shifted up 0 to 15 times. */
  const HIGH_MASKS: seq<bv16> :=
    [0xFFFF, 0xFFFE, 0xFFFC, 0xFFF8, 0xFFF0, 0xFFE0, 0xFFC0, 0xFF80,
      0xFF00, 0xFE00, 0xFC00, 0xF800, 0xF000, 0xE000, 0xC000, 0x8000]

  predicate AgreeAbove16(n: nat, a: bv16, b: bv16) {
    n < |HIGH_MASKS| && a & HIGH_MASKS[n] == b & HIGH_MASKS[n]
  }

  lemma HighMasks(n: nat)
    requires n <= 15
    ensures HIGH_MASKS[n] & 0x8000 != 0
    ensures n < 15 ==> HIGH_MASKS[n + 1] == HIGH_MASKS[n] << 1
  {
    if n == 0 {} else if n == 1 {} else if n == 2 {} else if n == 3 {} else if n == 4 {}
    else if n == 5 {} else if n == 6 {} else if n == 7 {} else if n == 8 {} else if n == 9 {}
    else if n == 10 {} else if n == 11 {} else if n == 12 {} else if n == 13 {} else if n == 14 {} else {}
  }

  lemma AgreementBeforeBit16(a: bv16, p: bool, b: bv16, q: bool, mask: bv16)
    requires mask & 0x8000 != 0 && TakeBit16(a, p) & mask == TakeBit16(b, q) & mask
    ensures a & (mask << 1) == b & (mask << 1)
  {
  }

  /** One differing message bit shows at the top of the register. */
  lemma OppositeBits16(crc: bv16, bit: bool)
    ensures TakeBit16(crc, bit) ^ TakeBit16(crc, !bit) == 0xA001
  {
  }

  lemma DifferAtTop(x: bv16, y: bv16, mask: bv16)
    requires x ^ y == 0xA001 && mask & 0x8000 != 0
    ensures x & mask != y & mask
  {
    assert (x ^ y) & mask == (x & mask) ^ (y & mask);
  }

  lemma BitIsInjective16(a: bv16, b: bv16, bit: bool)
    requires TakeBit16(a, bit) == TakeBit16(b, bit)
    ensures a == b
  {
  }

  lemma StepIsInjective16()
    ensures Injective(TakeBit16)
  {
    forall a, b, bit | TakeBit16(a, bit) == TakeBit16(b, bit)
      ensures a == b
    {
      BitIsInjective16(a, b, bit);
    }
  }

  lemma AgreementMoves16(k: nat, a: bv16, b: bv16, p: bool, q: bool)
    requires k < 15 && AgreeAbove16(k, TakeBit16(a, p), TakeBit16(b, q))
    ensures AgreeAbove16(k + 1, a, b)
  {
    HighMasks(k);
    AgreementBeforeBit16(a, p, b, q, HIGH_MASKS[k]);
  }

  lemma DisagreeAbove16(k: nat, x: bv16, y: bv16)
    requires k < 16 && x ^ y == 0xA001
    ensures !AgreeAbove16(k, x, y)
  {
    HighMasks(k);
    DifferAtTop(x, y, HIGH_MASKS[k]);
  }

  lemma OppositeBitsDisagree16(k: nat, r: bv16, bit: bool)
    requires k < 16
    ensures !AgreeAbove16(k, TakeBit16(r, bit), TakeBit16(r, !bit))
  {
    OppositeBits16(r, bit);
    DisagreeAbove16(k, TakeBit16(r, bit), TakeBit16(r, !bit));
  }

  lemma StepTracks16()
    ensures Tracks(TakeBit16, AgreeAbove16, 16)
  {
    forall k: nat, a, b, p, q | k + 1 < 16 && AgreeAbove16(k, TakeBit16(a, p), TakeBit16(b, q))
      ensures AgreeAbove16(k + 1, a, b)
    {
      AgreementMoves16(k, a, b, p, q);
    }
    forall k: nat, r | k < 16
      ensures !AgreeAbove16(k, TakeBit16(r, true), TakeBit16(r, false))
      ensures !AgreeAbove16(k, TakeBit16(r, false), TakeBit16(r, true))
    {
      OppositeBitsDisagree16(k, r, true);
      OppositeBitsDisagree16(k, r, false);
    }
  }

  lemma SameBits(a: bv8, b: bv8)
    requires (a & 0x01 != 0) == (b & 0x01 != 0) && (a & 0x02 != 0) == (b & 0x02 != 0)
    requires (a & 0x04 != 0) == (b & 0x04 != 0) && (a & 0x08 != 0) == (b & 0x08 != 0)
    requires (a & 0x10 != 0) == (b & 0x10 != 0) && (a & 0x20 != 0) == (b & 0x20 != 0)
    requires (a & 0x40 != 0) == (b & 0x40 != 0) && (a & 0x80 != 0) == (b & 0x80 != 0)
    ensures a == b
  {
  }

  lemma LowFirstFacts()
    ensures EightBitsEach(LowFirst)
  {
    forall a, b | LowFirst(a) == LowFirst(b)
      ensures a == b
    {
      var u, v := LowFirst(a), LowFirst(b);
      assert u[0] == v[0] && u[1] == v[1] && u[2] == v[2] && u[3] == v[3]
          && u[4] == v[4] && u[5] == v[5] && u[6] == v[6] && u[7] == v[7];
      SameBits(a, b);
    }
  }

  lemma ComplementIsInjective(a: bv16, b: bv16)
    ensures !a == !b ==> a == b
  {
  }

  /** Strings of equal length that differ only inside two adjacent octets get different checksums. */
  lemma Crc16DetectsTwoAdjacentOctets(head: seq<bv8>, s: seq<bv8>, t: seq<bv8>, tail: seq<bv8>)
    requires |s| == |t| <= 2 && s != t
    ensures Checksum16(head + s + tail) != Checksum16(head + t + tail)
  {
    StepIsInjective16();
    StepTracks16();
    LowFirstFacts();
    OctetBurstIsDetected(TakeBit16, AgreeAbove16, 16, LowFirst, 0xFFFF, head, s, t, tail);
    ComplementIsInjective(Register16(head + s + tail), Register16(head + t + tail));
  }

  // One table entry stands for eight shifts.

  function Xor16(a: bv16, b: bv16): bv16 { a ^ b }
  predicate Leaving16(w: bv16) { w & 1 == 1 }
  function Down16(w: bv16): bv16 { w >> 1 }

  lemma ShiftedXor16(crc: bv16, word: bv16)
    ensures (crc ^ word) >> 1 == (crc >> 1) ^ (word >> 1)
    ensures ((crc >> 1) ^ (word >> 1)) ^ 0xA001 == ((crc >> 1) ^ 0xA001) ^ (word >> 1)
  {
  }

  lemma LowBit16(crc: bv16, word: bv16)
    ensures word & 1 == 1 ==> ((crc ^ word) ^ 0) & 1 == (crc ^ 1) & 1
    ensures word & 1 != 1 ==> ((crc ^ word) ^ 0) & 1 == (crc ^ 0) & 1
  {
  }

  lemma BitCombinesFirst16(crc: bv16, word: bv16)
    ensures TakeBit16(crc ^ word, false) == TakeBit16(crc, word & 1 == 1) ^ (word >> 1)
  {
    ShiftedXor16(crc, word);
    LowBit16(crc, word);
  }

  lemma Combines16()
    ensures CombinesFirst(TakeBit16, Xor16, Leaving16, Down16)
  {
    forall r, w
      ensures TakeBit16(Xor16(r, w), false) == Xor16(TakeBit16(r, Leaving16(w)), Down16(w))
    {
      BitCombinesFirst16(r, w);
    }
  }

  function Entry16(i: bv16): bv16 {
    Run(TakeBit16, i, ClearBits(8))
  }

  lemma EmittedByOctet16(o: bv8)
    ensures Emitted(Leaving16, Down16, o as bv16, 8) == LowFirst(o)
    ensures Iterate(Down16, o as bv16, 8) == 0
  {
    var w := o as bv16;
    UnrollEmitted(Leaving16, Down16, w);
    UnrollIterate(Down16, w);
    assert w >> 1 >> 1 >> 1 >> 1 >> 1 >> 1 >> 1 >> 1 == 0;
  }

  /** The high octet has only zeros in its low half, which the shifts move out. */
  lemma HighOctetMovesDown16(high: bv16)
    requires high & 0xFF == 0
    ensures Quiet(Leaving16, Down16, high, 8)
    ensures Iterate(Down16, high, 8) == high >> 8
  {
    UnrollIterate(Down16, high);
    assert high & 1 == 0 && (high >> 1) & 1 == 0 && (high >> 1 >> 1) & 1 == 0 && (high >> 1 >> 1 >> 1) & 1 == 0;
    assert (high >> 1 >> 1 >> 1 >> 1) & 1 == 0 && (high >> 1 >> 1 >> 1 >> 1 >> 1) & 1 == 0;
    assert (high >> 1 >> 1 >> 1 >> 1 >> 1 >> 1) & 1 == 0 && (high >> 1 >> 1 >> 1 >> 1 >> 1 >> 1 >> 1) & 1 == 0;
  }

  /** `(crc >> 8) ^ table[(crc ^ o) & 0xFF]` is the register after the eight bits of `o`. */
  lemma TableReplacesBits16(crc: bv16, o: bv8)
    ensures Run(TakeBit16, crc, LowFirst(o)) == (crc >> 8) ^ Entry16((crc ^ (o as bv16)) & 0xFF)
  {
    var index, high := (crc ^ (o as bv16)) & 0xFF, crc & 0xFF00;
    Combines16();
    EmittedByOctet16(o);
    WordCombinesFirst(TakeBit16, Xor16, Leaving16, Down16, crc, o as bv16, 8);
    HighOctetMovesDown16(high);
    QuietPartMovesDown(TakeBit16, Xor16, Leaving16, Down16, index, high, 8);
    SplitRegister16(crc, o as bv16);
    XorFacts16(Run(TakeBit16, crc, LowFirst(o)), Entry16(index), crc >> 8);
  }

  lemma SplitRegister16(crc: bv16, word: bv16)
    requires word & 0xFF00 == 0
    ensures ((crc ^ word) & 0xFF) ^ (crc & 0xFF00) == crc ^ word
    ensures (crc & 0xFF00) & 0xFF == 0 && (crc & 0xFF00) >> 8 == crc >> 8
  {
  }

  lemma XorFacts16(a: bv16, b: bv16, c: bv16)
    ensures a ^ 0 == a && b ^ c == c ^ b
  {
  }

  // The code.

  /** The first `n` entries are filled. */
  ghost predicate Filled16(table: seq<bv16>, n: nat) {
    n <= |table| == 256 && forall i :: 0 <= i < n ==> table[i] == Entry16(i as bv16)
  }

  ghost predicate IsTable16(table: seq<bv16>) {
    Filled16(table, 256)
  }

  lemma OneMoreEntry16(table: seq<bv16>, i: nat, entry: bv16)
    requires i < 256 && Filled16(table, i) && entry == Entry16(i as bv16)
    ensures Filled16(table[i := entry], i + 1)
  {
  }

  method GenerateCrc16Table(table: array<bv16>)
    requires table.Length == 256
    modifies table
    ensures IsTable16(table[..])
  {
    var i := 0;
    while i < 256
      invariant 0 <= i <= 256 && Filled16(table[..], i)
    {
      var entry := ShiftEightTimes16(i as bv16);
      OneMoreEntry16(table[..], i, entry);
      ghost var filled := table[..][i := entry];
      table[i] := entry;
      assert table[..] == filled;
      i := i + 1;
    }
  }

  method ShiftEightTimes16(i: bv16) returns (crc: bv16)
    ensures crc == Entry16(i)
  {
    crc := i;
    var j := 0;
    while j < 8
      invariant 0 <= j <= 8
      invariant Run(TakeBit16, crc, ClearBits(8 - j)) == Entry16(i)
    {
      crc := ShiftOnce16(crc, 7 - j);
      j := j + 1;
    }
  }

  /** One round of the inner loop; `left` more follow. */
  method ShiftOnce16(crc: bv16, ghost left: nat) returns (r: bv16)
    ensures Run(TakeBit16, crc, ClearBits(left + 1)) == Run(TakeBit16, r, ClearBits(left))
  {
    r := (crc >> 1) ^ (if crc & 1 != 0 then 0xA001 else 0);
    NoInput16(crc);
    assert r == TakeBit16(crc, false);
    assert ClearBits(left + 1)[1..] == ClearBits(left);
  }

  lemma NoInput16(crc: bv16)
    ensures crc & 1 != 0 ==> TakeBit16(crc, false) == (crc >> 1) ^ 0xA001
    ensures crc & 1 == 0 ==> TakeBit16(crc, false) == (crc >> 1) ^ 0
  {
    XorZero16(crc);
    XorZero16(crc >> 1);
    LowBitIsOne16(crc);
  }

  lemma XorZero16(a: bv16)
    ensures a ^ 0 == a
  {
  }

  lemma LowBitIsOne16(crc: bv16)
    ensures crc & 1 != 0 <==> crc & 1 == 1
  {
  }

  /** `table[0]` is 0 in a finished table too, so the table is generated on every call. */
  method ComputeCrc16(table: array<bv16>, data: seq<bv8>) returns (r: bv16)
    requires table.Length == 256 && (table[0] == 0 || IsTable16(table[..]))
    modifies table
    ensures r == Checksum16(data)
  {
    if table[0] == 0 {
      GenerateCrc16Table(table);
    }
    var crc: bv16 := 0xFFFF;
    var i := 0;
    while i < |data|
      invariant 0 <= i <= |data|
      invariant IsTable16(table[..])
      invariant crc == Register16(data[..i])
    {
      crc := UpdateCrc16(table, crc, data[i]);
      NextOctet(TakeBit16, LowFirst, 0xFFFF, data, i);
      i := i + 1;
    }
    assert data[..i] == data;
    r := !crc;
  }

  method UpdateCrc16(table: array<bv16>, crc: bv16, o: bv8) returns (r: bv16)
    requires IsTable16(table[..])
    ensures r == Run(TakeBit16, crc, LowFirst(o))
  {
    StepTable16(crc, o, table[..]);
    r := (crc >> 8) ^ table[((crc ^ (o as bv16)) & 0xFF) as int];
  }

  lemma StepTable16(crc: bv16, o: bv8, table: seq<bv16>)
    requires IsTable16(table)
    ensures ((crc ^ (o as bv16)) & 0xFF) as int < 256
    ensures Run(TakeBit16, crc, LowFirst(o)) == (crc >> 8) ^ table[((crc ^ (o as bv16)) & 0xFF) as int]
  {
    TableReplacesBits16(crc, o);
    Lookup16(table, (crc ^ (o as bv16)) & 0xFF);
  }

  lemma Lookup16(table: seq<bv16>, index: bv16)
    requires IsTable16(table) && index < 256
    ensures index as int < 256 && table[index as int] == Entry16(index)
  {
    assert (index as int) as bv16 == index;
  }
}
