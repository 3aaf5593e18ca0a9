// The checksums of "123456789", by which the variants of a checksum are told apart, and of the empty string.
// The register behind each octet is written down, and eight steps of the shift register lead from each to the
// next.
module ChecksumExamples {
  import opened ShiftRegister
  import opened Crc16
  import opened Crc8

  function Nine(): seq<bv8> {
    [0x31, 0x32, 0x33, 0x34, 0x35, 0x36, 0x37, 0x38, 0x39]
  }

  function Eight<R>(step: (R, bool) -> R, r: R, b: Bits): R
    requires |b| == 8
  {
    step(step(step(step(step(step(step(step(r, b[0]), b[1]), b[2]), b[3]), b[4]), b[5]), b[6]), b[7])
  }

  lemma OneBit<R>(step: (R, bool) -> R, r: R, b: Bits, k: nat)
    requires k < |b|
    ensures Run(step, r, b[k..]) == Run(step, step(r, b[k]), b[k + 1..])
  {
    assert b[k..][1..] == b[k + 1..];
  }

  lemma RunsEight<R>(step: (R, bool) -> R, r: R, b: Bits)
    requires |b| == 8
    ensures Run(step, r, b) == Eight(step, r, b)
  {
    assert b[0..] == b && b[8..] == [];
    var r1 := step(r, b[0]);
    var r2 := step(r1, b[1]);
    var r3 := step(r2, b[2]);
    var r4 := step(r3, b[3]);
    var r5 := step(r4, b[4]);
    var r6 := step(r5, b[5]);
    var r7 := step(r6, b[6]);
    OneBit(step, r, b, 0);
    OneBit(step, r1, b, 1);
    OneBit(step, r2, b, 2);
    OneBit(step, r3, b, 3);
    OneBit(step, r4, b, 4);
    OneBit(step, r5, b, 5);
    OneBit(step, r6, b, 6);
    OneBit(step, r7, b, 7);
  }

  predicate OctetFollows<R(==)>(step: (R, bool) -> R, octetBits: bv8 -> Bits, r: R, o: bv8, next: R) {
    |octetBits(o)| == 8 && Eight(step, r, octetBits(o)) == next
  }

  predicate FollowAt<R(==)>(step: (R, bool) -> R, octetBits: bv8 -> Bits, data: seq<bv8>, registers: seq<R>, i: nat)
    requires i < |data| < |registers|
  {
    OctetFollows(step, octetBits, registers[i], data[i], registers[i + 1])
  }

  /** Registers that follow from one another, octet by octet, are those of the message. */
  lemma {:induction false} LastRegister<R>(step: (R, bool) -> R, octetBits: bv8 -> Bits, data: seq<bv8>, registers: seq<R>, n: nat)
    requires n <= |data| < |registers|
    requires forall i: nat :: i < n ==> FollowAt(step, octetBits, data, registers, i)
    ensures Run(step, registers[0], Message(octetBits, data[..n])) == registers[n]
  {
    if n > 0 {
      LastRegister(step, octetBits, data, registers, n - 1);
      assert FollowAt(step, octetBits, data, registers, n - 1);
      NextOctet(step, octetBits, registers[0], data, n - 1);
      RunsEight(step, registers[n - 1], octetBits(data[n - 1]));
    }
  }

  lemma Registers16()
    ensures OctetFollows(TakeBit16, LowFirst, 0xffff, 0x31, 0x947e)
    ensures OctetFollows(TakeBit16, LowFirst, 0x947e, 0x32, 0xf595)
    ensures OctetFollows(TakeBit16, LowFirst, 0xf595, 0x33, 0x7a75)
    ensures OctetFollows(TakeBit16, LowFirst, 0x7a75, 0x34, 0x30ba)
    ensures OctetFollows(TakeBit16, LowFirst, 0x30ba, 0x35, 0xa471)
    ensures OctetFollows(TakeBit16, LowFirst, 0xa471, 0x36, 0x32e4)
    ensures OctetFollows(TakeBit16, LowFirst, 0x32e4, 0x37, 0x9d73)
    ensures OctetFollows(TakeBit16, LowFirst, 0x9d73, 0x38, 0x37dd)
    ensures OctetFollows(TakeBit16, LowFirst, 0x37dd, 0x39, 0x4b37)
  {
  }

  lemma CheckValue16()
    ensures Checksum16(Nine()) == 0xB4C8
  {
    var data := Nine();
    var registers: seq<bv16> := [0xffff, 0x947e, 0xf595, 0x7a75, 0x30ba, 0xa471, 0x32e4, 0x9d73, 0x37dd, 0x4b37];
    Registers16();
    forall i: nat | i < 9
      ensures FollowAt(TakeBit16, LowFirst, data, registers, i)
    {
      if i == 0 {} else if i == 1 {} else if i == 2 {} else if i == 3 {} else if i == 4 {}
      else if i == 5 {} else if i == 6 {} else if i == 7 {} else {}
    }
    assert data[..9] == data;
    LastRegister(TakeBit16, LowFirst, data, registers, 9);
  }

  lemma Registers8()
    ensures OctetFollows(TakeBit8, HighFirst, 0x00, 0x31, 0x57)
    ensures OctetFollows(TakeBit8, HighFirst, 0x57, 0x32, 0xfd)
    ensures OctetFollows(TakeBit8, HighFirst, 0xfd, 0x33, 0x93)
    ensures OctetFollows(TakeBit8, HighFirst, 0x93, 0x34, 0xf2)
    ensures OctetFollows(TakeBit8, HighFirst, 0xf2, 0x35, 0x66)
    ensures OctetFollows(TakeBit8, HighFirst, 0x66, 0x36, 0xde)
    ensures OctetFollows(TakeBit8, HighFirst, 0xde, 0x37, 0x47)
    ensures OctetFollows(TakeBit8, HighFirst, 0x47, 0x38, 0xe2)
    ensures OctetFollows(TakeBit8, HighFirst, 0xe2, 0x39, 0x37)
  {
  }

  lemma CheckValue8()
    ensures Checksum8(Nine()) == 0x37
  {
    var data := Nine();
    var registers: seq<bv8> := [0x00, 0x57, 0xfd, 0x93, 0xf2, 0x66, 0xde, 0x47, 0xe2, 0x37];
    Registers8();
    forall i: nat | i < 9
      ensures FollowAt(TakeBit8, HighFirst, data, registers, i)
    {
      if i == 0 {} else if i == 1 {} else if i == 2 {} else if i == 3 {} else if i == 4 {}
      else if i == 5 {} else if i == 6 {} else if i == 7 {} else {}
    }
    assert data[..9] == data;
    LastRegister(TakeBit8, HighFirst, data, registers, 9);
  }

  lemma EmptyMessage()
    ensures Checksum16([]) == 0 && Checksum8([]) == 0
  {
  }
}
