// Equal-size messages in a zeroed region: all laps use the same places, so only whole messages are read.
module RingEqualSizes {
  import opened Bytes
  import opened RingLayout
  import opened RingQueue
  import opened RingProtocol
  import opened RingEveryRun

  /** Start of place `k` for messages of `size` octets. */
  function Place(k: nat, size: nat): (at: nat)
    ensures at >= QUEUE_START
    decreases k, size
  {
    if k == 0 then QUEUE_START else Place(k - 1, size) + size
  }

  lemma {:induction false} PlacesApart(i: nat, k: nat, size: nat)
    requires i < k
    ensures Place(i, size) + size <= Place(k, size)
    decreases k
  {
    if i < k - 1 {
      PlacesApart(i, k - 1, size);
    }
  }

  ghost predicate IsPlace(at: nat, size: nat) {
    exists k: nat :: at == Place(k, size)
  }

  lemma PlaceBehind(at: nat, size: nat)
    requires IsPlace(at, size)
    ensures IsPlace(at + size, size)
  {
    var k: nat :| at == Place(k, size);
    assert at + size == Place(k + 1, size);
  }

  lemma FirstPlace(size: nat)
    ensures IsPlace(QUEUE_START, size)
  {
    assert QUEUE_START == Place(0, size);
  }

  /** A place holds a message of the stream, or zeros under its flag; the region may end before its header does. */
  ghost predicate PlaceHolds(mem: seq<byte>, at: nat, length: nat, published: seq<Payload>) {
    HasHeader(mem, at) ==>
      || (ReadLength(mem, at) == 0 && ReadNext(mem, at) == QUEUE_START)
      || (&& at + HEADER + length < |mem|
          && ReadLength(mem, at) == length && ReadNext(mem, at) == at + HEADER + length
          && ReadPayload(mem, at) in published)
  }

  predicate SameWindow(mem: seq<byte>, after: seq<byte>, from: nat, to: nat) {
    |after| == |mem| && forall i :: from <= i < to && i < |mem| ==> after[i] == mem[i]
  }

  lemma WindowKeepsPlace(mem: seq<byte>, after: seq<byte>, at: nat, length: nat, published: seq<Payload>)
    requires PlaceHolds(mem, at, length, published) && SameWindow(mem, after, at + 1, at + HEADER + length)
    ensures PlaceHolds(after, at, length, published)
  {
    if HasHeader(mem, at) {
      assert after[at + 1..at + 9] == mem[at + 1..at + 9];
      assert after[at + 9..at + HEADER] == mem[at + 9..at + HEADER];
      if at + HEADER + length < |mem| {
        assert after[at + HEADER..at + HEADER + length] == mem[at + HEADER..at + HEADER + length];
      }
    }
  }

  ghost predicate Places(mem: seq<byte>, length: nat, published: seq<Payload>) {
    var size := HEADER + length;
    forall at: nat :: IsPlace(at, size) ==> PlaceHolds(mem, at, length, published)
  }

  lemma AfterWrite(mem: seq<byte>, start: nat, image: seq<byte>, i: nat)
    requires start + |image| <= |mem| && i < |mem|
    ensures Splice(mem, start, image)[i] == if start <= i < start + |image| then image[i - start] else mem[i]
  {
  }

  lemma PlacesAfterPut(mem: seq<byte>, start: nat, p: Payload, published: seq<Payload>)
    requires Places(mem, |p|, published) && |mem| < SIZE_T_MODULUS
    requires IsPlace(start, MessageSize(p)) && start >= QUEUE_START && start + MessageSize(p) < |mem|
    ensures Places(Splice(mem, start, MessageImage(start, Slot(false, p))), |p|, published + [p])
  {
    var size, image := MessageSize(p), MessageImage(start, Slot(false, p));
    var after := Splice(mem, start, image);
    forall at: nat | IsPlace(at, size)
      ensures PlaceHolds(after, at, |p|, published + [p])
    {
      if at == start {
        ImageFields(after, start, Slot(false, p));
      } else {
        Apart(at, start, size);
        assert SameWindow(mem, after, at + 1, at + size) by {
          forall i | at + 1 <= i < at + size && i < |mem|
            ensures after[i] == mem[i]
          {
            AfterWrite(mem, start, image, i);
          }
        }
        WindowKeepsPlace(mem, after, at, |p|, published);
      }
    }
  }

  lemma Apart(at: nat, other: nat, size: nat)
    requires IsPlace(at, size) && IsPlace(other, size) && at != other
    ensures at + size <= other || other + size <= at
  {
    var i: nat, k: nat :| at == Place(i, size) && other == Place(k, size);
    if i < k {
      PlacesApart(i, k, size);
    } else {
      PlacesApart(k, i, size);
    }
  }

  lemma PlacesAfterFlag(mem: seq<byte>, head: nat, length: nat, published: seq<Payload>)
    requires Places(mem, length, published) && IsPlace(head, HEADER + length) && head < |mem|
    ensures Places(mem[head := 1], length, published)
  {
    var size := HEADER + length;
    forall at: nat | IsPlace(at, size)
      ensures PlaceHolds(mem[head := 1], at, length, published)
    {
      if at != head {
        Apart(at, head, HEADER + length);
      }
      WindowKeepsPlace(mem, mem[head := 1], at, length, published);
    }
  }

  lemma ZerosHoldNothing(mem: seq<byte>, length: nat)
    requires ZeroFrom(mem, QUEUE_START)
    ensures Places(mem, length, [])
  {
    var size := HEADER + length;
    forall at: nat | IsPlace(at, size)
      ensures PlaceHolds(mem, at, length, [])
    {
      if HasHeader(mem, at) {
        DecodeZeros(mem[at + 1..at + 9]);
        DecodeZeros(mem[at + 9..at + HEADER]);
      }
    }
  }

  // The invariant.

  /** Published before, or empty. */
  predicate Whole(p: Payload, published: seq<Payload>) {
    p in published || p == []
  }

  predicate SendsOnly(actions: seq<Action>, length: nat) {
    forall a :: a in actions && a.ProducerAcquire? ==> |a.p| == length
  }

  ghost predicate InPlace(s: System, length: nat) {
    var size := HEADER + length;
    && CopyIsExact(s) && LockIsHonoured(s)
    && |s.q.mem| < SIZE_T_MODULUS && Places(s.q.mem, length, s.published)
    && (s.q.head == 0 || IsPlace(s.q.head, size))
    && (s.q.rear == 0 || IsPlace(s.q.rear, size))
    && (!s.producer.Outside? && !s.producer.Committed? ==> |s.producer.p| == length && Fits(s, s.producer.p))
    && (s.producer.Ready? ==>
          IsPlace(s.producer.start, size) && QUEUE_START <= s.producer.start && s.producer.start + size < |s.q.mem|)
    && (s.consumer.Copied? || s.consumer.Marked? ==> IsPlace(s.q.head, size))
    && (s.consumer.Copied? || s.consumer.Marked? || s.consumer.Taken? ==> Whole(s.consumer.p, s.published))
    && (forall p :: p in s.delivered ==> Whole(p, s.published))
  }

  /** The place behind a message, or the first one. */
  lemma NextIsPlace(s: System, at: nat, length: nat)
    requires InPlace(s, length) && IsPlace(at, HEADER + length) && HasHeader(s.q.mem, at)
    ensures IsPlace(ReadNext(s.q.mem, at), HEADER + length)
  {
    assert PlaceHolds(s.q.mem, at, length, s.published);
    FirstPlace(HEADER + length);
    PlaceBehind(at, HEADER + length);
  }

  lemma PutInPlace(s: System, length: nat)
    requires InPlace(s, length) && Enabled(s, PutMessage)
    ensures InPlace(Step(s, PutMessage), length)
  {
    PlacesAfterPut(s.q.mem, s.producer.start, s.producer.p, s.published);
    assert forall p :: p in s.published ==> p in s.published + [s.producer.p];
  }

  lemma OverflowTestInPlace(s: System, length: nat)
    requires InPlace(s, length) && Enabled(s, TestOverflow)
    ensures InPlace(Step(s, TestOverflow), length)
  {
    FirstPlace(HEADER + length);
    if s.q.rear != 0 {
      NextIsPlace(s, s.q.rear, length);
    }
  }

  lemma CopyInPlace(s: System, length: nat)
    requires InPlace(s, length) && Enabled(s, TestEmpty)
    ensures InPlace(Step(s, TestEmpty), length)
  {
    if !LooksEmpty(s.q) {
      assert PlaceHolds(s.q.mem, s.q.head, length, s.published);
    }
  }

  lemma FlagInPlace(s: System, length: nat)
    requires InPlace(s, length) && Enabled(s, SetFlag)
    ensures InPlace(Step(s, SetFlag), length)
  {
    PlacesAfterFlag(s.q.mem, s.q.head, length, s.published);
    FlagIsNoField(s.q.mem, s.q.head);
  }

  lemma InPlaceStep(s: System, a: Action, length: nat)
    requires InPlace(s, length) && Enabled(s, a) && (a.ProducerAcquire? ==> |a.p| == length)
    ensures InPlace(Step(s, a), length)
  {
    match a
    case PutMessage => PutInPlace(s, length);
    case TestOverflow => OverflowTestInPlace(s, length);
    case TestEmpty => CopyInPlace(s, length);
    case SetFlag => FlagInPlace(s, length);
    case MoveHead => NextIsPlace(s, s.q.head, length);
    case Reacquire => FirstPlace(HEADER + length);
    case _ =>
  }

  lemma {:induction false} InPlaceAlways(s: System, actions: seq<Action>, length: nat)
    requires InPlace(s, length) && IsRun(s, actions) && SendsOnly(actions, length)
    ensures InPlace(Final(s, actions), length)
    decreases |actions|
  {
    if actions != [] {
      InPlaceStep(s, actions[0], length);
      InPlaceAlways(Step(s, actions[0]), actions[1..], length);
    }
  }

  /**
   * Equal-size messages in a zeroed region: in every run, whether or not a wrap found the queue
   * drained, Deque returns whole messages only, each of them published before, or an empty payload.
   */
  lemma NothingIsTorn(mem: seq<byte>, actions: seq<Action>, length: nat)
    requires |mem| < SIZE_T_MODULUS && ZeroFrom(mem, QUEUE_START)
    requires IsRun(Start(mem), actions) && SendsOnly(actions, length)
    ensures forall p :: p in Final(Start(mem), actions).delivered ==> Whole(p, Final(Start(mem), actions).published)
  {
    ZerosHoldNothing(mem, length);
    FirstPlace(HEADER + length);
    InPlaceAlways(Start(mem), actions, length);
  }
}
