// JoinListener: which messages the producer waits for before a wrapped write, compared with the
// messages that write destroys.
module RingJoin {
  import opened Options
  import opened Bytes
  import opened RingLayout
  import opened RingQueue

  /**
   * TraversalQueue. The queue-relative `next` is added to the current address, not to the start of
   * the queue. `None` when a header would be read outside the region.
   */
  function Traverse(mem: seq<byte>, current: nat, distance: nat, max: nat): Option<seq<nat>>
    decreases if distance < max then max - distance else 0
  {
    if !HasHeader(mem, current) then None
    else
      var further := distance + HEADER + ReadLength(mem, current);
      if further < max then
        Prepend(current, Traverse(mem, current + (ReadNext(mem, current) - QUEUE_START), further, max))
      else
        Some([current])
  }

  function Prepend(address: nat, rest: Option<seq<nat>>): Option<seq<nat>> {
    match rest
    case None => None
    case Some(addresses) => Some([address] + addresses)
  }

  /** Negation of AnyMessageInProgress. */
  predicate AllProcessed(mem: seq<byte>, addresses: seq<nat>) {
    forall a :: a in addresses ==> a < |mem| && mem[a] != 0
  }

  /** Message `i` of the lap loses octets to a message of `size` octets written at the start of the queue. */
  predicate Overwritten(lap: seq<Slot>, i: nat, size: nat)
    requires i < |lap|
  {
    SlotStart(lap, i) < QUEUE_START + size
  }

  /** The write destroys exactly the first `count` messages of the lap. */
  predicate Overwrites(lap: seq<Slot>, count: nat, size: nat) {
    && 0 < count <= |lap|
    && SlotStart(lap, count - 1) < QUEUE_START + size
    && (count == |lap| || QUEUE_START + size <= SlotStart(lap, count))
  }

  /** Some first messages are destroyed, whatever is written. */
  lemma SomeAreOverwritten(lap: seq<Slot>, size: nat) returns (count: nat)
    requires lap != [] && size > 0
    ensures Overwrites(lap, count, size)
  {
    FirstStart(lap);
    count := 1;
    while count < |lap| && SlotStart(lap, count) < QUEUE_START + size
      invariant 0 < count <= |lap| && SlotStart(lap, count - 1) < QUEUE_START + size
    {
      count := count + 1;
    }
  }

  lemma OverwritesExactly(lap: seq<Slot>, count: nat, size: nat, i: nat)
    requires Overwrites(lap, count, size) && i < |lap|
    ensures Overwritten(lap, i, size) <==> i < count
  {
    if i < count - 1 {
      SlotStartsIncrease(lap, i, count - 1);
    } else if count < i {
      SlotStartsIncrease(lap, count, i);
    }
  }

  function FirstStarts(lap: seq<Slot>, count: nat): (starts: seq<nat>)
    requires count <= |lap|
    ensures |starts| == count
  {
    seq(count, i requires 0 <= i < count => SlotStart(lap, i))
  }

  /** Unrolling the traversal at message `i`, wherever the loop stands. */
  lemma TraverseAtSlot(mem: seq<byte>, lap: seq<Slot>, i: nat, distance: nat, size: nat)
    requires HoldsLap(mem, lap) && |mem| < SIZE_T_MODULUS && i < |lap|
    ensures Traverse(mem, SlotStart(lap, i), distance, size)
         == if distance + MessageSize(lap[i].payload) < size then
              Prepend(SlotStart(lap, i),
                      Traverse(mem, SlotStart(lap, i) + (SlotStart(lap, i + 1) - QUEUE_START),
                               distance + MessageSize(lap[i].payload), size))
            else Some([SlotStart(lap, i)])
  {
    SlotFields(mem, lap, i);
  }

  /**
   * The traversal visits exactly the messages that the wrapped write destroys if and only if there
   * are at most two of them and the write ends inside the lap: the third address is already displaced
   * by the first message, and behind the lap the traversal goes on through whatever stands there.
   */
  lemma TraversalIsExactUpToTwo(mem: seq<byte>, lap: seq<Slot>, count: nat, size: nat)
    requires HoldsLap(mem, lap) && |mem| < SIZE_T_MODULUS
    requires Overwrites(lap, count, size)
    ensures Traverse(mem, QUEUE_START, 0, size) == Some(FirstStarts(lap, count)) <==> count <= 2 && size <= LapSize(lap)
  {
    LastStart(lap);
    if count == 1 {
      assert FirstStarts(lap, 1) == [SlotStart(lap, 0)];
      StopsAtFirst(mem, lap, size);
      SecondAddress(mem, lap, size);
    } else if count == 2 {
      assert FirstStarts(lap, 2) == [SlotStart(lap, 0), SlotStart(lap, 1)];
      StopsAtSecond(mem, lap, size);
      ThirdAddress(mem, lap, size);
    } else {
      if count > 3 {
        SlotStartsIncrease(lap, 2, count - 1);
      }
      ThirdAddressIsWrong(mem, lap, count, size);
    }
  }

  lemma StopsAtFirst(mem: seq<byte>, lap: seq<Slot>, size: nat)
    requires HoldsLap(mem, lap) && |mem| < SIZE_T_MODULUS && lap != []
    ensures QUEUE_START + size <= SlotStart(lap, 1) ==> Traverse(mem, QUEUE_START, 0, size) == Some([SlotStart(lap, 0)])
  {
    FirstStart(lap);
    SecondStart(lap);
    TraverseAtSlot(mem, lap, 0, 0, size);
  }

  lemma StopsAtSecond(mem: seq<byte>, lap: seq<Slot>, size: nat)
    requires HoldsLap(mem, lap) && |mem| < SIZE_T_MODULUS && |lap| >= 2
    ensures SlotStart(lap, 1) < QUEUE_START + size <= SlotStart(lap, 2) ==>
      Traverse(mem, QUEUE_START, 0, size) == Some([SlotStart(lap, 0), SlotStart(lap, 1)])
  {
    FirstStart(lap);
    SecondStart(lap);
    ThirdStart(lap);
    TraverseAtSlot(mem, lap, 0, 0, size);
    TraverseAtSlot(mem, lap, 1, MessageSize(lap[0].payload), size);
    assert [QUEUE_START] + [SlotStart(lap, 1)] == [QUEUE_START, SlotStart(lap, 1)];
  }

  lemma LastStart(lap: seq<Slot>)
    ensures forall i :: 0 <= i <= |lap| ==> SlotStart(lap, i) <= SlotStart(lap, |lap|) == QUEUE_START + LapSize(lap)
  {
    assert lap[..|lap|] == lap;
    forall i | 0 <= i < |lap|
      ensures SlotStart(lap, i) <= SlotStart(lap, |lap|)
    {
      SlotStartsIncrease(lap, i, |lap|);
    }
  }

  /** A message longer than the first one makes the traversal visit the address behind the first. */
  lemma SecondAddress(mem: seq<byte>, lap: seq<Slot>, size: nat)
    requires HoldsLap(mem, lap) && |mem| < SIZE_T_MODULUS && lap != []
    ensures SlotStart(lap, 1) < QUEUE_START + size && Traverse(mem, QUEUE_START, 0, size).Some? ==>
      [QUEUE_START, SlotStart(lap, 1)] <= Traverse(mem, QUEUE_START, 0, size).value
  {
    FirstStart(lap);
    SecondStart(lap);
    TraverseAtSlot(mem, lap, 0, 0, size);
    TraversalStartsHere(mem, SlotStart(lap, 1), MessageSize(lap[0].payload), size);
  }

  /** A message longer than the first two makes it visit a third address, displaced by the first message. */
  lemma ThirdAddress(mem: seq<byte>, lap: seq<Slot>, size: nat)
    requires HoldsLap(mem, lap) && |mem| < SIZE_T_MODULUS && |lap| >= 2
    ensures SlotStart(lap, 2) < QUEUE_START + size && Traverse(mem, QUEUE_START, 0, size).Some? ==>
      [QUEUE_START, SlotStart(lap, 1), SlotStart(lap, 1) + (SlotStart(lap, 2) - QUEUE_START)]
      <= Traverse(mem, QUEUE_START, 0, size).value
  {
    FirstStart(lap);
    SecondStart(lap);
    ThirdStart(lap);
    TraverseAtSlot(mem, lap, 0, 0, size);
    TraverseAtSlot(mem, lap, 1, MessageSize(lap[0].payload), size);
    TraversalStartsHere(mem, SlotStart(lap, 1) + (SlotStart(lap, 2) - QUEUE_START), SlotStart(lap, 2) - QUEUE_START, size);
  }

  lemma ThirdAddressIsWrong(mem: seq<byte>, lap: seq<Slot>, count: nat, size: nat)
    requires HoldsLap(mem, lap) && |mem| < SIZE_T_MODULUS
    requires 2 < count <= |lap| && SlotStart(lap, 2) < QUEUE_START + size
    ensures Traverse(mem, QUEUE_START, 0, size) != Some(FirstStarts(lap, count))
  {
    FirstStart(lap);
    SecondStart(lap);
    ThirdAddress(mem, lap, size);
    assert FirstStarts(lap, count)[2] == SlotStart(lap, 2);
  }

  /** The first two messages that are destroyed are always among those visited. */
  lemma TraversalVisitsFirstTwo(mem: seq<byte>, lap: seq<Slot>, count: nat, size: nat)
    requires HoldsLap(mem, lap) && |mem| < SIZE_T_MODULUS
    requires Overwrites(lap, count, size) && Traverse(mem, QUEUE_START, 0, size).Some?
    ensures FirstStarts(lap, if count < 2 then count else 2) <= Traverse(mem, QUEUE_START, 0, size).value
  {
    FirstStart(lap);
    SecondStart(lap);
    TraversalStartsHere(mem, QUEUE_START, 0, size);
    if count == 1 {
      assert FirstStarts(lap, 1) == [QUEUE_START];
    } else {
      if count > 2 {
        SlotStartsIncrease(lap, 1, count - 1);
      }
      SecondAddress(mem, lap, size);
      assert FirstStarts(lap, 2) == [QUEUE_START, SlotStart(lap, 1)];
    }
  }

  lemma FirstStart(lap: seq<Slot>)
    ensures SlotStart(lap, 0) == QUEUE_START
  {
    assert lap[..0] == [];
  }

  lemma SecondStart(lap: seq<Slot>)
    requires lap != []
    ensures SlotStart(lap, 1) == QUEUE_START + MessageSize(lap[0].payload)
  {
    assert lap[..1][..0] == [];
    assert LapSize([]) == 0;
  }

  lemma ThirdStart(lap: seq<Slot>)
    requires |lap| >= 2
    ensures SlotStart(lap, 2) == SlotStart(lap, 1) + MessageSize(lap[1].payload)
  {
    assert lap[..2][..1] == lap[..1];
  }

  lemma TraversalStartsHere(mem: seq<byte>, current: nat, distance: nat, max: nat)
    ensures Traverse(mem, current, distance, max).None?
         || (|Traverse(mem, current, distance, max).value| > 0 && Traverse(mem, current, distance, max).value[0] == current)
  {
  }

  /**
   * If the join saw every visited flag set and at most two messages are destroyed, all of them had
   * been dequeued, so the write ends in front of the first unread message.
   */
  lemma JoinProtectsUnread(q: Queue, lap: seq<Slot>, read: nat, count: nat, size: nat)
    requires Represents(q, lap, read)
    requires Overwrites(lap, count, size) && count <= 2
    requires Traverse(q.mem, QUEUE_START, 0, size).Some?
    requires AllProcessed(q.mem, Traverse(q.mem, QUEUE_START, 0, size).value)
    ensures forall i :: 0 <= i < |lap| && Overwritten(lap, i, size) ==> lap[i].processed
    ensures count <= read
    ensures read < |lap| ==> QUEUE_START + size <= SlotStart(lap, read)
  {
    TraversalVisitsFirstTwo(q.mem, lap, count, size);
    var addresses := FirstStarts(lap, count);
    assert addresses[count - 1] in Traverse(q.mem, QUEUE_START, 0, size).value;
    SlotFields(q.mem, lap, count - 1);
    assert count <= read;
    forall i | 0 <= i < |lap| && Overwritten(lap, i, size)
      ensures lap[i].processed
    {
      OverwritesExactly(lap, count, size, i);
    }
    if count < read {
      SlotStartsIncrease(lap, count, read);
    }
  }

  lemma VisitsThree(mem: seq<byte>, lap: seq<Slot>, size: nat, displaced: nat)
    requires HoldsLap(mem, lap) && |mem| < SIZE_T_MODULUS && |lap| >= 3 && SlotStart(lap, 2) < QUEUE_START + size
    requires displaced == SlotStart(lap, 1) + (SlotStart(lap, 2) - QUEUE_START)
    requires HasHeader(mem, displaced) && ReadLength(mem, displaced) >= size
    ensures Traverse(mem, QUEUE_START, 0, size) == Some([SlotStart(lap, 0), SlotStart(lap, 1), displaced])
  {
    FirstStart(lap);
    SecondStart(lap);
    ThirdStart(lap);
    TraverseAtSlot(mem, lap, 0, 0, size);
    TraverseAtSlot(mem, lap, 1, MessageSize(lap[0].payload), size);
    assert Traverse(mem, displaced, SlotStart(lap, 2) - QUEUE_START, size) == Some([displaced]);
    assert [QUEUE_START] + ([SlotStart(lap, 1)] + [displaced]) == [QUEUE_START, SlotStart(lap, 1), displaced];
  }

  /**
   * The third destroyed message is not waited for: where the displaced address holds a set octet and
   * ends the traversal, the join returns although that message is unread.
   */
  lemma ThirdIsNotProtected(q: Queue, lap: seq<Slot>, size: nat, displaced: nat)
    requires Represents(q, lap, 2) && |lap| >= 3 && SlotStart(lap, 2) < QUEUE_START + size
    requires displaced == SlotStart(lap, 1) + (SlotStart(lap, 2) - QUEUE_START)
    requires HasHeader(q.mem, displaced) && ReadFlag(q.mem, displaced) && ReadLength(q.mem, displaced) >= size
    ensures Overwritten(lap, 2, size) && !lap[2].processed
    ensures Traverse(q.mem, QUEUE_START, 0, size).Some?
    ensures AllProcessed(q.mem, Traverse(q.mem, QUEUE_START, 0, size).value)
  {
    VisitsThree(q.mem, lap, size, displaced);
    SlotFields(q.mem, lap, 0);
    SlotFields(q.mem, lap, 1);
  }

  // A message longer than the lap.

  /** A clear header has length 0 and leads nowhere, so the traversal looks at it again and again. */
  lemma {:induction false} TraverseClearHeader(mem: seq<byte>, at: nat, distance: nat, max: nat)
    requires HasHeader(mem, at) && ReadLength(mem, at) == 0 && ReadNext(mem, at) == QUEUE_START
    ensures Traverse(mem, at, distance, max).Some?
    ensures forall a :: a in Traverse(mem, at, distance, max).value ==> a == at
    decreases if distance < max then max - distance else 0
  {
    if distance + HEADER < max {
      TraverseClearHeader(mem, at, distance + HEADER, max);
    }
  }

  /** One message and a clear header behind it: a longer message makes the producer wait for that header. */
  lemma TraversalLeavesLap(mem: seq<byte>, lap: seq<Slot>, size: nat)
    requires HoldsLap(mem, lap) && |mem| < SIZE_T_MODULUS && |lap| == 1 && LapSize(lap) < size
    requires var behind := SlotStart(lap, 1);
             HasHeader(mem, behind) && !ReadFlag(mem, behind) && ReadLength(mem, behind) == 0 && ReadNext(mem, behind) == QUEUE_START
    ensures Overwrites(lap, 1, size)
    ensures var visited := Traverse(mem, QUEUE_START, 0, size);
            && visited.Some? && [QUEUE_START, SlotStart(lap, 1)] <= visited.value
            && forall a :: a in visited.value ==> a < |mem|
    ensures !AllProcessed(mem, Traverse(mem, QUEUE_START, 0, size).value)
  {
    FirstStart(lap);
    SecondStart(lap);
    LastStart(lap);
    TraverseAtSlot(mem, lap, 0, 0, size);
    TraverseClearHeader(mem, SlotStart(lap, 1), MessageSize(lap[0].payload), size);
    SecondAddress(mem, lap, size);
    assert Traverse(mem, QUEUE_START, 0, size).value[1] == SlotStart(lap, 1);
  }

  predicate Uniform(lap: seq<Slot>, length: nat) {
    forall i :: 0 <= i < |lap| ==> |lap[i].payload| == length
  }

  /** In a stream of equal-size messages a wrapped write destroys exactly the first message of the lap. */
  lemma UniformOverwritesOne(lap: seq<Slot>, p: Payload)
    requires lap != [] && Uniform(lap, |p|)
    ensures Overwrites(lap, 1, MessageSize(p))
  {
    SecondStart(lap);
    assert lap[..0] == [];
  }
}
