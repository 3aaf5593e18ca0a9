// The queue as one value, its critical sections as functions, and the abstract queue it represents.
module RingQueue {
  import opened Options
  import opened Bytes
  import opened RingLayout

  /**
   * Positions are relative to the metric; 0 stands for "none". `mem` is the mapped region followed
   * by sizeof(QueueMetric) octets, because the overflow test is relative to the queue start.
   */
  datatype Queue = Queue(locked: bool, messageCnt: nat, head: nat, rear: nat, mem: seq<byte>)

  function Initialized(mem: seq<byte>): Queue {
    Queue(false, 0, QUEUE_START, 0, mem)
  }

  /** startAddress before the overflow test: behind the rear message, or the start of an unused queue. */
  function NextStart(q: Queue): nat
    requires q.rear == 0 || HasHeader(q.mem, q.rear)
  {
    if q.rear == 0 then QUEUE_START else ReadNext(q.mem, q.rear)
  }

  /** queueStartAddress + byte_size_ <= startAddress + MessageSizeOnSHM(), with byte_size_ == |mem| - QUEUE_START. */
  predicate Overflows(q: Queue, start: nat, p: Payload) {
    |q.mem| <= start + MessageSize(p)
  }

  /** PutOnSHM, SetHead if there is no head, SetRear, and one more message. */
  function Commit(q: Queue, p: Payload, start: nat): Queue
    requires start >= QUEUE_START && start + MessageSize(p) <= |q.mem|
  {
    q.(mem := Splice(q.mem, start, MessageImage(start, Slot(false, p))),
       head := if q.head == 0 then start else q.head,
       rear := start,
       messageCnt := q.messageCnt + 1)
  }

  /** The test on which Deque throws "queue is empty". */
  predicate LooksEmpty(q: Queue) {
    q.messageCnt == 0 || q.head == 0
  }

  function MarkProcessed(q: Queue): Queue
    requires q.head < |q.mem|
  {
    q.(mem := q.mem[q.head := 1])
  }

  function Advance(q: Queue): Queue
    requires !LooksEmpty(q) && HasHeader(q.mem, q.head)
  {
    q.(head := if q.rear != q.head then ReadNext(q.mem, q.head) else 0, messageCnt := q.messageCnt - 1)
  }

  /** Deque's critical section once the queue is known not to be empty. */
  function Removed(q: Queue): Queue
    requires !LooksEmpty(q) && HasHeader(q.mem, q.head)
  {
    Advance(MarkProcessed(q))
  }

  // The abstract queue.

  /** Payloads from message `read` of the lap onwards. */
  function Unread(lap: seq<Slot>, read: nat): (ps: seq<Payload>)
    requires read <= |lap|
    ensures |ps| == |lap| - read
  {
    seq(|lap| - read, i requires 0 <= i < |lap| - read => lap[read + i].payload)
  }

  /** `q` holds the messages of `lap`, of which the first `read` have been dequeued. */
  ghost predicate Represents(q: Queue, lap: seq<Slot>, read: nat) {
    && Located(q, lap, read)
    && forall i :: 0 <= i < |lap| ==> (lap[i].processed <==> i < read)
  }

  ghost predicate Located(q: Queue, lap: seq<Slot>, read: nat) {
    && read <= |lap|
    && |q.mem| < SIZE_T_MODULUS
    && HoldsLap(q.mem, lap)
    && SlotStart(lap, |lap|) < |q.mem|
    && (q.messageCnt, q.rear, q.head)
       == (|lap| - read,
           if lap == [] then 0 else SlotStart(lap, |lap| - 1),
           if lap == [] then QUEUE_START else if read == |lap| then 0 else SlotStart(lap, read))
  }

  lemma InitializedRepresents(mem: seq<byte>)
    requires QUEUE_START < |mem| < SIZE_T_MODULUS
    ensures Represents(Initialized(mem), [], 0)
  {
    assert mem[QUEUE_START..QUEUE_START] == LapImage([]);
  }

  lemma NextStartIsLapEnd(q: Queue, lap: seq<Slot>, read: nat)
    requires Located(q, lap, read)
    ensures q.rear == 0 || HasHeader(q.mem, q.rear)
    ensures NextStart(q) == SlotStart(lap, |lap|)
  {
    if lap != [] {
      SlotFields(q.mem, lap, |lap| - 1);
    }
  }

  /** The overflow test is exact: the lap and the new message together do not leave one octet of the region free. */
  lemma OverflowsIffLapIsFull(q: Queue, lap: seq<Slot>, read: nat, p: Payload)
    requires Located(q, lap, read)
    ensures Overflows(q, NextStart(q), p) <==> QUEUE_START + LapSize(lap) + MessageSize(p) >= |q.mem|
  {
    NextStartIsLapEnd(q, lap, read);
    assert lap[..|lap|] == lap;
  }

  // How much the region holds.

  function TotalLength(ps: seq<Payload>): nat {
    if ps == [] then 0 else TotalLength(ps[..|ps| - 1]) + |ps[|ps| - 1]|
  }

  /** One Enqueue more, `None` once a message overflows. */
  function PublishNext(q: Option<Queue>, p: Payload): Option<Queue> {
    match q
    case None => None
    case Some(before) =>
      if before.rear != 0 && !HasHeader(before.mem, before.rear) then None
      else if Overflows(before, NextStart(before), p) then None
      else Some(Commit(before, p, NextStart(before)))
  }

  function PublishedAll(q: Queue, ps: seq<Payload>): Option<Queue> {
    if ps == [] then Some(q) else PublishNext(PublishedAll(q, ps[..|ps| - 1]), ps[|ps| - 1])
  }

  /** The messages of a lap, none of them processed. */
  ghost predicate HoldsAll(q: Queue, lap: seq<Slot>, ps: seq<Payload>) {
    && Represents(q, lap, 0) && |lap| == |ps| && LapSize(lap) == 17 * |ps| + TotalLength(ps)
    && forall i :: 0 <= i < |ps| ==> lap[i].payload == ps[i]
  }

  /** Everything fits into `size` octets and is held, or does not. */
  ghost predicate HeldIfItFits(q: Option<Queue>, lap: seq<Slot>, ps: seq<Payload>, size: nat) {
    && (q.Some? <==> 32 + 17 * |ps| + TotalLength(ps) < size)
    && (q.Some? ==> HoldsAll(q.value, lap, ps) && |q.value.mem| == size)
  }

  lemma PublishedExtendsLap(q: Queue, lap: seq<Slot>, front: seq<Payload>, p: Payload, ps: seq<Payload>)
    requires HoldsAll(q, lap, front) && ps == front + [p] && !Overflows(q, NextStartOf(lap), p)
    ensures HoldsAll(Commit(q, p, NextStartOf(lap)), lap + [Slot(false, p)], ps)
  {
    assert ps[..|front|] == front;
    CommitExtendsLap(q, lap, 0, p);
    LapGrows(lap, Slot(false, p));
  }

  lemma PublishOne(q: Queue, lap: seq<Slot>, front: seq<Payload>, p: Payload, ps: seq<Payload>)
    requires HoldsAll(q, lap, front) && ps == front + [p]
    ensures HeldIfItFits(PublishNext(Some(q), p), lap + [Slot(false, p)], ps, |q.mem|)
  {
    assert ps[..|front|] == front;
    NextStartIsLapEnd(q, lap, 0);
    OverflowsIffLapIsFull(q, lap, 0, p);
    if !Overflows(q, NextStartOf(lap), p) {
      PublishedExtendsLap(q, lap, front, p, ps);
    }
  }

  /**
   * From InitializeQueue on, payloads are all published without a wrap if and only if they and 17 octets
   * for each of them take less than the region (32 octets are the metric's).
   */
  lemma {:induction false} Capacity(q: Queue, ps: seq<Payload>) returns (lap: seq<Slot>)
    requires q == Initialized(q.mem) && 32 < |q.mem| < SIZE_T_MODULUS
    ensures HeldIfItFits(PublishedAll(q, ps), lap, ps, |q.mem|)
  {
    lap := [];
    if ps == [] {
      InitializedRepresents(q.mem);
    } else {
      var front, p := ps[..|ps| - 1], ps[|ps| - 1];
      lap := Capacity(q, front);
      var before := PublishedAll(q, front);
      if before.Some? {
        PublishOne(before.value, lap, front, p, ps);
        lap := lap + [Slot(false, p)];
      }
    }
  }

  /** The emptiness test is exact. */
  lemma LooksEmptyIffNothingUnread(q: Queue, lap: seq<Slot>, read: nat)
    requires Located(q, lap, read)
    ensures LooksEmpty(q) <==> Unread(lap, read) == []
  {
    if read < |lap| {
      assert q.head >= QUEUE_START;
    }
  }

  /** Enqueue without overflow appends to the abstract queue; no octet in front of the new message changes. */
  lemma CommitExtendsLap(q: Queue, lap: seq<Slot>, read: nat, p: Payload)
    requires Represents(q, lap, read)
    requires !Overflows(q, NextStartOf(lap), p)
    ensures Represents(Commit(q, p, NextStartOf(lap)), lap + [Slot(false, p)], read)
    ensures Unread(lap + [Slot(false, p)], read) == Unread(lap, read) + [p]
    ensures Commit(q, p, NextStartOf(lap)).mem[..NextStartOf(lap)] == q.mem[..NextStartOf(lap)]
  {
    AppendSlot(q.mem, lap, p);
    var longer := lap + [Slot(false, p)];
    assert longer[..|lap|] == lap == lap[..|lap|];
    assert longer[..|lap| + 1] == longer;
    if read < |lap| {
      assert longer[..read] == lap[..read];
    }
  }

  function NextStartOf(lap: seq<Slot>): (at: nat)
    ensures at >= QUEUE_START
  {
    SlotStart(lap, |lap|)
  }

  /** Enqueue that wraps on a drained queue starts a new lap holding just the new message. */
  lemma CommitStartsLap(q: Queue, lap: seq<Slot>, p: Payload)
    requires Represents(q, lap, |lap|) && q.head == 0
    requires QUEUE_START + MessageSize(p) < |q.mem|
    ensures Represents(Commit(q, p, QUEUE_START), [Slot(false, p)], 0)
    ensures Unread([Slot(false, p)], 0) == [p]
  {
    FreshLap(q.mem, p);
    var first := [Slot(false, p)];
    assert first[..1] == first && first[..0] == [];
    assert LapSize(first) == MessageSize(p);
  }

  /** Deque takes the front of the abstract queue. */
  lemma RemovedTakesFront(q: Queue, lap: seq<Slot>, read: nat)
    requires Represents(q, lap, read) && read < |lap|
    ensures !LooksEmpty(q) && HasMessage(q.mem, q.head)
    ensures ReadPayload(q.mem, q.head) == Unread(lap, read)[0]
    ensures Represents(Removed(q), lap[read := lap[read].(processed := true)], read + 1)
    ensures Unread(lap[read := lap[read].(processed := true)], read + 1) == Unread(lap, read)[1..]
  {
    SlotFields(q.mem, lap, read);
    MarkedIsLocated(q, lap, read);
    AdvanceIsLocated(MarkProcessed(q), lap[read := lap[read].(processed := true)], read);
    MarkedUnread(lap, read);
  }

  lemma MarkedUnread(lap: seq<Slot>, read: nat)
    requires read < |lap|
    ensures Unread(lap[read := lap[read].(processed := true)], read + 1) == Unread(lap, read)[1..]
  {
  }

  lemma MarkedIsLocated(q: Queue, lap: seq<Slot>, read: nat)
    requires Located(q, lap, read) && read < |lap|
    ensures q.head == SlotStart(lap, read) < |q.mem|
    ensures Located(MarkProcessed(q), lap[read := lap[read].(processed := true)], read)
  {
    MarkSlot(q.mem, lap, read);
    MarkKeepsStarts(lap, read, read);
    MarkKeepsStarts(lap, read, |lap| - 1);
    MarkKeepsStarts(lap, read, |lap|);
  }

  lemma AdvanceIsLocated(q: Queue, lap: seq<Slot>, read: nat)
    requires Located(q, lap, read) && read < |lap|
    ensures !LooksEmpty(q) && HasMessage(q.mem, q.head)
    ensures Located(Advance(q), lap, read + 1)
  {
    SlotFields(q.mem, lap, read);
    if read < |lap| - 1 {
      SlotStartsIncrease(lap, read, |lap| - 1);
    }
  }

  // Following `next`.

  function Hops(mem: seq<byte>, at: nat, n: nat): Option<nat>
    decreases n
  {
    if n == 0 then Some(at)
    else if !HasHeader(mem, at) then None
    else Hops(mem, ReadNext(mem, at), n - 1)
  }

  /** Following `next` from the head reaches the rear in exactly message_cnt - 1 hops. */
  predicate Linked(q: Queue) {
    q.messageCnt > 0 && Hops(q.mem, q.head, q.messageCnt - 1) == Some(q.rear)
  }

  lemma {:induction false} HopsFollowLap(mem: seq<byte>, lap: seq<Slot>, i: nat, n: nat)
    requires HoldsLap(mem, lap) && |mem| < SIZE_T_MODULUS && i + n <= |lap|
    ensures Hops(mem, SlotStart(lap, i), n) == Some(SlotStart(lap, i + n))
    decreases n
  {
    if n > 0 {
      SlotFields(mem, lap, i);
      HopsFollowLap(mem, lap, i + 1, n - 1);
    }
  }

  lemma RepresentedIsLinked(q: Queue, lap: seq<Slot>, read: nat)
    requires Located(q, lap, read) && read < |lap|
    ensures Linked(q)
    ensures forall n :: 0 <= n < q.messageCnt - 1 ==> Hops(q.mem, q.head, n) != Some(q.rear)
  {
    HopsFollowLap(q.mem, lap, read, |lap| - 1 - read);
    forall n | 0 <= n < q.messageCnt - 1
      ensures Hops(q.mem, q.head, n) != Some(q.rear)
    {
      HopsFollowLap(q.mem, lap, read, n);
      SlotStartsIncrease(lap, read + n, |lap| - 1);
    }
  }

  // Wrapping.

  lemma NextAboveWrite(mem: seq<byte>, image: seq<byte>, at: nat)
    requires QUEUE_START + |image| <= at && HasHeader(mem, at)
    ensures ReadNext(Splice(mem, QUEUE_START, image), at) == ReadNext(mem, at)
  {
    var after := Splice(mem, QUEUE_START, image);
    var end := QUEUE_START + |image|;
    SliceOfSlice(after, end, |after|, at + 9 - end, at + HEADER - end);
    SliceOfSlice(mem, end, |mem|, at + 9 - end, at + HEADER - end);
    assert after[end..|after|] == after[end..] == mem[end..] == mem[end..|mem|];
  }

  /** The unread messages survive a write that stays below them. */
  lemma {:induction false} HopsAboveWrite(mem: seq<byte>, lap: seq<Slot>, image: seq<byte>, i: nat, n: nat)
    requires HoldsLap(mem, lap) && |mem| < SIZE_T_MODULUS && i + n <= |lap|
    requires QUEUE_START + |image| <= SlotStart(lap, i) && QUEUE_START + |image| <= |mem|
    ensures Hops(Splice(mem, QUEUE_START, image), SlotStart(lap, i), n) == Some(SlotStart(lap, i + n))
    decreases n
  {
    if n > 0 {
      SlotFields(mem, lap, i);
      NextAboveWrite(mem, image, SlotStart(lap, i));
      SlotStartsIncrease(lap, i, i + 1);
      HopsAboveWrite(mem, lap, image, i + 1, n - 1);
    }
  }

  /**
   * The old rear is not relinked on a wrap, so a wrap that destroys only processed messages leaves
   * a well-linked queue exactly when the queue was drained, i.e. when `not metric->head_position`.
   */
  lemma WrapIsLinkedIffDrained(q: Queue, lap: seq<Slot>, read: nat, p: Payload)
    requires Represents(q, lap, read) && lap != []
    requires QUEUE_START + MessageSize(p) < |q.mem|
    requires q.head == 0 || QUEUE_START + MessageSize(p) <= SlotStart(lap, read)
    ensures Linked(Commit(q, p, QUEUE_START)) <==> q.head == 0
    ensures q.head != 0 ==> Hops(Commit(q, p, QUEUE_START).mem, q.head, q.messageCnt) == Some(SlotStart(lap, |lap|))
    ensures q.head != 0 ==> SlotStart(lap, |lap|) != QUEUE_START == Commit(q, p, QUEUE_START).rear
  {
    if read == |lap| {
      CommitStartsLap(q, lap, p);
      RepresentedIsLinked(Commit(q, p, QUEUE_START), [Slot(false, p)], 0);
    } else {
      HopsAboveWrite(q.mem, lap, MessageImage(QUEUE_START, Slot(false, p)), read, |lap| - read);
      SlotStartsIncrease(lap, 0, |lap|);
    }
  }
}
