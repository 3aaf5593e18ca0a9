// One producer running Enqueue and one consumer running Deque, interleaved arbitrarily, step by step.
module RingProtocol {
  import opened Options
  import opened Bytes
  import opened RingLayout
  import opened RingQueue
  import opened RingJoin

  datatype Producer =
    | Outside
    | Entered(p: Payload)                                           // lock held, overflow not tested
    | Overflowed(p: Payload)                                        // lock held, about to unlock and join
    | Joining(p: Payload, addresses: seq<nat>, polled: nat)         // lock released, addresses[..polled] seen set
    | Ready(p: Payload, start: nat, wrapped: bool, joined: bool)    // lock held, startAddress final
    | Committed                                                     // lock held, message published

  datatype Consumer =
    | Waiting
    | Inside                 // lock held, emptiness not tested
    | Rejected               // lock held, about to throw "queue is empty"
    | Copied(p: Payload)     // lock held, payload copied by GetFromSHM
    | Marked(p: Payload)     // lock held, processed flag set
    | Taken(p: Payload)      // lock held, head and count moved

  /**
   * `q`, `producer` and `consumer` are the concurrent state. The rest is history that no step reads:
   * what was published and delivered, the current lap, how much of it was read, and what was
   * published before it.
   */
  datatype System = System(
    q: Queue, producer: Producer, consumer: Consumer,
    published: seq<Payload>, delivered: seq<Payload>,
    lap: seq<Slot>, read: nat, earlier: seq<Payload>)

  datatype Action =
    | ProducerAcquire(p: Payload) | TestOverflow | UnlockAndTraverse | Poll | Reacquire | PutMessage | ProducerUnlock
    | ConsumerAcquire | TestEmpty | SetFlag | MoveHead | ConsumerUnlock

  function Start(mem: seq<byte>): System {
    System(Initialized(mem), Outside, Waiting, [], [], [], 0, [])
  }

  predicate ProducerInside(s: System) {
    s.producer.Entered? || s.producer.Overflowed? || s.producer.Ready? || s.producer.Committed?
  }

  predicate ConsumerInside(s: System) {
    !s.consumer.Waiting?
  }

  /** A message needs less room than the region has octets. */
  predicate Fits(s: System, p: Payload) {
    QUEUE_START + MessageSize(p) < |s.q.mem|
  }

  /** When a step can happen; a step that would touch memory outside the region cannot. */
  predicate Enabled(s: System, a: Action) {
    match a
    case ProducerAcquire(p) => s.producer.Outside? && !s.q.locked && Fits(s, p)
    case TestOverflow => s.producer.Entered? && (s.q.rear == 0 || HasHeader(s.q.mem, s.q.rear))
    case UnlockAndTraverse =>
      s.producer.Overflowed? && Traverse(s.q.mem, QUEUE_START, 0, MessageSize(s.producer.p)).Some?
    case Poll =>
      s.producer.Joining? && s.producer.polled < |s.producer.addresses|
      && s.producer.addresses[s.producer.polled] < |s.q.mem|
    case Reacquire => s.producer.Joining? && s.producer.polled == |s.producer.addresses| && !s.q.locked
    case PutMessage =>
      s.producer.Ready? && QUEUE_START <= s.producer.start && s.producer.start + MessageSize(s.producer.p) <= |s.q.mem|
    case ProducerUnlock => s.producer.Committed?
    case ConsumerAcquire => s.consumer.Waiting? && !s.q.locked
    case TestEmpty => s.consumer.Inside? && (LooksEmpty(s.q) || HasMessage(s.q.mem, s.q.head))
    case SetFlag => s.consumer.Copied? && s.q.head < |s.q.mem|
    case MoveHead => s.consumer.Marked? && !LooksEmpty(s.q) && HasHeader(s.q.mem, s.q.head)
    case ConsumerUnlock => s.consumer.Rejected? || s.consumer.Taken?
  }

  function AfterOverflowTest(s: System): System
    requires s.producer.Entered? && (s.q.rear == 0 || HasHeader(s.q.mem, s.q.rear))
  {
    var p, start := s.producer.p, NextStart(s.q);
    if !Overflows(s.q, start, p) then s.(producer := Ready(p, start, false, false))
    else if s.q.messageCnt == 0 && s.q.head == QUEUE_START then s.(producer := Ready(p, QUEUE_START, true, false))
    else s.(producer := Overflowed(p))
  }

  /** One look at one flag: a clear flag sends JoinListener back to sleep, then to the first address. */
  function AfterPoll(s: System): System
    requires Enabled(s, Poll)
  {
    var Joining(p, addresses, polled) := s.producer;
    if s.q.mem[addresses[polled]] != 0 then s.(producer := Joining(p, addresses, polled + 1))
    else s.(producer := Joining(p, addresses, 0))
  }

  function AfterPut(s: System): System
    requires Enabled(s, PutMessage)
  {
    var Ready(p, start, wrapped, _) := s.producer;
    s.(q := Commit(s.q, p, start), producer := Committed, published := s.published + [p],
       lap := if wrapped then [Slot(false, p)] else s.lap + [Slot(false, p)],
       read := if wrapped then 0 else s.read,
       earlier := if wrapped then s.published else s.earlier)
  }

  function Step(s: System, a: Action): System
    requires Enabled(s, a)
  {
    match a
    case ProducerAcquire(p) => s.(q := s.q.(locked := true), producer := Entered(p))
    case TestOverflow => AfterOverflowTest(s)
    case UnlockAndTraverse =>
      var addresses := Traverse(s.q.mem, QUEUE_START, 0, MessageSize(s.producer.p)).value;
      s.(q := s.q.(locked := false), producer := Joining(s.producer.p, addresses, 0))
    case Poll => AfterPoll(s)
    case Reacquire => s.(q := s.q.(locked := true), producer := Ready(s.producer.p, QUEUE_START, true, true))
    case PutMessage => AfterPut(s)
    case ProducerUnlock => s.(q := s.q.(locked := false), producer := Outside)
    case ConsumerAcquire => s.(q := s.q.(locked := true), consumer := Inside)
    case TestEmpty =>
      if LooksEmpty(s.q) then s.(consumer := Rejected)
      else s.(consumer := Copied(ReadPayload(s.q.mem, s.q.head)))
    case SetFlag =>
      s.(q := MarkProcessed(s.q), consumer := Marked(s.consumer.p),
         lap := if s.read < |s.lap| then s.lap[s.read := s.lap[s.read].(processed := true)] else s.lap)
    case MoveHead => s.(q := Advance(s.q), consumer := Taken(s.consumer.p), read := s.read + 1)
    case ConsumerUnlock =>
      s.(q := s.q.(locked := false), consumer := Waiting,
         delivered := if s.consumer.Taken? then s.delivered + [s.consumer.p] else s.delivered)
  }

  predicate IsRun(s: System, actions: seq<Action>)
    decreases |actions|
  {
    actions == [] || (Enabled(s, actions[0]) && IsRun(Step(s, actions[0]), actions[1..]))
  }

  function Final(s: System, actions: seq<Action>): System
    requires IsRun(s, actions)
    decreases |actions|
  {
    if actions == [] then s else Final(Step(s, actions[0]), actions[1..])
  }

  /** The wrapped message is written when `metric->head_position` is 0. */
  predicate DrainedIfWrapping(s: System, a: Action) {
    a.PutMessage? && s.producer.Ready? && s.producer.wrapped ==> s.q.head == 0
  }

  predicate WrapsFindQueueDrained(s: System, actions: seq<Action>)
    requires IsRun(s, actions)
    decreases |actions|
  {
    actions == []
    || (DrainedIfWrapping(s, actions[0]) && WrapsFindQueueDrained(Step(s, actions[0]), actions[1..]))
  }

  // Mutual exclusion.

  predicate LockIsHonoured(s: System) {
    && (s.q.locked <==> ProducerInside(s) || ConsumerInside(s))
    && !(ProducerInside(s) && ConsumerInside(s))
  }

  lemma {:induction false} MutualExclusion(s: System, actions: seq<Action>)
    requires LockIsHonoured(s) && IsRun(s, actions)
    ensures LockIsHonoured(Final(s, actions))
    decreases |actions|
  {
    if actions != [] {
      LockStep(s, actions[0]);
      MutualExclusion(Step(s, actions[0]), actions[1..]);
    }
  }

  lemma LockStep(s: System, a: Action)
    requires LockIsHonoured(s) && Enabled(s, a)
    ensures LockIsHonoured(Step(s, a))
  {
  }

  // First in, first out.

  function Payloads(lap: seq<Slot>): (ps: seq<Payload>)
    ensures |ps| == |lap|
  {
    Unread(lap, 0)
  }

  function InHand(c: Consumer): seq<Payload> {
    if c.Taken? then [c.p] else []
  }

  ghost predicate MemoryMatches(s: System) {
    && Located(s.q, s.lap, s.read)
    && (forall i :: 0 <= i < |s.lap| ==> (s.lap[i].processed <==> i < s.read || (i == s.read && s.consumer.Marked?)))
    && (s.consumer.Copied? || s.consumer.Marked? ==> s.read < |s.lap| && s.consumer.p == s.lap[s.read].payload)
  }

  ghost predicate HistoryMatches(s: System) {
    && s.read <= |s.lap|
    && s.published == s.earlier + Payloads(s.lap)
    && s.delivered + InHand(s.consumer) == s.earlier + Payloads(s.lap)[..s.read]
  }

  /** Seen flags stay set, and up to two destroyed messages are among those looked at. */
  ghost predicate JoinMatches(s: System) {
    match s.producer
    case Joining(p, addresses, polled) =>
      && Fits(s, p) && polled <= |addresses|
      && (forall j :: 0 <= j < polled ==> addresses[j] < |s.q.mem| && s.q.mem[addresses[j]] != 0)
      && (forall count: nat :: Overwrites(s.lap, count, MessageSize(p)) && count <= 2 ==> FirstStarts(s.lap, count) <= addresses)
    case Ready(p, start, wrapped, _) =>
      if wrapped then
        && start == QUEUE_START && Fits(s, p)
        && (forall count: nat :: Overwrites(s.lap, count, MessageSize(p)) && count <= 2 ==> count <= s.read)
      else
        start == NextStartOf(s.lap) && !Overflows(s.q, start, p)
    case Entered(p) => Fits(s, p)
    case Overflowed(p) => Fits(s, p)
    case _ => true
  }

  ghost predicate Invariant(s: System) {
    LockIsHonoured(s) && MemoryMatches(s) && HistoryMatches(s) && JoinMatches(s)
  }

  lemma StartEstablishesInvariant(mem: seq<byte>)
    requires QUEUE_START < |mem| < SIZE_T_MODULUS
    ensures Invariant(Start(mem))
  {
    InitializedRepresents(mem);
  }

  lemma PutInLapStep(s: System)
    requires Invariant(s) && Enabled(s, PutMessage) && !s.producer.wrapped
    ensures Invariant(Step(s, PutMessage))
  {
    var p := s.producer.p;
    CommitExtendsLap(s.q, s.lap, s.read, p);
    var after := AfterPut(s);
    assert Payloads(after.lap) == Payloads(s.lap) + [p];
    assert Payloads(after.lap)[..s.read] == Payloads(s.lap)[..s.read];
  }

  lemma PutWrappedStep(s: System)
    requires Invariant(s) && Enabled(s, PutMessage) && s.producer.wrapped && s.q.head == 0
    ensures Invariant(Step(s, PutMessage))
  {
    CommitStartsLap(s.q, s.lap, s.producer.p);
    assert Payloads([Slot(false, s.producer.p)]) == [s.producer.p];
    assert Payloads(s.lap)[..s.read] == Payloads(s.lap);
  }

  lemma TraverseStep(s: System)
    requires Invariant(s) && Enabled(s, UnlockAndTraverse)
    ensures Invariant(Step(s, UnlockAndTraverse))
  {
    var size := MessageSize(s.producer.p);
    forall count: nat | Overwrites(s.lap, count, size) && count <= 2
      ensures FirstStarts(s.lap, count) <= Traverse(s.q.mem, QUEUE_START, 0, size).value
    {
      TraversalVisitsFirstTwo(s.q.mem, s.lap, count, size);
    }
  }

  lemma ReacquireStep(s: System)
    requires Invariant(s) && Enabled(s, Reacquire)
    ensures Invariant(Step(s, Reacquire))
  {
    var size := MessageSize(s.producer.p);
    forall count: nat | Overwrites(s.lap, count, size) && count <= 2
      ensures count <= s.read
    {
      assert s.producer.addresses[count - 1] == FirstStarts(s.lap, count)[count - 1] == SlotStart(s.lap, count - 1);
      SlotFields(s.q.mem, s.lap, count - 1);
    }
  }

  lemma TestEmptyStep(s: System)
    requires Invariant(s) && Enabled(s, TestEmpty)
    ensures Invariant(Step(s, TestEmpty))
  {
    if s.read < |s.lap| {
      SlotFields(s.q.mem, s.lap, s.read);
    }
  }

  lemma MarkKeepsOverwrites(lap: seq<Slot>, i: nat, count: nat, size: nat)
    requires i < |lap|
    ensures Overwrites(lap[i := lap[i].(processed := true)], count, size) <==> Overwrites(lap, count, size)
    ensures count <= |lap| ==> FirstStarts(lap[i := lap[i].(processed := true)], count) == FirstStarts(lap, count)
  {
    forall k | 0 <= k <= |lap|
      ensures SlotStart(lap[i := lap[i].(processed := true)], k) == SlotStart(lap, k)
    {
      MarkKeepsStarts(lap, i, k);
    }
  }

  lemma SetFlagStep(s: System)
    requires Invariant(s) && Enabled(s, SetFlag)
    ensures Invariant(Step(s, SetFlag))
  {
    MarkedIsLocated(s.q, s.lap, s.read);
    var after := Step(s, SetFlag);
    assert Payloads(after.lap) == Payloads(s.lap);
    if s.producer.Joining? {
      forall count: nat | Overwrites(after.lap, count, MessageSize(s.producer.p)) && count <= 2
        ensures FirstStarts(after.lap, count) <= s.producer.addresses
      {
        MarkKeepsOverwrites(s.lap, s.read, count, MessageSize(s.producer.p));
      }
    }
  }

  lemma MoveHeadStep(s: System)
    requires Invariant(s) && Enabled(s, MoveHead)
    ensures Invariant(Step(s, MoveHead))
  {
    AdvanceIsLocated(s.q, s.lap, s.read);
    var after := Step(s, MoveHead);
    assert Payloads(s.lap)[..s.read + 1] == Payloads(s.lap)[..s.read] + [s.consumer.p];
    assert s.delivered + [] == s.delivered;
  }

  /** Taking or releasing the lock concerns the lock alone. */
  lemma LockingStep(s: System, a: Action)
    requires Invariant(s) && Enabled(s, a)
    requires a.ProducerAcquire? || a.ProducerUnlock? || a.ConsumerAcquire? || a.ConsumerUnlock?
    ensures Invariant(Step(s, a))
  {
    LockStep(s, a);
    var after := Step(s, a);
    assert Located(after.q, after.lap, after.read);
    assert s.delivered + [] == s.delivered;
    assert after.delivered + [] == after.delivered;
  }

  lemma TestOverflowStep(s: System)
    requires Invariant(s) && Enabled(s, TestOverflow)
    ensures Invariant(Step(s, TestOverflow))
  {
    NextStartIsLapEnd(s.q, s.lap, s.read);
    LockStep(s, TestOverflow);
    assert s.lap != [] || NextStart(s.q) == QUEUE_START;
  }

  lemma PollStep(s: System)
    requires Invariant(s) && Enabled(s, Poll)
    ensures Invariant(Step(s, Poll))
  {
    LockStep(s, Poll);
    var after := AfterPoll(s);
    assert after == s.(producer := after.producer);
    assert MemoryMatches(after) && HistoryMatches(after);
  }

  lemma InvariantStep(s: System, a: Action)
    requires Invariant(s) && Enabled(s, a) && DrainedIfWrapping(s, a)
    ensures Invariant(Step(s, a))
  {
    match a
    case PutMessage => if s.producer.wrapped { PutWrappedStep(s); } else { PutInLapStep(s); }
    case UnlockAndTraverse => TraverseStep(s);
    case Reacquire => ReacquireStep(s);
    case TestEmpty => TestEmptyStep(s);
    case SetFlag => SetFlagStep(s);
    case MoveHead => MoveHeadStep(s);
    case TestOverflow => TestOverflowStep(s);
    case Poll => PollStep(s);
    case _ => LockingStep(s, a);
  }

  lemma {:induction false} InvariantAlways(s: System, actions: seq<Action>)
    requires Invariant(s) && IsRun(s, actions) && WrapsFindQueueDrained(s, actions)
    ensures Invariant(Final(s, actions))
    decreases |actions|
  {
    if actions != [] {
      InvariantStep(s, actions[0]);
      InvariantAlways(Step(s, actions[0]), actions[1..]);
    }
  }

  /**
   * Every interleaving that wraps on a drained queue only: what Deque returned is a prefix of what
   * Enqueue was given, and the two are never inside the critical section together.
   */
  lemma DeliveredIsPrefixOfPublished(mem: seq<byte>, actions: seq<Action>)
    requires QUEUE_START < |mem| < SIZE_T_MODULUS
    requires IsRun(Start(mem), actions) && WrapsFindQueueDrained(Start(mem), actions)
    ensures Final(Start(mem), actions).delivered <= Final(Start(mem), actions).published
    ensures LockIsHonoured(Final(Start(mem), actions))
  {
    StartEstablishesInvariant(mem);
    InvariantAlways(Start(mem), actions);
    var s := Final(Start(mem), actions);
    assert s.published[..|s.delivered|] == (s.delivered + InHand(s.consumer))[..|s.delivered|] == s.delivered;
  }

  /** No restriction on wraps is needed for mutual exclusion. */
  lemma NeverBothInside(mem: seq<byte>, actions: seq<Action>)
    requires IsRun(Start(mem), actions)
    ensures !(ProducerInside(Final(Start(mem), actions)) && ConsumerInside(Final(Start(mem), actions)))
  {
    MutualExclusion(Start(mem), actions);
  }

  /** Deque throws exactly when everything published has been delivered, and then only the lock changes. */
  lemma RejectedIffAllDelivered(s: System)
    requires Invariant(s) && Enabled(s, TestEmpty)
    ensures Step(s, TestEmpty).consumer.Rejected? <==> s.delivered == s.published
    ensures Step(s, TestEmpty).consumer.Rejected? ==>
      Step(Step(s, TestEmpty), ConsumerUnlock)
      == s.(q := s.q.(locked := false), consumer := Waiting)
  {
    LooksEmptyIffNothingUnread(s.q, s.lap, s.read);
    assert s.delivered + [] == s.delivered == s.earlier + Payloads(s.lap)[..s.read];
    if s.read == |s.lap| {
      assert Payloads(s.lap)[..s.read] == Payloads(s.lap);
    }
  }

  /** The branch of Enqueue that wraps without joining is never taken. */
  lemma WrapsOnlyAfterJoin(s: System)
    requires Invariant(s) && Enabled(s, TestOverflow)
    ensures Step(s, TestOverflow).producer.Ready? ==> !Step(s, TestOverflow).producer.wrapped
  {
  }

  /** A flag is set only for a message whose payload the consumer has copied out. */
  lemma FlagsFollowCopies(s: System, i: nat)
    requires Invariant(s) && i < |s.lap| && s.lap[i].processed
    ensures i < s.read ==> (s.delivered + InHand(s.consumer))[|s.earlier| + i] == s.lap[i].payload
    ensures i >= s.read ==> s.consumer == Marked(s.lap[i].payload)
  {
  }

  ghost predicate EqualSizes(ps: seq<Payload>, length: nat) {
    forall i :: 0 <= i < |ps| ==> |ps[i]| == length
  }

  lemma LapIsUniform(s: System, p: Payload)
    requires s.published == s.earlier + Payloads(s.lap) && EqualSizes(s.published + [p], |p|)
    ensures Uniform(s.lap, |p|)
  {
    forall i | 0 <= i < |s.lap|
      ensures |s.lap[i].payload| == |p|
    {
      assert s.lap[i].payload == Payloads(s.lap)[i] == (s.published + [p])[|s.earlier| + i];
    }
  }

  /**
   * Equal-size messages: when the overflow branch reaches PutOnSHM, the one old message it writes
   * over has been processed, and the new message ends in front of everything unread.
   */
  lemma OverwrittenWasProcessed(s: System)
    requires Invariant(s) && s.producer.Ready? && s.producer.wrapped
    requires EqualSizes(s.published + [s.producer.p], |s.producer.p|)
    requires s.lap != []
    ensures forall i :: 0 <= i < |s.lap| && Overwritten(s.lap, i, MessageSize(s.producer.p)) ==> i == 0 && s.lap[i].processed
    ensures QUEUE_START + MessageSize(s.producer.p) <= SlotStart(s.lap, s.read)
  {
    var p := s.producer.p;
    LapIsUniform(s, p);
    UniformOverwritesOne(s.lap, p);
    forall i | 0 <= i < |s.lap| && Overwritten(s.lap, i, MessageSize(p))
      ensures i == 0 && s.lap[i].processed
    {
      OverwritesExactly(s.lap, 1, MessageSize(p), i);
    }
    if s.read > 1 {
      SlotStartsIncrease(s.lap, 1, s.read);
    }
  }

  /** Equal-size messages: the wrapped write leaves a well-linked queue if and only if it found the queue drained. */
  lemma WrapKeepsLinksIffDrained(s: System)
    requires Invariant(s) && s.producer.Ready? && s.producer.wrapped && Enabled(s, PutMessage)
    requires EqualSizes(s.published + [s.producer.p], |s.producer.p|)
    requires s.lap != []
    ensures Linked(Step(s, PutMessage).q) <==> s.q.head == 0
  {
    OverwrittenWasProcessed(s);
    WrapIsLinkedIffDrained(s.q, s.lap, s.read, s.producer.p);
  }
}
