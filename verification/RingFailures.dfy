// Runs in which the queue does not do what it is for: an order lost behind a wrap that found unread
// messages, a message lost in the branch without a join, and a join that waits for ever.
module RingFailures {
  import opened Options
  import opened Bytes
  import opened RingLayout
  import opened RingQueue
  import opened RingJoin
  import opened RingProtocol
  import opened RingEveryRun
  import opened RingWrap

  ghost predicate Reaches(s: System, t: System) {
    exists actions :: IsRun(s, actions) && Final(s, actions) == t
  }

  lemma {:induction false} RunStep(s: System, actions: seq<Action>, a: Action)
    requires IsRun(s, actions) && Enabled(Final(s, actions), a)
    ensures IsRun(s, actions + [a]) && Final(s, actions + [a]) == Step(Final(s, actions), a)
    decreases |actions|
  {
    if actions == [] {
      assert [] + [a] == [a] && [a][1..] == [];
    } else {
      assert (actions + [a])[1..] == actions[1..] + [a];
      RunStep(Step(s, actions[0]), actions[1..], a);
    }
  }

  lemma ReachesItself(s: System)
    ensures Reaches(s, s)
  {
    assert IsRun(s, []) && Final(s, []) == s;
  }

  lemma ReachesStep(s: System, t: System, a: Action)
    requires Reaches(s, t) && Enabled(t, a)
    ensures Reaches(s, Step(t, a))
  {
    var actions :| IsRun(s, actions) && Final(s, actions) == t;
    RunStep(s, actions, a);
  }

  // Whole calls, with nobody else about.

  predicate Idle(s: System) {
    s.producer.Outside? && s.consumer.Waiting? && !s.q.locked
  }

  function Enqueued(s: System, p: Payload, start: nat): System
    requires start >= QUEUE_START && start + MessageSize(p) <= |s.q.mem|
  {
    s.(q := Commit(s.q, p, start), published := s.published + [p], lap := s.lap + [Slot(false, p)])
  }

  lemma EnqueueReaches(from: System, s: System, p: Payload, start: nat)
    requires Reaches(from, s) && Idle(s) && Fits(s, p) && (s.q.rear == 0 || HasHeader(s.q.mem, s.q.rear))
    requires start == NextStart(s.q) >= QUEUE_START && !Overflows(s.q, start, p)
    ensures Reaches(from, Enqueued(s, p, start)) && Idle(Enqueued(s, p, start))
  {
    var s1 := Step(s, ProducerAcquire(p));
    ReachesStep(from, s, ProducerAcquire(p));
    var s2 := Step(s1, TestOverflow);
    ReachesStep(from, s1, TestOverflow);
    var s3 := Step(s2, PutMessage);
    ReachesStep(from, s2, PutMessage);
    ReachesStep(from, s3, ProducerUnlock);
    assert Step(s3, ProducerUnlock) == Enqueued(s, p, start);
  }

  function Dequeued(s: System): System
    requires !LooksEmpty(s.q) && HasMessage(s.q.mem, s.q.head)
  {
    s.(q := Removed(s.q), delivered := s.delivered + [ReadPayload(s.q.mem, s.q.head)], read := s.read + 1,
       lap := if s.read < |s.lap| then s.lap[s.read := s.lap[s.read].(processed := true)] else s.lap)
  }

  lemma CopyReaches(from: System, s: System)
    requires Reaches(from, s) && Idle(s) && !LooksEmpty(s.q) && HasMessage(s.q.mem, s.q.head)
    ensures Reaches(from, s.(q := s.q.(locked := true), consumer := Copied(ReadPayload(s.q.mem, s.q.head))))
  {
    var s1 := Step(s, ConsumerAcquire);
    ReachesStep(from, s, ConsumerAcquire);
    ReachesStep(from, s1, TestEmpty);
    assert Step(s1, TestEmpty) == s.(q := s.q.(locked := true), consumer := Copied(ReadPayload(s.q.mem, s.q.head)));
  }

  lemma DequeReaches(from: System, s: System)
    requires Reaches(from, s) && Idle(s) && !LooksEmpty(s.q) && HasMessage(s.q.mem, s.q.head)
    ensures Reaches(from, Dequeued(s)) && Idle(Dequeued(s))
  {
    CopyReaches(from, s);
    var s2 := s.(q := s.q.(locked := true), consumer := Copied(ReadPayload(s.q.mem, s.q.head)));
    var s3 := Step(s2, SetFlag);
    ReachesStep(from, s2, SetFlag);
    var s4 := Step(s3, MoveHead);
    ReachesStep(from, s3, MoveHead);
    ReachesStep(from, s4, ConsumerUnlock);
    assert Step(s4, ConsumerUnlock) == Dequeued(s);
  }

  function Wrapped(s: System, p: Payload): System
    requires QUEUE_START + MessageSize(p) <= |s.q.mem|
  {
    s.(q := Commit(s.q, p, QUEUE_START), published := s.published + [p],
       lap := [Slot(false, p)], read := 0, earlier := s.published)
  }

  lemma JoiningReaches(from: System, s: System, p: Payload)
    requires Reaches(from, s) && Idle(s) && Fits(s, p) && (s.q.rear == 0 || HasHeader(s.q.mem, s.q.rear))
    requires Overflows(s.q, NextStart(s.q), p) && !LooksUnused(s)
    requires Traverse(s.q.mem, QUEUE_START, 0, MessageSize(p)).Some?
    ensures Reaches(from, s.(producer := Joining(p, Traverse(s.q.mem, QUEUE_START, 0, MessageSize(p)).value, 0)))
  {
    var s1 := Step(s, ProducerAcquire(p));
    ReachesStep(from, s, ProducerAcquire(p));
    var s2 := Step(s1, TestOverflow);
    ReachesStep(from, s1, TestOverflow);
    ReachesStep(from, s2, UnlockAndTraverse);
    assert Step(s2, UnlockAndTraverse)
        == s.(producer := Joining(p, Traverse(s.q.mem, QUEUE_START, 0, MessageSize(p)).value, 0));
  }

  lemma WrapReaches(from: System, s: System, p: Payload)
    requires Reaches(from, s) && Idle(s) && Fits(s, p) && (s.q.rear == 0 || HasHeader(s.q.mem, s.q.rear))
    requires Overflows(s.q, NextStart(s.q), p) && !LooksUnused(s)
    requires Traverse(s.q.mem, QUEUE_START, 0, MessageSize(p)) == Some([QUEUE_START]) && FirstIsFlagged(s)
    ensures Reaches(from, Wrapped(s, p)) && Idle(Wrapped(s, p))
  {
    JoiningReaches(from, s, p);
    var s3 := s.(producer := Joining(p, [QUEUE_START], 0));
    var s4 := Step(s3, Poll);
    ReachesStep(from, s3, Poll);
    var s5 := Step(s4, Reacquire);
    ReachesStep(from, s4, Reacquire);
    var s6 := Step(s5, PutMessage);
    ReachesStep(from, s5, PutMessage);
    ReachesStep(from, s6, ProducerUnlock);
    assert Step(s6, ProducerUnlock) == Wrapped(s, p);
  }

  // A join that waits for ever.

  /** The producer waits for a flag that no Deque will set: at most one message is left, and it is another one. */
  predicate Stuck(s: System, k: nat) {
    && s.producer.Joining? && s.producer.polled <= k < |s.producer.addresses|
    && s.producer.addresses[k] < |s.q.mem| && s.q.mem[s.producer.addresses[k]] == 0
    && (if s.q.head == 0 then !s.consumer.Copied? && !s.consumer.Marked?
        else s.q.head == s.q.rear && s.q.head != s.producer.addresses[k])
  }

  lemma StuckStep(s: System, a: Action, k: nat)
    requires Stuck(s, k) && Enabled(s, a)
    ensures Stuck(Step(s, a), k)
  {
  }

  lemma {:induction false} StuckForever(s: System, actions: seq<Action>, k: nat)
    requires Stuck(s, k) && IsRun(s, actions)
    ensures Final(s, actions).producer.Joining?
    decreases |actions|
  {
    if actions != [] {
      StuckStep(s, actions[0], k);
      StuckForever(Step(s, actions[0]), actions[1..], k);
    }
  }

  ghost predicate WaitsForever(s: System) {
    s.producer.Joining? && forall more :: IsRun(s, more) ==> Final(s, more).producer.Joining?
  }

  /** One message in a zeroed region. */
  lemma OnlyMessage(s0: System, s: System, p: Payload)
    requires s0 == Start(s0.q.mem) && ZeroFrom(s0.q.mem, 0) && QUEUE_START + MessageSize(p) < |s0.q.mem| < SIZE_T_MODULUS
    requires s == Enqueued(s0, p, QUEUE_START)
    ensures Reaches(s0, s) && Idle(s) && Represents(s.q, [Slot(false, p)], 0)
    ensures |s.q.mem| == |s0.q.mem| && ZeroFrom(s.q.mem, QUEUE_START + MessageSize(p))
    ensures s.q.head == s.q.rear == QUEUE_START && s.lap == [Slot(false, p)]
  {
    ReachesItself(s0);
    EnqueueReaches(s0, s0, p, QUEUE_START);
    InitializedRepresents(s0.q.mem);
    LastStart([]);
    CommitExtendsLap(s0.q, [], 0, p);
    assert [] + [Slot(false, p)] == [Slot(false, p)];
    FirstStart([Slot(false, p)]);
    CommitKeepsTail(s0.q, p, QUEUE_START);
  }

  /**
   * A zeroed region, one message, then a longer one that needs more room than is left: the traversal
   * goes on behind the only message, and Enqueue waits for a flag there whatever Deque does. A region
   * of 100 octets (132 with the metric's), a message of one octet and then one of 70 will do.
   */
  lemma LongerMessageWaitsForever(mem: seq<byte>, p: Payload, big: Payload)
    requires ZeroFrom(mem, 0) && |mem| < SIZE_T_MODULUS
    requires MessageSize(p) < MessageSize(big) && QUEUE_START + MessageSize(big) < |mem|
    requires QUEUE_START + MessageSize(p) + HEADER <= |mem| <= QUEUE_START + MessageSize(p) + MessageSize(big)
    ensures exists s :: Reaches(Start(mem), s) && s.producer.Joining? && s.producer.p == big
                        && Overwrites(s.lap, 1, MessageSize(big)) && WaitsForever(s)
  {
    var s := Enqueued(Start(mem), p, QUEUE_START);
    OnlyMessage(Start(mem), s, p);
    SecondStart(s.lap);
    LastStart(s.lap);
    NextStartIsLapEnd(s.q, s.lap, 0);
    var behind := SlotStart(s.lap, 1);
    ClearHeader(s.q.mem, behind);
    TraversalLeavesLap(s.q.mem, s.lap, MessageSize(big));
    JoiningReaches(Start(mem), s, big);
    var joining := s.(producer := Joining(big, Traverse(s.q.mem, QUEUE_START, 0, MessageSize(big)).value, 0));
    assert joining.producer.addresses[1] == behind;
    assert Stuck(joining, 1);
    forall more | IsRun(joining, more)
      ensures Final(joining, more).producer.Joining?
    {
      StuckForever(joining, more, 1);
    }
  }

  lemma ClearHeader(mem: seq<byte>, at: nat)
    requires ZeroFrom(mem, at) && HasHeader(mem, at)
    ensures !ReadFlag(mem, at) && ReadLength(mem, at) == 0 && ReadNext(mem, at) == QUEUE_START
    ensures HasMessage(mem, at) && ReadPayload(mem, at) == []
  {
    DecodeZeros(mem[at + 1..at + 9]);
    DecodeZeros(mem[at + 9..at + HEADER]);
  }

  lemma CommitKeepsTail(q: Queue, p: Payload, start: nat)
    requires start >= QUEUE_START && start + MessageSize(p) <= |q.mem|
    requires ZeroFrom(q.mem, start + MessageSize(p))
    ensures |Commit(q, p, start).mem| == |q.mem| && ZeroFrom(Commit(q, p, start).mem, start + MessageSize(p))
  {
    var more, end := Commit(q, p, start), start + MessageSize(p);
    forall k | end <= k < |q.mem|
      ensures more.mem[k] == 0
    {
      assert more.mem[end..][k - end] == q.mem[end..][k - end];
    }
  }

  // A wrap that finds unread messages, in a zeroed region of 72 octets.

  /** Four messages of one octet. */
  predicate FourShort(ms: seq<Payload>) {
    |ms| == 4 && forall i :: 0 <= i < 4 ==> |ms[i]| == 1
  }

  /** The first `n` of the messages stand in the region, unread. */
  ghost predicate Loaded(ms: seq<Payload>, q: Queue, lap: seq<Slot>, n: nat) {
    && FourShort(ms) && n <= 3
    && Represents(q, lap, 0) && |lap| == n && LapSize(lap) == 18 * n
    && (forall i :: 0 <= i < n ==> lap[i].payload == ms[i])
    && |q.mem| == 104 && ZeroFrom(q.mem, QUEUE_START + 18 * n)
  }

  lemma NextOfLoaded(ms: seq<Payload>, q: Queue, lap: seq<Slot>, n: nat)
    requires Loaded(ms, q, lap, n)
    ensures (q.rear == 0 || HasHeader(q.mem, q.rear)) && NextStart(q) == NextStartOf(lap) == QUEUE_START + 18 * n
  {
    LastStart(lap);
    NextStartIsLapEnd(q, lap, 0);
  }

  lemma LoadOneMore(ms: seq<Payload>, q: Queue, lap: seq<Slot>, n: nat, p: Payload, more: Queue, longer: seq<Slot>)
    requires Loaded(ms, q, lap, n) && n < 3 && p == ms[n] && NextStartOf(lap) == QUEUE_START + 18 * n
    requires more == Commit(q, p, NextStartOf(lap)) && longer == lap + [Slot(false, p)]
    ensures Loaded(ms, more, longer, n + 1)
  {
    CommitExtendsLap(q, lap, 0, p);
    CommitKeepsTail(q, p, NextStartOf(lap));
    LapGrows(lap, Slot(false, p));
  }

  /** They are published and none is delivered. */
  ghost predicate Filled(ms: seq<Payload>, from: System, s: System, n: nat) {
    && Loaded(ms, s.q, s.lap, n)
    && Reaches(from, s) && Idle(s) && s.read == 0 && s.delivered == [] && s.published == ms[..n]
  }

  lemma NothingFilled(ms: seq<Payload>, mem: seq<byte>)
    requires FourShort(ms) && |mem| == 104 && ZeroFrom(mem, 0)
    ensures Filled(ms, Start(mem), Start(mem), 0)
  {
    ReachesItself(Start(mem));
    InitializedRepresents(mem);
  }

  lemma FillOneMore(ms: seq<Payload>, from: System, s: System, n: nat, p: Payload)
    requires Filled(ms, from, s, n) && n < 3 && p == ms[n]
    ensures Filled(ms, from, Enqueued(s, p, QUEUE_START + 18 * n), n + 1)
  {
    NextOfLoaded(ms, s.q, s.lap, n);
    var after := Enqueued(s, p, QUEUE_START + 18 * n);
    LoadOneMore(ms, s.q, s.lap, n, p, after.q, after.lap);
    EnqueueReaches(from, s, p, QUEUE_START + 18 * n);
  }

  /** Three published, the first delivered. */
  ghost predicate OneRead(ms: seq<Payload>, from: System, s: System, lap: seq<Slot>) {
    && FourShort(ms) && Reaches(from, s) && Idle(s) && s.delivered == ms[..1] && s.published == ms[..3]
    && Represents(s.q, lap, 1) && |lap| == 3 && LapSize(lap) == 54
    && (forall i :: 0 <= i < 3 ==> lap[i].payload == ms[i])
    && |s.q.mem| == 104 && ZeroFrom(s.q.mem, 86)
  }

  lemma ReadOne(ms: seq<Payload>, from: System, s: System)
    requires Filled(ms, from, s, 3)
    ensures !LooksEmpty(s.q) && HasMessage(s.q.mem, s.q.head)
    ensures OneRead(ms, from, Dequeued(s), s.lap[0 := s.lap[0].(processed := true)])
  {
    RemovedTakesFront(s.q, s.lap, 0);
    DequeReaches(from, s);
    MarkImage(s.lap, 0);
    SlotStartsIncrease(s.lap, 0, 3);
    LastStart(s.lap);
    assert ReadPayload(s.q.mem, s.q.head) == s.lap[0].payload;
    assert [] + [ms[0]] == ms[..1];
  }

  /** The fourth message stands at the queue start, and the head is at message `i` of the old lap. */
  ghost predicate Astray(ms: seq<Payload>, from: System, s: System, lap: seq<Slot>, i: nat) {
    && FourShort(ms) && Reaches(from, s) && Idle(s) && i <= 3 && Stranded(s.q, lap, i)
    && s.published == ms && s.delivered == ms[..i]
    && |lap| == 3 && SlotStart(lap, 3) == 86 && lap[0] == Slot(false, ms[3])
    && (forall k :: 1 <= k < 3 ==> lap[k].payload == ms[k])
    && |s.q.mem| == 104 && ZeroFrom(s.q.mem, 86)
  }

  lemma WrapGoesAstray(ms: seq<Payload>, from: System, s: System, lap: seq<Slot>)
    requires OneRead(ms, from, s, lap)
    ensures Astray(ms, from, Wrapped(s, ms[3]), lap[0 := Slot(false, ms[3])], 1)
  {
    LastStart(lap);
    FirstStart(lap);
    SecondStart(lap);
    NextStartIsLapEnd(s.q, lap, 1);
    SlotFields(s.q.mem, lap, 0);
    StopsAtFirst(s.q.mem, lap, MessageSize(ms[3]));
    WrapReaches(from, s, ms[3]);
    UndrainedWrapStrands(s.q, lap, 1, ms[3]);
    var q, after := s.q, Wrapped(s, ms[3]).q;
    forall k | 86 <= k < 104
      ensures after.mem[k] == 0
    {
      assert after.mem[k] == after.mem[50..][k - 50] == q.mem[50..][k - 50];
    }
  }

  lemma AstrayStep(ms: seq<Payload>, from: System, s: System, lap: seq<Slot>, i: nat)
    requires Astray(ms, from, s, lap, i) && i < 3
    ensures !LooksEmpty(s.q) && HasMessage(s.q.mem, s.q.head)
    ensures Astray(ms, from, Dequeued(s), lap[i := lap[i].(processed := true)], i + 1)
  {
    StrandedStep(s.q, lap, i);
    DequeReaches(from, s);
    var q, after := s.q, Dequeued(s).q;
    forall k | 86 <= k < 104
      ensures after.mem[k] == 0
    {
      assert after.mem[k] == after.mem[86..][k - 86] == q.mem[86..][k - 86];
    }
    assert ms[..i] + [lap[i].payload] == ms[..i + 1];
  }

  /** Behind the old lap Deque reads an empty message and goes back to the queue start, with nothing counted. */
  lemma AstrayEnd(ms: seq<Payload>, from: System, s: System, lap: seq<Slot>)
    requires Astray(ms, from, s, lap, 3)
    ensures !LooksEmpty(s.q) && HasMessage(s.q.mem, s.q.head)
    ensures var after := Dequeued(s);
      && Reaches(from, after) && Idle(after) && LooksUnused(after) && after.q.rear == QUEUE_START
      && after.published == ms && after.delivered == ms[..3] + [[]]
      && |after.q.mem| == 104 && HoldsLap(after.q.mem, lap)
  {
    ClearHeader(s.q.mem, 86);
    DequeReaches(from, s);
    LastStart(lap);
    var mem, after := s.q.mem, s.q.mem[86 := 1];
    assert after[QUEUE_START..86] == mem[QUEUE_START..86];
    assert after[95..103] == mem[95..103];
  }

  lemma AllRead(ms: seq<Payload>, mem: seq<byte>) returns (s: System, lap: seq<Slot>)
    requires FourShort(ms) && |mem| == 104 && ZeroFrom(mem, 0)
    ensures Reaches(Start(mem), s) && Idle(s) && LooksUnused(s) && s.q.rear == QUEUE_START
    ensures s.published == ms && s.delivered == ms[..3] + [[]]
    ensures |s.q.mem| == 104 && HoldsLap(s.q.mem, lap) && |lap| == 3 && lap[0] == Slot(false, ms[3])
  {
    var s0 := Start(mem);
    NothingFilled(ms, mem);
    FillOneMore(ms, s0, s0, 0, ms[0]);
    var s1 := Enqueued(s0, ms[0], QUEUE_START);
    FillOneMore(ms, s0, s1, 1, ms[1]);
    var s2 := Enqueued(s1, ms[1], QUEUE_START + 18);
    FillOneMore(ms, s0, s2, 2, ms[2]);
    s, lap := AllReadAfter(ms, s0, Enqueued(s2, ms[2], QUEUE_START + 36));
  }

  lemma AllReadAfter(ms: seq<Payload>, s0: System, s3: System) returns (s: System, lap: seq<Slot>)
    requires Filled(ms, s0, s3, 3)
    ensures Reaches(s0, s) && Idle(s) && LooksUnused(s) && s.q.rear == QUEUE_START
    ensures s.published == ms && s.delivered == ms[..3] + [[]]
    ensures |s.q.mem| == 104 && HoldsLap(s.q.mem, lap) && |lap| == 3 && lap[0] == Slot(false, ms[3])
  {
    ReadOne(ms, s0, s3);
    lap := s3.lap[0 := s3.lap[0].(processed := true)];
    s := Dequeued(s3);
    WrapGoesAstray(ms, s0, s, lap);
    lap, s := lap[0 := Slot(false, ms[3])], Wrapped(s, ms[3]);
    AstrayStep(ms, s0, s, lap, 1);
    lap, s := lap[1 := lap[1].(processed := true)], Dequeued(s);
    AstrayStep(ms, s0, s, lap, 2);
    lap, s := lap[2 := lap[2].(processed := true)], Dequeued(s);
    AstrayEnd(ms, s0, s, lap);
    s := Dequeued(s);
  }

  /**
   * A run with one wrap that found unread messages: four messages are published and four calls of
   * Deque return, but the last of them returns an empty payload instead of the fourth message.
   */
  lemma UndrainedWrapBreaksOrder(ms: seq<Payload>, mem: seq<byte>)
    requires FourShort(ms) && |mem| == 104 && ZeroFrom(mem, 0)
    ensures exists actions ::
      && IsRun(Start(mem), actions)
      && Final(Start(mem), actions).published == ms
      && Final(Start(mem), actions).delivered == ms[..3] + [[]]
      && !(Final(Start(mem), actions).delivered <= Final(Start(mem), actions).published)
  {
    var s, lap := AllRead(ms, mem);
    assert s.published[3] == ms[3] != [] == s.delivered[3];
  }

  /**
   * That run goes on: a fifth message that needs the room wraps without a join and is about to be
   * written over the fourth, whose flag is clear and which was never delivered.
   */
  lemma WrapWithoutJoinLosesMessage(ms: seq<Payload>, mem: seq<byte>, p: Payload)
    requires FourShort(ms) && |mem| == 104 && ZeroFrom(mem, 0) && 37 <= |p| < 55
    requires ms[3] !in ms[..3]
    ensures exists s ::
      && Reaches(Start(mem), s) && s.producer == Ready(p, QUEUE_START, true, false) && Enabled(s, PutMessage)
      && HasMessage(s.q.mem, QUEUE_START) && !ReadFlag(s.q.mem, QUEUE_START) && ReadPayload(s.q.mem, QUEUE_START) == ms[3]
      && ms[3] in s.published && ms[3] !in s.delivered
  {
    var s, lap := AllRead(ms, mem);
    SlotFields(s.q.mem, lap, 0);
    FirstStart(lap);
    SecondStart(lap);
    var s1 := Step(s, ProducerAcquire(p));
    ReachesStep(Start(mem), s, ProducerAcquire(p));
    ReachesStep(Start(mem), s1, TestOverflow);
    var s2 := Step(s1, TestOverflow);
    assert s2.published[3] == ms[3];
  }
}
