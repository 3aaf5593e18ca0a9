// What holds in every run of the protocol, however full the queue is when a write wraps.
module RingEveryRun {
  import opened Bytes
  import opened RingLayout
  import opened RingQueue
  import opened RingJoin
  import opened RingProtocol

  predicate FirstIsFlagged(s: System) {
    QUEUE_START < |s.q.mem| && s.q.mem[QUEUE_START] != 0
  }

  /** The state in which Enqueue wraps without joining. */
  predicate LooksUnused(s: System) {
    s.q.messageCnt == 0 && s.q.head == QUEUE_START
  }

  predicate JoinStartsAtFirst(s: System) {
    match s.producer
    case Joining(p, addresses, polled) =>
      addresses != [] && addresses[0] == QUEUE_START && (polled > 0 ==> FirstIsFlagged(s))
    case Ready(p, start, wrapped, joined) =>
      && (joined ==> wrapped && FirstIsFlagged(s))
      && (wrapped ==> start == QUEUE_START && (joined || LooksUnused(s)))
    case _ => true
  }

  predicate CopyIsExact(s: System) {
    s.consumer.Copied? || s.consumer.Marked? ==>
      && HasMessage(s.q.mem, s.q.head) && s.consumer.p == ReadPayload(s.q.mem, s.q.head)
      && (s.consumer.Marked? ==> ReadFlag(s.q.mem, s.q.head))
  }

  predicate Always(s: System) {
    && LockIsHonoured(s)
    && s.published == s.earlier + Payloads(s.lap)
    && JoinStartsAtFirst(s)
    && CopyIsExact(s)
  }

  lemma FlagIsNoField(mem: seq<byte>, at: nat)
    requires HasMessage(mem, at)
    ensures HasMessage(mem[at := 1], at) && ReadPayload(mem[at := 1], at) == ReadPayload(mem, at)
  {
    var after := mem[at := 1];
    assert after[at + 1..at + 9] == mem[at + 1..at + 9];
  }

  lemma SetFlagAlways(s: System)
    requires Always(s) && Enabled(s, SetFlag)
    ensures Always(Step(s, SetFlag))
  {
    FlagIsNoField(s.q.mem, s.q.head);
    assert Payloads(Step(s, SetFlag).lap) == Payloads(s.lap);
  }

  lemma PutAlways(s: System)
    requires Always(s) && Enabled(s, PutMessage)
    ensures Always(Step(s, PutMessage))
  {
    var after := AfterPut(s);
    if s.producer.wrapped {
      assert Payloads(after.lap) == [s.producer.p];
    } else {
      assert Payloads(after.lap) == Payloads(s.lap) + [s.producer.p];
    }
  }

  lemma TraverseAlways(s: System)
    requires Always(s) && Enabled(s, UnlockAndTraverse)
    ensures Always(Step(s, UnlockAndTraverse))
  {
    TraversalStartsHere(s.q.mem, QUEUE_START, 0, MessageSize(s.producer.p));
  }

  lemma AlwaysStep(s: System, a: Action)
    requires Always(s) && Enabled(s, a)
    ensures Always(Step(s, a))
  {
    match a
    case SetFlag => SetFlagAlways(s);
    case PutMessage => PutAlways(s);
    case UnlockAndTraverse => TraverseAlways(s);
    case _ => LockStep(s, a);
  }

  lemma {:induction false} AlwaysHolds(s: System, actions: seq<Action>)
    requires Always(s) && IsRun(s, actions)
    ensures Always(Final(s, actions))
    decreases |actions|
  {
    if actions != [] {
      AlwaysStep(s, actions[0]);
      AlwaysHolds(Step(s, actions[0]), actions[1..]);
    }
  }

  /**
   * A wrapped write starts at the queue start. After a join the message there carries its flag; a
   * write that wrapped without joining found no message counted and the head at the queue start.
   */
  lemma WrapAfterJoinFindsFlag(mem: seq<byte>, actions: seq<Action>)
    requires IsRun(Start(mem), actions)
    ensures var s := Final(Start(mem), actions);
      s.producer.Ready? && s.producer.wrapped ==>
        s.producer.start == QUEUE_START && (if s.producer.joined then FirstIsFlagged(s) else LooksUnused(s))
  {
    AlwaysHolds(Start(mem), actions);
  }

  /**
   * Between two publications a memory octet changes only where Deque sets the flag of the message
   * at the head, and by then it holds that message's payload.
   */
  lemma OnlyCopiedMessagesAreFlagged(mem: seq<byte>, actions: seq<Action>, a: Action, k: nat)
    requires IsRun(Start(mem), actions) && Enabled(Final(Start(mem), actions), a) && !a.PutMessage?
    ensures var s := Final(Start(mem), actions); |Step(s, a).q.mem| == |s.q.mem|
    ensures var s := Final(Start(mem), actions);
      k < |s.q.mem| && Step(s, a).q.mem[k] != s.q.mem[k] ==>
        && a.SetFlag? && k == s.q.head && Step(s, a).q.mem[k] == 1
        && HasMessage(s.q.mem, k) && s.consumer == Copied(ReadPayload(s.q.mem, k))
  {
    AlwaysHolds(Start(mem), actions);
  }

  /**
   * Equal-size messages: in every run the wrapped write ends where the second message of the lap
   * begins, so the one it writes over is the first, and after a join that one carries its flag.
   */
  lemma EqualSizesOverwriteFirst(mem: seq<byte>, actions: seq<Action>)
    requires IsRun(Start(mem), actions)
    ensures var s := Final(Start(mem), actions);
      && s.published == s.earlier + Payloads(s.lap)
      && (s.producer.Ready? && s.producer.wrapped && EqualSizes(s.published + [s.producer.p], |s.producer.p|) ==>
            && (forall i :: 0 <= i < |s.lap| && Overwritten(s.lap, i, MessageSize(s.producer.p)) ==> i == 0)
            && (s.producer.joined ==> FirstIsFlagged(s)))
  {
    AlwaysHolds(Start(mem), actions);
    var s := Final(Start(mem), actions);
    if s.producer.Ready? && s.lap != [] && EqualSizes(s.published + [s.producer.p], |s.producer.p|) {
      LapIsUniform(s, s.producer.p);
      UniformOverwritesOne(s.lap, s.producer.p);
      forall i | 0 <= i < |s.lap| && Overwritten(s.lap, i, MessageSize(s.producer.p))
        ensures i == 0
      {
        OverwritesExactly(s.lap, 1, MessageSize(s.producer.p), i);
      }
    }
  }
}
