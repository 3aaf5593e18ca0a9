// The daemon that collects messages from the shared-memory queue into batches. A call of Deque may throw or
// give an empty message; both are passed over until the batch is full, so the batches one behind the other
// are the messages that came, the empty ones removed.
module Batching {
  import opened Bytes

  type Payload = seq<byte>

  /** What one call of Deque gives: a message, or the queue exception. */
  datatype Outcome = Message(data: Payload) | Thrown

  /** Dequeued messages in order, the empty ones and the exceptions removed. */
  function NonEmpty(outcomes: seq<Outcome>): seq<Payload> {
    if outcomes == [] then []
    else
      var last := outcomes[|outcomes| - 1];
      NonEmpty(outcomes[..|outcomes| - 1]) + if last.Message? && last.data != [] then [last.data] else []
  }

  lemma {:induction false} NonEmptyConcat(s: seq<Outcome>, t: seq<Outcome>)
    ensures NonEmpty(s + t) == NonEmpty(s) + NonEmpty(t)
  {
    if t == [] {
      assert s + t == s;
    } else {
      assert (s + t)[..|s + t| - 1] == s + t[..|t| - 1];
      NonEmptyConcat(s, t[..|t| - 1]);
    }
  }

  lemma {:induction false} AllNonEmpty(outcomes: seq<Outcome>)
    ensures forall i :: 0 <= i < |NonEmpty(outcomes)| ==> NonEmpty(outcomes)[i] != []
  {
    if outcomes != [] {
      AllNonEmpty(outcomes[..|outcomes| - 1]);
    }
  }

  function Concat(batches: seq<seq<Payload>>): seq<Payload> {
    if batches == [] then [] else Concat(batches[..|batches| - 1]) + batches[|batches| - 1]
  }

  /** The batches are `size` non-empty messages each and together exactly what was dequeued. */
  predicate CutInto(dequeued: seq<Outcome>, batches: seq<seq<Payload>>, size: nat) {
    && Concat(batches) == NonEmpty(dequeued)
    && forall b :: 0 <= b < |batches| ==> |batches[b]| == size && forall i :: 0 <= i < size ==> batches[b][i] != []
  }

  lemma OneMoreBatch(dequeued: seq<Outcome>, batches: seq<seq<Payload>>, size: nat, more: seq<Outcome>)
    requires CutInto(dequeued, batches, size) && |NonEmpty(more)| == size
    ensures CutInto(dequeued + more, batches + [NonEmpty(more)], size)
  {
    NonEmptyConcat(dequeued, more);
    AllNonEmpty(more);
    assert (batches + [NonEmpty(more)])[..|batches|] == batches;
  }

  lemma OneMoreMessage(start: seq<Outcome>, before: seq<Outcome>, now: seq<Outcome>, seen: seq<Payload>, data: Payload)
    requires start <= before <= now
    requires NonEmpty(before[|start|..]) == seen && NonEmpty(now[|before|..]) == [data]
    ensures start <= now && NonEmpty(now[|start|..]) == seen + [data]
  {
    NonEmptyConcat(before[|start|..], now[|before|..]);
    assert now[|start|..] == before[|start|..] + now[|before|..];
  }

  class HandleStreamDaemon {
    var initializedPublisher: bool
    /** What Deque will give, call after call. */
    var queue: seq<Outcome>
    /** What it has given so far. */
    ghost var dequeued: seq<Outcome>
    /** Arguments of the callback so far. */
    var handed: seq<seq<Payload>>

    constructor (queue: seq<Outcome>)
      ensures this.queue == queue && dequeued == [] && handed == [] && !initializedPublisher
    {
      initializedPublisher, this.queue, dequeued, handed := false, queue, [], [];
    }

    method Deque() returns (o: Outcome)
      requires queue != []
      modifies this`queue, this`dequeued
      ensures o == old(queue)[0] && queue == old(queue)[1..] && dequeued == old(dequeued) + [o]
    {
      o := queue[0];
      queue, dequeued := queue[1..], dequeued + [o];
    }

    /** Deques until a message is not empty: empty ones are overwritten, exceptions ignored. */
    method DequeNonEmpty() returns (data: Payload)
      requires NonEmpty(queue) != []
      modifies this`queue, this`dequeued
      ensures data == NonEmpty(old(queue))[0] != [] && NonEmpty(queue) == NonEmpty(old(queue))[1..]
      ensures old(dequeued) <= dequeued && NonEmpty(dequeued[|old(dequeued)|..]) == [data]
    {
      ghost var all, n := NonEmpty(queue), |dequeued|;
      AllNonEmpty(queue);
      data := [];
      while data == []
        invariant old(dequeued) <= dequeued
        invariant data == [] ==> NonEmpty(queue) == all && NonEmpty(dequeued[n..]) == []
        invariant data != [] ==> data == all[0] && NonEmpty(queue) == all[1..] && NonEmpty(dequeued[n..]) == [data]
        decreases if data == [] then |queue| + 1 else 0
      {
        ghost var before := queue;
        ghost var seen := dequeued[n..];
        var o := Deque();
        assert before == [o] + queue && dequeued[n..] == seen + [o];
        NonEmptyConcat([o], queue);
        NonEmptyConcat(seen, [o]);
        OneOutcome(o);
        if o.Message? {
          data := o.data;
        }
      }
    }

    lemma OneOutcome(o: Outcome)
      ensures NonEmpty([o]) == if o.Message? && o.data != [] then [o.data] else []
    {
      assert [o][..0] == [];
    }

    /** Fills the message buffer. */
    method Prefetch(prefetchCount: nat) returns (messageBuffer: seq<Payload>)
      requires |NonEmpty(queue)| >= prefetchCount
      modifies this`queue, this`dequeued
      ensures messageBuffer == NonEmpty(old(queue))[..prefetchCount]
      ensures NonEmpty(queue) == NonEmpty(old(queue))[prefetchCount..]
      ensures old(dequeued) <= dequeued && NonEmpty(dequeued[|old(dequeued)|..]) == messageBuffer
    {
      ghost var all, start := NonEmpty(queue), dequeued;
      messageBuffer := [];
      for i := 0 to prefetchCount
        invariant messageBuffer == all[..i] && NonEmpty(queue) == all[i..]
        invariant start <= dequeued && NonEmpty(dequeued[|start|..]) == messageBuffer
      {
        ghost var before := dequeued;
        var data := DequeNonEmpty();
        OneMoreMessage(start, before, dequeued, messageBuffer, data);
        messageBuffer := messageBuffer + [data];
      }
    }

    method ListenSHMQueue(prefetchCount: nat)
      requires |NonEmpty(queue)| >= prefetchCount && CutInto(dequeued, handed, prefetchCount)
      modifies this
      ensures handed == old(handed) + [NonEmpty(old(queue))[..prefetchCount]]
      ensures NonEmpty(queue) == NonEmpty(old(queue))[prefetchCount..]
      ensures CutInto(dequeued, handed, prefetchCount) && initializedPublisher
    {
      initializedPublisher := true;
      ghost var start := dequeued;
      var messageBuffer := Prefetch(prefetchCount);
      assert dequeued == start + dequeued[|start|..];
      OneMoreBatch(start, handed, prefetchCount, dequeued[|start|..]);
      handed := handed + [messageBuffer];
    }

    /** The first `rounds` turns of the handler's endless loop. */
    method HandleMessages(rounds: nat, frameRate: nat)
      requires |NonEmpty(queue)| >= rounds * frameRate && dequeued == [] && handed == []
      modifies this
      ensures |handed| == rounds && CutInto(dequeued, handed, frameRate)
      ensures Concat(handed) == NonEmpty(old(queue))[..rounds * frameRate]
    {
      ghost var all := NonEmpty(queue);
      for k := 0 to rounds
        invariant |handed| == k && CutInto(dequeued, handed, frameRate)
        invariant k * frameRate <= |all| && NonEmpty(queue) == all[k * frameRate..]
        invariant Concat(handed) == all[..k * frameRate]
      {
        RoomForOneMore(k, rounds, frameRate);
        ghost var before := handed;
        ListenSHMQueue(frameRate);
        assert handed[..|handed| - 1] == before;
        assert all[..(k + 1) * frameRate] == all[..k * frameRate] + all[k * frameRate..][..frameRate];
      }
    }
  }

  lemma {:induction false} MoreRoundsMoreRoom(k: nat, rounds: nat, size: nat)
    requires k <= rounds
    ensures k * size <= rounds * size
    decreases rounds
  {
    if k < rounds {
      MoreRoundsMoreRoom(k, rounds - 1, size);
      OneRound(rounds - 1, size);
    }
  }

  lemma OneRound(k: nat, size: nat)
    ensures (k + 1) * size == k * size + size
  {
  }

  lemma RoomForOneMore(k: nat, rounds: nat, size: nat)
    requires k < rounds
    ensures (k + 1) * size == k * size + size <= rounds * size
  {
    OneRound(k, size);
    MoreRoundsMoreRoom(k + 1, rounds, size);
  }
}
