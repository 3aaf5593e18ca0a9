// The code of ipc_message_queue.cpp on an array of octets. Each critical section is one method and
// is tied to the function of RingQueue that the protocol's steps use.
module SharedQueue {
  import opened Options
  import opened Bytes
  import opened RingLayout
  import opened RingQueue
  import opened RingJoin

  datatype Received = QueueIsEmpty | Received(payload: Payload)

  lemma SpliceTwice(mem: seq<byte>, at: nat, first: seq<byte>, second: seq<byte>)
    requires at + |first| + |second| <= |mem|
    ensures Splice(Splice(mem, at, first), at + |first|, second) == Splice(mem, at, first + second)
  {
    var once := Splice(mem, at, first);
    assert once[..at + |first|] == mem[..at] + first;
    assert once[at + |first| + |second|..] == once[at + |first|..][|second|..] == mem[at + |first| + |second|..];
  }

  lemma PrependNothing(rest: Option<seq<nat>>)
    ensures PrependAll([], rest) == rest
  {
    if rest.Some? {
      assert [] + rest.value == rest.value;
    }
  }

  lemma PrependOne(visited: seq<nat>, address: nat, rest: Option<seq<nat>>)
    ensures PrependAll(visited, Prepend(address, rest)) == PrependAll(visited + [address], rest)
  {
    if rest.Some? {
      assert visited + ([address] + rest.value) == visited + [address] + rest.value;
    }
  }

  lemma AppendsIfRoom(q: Queue, p: Payload)
    ensures forall lap, read | lap != [] && Represents(q, lap, read) ::
              && (Overflows(q, NextStart(q), p) <==> QUEUE_START + LapSize(lap) + MessageSize(p) >= |q.mem|)
              && !(q.messageCnt == 0 && q.head == QUEUE_START)
              && (!Overflows(q, NextStart(q), p) ==> Represents(Commit(q, p, NextStart(q)), lap + [Slot(false, p)], read))
  {
    forall lap, read | lap != [] && Represents(q, lap, read)
      ensures Overflows(q, NextStart(q), p) <==> QUEUE_START + LapSize(lap) + MessageSize(p) >= |q.mem|
      ensures !(q.messageCnt == 0 && q.head == QUEUE_START)
      ensures !Overflows(q, NextStart(q), p) ==> Represents(Commit(q, p, NextStart(q)), lap + [Slot(false, p)], read)
    {
      NextStartIsLapEnd(q, lap, read);
      OverflowsIffLapIsFull(q, lap, read, p);
      if !Overflows(q, NextStart(q), p) {
        CommitExtendsLap(q, lap, read, p);
      }
    }
  }

  class Region {
    var locked: bool
    var messageCnt: nat
    var headPosition: nat
    var rearPosition: nat
    const mem: array<byte>

    ghost function Snapshot(): Queue
      reads this, mem
    {
      Queue(locked, messageCnt, headPosition, rearPosition, mem[..])
    }

    /** A freshly mapped region; the metric is not meaningful before InitializeQueue. */
    constructor (mapped: array<byte>)
      ensures mem == mapped
    {
      mem := mapped;
      locked, messageCnt, headPosition, rearPosition := false, 0, 0, 0;
    }

    method InitializeQueue()
      modifies this
      ensures Snapshot() == Initialized(old(mem[..]))
    {
      locked, messageCnt, headPosition, rearPosition := false, 0, QUEUE_START, 0;
    }

    method PutOnSHM(p: Payload, start: nat)
      requires start >= QUEUE_START && start + MessageSize(p) <= mem.Length
      modifies mem
      ensures mem[..] == Splice(old(mem[..]), start, MessageImage(start, Slot(false, p)))
    {
      ghost var before := mem[..];
      var flag, length := [0], Encode(|p|, SIZE_T);
      var next := Encode(start - QUEUE_START + MessageSize(p), SIZE_T);
      PutHeader(start, flag, length, next);
      CopyInto(mem, start + HEADER, p);
      SpliceTwice(before, start, flag + length + next, p);
    }

    method PutHeader(start: nat, flag: seq<byte>, length: seq<byte>, next: seq<byte>)
      requires |flag| == 1 && |length| == |next| == SIZE_T && start + HEADER <= mem.Length
      modifies mem
      ensures mem[..] == Splice(old(mem[..]), start, flag + length + next)
    {
      ghost var before := mem[..];
      CopyInto(mem, start, flag);
      CopyInto(mem, start + 1, length);
      SpliceTwice(before, start, flag, length);
      ghost var sized := flag + length;
      assert mem[..] == Splice(before, start, sized);
      CopyInto(mem, start + 9, next);
      SpliceTwice(before, start, sized, next);
    }

    /** The size_t stored at `at`. */
    method Load(at: nat) returns (n: nat)
      requires at + SIZE_T <= mem.Length
      ensures n == Decode(mem[..][at..at + SIZE_T])
    {
      n := Decode(mem[at..at + SIZE_T]);
      assert mem[..][at..at + SIZE_T] == mem[at..at + SIZE_T];
    }

    /** Copies the payload out, then acknowledges the message. */
    method GetFromSHM(start: nat) returns (p: Payload)
      requires HasMessage(mem[..], start)
      modifies mem
      ensures p == ReadPayload(old(mem[..]), start)
      ensures mem[..] == old(mem[..])[start := 1]
    {
      var length := Load(start + 1);
      p := [];
      var i := 0;
      while i < length
        invariant 0 <= i <= length && start + HEADER + length <= mem.Length
        invariant p == mem[start + HEADER..start + HEADER + i]
      {
        p := p + [mem[start + HEADER + i]];
        i := i + 1;
      }
      mem[start] := 1;
    }

    /** Length and queue-relative `next` of the message at an address. */
    method Links(at: nat) returns (length: nat, next: nat)
      requires HasHeader(mem[..], at)
      ensures length == ReadLength(mem[..], at) && next == ReadNext(mem[..], at) - QUEUE_START
    {
      length := Load(at + 1);
      next := Load(at + 9);
    }

    method TraversalQueue(start: nat, max: nat) returns (addresses: Option<seq<nat>>)
      ensures addresses == Traverse(mem[..], start, 0, max)
    {
      var current: nat, distance: nat, visited: seq<nat> := start, 0, [];
      ghost var whole := Traverse(mem[..], start, 0, max);
      PrependNothing(whole);
      while true
        invariant whole == PrependAll(visited, Traverse(mem[..], current, distance, max))
        decreases if distance < max then max - distance else 0
      {
        if mem.Length < current + HEADER {
          return None;
        }
        var next, further := Visit(current, distance, max, visited);
        if further >= max {
          return Some(visited + [current]);
        }
        visited, current, distance := visited + [current], current + next, further;
      }
    }

    /** One message on the way: where it leads, and the distance behind it. */
    method Visit(current: nat, distance: nat, max: nat, ghost visited: seq<nat>) returns (next: nat, further: nat)
      requires HasHeader(mem[..], current)
      ensures further > distance
      ensures PrependAll(visited, Traverse(mem[..], current, distance, max))
           == if further < max then PrependAll(visited + [current], Traverse(mem[..], current + next, further, max))
              else Some(visited + [current])
    {
      var length;
      length, next := Links(current);
      further := distance + HEADER + length;
      PrependOne(visited, current, Traverse(mem[..], current + next, further, max));
    }

    method AnyMessageInProgress(addresses: seq<nat>) returns (inProgress: bool)
      requires forall a :: a in addresses ==> a < mem.Length
      ensures inProgress <==> !AllProcessed(mem[..], addresses)
    {
      var i := 0;
      while i < |addresses|
        invariant 0 <= i <= |addresses|
        invariant AllProcessed(mem[..], addresses[..i])
      {
        assert addresses[i] in addresses;
        if mem[addresses[i]] == 0 {
          return true;
        }
        i := i + 1;
      }
      assert addresses[..i] == addresses;
      return false;
    }

    /** Enqueue up to the wait; `join` when the lock was dropped and JoinListener has to run. */
    method EnqueueUnlessJoining(p: Payload) returns (join: bool)
      requires !locked && (rearPosition == 0 || HasHeader(mem[..], rearPosition))
      requires QUEUE_START + MessageSize(p) < mem.Length
      modifies this, mem
      ensures !locked
      ensures join <==> Overflows(old(Snapshot()), NextStart(old(Snapshot())), p)
                        && !(old(messageCnt) == 0 && old(headPosition) == QUEUE_START)
      ensures Snapshot() == if join then old(Snapshot())
                            else if Overflows(old(Snapshot()), NextStart(old(Snapshot())), p)
                            then Commit(old(Snapshot()), p, QUEUE_START)
                            else Commit(old(Snapshot()), p, NextStart(old(Snapshot())))
      ensures forall lap, read | lap != [] && Represents(old(Snapshot()), lap, read) ::
                && (join <==> QUEUE_START + LapSize(lap) + MessageSize(p) >= mem.Length)
                && (!join ==> Represents(Snapshot(), lap + [Slot(false, p)], read))
    {
      ghost var before := Snapshot();
      locked := true;
      var start := QUEUE_START;
      if rearPosition != 0 {
        start := Load(rearPosition + 9);
        start := QUEUE_START + start;
      }
      if mem.Length <= start + MessageSize(p) {
        if messageCnt == 0 && headPosition == QUEUE_START {
        } else {
          locked := false;
          AppendsIfRoom(before, p);
          return true;
        }
        start := QUEUE_START;
      }
      Publish(p, start);
      locked := false;
      AppendsIfRoom(before, p);
      return false;
    }

    /** Enqueue after JoinListener returned. */
    method EnqueueJoined(p: Payload)
      requires !locked && QUEUE_START + MessageSize(p) < mem.Length
      modifies this, mem
      ensures Snapshot() == Commit(old(Snapshot()), p, QUEUE_START)
    {
      locked := true;
      Publish(p, QUEUE_START);
      locked := false;
    }

    method Publish(p: Payload, start: nat)
      requires start >= QUEUE_START && start + MessageSize(p) <= mem.Length
      modifies this, mem
      ensures Snapshot() == Commit(old(Snapshot()), p, start)
    {
      PutOnSHM(p, start);
      if headPosition == 0 {
        headPosition := start;
      }
      rearPosition := start;
      messageCnt := messageCnt + 1;
    }

    method Deque() returns (r: Received)
      requires !locked
      requires LooksEmpty(Snapshot()) || HasMessage(mem[..], headPosition)
      modifies this, mem
      ensures r == if LooksEmpty(old(Snapshot())) then QueueIsEmpty
                   else Received(ReadPayload(old(mem[..]), old(headPosition)))
      ensures Snapshot() == if LooksEmpty(old(Snapshot())) then old(Snapshot()) else Removed(old(Snapshot()))
    {
      locked := true;
      if messageCnt == 0 || headPosition == 0 {
        locked := false;
        return QueueIsEmpty;
      }
      var head := headPosition;
      ghost var before := Snapshot();
      var p := GetFromSHM(head);
      assert mem[..] == MarkProcessed(before).mem;
      if rearPosition != headPosition {
        var next := Load(head + 9);
        headPosition := QUEUE_START + next;
      } else {
        headPosition := 0;
      }
      mem[head] := 1;
      messageCnt := messageCnt - 1;
      locked := false;
      return Received(p);
    }
  }

  function PrependAll(visited: seq<nat>, rest: Option<seq<nat>>): Option<seq<nat>> {
    match rest
    case None => None
    case Some(addresses) => Some(visited + addresses)
  }
}
