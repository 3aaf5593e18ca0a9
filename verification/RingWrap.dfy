// What happens when a wrapped write finds unread messages: they are still delivered, but the chain
// then leads behind the old lap instead of to the new message.
module RingWrap {
  import opened Options
  import opened Bytes
  import opened RingLayout
  import opened RingQueue

  /** Head at message `i` of the old lap, rear at the wrapped message that replaced message 0. */
  ghost predicate Stranded(q: Queue, lap: seq<Slot>, i: nat) {
    && 0 < i <= |lap| && |q.mem| < SIZE_T_MODULUS
    && HoldsLap(q.mem, lap)
    && (q.rear, q.head, q.messageCnt) == (QUEUE_START, SlotStart(lap, i), |lap| - i + 1)
  }

  lemma DropFromConcat(first: seq<byte>, front: seq<byte>, last: seq<byte>, n: nat)
    requires n <= |front|
    ensures first + front[n..] + last == first + (front + last)[n..]
  {
    assert (front + last)[n..] == front[n..] + last;
  }

  lemma {:induction false} ReplaceFirstSize(lap: seq<Slot>, s: Slot)
    requires lap != [] && |s.payload| == |lap[0].payload|
    ensures LapSize(lap[0 := s]) == LapSize(lap) >= MessageSize(s.payload)
  {
    var last := |lap| - 1;
    if last == 0 {
      assert lap[..0] == lap[0 := s][..0] == [];
    } else {
      ReplaceFirstSize(lap[..last], s);
      assert lap[0 := s][..last] == lap[..last][0 := s];
    }
  }

  lemma OnlyImage(s: Slot)
    ensures LapSize([s]) == MessageSize(s.payload) && LapImage([s]) == MessageImage(QUEUE_START, s)
  {
    assert [s] == [] + [s];
    LapGrows([], s);
  }

  /** Replacing message 0 by one of the same length leaves the rest of the lap image alone. */
  lemma {:induction false} ReplaceFirstImage(lap: seq<Slot>, s: Slot)
    requires lap != [] && |s.payload| == |lap[0].payload|
    ensures LapSize(lap[0 := s]) == LapSize(lap) >= MessageSize(s.payload)
    ensures LapImage(lap[0 := s]) == MessageImage(QUEUE_START, s) + LapImage(lap)[MessageSize(s.payload)..]
  {
    ReplaceFirstSize(lap, s);
    if |lap| == 1 {
      assert lap == [lap[0]] && lap[0 := s] == [s];
      OnlyImage(lap[0]);
      OnlyImage(s);
    } else {
      var front, last := lap[..|lap| - 1], lap[|lap| - 1];
      assert lap == front + [last] && lap[0 := s] == front[0 := s] + [last];
      ReplaceFirstSize(front, s);
      ReplaceFirstImage(front, s);
      var image := SameImage(front, front[0 := s], last);
      DropFromConcat(MessageImage(QUEUE_START, s), LapImage(front), image, MessageSize(s.payload));
    }
  }

  lemma ReplaceFirst(mem: seq<byte>, lap: seq<Slot>, s: Slot)
    requires HoldsLap(mem, lap) && lap != [] && |s.payload| == |lap[0].payload|
    requires QUEUE_START + MessageSize(s.payload) <= |mem|
    ensures HoldsLap(Splice(mem, QUEUE_START, MessageImage(QUEUE_START, s)), lap[0 := s])
  {
    ReplaceFirstImage(lap, s);
    var image := MessageImage(QUEUE_START, s);
    var after := Splice(mem, QUEUE_START, image);
    var from, to := QUEUE_START + |image|, QUEUE_START + LapSize(lap);
    assert after[QUEUE_START..to] == after[QUEUE_START..from] + after[from..to];
    assert after[from..to] == after[from..][..to - from] == mem[from..][..to - from] == mem[from..to];
    assert mem[from..to] == mem[QUEUE_START..to][|image|..];
  }

  lemma ReplaceKeepsStarts(lap: seq<Slot>, s: Slot, k: nat)
    requires 0 < k <= |lap| && |s.payload| == |lap[0].payload|
    ensures SlotStart(lap[0 := s], k) == SlotStart(lap, k)
  {
    assert lap[0 := s][..k] == lap[..k][0 := s];
    ReplaceFirstImage(lap[..k], s);
  }

  lemma UndrainedWrapStrands(q: Queue, lap: seq<Slot>, read: nat, p: Payload)
    requires Represents(q, lap, read) && 0 < read < |lap| && |p| == |lap[0].payload|
    requires QUEUE_START + MessageSize(p) <= |q.mem|
    ensures Stranded(Commit(q, p, QUEUE_START), lap[0 := Slot(false, p)], read)
    ensures SlotStart(lap[0 := Slot(false, p)], |lap|) == SlotStart(lap, |lap|)
    ensures Commit(q, p, QUEUE_START).mem[QUEUE_START + MessageSize(p)..] == q.mem[QUEUE_START + MessageSize(p)..]
  {
    ReplaceFirst(q.mem, lap, Slot(false, p));
    ReplaceKeepsStarts(lap, Slot(false, p), read);
    ReplaceKeepsStarts(lap, Slot(false, p), |lap|);
  }

  lemma StrandedHead(q: Queue, lap: seq<Slot>, i: nat)
    requires Stranded(q, lap, i) && i < |lap|
    ensures !LooksEmpty(q) && HasMessage(q.mem, q.head) && q.rear != q.head
    ensures ReadPayload(q.mem, q.head) == lap[i].payload
    ensures q.head < SlotStart(lap, |lap|) <= |q.mem|
  {
    SlotFields(q.mem, lap, i);
    SlotStartsIncrease(lap, 0, i);
    SlotStartsIncrease(lap, i, |lap|);
    assert lap[..|lap|] == lap;
  }

  /** Marking a message keeps the lap and all addresses in it. */
  lemma MarkedLap(mem: seq<byte>, lap: seq<Slot>, i: nat)
    requires HoldsLap(mem, lap) && i < |lap| && |mem| < SIZE_T_MODULUS && SlotStart(lap, i) < |mem|
    ensures var marked, after := lap[i := lap[i].(processed := true)], mem[SlotStart(lap, i) := 1];
            && HoldsLap(after, marked) && HasMessage(after, SlotStart(lap, i))
            && ReadNext(after, SlotStart(lap, i)) == SlotStart(marked, i + 1)
            && SlotStart(marked, |lap|) == SlotStart(lap, |lap|)
  {
    MarkSlot(mem, lap, i);
    MarkKeepsStarts(lap, i, i);
    MarkKeepsStarts(lap, i, |lap|);
    SlotFields(mem[SlotStart(lap, i) := 1], lap[i := lap[i].(processed := true)], i);
  }

  /** Each Deque still returns the next old message, up to the end of the old lap. */
  lemma StrandedStep(q: Queue, lap: seq<Slot>, i: nat)
    requires Stranded(q, lap, i) && i < |lap|
    ensures !LooksEmpty(q) && HasMessage(q.mem, q.head)
    ensures ReadPayload(q.mem, q.head) == lap[i].payload
    ensures Stranded(Removed(q), lap[i := lap[i].(processed := true)], i + 1)
    ensures SlotStart(lap[i := lap[i].(processed := true)], |lap|) == SlotStart(lap, |lap|)
    ensures |Removed(q).mem| == |q.mem| >= SlotStart(lap, |lap|)
    ensures Removed(q).mem[SlotStart(lap, |lap|)..] == q.mem[SlotStart(lap, |lap|)..]
  {
    StrandedHead(q, lap, i);
    MarkedLap(q.mem, lap, i);
    StrandedRemoved(q, lap, i, lap[i := lap[i].(processed := true)]);
    UpdateKeepsTail(q.mem, q.head, SlotStart(lap, |lap|));
  }

  lemma StrandedRemoved(q: Queue, lap: seq<Slot>, i: nat, marked: seq<Slot>)
    requires Stranded(q, lap, i) && i < |lap| == |marked| && q.rear != q.head && q.head < |q.mem|
    requires HoldsLap(q.mem[q.head := 1], marked) && HasMessage(q.mem[q.head := 1], q.head)
    requires ReadNext(q.mem[q.head := 1], q.head) == SlotStart(marked, i + 1)
    requires !LooksEmpty(q)
    ensures Stranded(Removed(q), marked, i + 1)
  {
  }

  lemma UpdateKeepsTail(mem: seq<byte>, i: nat, from: nat)
    requires i < from <= |mem|
    ensures mem[i := 1][from..] == mem[from..]
  {
  }

  /** `n` calls of Deque, none of which finds the queue empty. */
  function RemovedTimes(q: Queue, n: nat): Option<Queue>
    decreases n
  {
    if n == 0 then Some(q)
    else if LooksEmpty(q) || !HasMessage(q.mem, q.head) then None
    else RemovedTimes(Removed(q), n - 1)
  }

  /** One message is still counted, but the head is at `at`; the octets from there on are those of `mem`. */
  ghost predicate LedBehindLap(q: Option<Queue>, mem: seq<byte>, at: nat) {
    && q.Some? && (q.value.messageCnt, q.value.head, q.value.rear) == (1, at, QUEUE_START)
    && |q.value.mem| == |mem| && at <= |mem| && q.value.mem[at..] == mem[at..]
  }

  lemma OneMoreDeque(q: Queue, n: nat, at: nat)
    requires !LooksEmpty(q) && HasMessage(q.mem, q.head)
    requires |Removed(q).mem| == |q.mem| >= at && Removed(q).mem[at..] == q.mem[at..]
    ensures LedBehindLap(RemovedTimes(Removed(q), n), Removed(q).mem, at) ==> LedBehindLap(RemovedTimes(q, n + 1), q.mem, at)
  {
  }

  /**
   * After the old messages the head is at the end of the old lap and not at the new message; the
   * octets there are whatever they were.
   */
  lemma {:induction false} StrandedEndsBehindLap(q: Queue, lap: seq<Slot>, i: nat, left: nat, end: nat)
    requires Stranded(q, lap, i) && left == |lap| - i && end == SlotStart(lap, |lap|)
    ensures LedBehindLap(RemovedTimes(q, left), q.mem, end)
    decreases left
  {
    if i == |lap| {
      assert lap[..|lap|] == lap;
    } else {
      StrandedStep(q, lap, i);
      var marked := lap[i := lap[i].(processed := true)];
      StrandedEndsBehindLap(Removed(q), marked, i + 1, left - 1, end);
      OneMoreDeque(q, left - 1, end);
    }
  }

  /** Deque never returns a message that was wrapped over unread ones: it reads behind the old lap instead. */
  lemma UndrainedWrapLeadsBehindLap(q: Queue, lap: seq<Slot>, read: nat, p: Payload)
    requires Represents(q, lap, read) && 0 < read < |lap| && |p| == |lap[0].payload|
    requires QUEUE_START + MessageSize(p) <= |q.mem|
    ensures LedBehindLap(RemovedTimes(Commit(q, p, QUEUE_START), |lap| - read), q.mem, SlotStart(lap, |lap|))
  {
    UndrainedWrapStrands(q, lap, read, p);
    var wrapped := Commit(q, p, QUEUE_START);
    StrandedEndsBehindLap(wrapped, lap[0 := Slot(false, p)], read, |lap| - read, SlotStart(lap, |lap|));
    var size, end := QUEUE_START + MessageSize(p), SlotStart(lap, |lap|);
    assert lap[..|lap|] == lap;
    ReplaceFirstImage(lap, Slot(false, p));
    assert wrapped.mem[end..] == wrapped.mem[size..][end - size..] == q.mem[size..][end - size..] == q.mem[end..];
  }
}
