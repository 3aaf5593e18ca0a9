// Byte layout of the shared region: a 32-byte QueueMetric at address 0, then messages one after the other.
module RingLayout {
  import opened Bytes

  const QUEUE_START: nat := 32    // sizeof(QueueMetric)
  const HEADER: nat := 17         // processed flag, dataLength, nextMessageStart

  type Payload = seq<byte>

  /** One message of the current lap together with its `processed` flag. */
  datatype Slot = Slot(processed: bool, payload: Payload)

  function MessageSize(p: Payload): nat {
    HEADER + |p|
  }

  /** What PutOnSHM leaves at `at`; `next` is relative to the start of the queue. */
  function MessageImage(at: nat, s: Slot): (image: seq<byte>)
    requires at >= QUEUE_START
    ensures |image| == MessageSize(s.payload)
  {
    [if s.processed then 1 else 0]
    + Encode(|s.payload|, SIZE_T)
    + Encode(at - QUEUE_START + MessageSize(s.payload), SIZE_T)
    + s.payload
  }

  // Reading the fields back, as the Message::GetPtrOn... helpers place them.

  predicate HasHeader(mem: seq<byte>, at: nat) {
    at + HEADER <= |mem|
  }

  predicate ReadFlag(mem: seq<byte>, at: nat)
    requires HasHeader(mem, at)
  {
    mem[at] != 0
  }

  function ReadLength(mem: seq<byte>, at: nat): nat
    requires HasHeader(mem, at)
  {
    Decode(mem[at + 1..at + 9])
  }

  /** Address of the message that `next` designates. */
  function ReadNext(mem: seq<byte>, at: nat): nat
    requires HasHeader(mem, at)
  {
    QUEUE_START + Decode(mem[at + 9..at + HEADER])
  }

  predicate HasMessage(mem: seq<byte>, at: nat) {
    HasHeader(mem, at) && at + HEADER + ReadLength(mem, at) <= |mem|
  }

  function ReadPayload(mem: seq<byte>, at: nat): Payload
    requires HasMessage(mem, at)
  {
    mem[at + HEADER..at + HEADER + ReadLength(mem, at)]
  }

  // A whole lap.

  function LapSize(lap: seq<Slot>): nat {
    if lap == [] then 0 else LapSize(lap[..|lap| - 1]) + MessageSize(lap[|lap| - 1].payload)
  }

  /** Address of message `i` of the lap; for `i == |lap|`, of the next free octet. */
  function SlotStart(lap: seq<Slot>, i: nat): (at: nat)
    requires i <= |lap|
    ensures at >= QUEUE_START
  {
    QUEUE_START + LapSize(lap[..i])
  }

  function LapImage(lap: seq<Slot>): (image: seq<byte>)
    ensures |image| == LapSize(lap)
  {
    if lap == [] then []
    else
      var front := lap[..|lap| - 1];
      LapImage(front) + MessageImage(QUEUE_START + LapSize(front), lap[|lap| - 1])
  }

  predicate HoldsLap(mem: seq<byte>, lap: seq<Slot>) {
    && QUEUE_START + LapSize(lap) <= |mem|
    && mem[QUEUE_START..QUEUE_START + LapSize(lap)] == LapImage(lap)
  }

  /** Messages of a lap are disjoint and in address order. */
  lemma {:induction false} SlotStartsIncrease(lap: seq<Slot>, i: nat, j: nat)
    requires i < j <= |lap|
    ensures SlotStart(lap, i) + MessageSize(lap[i].payload) <= SlotStart(lap, j)
    decreases j
  {
    assert lap[..j][..j - 1] == lap[..j - 1];
    if i < j - 1 {
      SlotStartsIncrease(lap, i, j - 1);
    }
  }

  lemma {:induction false} LapImagePrefix(lap: seq<Slot>, i: nat)
    requires i <= |lap|
    ensures LapSize(lap[..i]) <= LapSize(lap)
    ensures LapImage(lap)[..LapSize(lap[..i])] == LapImage(lap[..i])
  {
    if i == |lap| {
      assert lap[..i] == lap;
    } else {
      var front := lap[..|lap| - 1];
      LapImagePrefix(front, i);
      assert front[..i] == lap[..i];
    }
  }

  lemma HoldsPrefix(mem: seq<byte>, lap: seq<Slot>, i: nat)
    requires HoldsLap(mem, lap) && i <= |lap|
    ensures HoldsLap(mem, lap[..i])
  {
    LapImagePrefix(lap, i);
    var size, whole := LapSize(lap[..i]), LapSize(lap);
    assert mem[QUEUE_START..QUEUE_START + whole][..size] == mem[QUEUE_START..QUEUE_START + size];
  }

  /** Message `i` occupies exactly its own image. */
  lemma SlotBytes(mem: seq<byte>, lap: seq<Slot>, i: nat)
    requires HoldsLap(mem, lap) && i < |lap|
    ensures SlotStart(lap, i) + MessageSize(lap[i].payload) <= |mem|
    ensures mem[SlotStart(lap, i)..SlotStart(lap, i) + MessageSize(lap[i].payload)]
            == MessageImage(SlotStart(lap, i), lap[i])
  {
    HoldsPrefix(mem, lap, i + 1);
    var upTo := lap[..i + 1];
    assert upTo[..i] == lap[..i];
    var size := LapSize(upTo);
    var image := LapImage(upTo);
    assert image[LapSize(lap[..i])..] == MessageImage(SlotStart(lap, i), lap[i]);
    assert mem[QUEUE_START..QUEUE_START + size][LapSize(lap[..i])..]
        == mem[SlotStart(lap, i)..SlotStart(lap, i) + MessageSize(lap[i].payload)];
  }

  lemma ImageParts(at: nat, s: Slot)
    requires at >= QUEUE_START
    ensures var image := MessageImage(at, s);
            && image[1..9] == Encode(|s.payload|, SIZE_T)
            && image[9..HEADER] == Encode(at - QUEUE_START + MessageSize(s.payload), SIZE_T)
            && image[HEADER..] == s.payload
  {
  }

  /** The parts of a window are the same parts of the memory. */
  lemma WindowParts(mem: seq<byte>, at: nat, size: nat)
    requires size >= HEADER && at + size <= |mem|
    ensures var window := mem[at..at + size];
            (window[0], window[1..9], window[9..HEADER], window[HEADER..])
            == (mem[at], mem[at + 1..at + 9], mem[at + 9..at + HEADER], mem[at + HEADER..at + size])
  {
    SliceOfSlice(mem, at, at + size, 1, 9);
    SliceOfSlice(mem, at, at + size, 9, HEADER);
    SliceOfSlice(mem, at, at + size, HEADER, size);
  }

  lemma ImageFields(mem: seq<byte>, at: nat, s: Slot)
    requires at >= QUEUE_START && at + MessageSize(s.payload) <= |mem|
    requires mem[at..at + MessageSize(s.payload)] == MessageImage(at, s)
    requires at + MessageSize(s.payload) < SIZE_T_MODULUS
    ensures HasMessage(mem, at)
    ensures ReadFlag(mem, at) == s.processed
    ensures ReadLength(mem, at) == |s.payload|
    ensures ReadNext(mem, at) == at + MessageSize(s.payload)
    ensures ReadPayload(mem, at) == s.payload
  {
    ImageParts(at, s);
    WindowParts(mem, at, MessageSize(s.payload));
    SizeTRoundTrip(|s.payload|);
    SizeTRoundTrip(at - QUEUE_START + MessageSize(s.payload));
  }

  /** Every stored field of message `i` decodes to what was written, and `next` leads to message `i + 1`. */
  lemma SlotFields(mem: seq<byte>, lap: seq<Slot>, i: nat)
    requires HoldsLap(mem, lap) && i < |lap| && |mem| < SIZE_T_MODULUS
    ensures HasMessage(mem, SlotStart(lap, i))
    ensures ReadFlag(mem, SlotStart(lap, i)) == lap[i].processed
    ensures ReadLength(mem, SlotStart(lap, i)) == |lap[i].payload|
    ensures ReadNext(mem, SlotStart(lap, i)) == SlotStart(lap, i + 1)
    ensures ReadPayload(mem, SlotStart(lap, i)) == lap[i].payload
  {
    SlotBytes(mem, lap, i);
    ImageFields(mem, SlotStart(lap, i), lap[i]);
    assert lap[..i + 1][..i] == lap[..i];
  }

  /** A message written at the end of the lap extends it and leaves all earlier octets alone. */
  lemma AppendSlot(mem: seq<byte>, lap: seq<Slot>, p: Payload)
    requires HoldsLap(mem, lap)
    requires SlotStart(lap, |lap|) + MessageSize(p) <= |mem|
    ensures HoldsLap(Splice(mem, SlotStart(lap, |lap|), MessageImage(SlotStart(lap, |lap|), Slot(false, p))),
                     lap + [Slot(false, p)])
  {
    assert lap[..|lap|] == lap;
    var at := SlotStart(lap, |lap|);
    var image := MessageImage(at, Slot(false, p));
    var after := Splice(mem, at, image);
    var longer := lap + [Slot(false, p)];
    assert longer[..|longer| - 1] == lap;
    assert after[QUEUE_START..at] == after[..at][QUEUE_START..] == mem[..at][QUEUE_START..] == mem[QUEUE_START..at];
    assert after[QUEUE_START..at + |image|] == after[QUEUE_START..at] + after[at..at + |image|];
  }

  /** A message written at the start of the queue begins a new lap. */
  lemma FreshLap(mem: seq<byte>, p: Payload)
    requires QUEUE_START + MessageSize(p) <= |mem|
    ensures HoldsLap(Splice(mem, QUEUE_START, MessageImage(QUEUE_START, Slot(false, p))), [Slot(false, p)])
  {
    assert mem[QUEUE_START..QUEUE_START] == LapImage([]);
    AppendSlot(mem, [], p);
    assert [] + [Slot(false, p)] == [Slot(false, p)];
  }

  lemma LapGrows(front: seq<Slot>, last: Slot)
    ensures LapSize(front + [last]) == LapSize(front) + MessageSize(last.payload)
    ensures LapImage(front + [last]) == LapImage(front) + MessageImage(QUEUE_START + LapSize(front), last)
  {
    assert (front + [last])[..|front|] == front;
  }

  lemma FlagOfImage(at: nat, s: Slot)
    requires at >= QUEUE_START
    ensures MessageImage(at, s.(processed := true)) == MessageImage(at, s)[0 := 1]
  {
  }

  lemma UpdateBehind(a: seq<byte>, b: seq<byte>, v: byte)
    requires b != []
    ensures a + b[0 := v] == (a + b)[|a| := v]
  {
  }

  lemma UpdateInFront(a: seq<byte>, b: seq<byte>, i: nat, v: byte)
    requires i < |a|
    ensures a[i := v] + b == (a + b)[i := v]
  {
  }

  /** The image of a lap's last message, without and with the flag. */
  lemma LastImages(front: seq<Slot>, last: Slot) returns (image: seq<byte>)
    ensures image != [] && LapSize(front + [last.(processed := true)]) == LapSize(front + [last]) > LapSize(front)
    ensures LapImage(front + [last]) == LapImage(front) + image
    ensures LapImage(front + [last.(processed := true)]) == LapImage(front) + image[0 := 1]
  {
    image := MessageImage(QUEUE_START + LapSize(front), last);
    LapGrows(front, last);
    LapGrows(front, last.(processed := true));
    FlagOfImage(QUEUE_START + LapSize(front), last);
  }

  /** Behind laps of the same size a message has the same image. */
  lemma SameImage(front: seq<Slot>, other: seq<Slot>, last: Slot) returns (image: seq<byte>)
    requires LapSize(other) == LapSize(front)
    ensures LapSize(other + [last]) == LapSize(front + [last]) >= LapSize(front)
    ensures LapImage(front + [last]) == LapImage(front) + image && LapImage(other + [last]) == LapImage(other) + image
  {
    image := MessageImage(QUEUE_START + LapSize(front), last);
    LapGrows(front, last);
    LapGrows(other, last);
  }

  lemma MarkLast(front: seq<Slot>, last: Slot)
    ensures var marked := front + [last.(processed := true)];
            && LapSize(marked) == LapSize(front + [last]) > LapSize(front)
            && LapImage(marked) == LapImage(front + [last])[LapSize(front) := 1]
  {
    var image := LastImages(front, last);
    UpdateBehind(LapImage(front), image, 1);
  }

  lemma MarkBeforeLast(front: seq<Slot>, marked: seq<Slot>, last: Slot, at: nat)
    requires LapSize(marked) == LapSize(front) > at && LapImage(marked) == LapImage(front)[at := 1]
    ensures LapSize(marked + [last]) == LapSize(front + [last]) > at
    ensures LapImage(marked + [last]) == LapImage(front + [last])[at := 1]
  {
    var image := SameImage(front, marked, last);
    UpdateInFront(LapImage(front), image, at, 1);
  }

  /** `processed->exchange(true)` changes that message's flag and nothing else. */
  lemma {:induction false} MarkImage(lap: seq<Slot>, i: nat)
    requires i < |lap|
    ensures LapSize(lap[..i]) < LapSize(lap)
    ensures LapSize(lap[i := lap[i].(processed := true)]) == LapSize(lap)
    ensures LapImage(lap[i := lap[i].(processed := true)]) == LapImage(lap)[LapSize(lap[..i]) := 1]
  {
    var marked := lap[i].(processed := true);
    var front, last := lap[..|lap| - 1], lap[|lap| - 1];
    assert lap == front + [last];
    if i == |front| {
      assert lap[..i] == front && lap[i := marked] == front + [marked];
      MarkLast(front, last);
    } else {
      assert lap[..i] == front[..i] && lap[i := marked] == front[i := marked] + [last];
      MarkImage(front, i);
      MarkBeforeLast(front, front[i := marked], last, LapSize(front[..i]));
    }
  }

  lemma MarkSlot(mem: seq<byte>, lap: seq<Slot>, i: nat)
    requires HoldsLap(mem, lap) && i < |lap|
    ensures SlotStart(lap, i) < |mem|
    ensures HoldsLap(mem[SlotStart(lap, i) := 1], lap[i := lap[i].(processed := true)])
  {
    MarkImage(lap, i);
    var size := LapSize(lap);
    var at := SlotStart(lap, i);
    var after := mem[at := 1];
    assert after[QUEUE_START..QUEUE_START + size] == mem[QUEUE_START..QUEUE_START + size][LapSize(lap[..i]) := 1];
  }

  /** Marking does not move any message. */
  lemma MarkKeepsStarts(lap: seq<Slot>, i: nat, k: nat)
    requires i < |lap| && k <= |lap|
    ensures SlotStart(lap[i := lap[i].(processed := true)], k) == SlotStart(lap, k)
  {
    var marked := lap[i := lap[i].(processed := true)];
    if i < k {
      assert marked[..k] == lap[..k][i := lap[i].(processed := true)];
      MarkImage(lap[..k], i);
    } else {
      assert marked[..k] == lap[..k];
    }
  }
}
