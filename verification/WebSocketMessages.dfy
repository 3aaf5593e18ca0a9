// Fragmented messages with control frames in between (section 5.4 of RFC 6455) and what the
// handlers get of them.
module WebSocketMessages {
  import opened Options
  import opened Bytes
  import opened WebSocketFrames
  import opened WebSocketReader

  /** One fragment, and the pings and pongs sent in front of it. */
  datatype Fragment = Fragment(controls: seq<Frame>, mask: Option<seq<byte>>, form: LengthForm, payload: seq<byte>)

  datatype Msg = Msg(binary: bool, fragments: seq<Fragment>)

  predicate IsControl(f: Frame) {
    f.fin && (f.opcode == PING || f.opcode == PONG)
  }

  predicate WellFormedMsg(m: Msg, maxPayload: nat) {
    && m.fragments != []
    && forall k :: 0 <= k < |m.fragments| ==>
         && Acceptable(DataFrame(m, k), maxPayload)
         && forall i :: 0 <= i < |m.fragments[k].controls| ==>
              IsControl(m.fragments[k].controls[i]) && Acceptable(m.fragments[k].controls[i], maxPayload)
  }

  /** The first fragment names the type, the last one has the final bit. */
  function DataFrame(m: Msg, k: nat): Frame
    requires k < |m.fragments|
  {
    var part := m.fragments[k];
    Frame(k + 1 == |m.fragments|,
          if k > 0 then CONTINUATION else if m.binary then BINARY else TEXT,
          part.mask, part.form, part.payload)
  }

  function FramesFrom(m: Msg, k: nat): seq<Frame>
    requires k <= |m.fragments|
    decreases |m.fragments| - k
  {
    if k == |m.fragments| then [] else m.fragments[k].controls + ([DataFrame(m, k)] + FramesFrom(m, k + 1))
  }

  function FramesOf(msgs: seq<Msg>): seq<Frame> {
    if msgs == [] then [] else FramesFrom(msgs[0], 0) + FramesOf(msgs[1..])
  }

  /** The whole message: its payloads one after the other. */
  function Whole(m: Msg, k: nat): seq<byte>
    requires k <= |m.fragments|
  {
    if k == 0 then [] else Whole(m, k - 1) + m.fragments[k - 1].payload
  }

  function ControlEvents(controls: seq<Frame>): seq<Event> {
    if controls == [] then []
    else [if controls[0].opcode == PING then PongSent(controls[0].payload) else PongReceived] + ControlEvents(controls[1..])
  }

  /** Every control frame is answered in its place; the message is handed over once, behind its last fragment. */
  function EventsFrom(m: Msg, k: nat): seq<Event>
    requires k <= |m.fragments|
    decreases |m.fragments| - k
  {
    if k == |m.fragments| then [Message(Whole(m, k), m.binary)]
    else ControlEvents(m.fragments[k].controls) + EventsFrom(m, k + 1)
  }

  function EventsOf(msgs: seq<Msg>): seq<Event> {
    if msgs == [] then [] else EventsFrom(msgs[0], 0) + EventsOf(msgs[1..])
  }

  lemma {:induction false} HandleConcat(c: Collected, s: seq<Frame>, t: seq<Frame>)
    ensures HandleAll(c, s + t).0 == HandleAll(HandleAll(c, s).0, t).0
    ensures HandleAll(c, s + t).1 == HandleAll(c, s).1 + HandleAll(HandleAll(c, s).0, t).1
    decreases |s|
  {
    if s == [] {
      assert s + t == t;
    } else if c.open {
      assert (s + t)[1..] == s[1..] + t;
      HandleConcat(HandleFragment(c, s[0].fin, s[0].opcode, s[0].payload).0, s[1..], t);
    }
  }

  /** Control frames leave the message being collected alone. */
  lemma {:induction false} ControlsAreAnswered(c: Collected, controls: seq<Frame>)
    requires c.open && forall i :: 0 <= i < |controls| ==> IsControl(controls[i])
    ensures HandleAll(c, controls) == (c, ControlEvents(controls))
    decreases |controls|
  {
    if controls != [] {
      ControlsAreAnswered(c, controls[1..]);
    }
  }

  /** What has been collected before fragment `k`. */
  predicate Holds(c: Collected, m: Msg, k: nat)
    requires k <= |m.fragments|
  {
    c.open && c.message == Whole(m, k) && (k > 0 ==> c.binary == m.binary)
  }

  lemma DataFrameJoins(c: Collected, m: Msg, k: nat)
    requires k < |m.fragments| && Holds(c, m, k)
    ensures var f := DataFrame(m, k);
            var (next, events) := HandleFragment(c, f.fin, f.opcode, f.payload);
            && next.sentClose == c.sentClose
            && if f.fin then next == Collected([], m.binary, c.sentClose, true) && events == [Message(Whole(m, k + 1), m.binary)]
               else Holds(next, m, k + 1) && events == []
  {
  }

  lemma OneFrame(c: Collected, f: Frame)
    requires c.open
    ensures HandleAll(c, [f]) == HandleFragment(c, f.fin, f.opcode, f.payload)
  {
    var (next, events) := HandleFragment(c, f.fin, f.opcode, f.payload);
    assert [f][1..] == [];
    assert events + [] == events;
  }

  lemma {:induction false} MessageIsDelivered(c: Collected, m: Msg, k: nat, maxPayload: nat)
    requires WellFormedMsg(m, maxPayload) && k < |m.fragments| && Holds(c, m, k)
    ensures HandleAll(c, FramesFrom(m, k)) == (Collected([], m.binary, c.sentClose, true), EventsFrom(m, k))
    decreases |m.fragments| - k
  {
    var controls, f := m.fragments[k].controls, DataFrame(m, k);
    var rest := FramesFrom(m, k + 1);
    HandleConcat(c, controls, [f] + rest);
    ControlsAreAnswered(c, controls);
    HandleConcat(c, [f], rest);
    OneFrame(c, f);
    DataFrameJoins(c, m, k);
    if k + 1 < |m.fragments| {
      assert [] + EventsFrom(m, k + 1) == EventsFrom(m, k + 1);
      MessageIsDelivered(HandleFragment(c, f.fin, f.opcode, f.payload).0, m, k + 1, maxPayload);
    } else {
      assert EventsFrom(m, k + 1) + [] == EventsFrom(m, k + 1);
    }
  }

  lemma {:induction false} MessagesAreDelivered(c: Collected, msgs: seq<Msg>, maxPayload: nat)
    requires c.open && c.message == [] && forall i :: 0 <= i < |msgs| ==> WellFormedMsg(msgs[i], maxPayload)
    ensures HandleAll(c, FramesOf(msgs)).1 == EventsOf(msgs)
    ensures HandleAll(c, FramesOf(msgs)).0.open && HandleAll(c, FramesOf(msgs)).0.message == []
    decreases |msgs|
  {
    if msgs != [] {
      MessageIsDelivered(c, msgs[0], 0, maxPayload);
      HandleConcat(c, FramesFrom(msgs[0], 0), FramesOf(msgs[1..]));
      MessagesAreDelivered(HandleAll(c, FramesFrom(msgs[0], 0)).0, msgs[1..], maxPayload);
    }
  }

  predicate GoodFrame(f: Frame, maxPayload: nat) {
    Acceptable(f, maxPayload) && f.opcode != CLOSE
  }

  lemma {:induction false} MessageFramesAreGood(m: Msg, k: nat, maxPayload: nat)
    requires WellFormedMsg(m, maxPayload) && k <= |m.fragments|
    ensures forall i :: 0 <= i < |FramesFrom(m, k)| ==> GoodFrame(FramesFrom(m, k)[i], maxPayload)
    decreases |m.fragments| - k
  {
    if k < |m.fragments| {
      MessageFramesAreGood(m, k + 1, maxPayload);
    }
  }

  lemma {:induction false} FramesAreGood(msgs: seq<Msg>, maxPayload: nat)
    requires forall i :: 0 <= i < |msgs| ==> WellFormedMsg(msgs[i], maxPayload)
    ensures forall i :: 0 <= i < |FramesOf(msgs)| ==> GoodFrame(FramesOf(msgs)[i], maxPayload)
    decreases |msgs|
  {
    if msgs != [] {
      MessageFramesAreGood(msgs[0], 0, maxPayload);
      FramesAreGood(msgs[1..], maxPayload);
    }
  }

  /** The messages as they arrive on the wire. */
  function StreamOf(msgs: seq<Msg>, maxPayload: nat): seq<byte>
    requires forall i :: 0 <= i < |msgs| ==> WellFormedMsg(msgs[i], maxPayload)
  {
    FramesAreGood(msgs, maxPayload);
    WireAll(FramesOf(msgs))
  }

  /**
   * Whatever the masks, length forms, fragmentation and interleaved control frames, and however the
   * payload reads are split, the handlers get exactly the messages, each once and in order.
   */
  lemma HandlersGetTheMessages(r: Reader, msgs: seq<Msg>, chunks: seq<seq<byte>>)
    requires r.state == MiniHeader && r.fragment == [] && r.message == []
    requires forall i :: 0 <= i < |msgs| ==> WellFormedMsg(msgs[i], r.maxPayload)
    requires CanRead(r, chunks) && EndsBetween(Read(r, chunks).0)
    requires Flat(chunks) == StreamOf(msgs, r.maxPayload)
    ensures Read(r, chunks).1 == EventsOf(msgs)
    ensures Read(r, chunks).0.state == MiniHeader
  {
    var fs := FramesOf(msgs);
    FramesAreGood(msgs, r.maxPayload);
    ReadBetween(r, fs, chunks, CollectedIn(r));
    MessagesAreDelivered(CollectedIn(r), msgs, r.maxPayload);
  }
}
