// The length-prefixed TCP stream: the publisher's send loop, the receiver's read loop, and the
// messages that get through whatever the socket makes of the pieces.
module TcpFraming {
  import opened Bytes

  const LIMIT: nat := 100000000

  /** One message on the wire: its size as the memory image of a size_t, then its octets. */
  function Frame(message: seq<byte>): seq<byte> {
    Encode(|message|, SIZE_T) + message
  }

  function Frames(messages: seq<seq<byte>>): seq<byte> {
    if messages == [] then [] else Frame(messages[0]) + Frames(messages[1..])
  }

  datatype Result = Received(messages: seq<seq<byte>>) | BadAlloc(messages: seq<seq<byte>>)

  /** A stream taken apart into its whole frames; a size above the limit is the bad_alloc exception. */
  function Unframe(stream: seq<byte>): Result
    decreases |stream|
  {
    if |stream| < SIZE_T then Received([])
    else
      var size := Decode(stream[..SIZE_T]);
      if size > LIMIT then BadAlloc([])
      else if SIZE_T + size > |stream| then Received([])
      else
        var message := stream[SIZE_T..SIZE_T + size];
        match Unframe(stream[SIZE_T + size..])
        case Received(rest) => Received([message] + rest)
        case BadAlloc(rest) => BadAlloc([message] + rest)
  }

  lemma FrameParts(message: seq<byte>, rest: seq<byte>)
    requires |message| < SIZE_T_MODULUS
    ensures var stream := Frame(message) + rest;
            && Decode(stream[..SIZE_T]) == |message|
            && stream[SIZE_T..SIZE_T + |message|] == message && stream[SIZE_T + |message|..] == rest
  {
    SizeTRoundTrip(|message|);
    assert (Frame(message) + rest)[..SIZE_T] == Encode(|message|, SIZE_T);
  }

  predicate StartsWithFrame(stream: seq<byte>) {
    |stream| >= SIZE_T && Decode(stream[..SIZE_T]) <= LIMIT && SIZE_T + Decode(stream[..SIZE_T]) <= |stream|
  }

  /** What taking the first frame off leaves to be taken apart. */
  lemma UnframeStep(stream: seq<byte>)
    requires StartsWithFrame(stream)
    ensures var size := Decode(stream[..SIZE_T]);
      && Unframe(stream).messages == [stream[SIZE_T..SIZE_T + size]] + Unframe(stream[SIZE_T + size..]).messages
      && Unframe(stream).BadAlloc? == Unframe(stream[SIZE_T + size..]).BadAlloc?
  {
  }

  /** What is framed comes out again, in order. */
  lemma {:induction false} UnframeFrames(messages: seq<seq<byte>>)
    requires forall i :: 0 <= i < |messages| ==> |messages[i]| <= 100000000
    ensures Unframe(Frames(messages)) == Received(messages)
    decreases |messages|
  {
    if messages != [] {
      FrameParts(messages[0], Frames(messages[1..]));
      UnframeFrames(messages[1..]);
    }
  }

  /** The first message above the limit ends reception, with exactly the messages before it. */
  lemma {:induction false} UnframeStopsAtLimit(messages: seq<seq<byte>>, k: nat)
    requires k < |messages| && forall i :: 0 <= i < k ==> |messages[i]| <= 100000000
    requires 100000000 < |messages[k]| < SIZE_T_MODULUS
    ensures Unframe(Frames(messages)) == BadAlloc(messages[..k])
    decreases k
  {
    FrameParts(messages[0], Frames(messages[1..]));
    if k > 0 {
      assert messages[..k] == [messages[0]] + messages[1..][..k - 1];
      UnframeStopsAtLimit(messages[1..], k - 1);
    }
  }

  class Publisher {
    /** Octets handed to the kernel so far. */
    var sent: seq<byte>

    constructor ()
      ensures sent == []
    {
      sent := [];
    }

    /** `send`: takes some of what it is offered, at least one octet. */
    method Send(data: seq<byte>) returns (n: nat)
      requires data != []
      modifies this
      ensures 0 < n <= |data| && sent == old(sent) + data[..n]
    {
      n :| 0 < n <= |data|;
      sent := sent + data[..n];
    }

    method Publish(message: seq<byte>)
      requires |message| < SIZE_T_MODULUS
      modifies this
      ensures sent == old(sent) + Frame(message)
    {
      sent := sent + Encode(|message|, SIZE_T);
      var total := 0;
      while total < |message|
        invariant total <= |message|
        invariant sent == old(sent) + Encode(|message|, SIZE_T) + message[..total]
        decreases |message| - total
      {
        var n := Send(message[total..]);
        assert message[..total] + message[total..][..n] == message[..total + n];
        total := total + n;
      }
      assert message[..total] == message;
    }

    method PublishAll(messages: seq<seq<byte>>)
      requires forall i :: 0 <= i < |messages| ==> |messages[i]| < SIZE_T_MODULUS
      modifies this
      ensures sent == old(sent) + Frames(messages)
    {
      assert messages[0..] == messages;
      for i := 0 to |messages|
        invariant sent + Frames(messages[i..]) == old(sent) + Frames(messages)
      {
        assert messages[i..][1..] == messages[i + 1..];
        ghost var before, frame, rest := sent, Frame(messages[i]), Frames(messages[i + 1..]);
        assert Frames(messages[i..]) == frame + rest;
        Publish(messages[i]);
        assert before + frame + rest == before + (frame + rest);
      }
      assert sent + [] == sent;
    }
  }

  class Receiver {
    /** Octets on their way. */
    var incoming: seq<byte>
    /** The buffers put into task_queue_. */
    var tasks: seq<seq<byte>>

    constructor (incoming: seq<byte>)
      ensures this.incoming == incoming && tasks == []
    {
      this.incoming := incoming;
      tasks := [];
    }

    /** `recv` into a buffer: some octets, at least one, at most what was asked for and has arrived. */
    method Recv(buffer: array<byte>, at: nat) returns (n: nat)
      requires at < buffer.Length && incoming != []
      modifies this`incoming, buffer
      ensures 0 < n <= buffer.Length - at && n <= |old(incoming)|
      ensures incoming == old(incoming)[n..]
      ensures buffer[..] == Splice(old(buffer[..]), at, old(incoming)[..n])
    {
      n :| 0 < n <= buffer.Length - at && n <= |incoming|;
      CopyInto(buffer, at, incoming[..n]);
      incoming := incoming[n..];
    }

    /**
     * One round of the listener: size, buffer, and as many reads as it takes. It waits when the octets
     * run out, and throws bad_alloc for a size above the limit.
     */
    method ReceiveMessage() returns (round: Round)
      modifies this
      ensures round.Done? == StartsWithFrame(old(incoming))
      ensures round.Threw? == (|old(incoming)| >= SIZE_T && Decode(old(incoming)[..SIZE_T]) > LIMIT)
      ensures !round.Done? ==> tasks == old(tasks)
      ensures round.Done? ==>
        var size := Decode(old(incoming)[..SIZE_T]);
        tasks == old(tasks) + [old(incoming)[SIZE_T..SIZE_T + size]] && incoming == old(incoming)[SIZE_T + size..]
    {
      if |incoming| < SIZE_T {
        return Waits;
      }
      var size := Decode(incoming[..SIZE_T]);
      incoming := incoming[SIZE_T..];
      if size > LIMIT {
        return Threw;
      }
      var buffer := new byte[size];
      ghost var stream := incoming;
      var total := 0;
      while total < size
        invariant total <= size && total <= |stream| && tasks == old(tasks)
        invariant incoming == stream[total..] && buffer[..total] == stream[..total]
        decreases size - total
      {
        if incoming == [] {
          return Waits;
        }
        ghost var before := buffer[..];
        var n := Recv(buffer, total);
        assert buffer[..total + n] == before[..total] + stream[total..][..n];
        assert stream[..total + n] == stream[..total] + stream[total..][..n];
        total := total + n;
      }
      assert buffer[..] == buffer[..size] == stream[..size];
      SliceOfSlice(old(incoming), SIZE_T, |old(incoming)|, 0, size);
      assert old(incoming)[SIZE_T..|old(incoming)|] == stream;
      assert stream[size..] == old(incoming)[SIZE_T + size..];
      tasks := tasks + [buffer[..]];
      round := Done;
    }

    /** The listener's loop, until it throws or waits for octets that have not been sent. */
    method Listen() returns (threw: bool)
      modifies this
      ensures tasks == old(tasks) + Unframe(old(incoming)).messages
      ensures threw == Unframe(old(incoming)).BadAlloc?
    {
      var round := Done;
      while round.Done?
        invariant round.Done? ==>
          && tasks + Unframe(incoming).messages == old(tasks) + Unframe(old(incoming)).messages
          && Unframe(incoming).BadAlloc? == Unframe(old(incoming)).BadAlloc?
        invariant !round.Done? ==>
          && tasks == old(tasks) + Unframe(old(incoming)).messages
          && round.Threw? == Unframe(old(incoming)).BadAlloc?
        decreases if round.Done? then |incoming| + 1 else 0
      {
        ghost var stream, before := incoming, tasks;
        round := ReceiveMessage();
        if round.Done? {
          UnframeStep(stream);
        } else {
          assert before + [] == before;
        }
      }
      threw := round.Threw?;
    }
  }

  datatype Round = Done | Threw | Waits
}
