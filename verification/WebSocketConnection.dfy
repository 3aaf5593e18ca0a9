// The connection object: one completed read after the other updates its fields. The first two octets are kept
// as one number, from which the final bit, the opcode and the mask bit are taken when they are needed, and a
// complete fragment is unmasked in place.
module WebSocketConnection {
  import opened Bytes
  import opened NetworkOrder
  import opened WebSocketFrames
  import opened WebSocketReader

  class Connection {
    var state: State
    var miniHeader: nat
    var hasMask: bool
    var mask: seq<byte>
    var remaining: nat
    var fragment: seq<byte>
    var message: seq<byte>
    var isBinary: bool
    var hasSentClose: bool
    var maxPayload: nat
    /** Handler calls and answers so far. */
    var events: seq<Event>

    ghost predicate Valid()
      reads this
    {
      miniHeader < 0x1_0000 && (state == Payload && hasMask ==> |mask| == 4)
    }

    function IsFin(): bool
      reads this
    {
      miniHeader / 0x8000 % 2 == 1
    }

    function Opcode(): nat
      reads this
    {
      miniHeader / 0x100 % 16
    }

    ghost function Abstract(): Reader
      reads this
    {
      Reader(state, IsFin(), Opcode(), hasMask, mask, remaining, fragment, message, isBinary, hasSentClose, maxPayload)
    }

    constructor (maxPayload: nat)
      ensures Valid() && state == MiniHeader && fragment == [] && message == [] && events == []
      ensures !hasSentClose && this.maxPayload == maxPayload
    {
      state, miniHeader, hasMask, mask, remaining := MiniHeader, 0, false, [], 0;
      fragment, message, isBinary, hasSentClose, events := [], [], false, false, [];
      this.maxPayload := maxPayload;
    }

    /** The handler of a completed read. */
    method OnRead(chunk: seq<byte>)
      requires Valid() && Brings(Abstract(), chunk)
      modifies this
      ensures Valid()
      ensures Abstract() == Feed(old(Abstract()), chunk).0
      ensures events == old(events) + Feed(old(Abstract()), chunk).1
    {
      match state
      case MiniHeader => OnHeader(chunk);
      case Len16 =>
        remaining := FromBig(chunk);
        CheckLength();
      case Len64 =>
        remaining := FromBig(chunk);
        CheckLength();
      case Mask =>
        mask := chunk;
        state := Payload;
      case Payload =>
        fragment := fragment + chunk;
        remaining := remaining - |chunk|;
        if remaining == 0 {
          HandleFragment();
        }
    }

    /** The first two octets: flags, opcode and a length or the size of one. */
    method OnHeader(chunk: seq<byte>)
      requires Valid() && state == MiniHeader && |chunk| == 2
      modifies this
      ensures Valid()
      ensures Abstract() == Feed(old(Abstract()), chunk).0
      ensures events == old(events) + Feed(old(Abstract()), chunk).1
    {
      miniHeader := FromBig(chunk);
      HeaderFields(chunk);
      hasMask := miniHeader / 0x80 % 2 == 1;
      if miniHeader % 0x80 == 127 {
        state := Len64;
      } else if miniHeader % 0x80 == 126 {
        state := Len16;
      } else {
        remaining := miniHeader % 0x80;
        CheckLength();
      }
    }

    /** The Mask state of do_read, up to its own read. */
    method CheckLength()
      requires miniHeader < 0x1_0000
      modifies this`state, this`events
      ensures Valid() || (state == Payload && hasMask)
      ensures if remaining > maxPayload then state == Closed && events == old(events) + [Oversized]
              else state == (if hasMask then Mask else Payload) && events == old(events)
    {
      if remaining > maxPayload {
        state := Closed;
        events := events + [Oversized];
      } else if hasMask {
        state := Mask;
      } else {
        state := Payload;
      }
    }

    /** Unmasks, and acts on the opcode. */
    method HandleFragment()
      requires Valid() && state == Payload
      modifies this
      ensures Valid()
      ensures Abstract() == Completed(old(Abstract())).0
      ensures events == old(events) + Completed(old(Abstract())).1
    {
      if hasMask {
        Unmask();
      }
      var open := Act();
      fragment := [];
      state := if open then MiniHeader else Closed;
    }

    /** The switch over the opcode. */
    method Act() returns (open: bool)
      modifies this`message, this`isBinary, this`hasSentClose, this`events
      ensures var (c, more) := WebSocketReader.HandleFragment(
                Collected(old(message), old(isBinary), old(hasSentClose), true), IsFin(), Opcode(), fragment);
              && c == Collected(message, isBinary, hasSentClose, open)
              && events == old(events) + more
    {
      open := true;
      if Opcode() == CONTINUATION {
        Join();
      } else if Opcode() == TEXT {
        isBinary := false;
        Join();
      } else if Opcode() == BINARY {
        isBinary := true;
        Join();
      } else if Opcode() == CLOSE {
        events := events + [if hasSentClose then CloseConfirmed(fragment) else CloseAnswered(fragment)];
        hasSentClose, open := true, false;
      } else if Opcode() == PING {
        events := events + [PongSent(fragment)];
      } else if Opcode() == PONG {
        events := events + [PongReceived];
      }
    }

    method Unmask()
      requires |mask| == 4
      modifies this`fragment
      ensures fragment == Masked(mask, old(fragment))
    {
      var i := 0;
      while i < |fragment|
        invariant i <= |fragment| == |old(fragment)|
        invariant forall k :: 0 <= k < |fragment| ==>
          fragment[k] == if k < i then Xor(old(fragment)[k], mask[k % 4]) else old(fragment)[k]
      {
        fragment := fragment[i := Xor(fragment[i], mask[i % 4])];
        i := i + 1;
      }
    }

    method Join()
      modifies this`message, this`events
      ensures var (c, more) := Joined(Collected(old(message), isBinary, hasSentClose, true), IsFin(), fragment);
              message == c.message && events == old(events) + more
    {
      message := message + fragment;
      if IsFin() {
        events := events + [Message(message, isBinary)];
        message := [];
      }
    }
  }

  /** The two header octets as one 16-bit number in host order. */
  lemma HeaderFields(chunk: seq<byte>)
    requires |chunk| == 2
    ensures var h := FromBig(chunk);
            && h < 0x1_0000
            && (h / 0x8000 % 2 == 1 <==> chunk[0] >= 128) && h / 0x100 % 16 == chunk[0] % 16
            && (h / 0x80 % 2 == 1 <==> chunk[1] >= 128) && h % 0x80 == chunk[1] % 128
  {
    assert chunk[..1][..0] == [];
    assert FromBig(chunk[..1]) == chunk[0];
    assert FromBig(chunk) == chunk[0] as int * 256 + chunk[1];
  }
}
