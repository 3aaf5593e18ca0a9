// Shift registers that take in one bit at a time, over any register type: what an error burst does to them,
// and when a table of eight-shift entries computes the same. A step is a parameter, a function of register
// and bit, so that everything here holds for registers of any width, whichever way they shift. Two facts about
// a step are enough for bursts: it is injective in the register, and registers that agree in a window after
// a step agreed in the shifted window before. For tables the step has to combine its input bit with the bit
// that leaves.
module ShiftRegister {

  type Bits = seq<bool>

  function Run<R>(step: (R, bool) -> R, r: R, bits: Bits): R
    decreases |bits|
  {
    if bits == [] then r else Run(step, step(r, bits[0]), bits[1..])
  }

  lemma {:induction false} RunConcat<R>(step: (R, bool) -> R, r: R, u: Bits, v: Bits)
    ensures Run(step, r, u + v) == Run(step, Run(step, r, u), v)
    decreases |u|
  {
    if u == [] {
      assert u + v == v;
    } else {
      assert (u + v)[1..] == u[1..] + v;
      RunConcat(step, step(r, u[0]), u[1..], v);
    }
  }

  // Bursts.

  ghost predicate Injective<R(!new)>(step: (R, bool) -> R) {
    forall a, b, bit :: step(a, bit) == step(b, bit) ==> a == b
  }

  /**
   * `agree(k, a, b)` is agreement on all but `k` positions of a register of `width` bits. Agreement
   * after a step is agreement before it on one position less, and one differing bit is visible on
   * every set of positions but the empty one.
   */
  ghost predicate Tracks<R(!new)>(step: (R, bool) -> R, agree: (nat, R, R) -> bool, width: nat) {
    && (forall a :: agree(0, a, a))
    && (forall k: nat, a, b, p, q {:trigger agree(k, step(a, p), step(b, q))} ::
          k + 1 < width && agree(k, step(a, p), step(b, q)) ==> agree(k + 1, a, b))
    && (forall k: nat, r {:trigger agree(k, step(r, true), step(r, false))} ::
          k < width ==> !agree(k, step(r, true), step(r, false)) && !agree(k, step(r, false), step(r, true)))
  }

  /** Registers that agree after `|u|` more bits, whatever these are, agreed before on all but `|u|` positions. */
  lemma {:induction false} AgreementDatesBack<R(!new)>(
      step: (R, bool) -> R, agree: (nat, R, R) -> bool, width: nat, a: R, u: Bits, b: R, v: Bits)
    requires Tracks(step, agree, width)
    requires |u| == |v| < width && Run(step, a, u) == Run(step, b, v)
    ensures agree(|u|, a, b)
    decreases |u|
  {
    if u == [] {
      assert v == [] && a == b;
    } else {
      var p, q := u[0], v[0];
      AgreementDatesBack(step, agree, width, step(a, p), u[1..], step(b, q), v[1..]);
      assert agree(|u| - 1, step(a, p), step(b, q));
    }
  }

  /** Different bit strings no wider than the register never lead it to the same value. */
  lemma {:induction false} BurstsSeparate<R(!new)>(
      step: (R, bool) -> R, agree: (nat, R, R) -> bool, width: nat, r: R, u: Bits, v: Bits)
    requires Tracks(step, agree, width)
    requires |u| == |v| <= width && Run(step, r, u) == Run(step, r, v)
    ensures u == v
    decreases |u|
  {
    if u != [] {
      var p, q := u[0], v[0];
      if p != q {
        AgreementDatesBack(step, agree, width, step(r, p), u[1..], step(r, q), v[1..]);
        NotOnDifferentBits(step, agree, width, |u| - 1, r, p);
        assert false;
      }
      BurstsSeparate(step, agree, width, step(r, p), u[1..], v[1..]);
      assert u == [p] + u[1..] && v == [q] + v[1..];
    }
  }

  lemma NotOnDifferentBits<R(!new)>(step: (R, bool) -> R, agree: (nat, R, R) -> bool, width: nat, k: nat, r: R, p: bool)
    requires Tracks(step, agree, width) && k < width
    ensures !agree(k, step(r, p), step(r, !p))
  {
    assert !agree(k, step(r, true), step(r, false)) && !agree(k, step(r, false), step(r, true));
  }

  /** Different registers never meet again on the same bits. */
  lemma {:induction false} StayApart<R(!new)>(step: (R, bool) -> R, a: R, b: R, bits: Bits)
    requires Injective(step) && Run(step, a, bits) == Run(step, b, bits)
    ensures a == b
    decreases |bits|
  {
    if bits != [] {
      var bit := bits[0];
      StayApart(step, step(a, bit), step(b, bit), bits[1..]);
    }
  }

  /** Bit strings that differ only inside a window no wider than the register leave different registers. */
  lemma BurstIsDetected<R(!new)>(
      step: (R, bool) -> R, agree: (nat, R, R) -> bool, width: nat, r: R, head: Bits, u: Bits, v: Bits, tail: Bits)
    requires Injective(step) && Tracks(step, agree, width)
    requires |u| == |v| <= width && u != v
    ensures Run(step, r, head + u + tail) != Run(step, r, head + v + tail)
  {
    if Run(step, r, head + u + tail) == Run(step, r, head + v + tail) {
      RunConcat(step, r, head + u, tail);
      RunConcat(step, r, head + v, tail);
      StayApart(step, Run(step, r, head + u), Run(step, r, head + v), tail);
      RunConcat(step, r, head, u);
      RunConcat(step, r, head, v);
      BurstsSeparate(step, agree, width, Run(step, r, head), u, v);
    }
  }

  // Octets as message bits.

  function Message(octetBits: bv8 -> Bits, data: seq<bv8>): Bits {
    if data == [] then [] else Message(octetBits, data[..|data| - 1]) + octetBits(data[|data| - 1])
  }

  lemma {:induction false} MessageConcat(octetBits: bv8 -> Bits, s: seq<bv8>, t: seq<bv8>)
    ensures Message(octetBits, s + t) == Message(octetBits, s) + Message(octetBits, t)
  {
    if t == [] {
      assert s + t == s && Message(octetBits, s) + [] == Message(octetBits, s);
    } else {
      var front, last := t[..|t| - 1], octetBits(t[|t| - 1]);
      assert (s + t)[..|s + t| - 1] == s + front;
      MessageConcat(octetBits, s, front);
      assert Message(octetBits, s) + (Message(octetBits, front) + last)
          == Message(octetBits, s) + Message(octetBits, front) + last;
    }
  }

  ghost predicate EightBitsEach(octetBits: bv8 -> Bits) {
    && (forall o :: |octetBits(o)| == 8)
    && (forall a, b :: octetBits(a) == octetBits(b) ==> a == b)
  }

  lemma {:induction false} MessageLength(octetBits: bv8 -> Bits, data: seq<bv8>)
    requires EightBitsEach(octetBits)
    ensures |Message(octetBits, data)| == 8 * |data|
  {
    if data != [] {
      MessageLength(octetBits, data[..|data| - 1]);
      var o := data[|data| - 1];
      assert |octetBits(o)| == 8;
    }
  }

  lemma {:induction false} MessageIsInjective(octetBits: bv8 -> Bits, s: seq<bv8>, t: seq<bv8>)
    requires EightBitsEach(octetBits) && |s| == |t| && Message(octetBits, s) == Message(octetBits, t)
    ensures s == t
  {
    if s != [] {
      var last := |s| - 1;
      MessageLength(octetBits, s[..last]);
      MessageLength(octetBits, t[..last]);
      var m, n := Message(octetBits, s), Message(octetBits, t);
      var a, b := s[last], t[last];
      assert m[8 * last..] == octetBits(a) && n[8 * last..] == octetBits(b);
      assert m[..8 * last] == Message(octetBits, s[..last]) && n[..8 * last] == Message(octetBits, t[..last]);
      MessageIsInjective(octetBits, s[..last], t[..last]);
      assert s == s[..last] + [s[last]] && t == t[..last] + [t[last]];
    }
  }

  /** Octet strings of equal length that differ only inside a window of `width` bits leave different registers. */
  lemma OctetBurstIsDetected<R(!new)>(
      step: (R, bool) -> R, agree: (nat, R, R) -> bool, width: nat, octetBits: bv8 -> Bits,
      r: R, head: seq<bv8>, s: seq<bv8>, t: seq<bv8>, tail: seq<bv8>)
    requires Injective(step) && Tracks(step, agree, width) && EightBitsEach(octetBits)
    requires |s| == |t| && 8 * |s| <= width && s != t
    ensures Run(step, r, Message(octetBits, head + s + tail)) != Run(step, r, Message(octetBits, head + t + tail))
  {
    if Message(octetBits, s) == Message(octetBits, t) {
      MessageIsInjective(octetBits, s, t);
    }
    MessageLength(octetBits, s);
    MessageLength(octetBits, t);
    MessageConcat(octetBits, head + s, tail);
    MessageConcat(octetBits, head, s);
    MessageConcat(octetBits, head + t, tail);
    MessageConcat(octetBits, head, t);
    BurstIsDetected(step, agree, width, r, Message(octetBits, head), Message(octetBits, s), Message(octetBits, t), Message(octetBits, tail));
  }

  /** The register after one octet more. */
  lemma NextOctet<R>(step: (R, bool) -> R, octetBits: bv8 -> Bits, r: R, data: seq<bv8>, i: nat)
    requires i < |data|
    ensures Run(step, r, Message(octetBits, data[..i + 1]))
         == Run(step, Run(step, r, Message(octetBits, data[..i])), octetBits(data[i]))
  {
    assert data[..i + 1][..i] == data[..i];
    RunConcat(step, r, Message(octetBits, data[..i]), octetBits(data[i]));
  }

  // Tables.

  function ClearBits(n: nat): (bits: Bits)
    ensures |bits| == n
  {
    seq(n, i => false)
  }

  function Iterate<R>(down: R -> R, r: R, n: nat): R
    decreases n
  {
    if n == 0 then r else Iterate(down, down(r), n - 1)
  }

  /** The bits an incoming word brings to the register, one after the other. */
  function Emitted<R>(leaving: R -> bool, down: R -> R, word: R, n: nat): (bits: Bits)
    ensures |bits| == n
    decreases n
  {
    if n == 0 then [] else [leaving(word)] + Emitted(leaving, down, down(word), n - 1)
  }

  /** A step moves register and pending word alike, so the word may be combined beforehand. */
  ghost predicate CombinesFirst<R(!new)>(step: (R, bool) -> R, xor: (R, R) -> R, leaving: R -> bool, down: R -> R) {
    forall r, w {:trigger step(xor(r, w), false)} :: step(xor(r, w), false) == xor(step(r, leaving(w)), down(w))
  }

  lemma {:induction false} WordCombinesFirst<R(!new)>(
      step: (R, bool) -> R, xor: (R, R) -> R, leaving: R -> bool, down: R -> R, r: R, word: R, n: nat)
    requires CombinesFirst(step, xor, leaving, down)
    ensures Run(step, xor(r, word), ClearBits(n))
         == xor(Run(step, r, Emitted(leaving, down, word, n)), Iterate(down, word, n))
    decreases n
  {
    if n > 0 {
      assert ClearBits(n)[1..] == ClearBits(n - 1);
      assert Emitted(leaving, down, word, n)[1..] == Emitted(leaving, down, down(word), n - 1);
      WordCombinesFirst(step, xor, leaving, down, step(r, leaving(word)), down(word), n - 1);
    }
  }

  ghost predicate Quiet<R>(leaving: R -> bool, down: R -> R, r: R, n: nat)
    decreases n
  {
    n == 0 || (!leaving(r) && Quiet(leaving, down, down(r), n - 1))
  }

  /** A part of the register from which only zeros leave just moves down. */
  lemma {:induction false} QuietPartMovesDown<R(!new)>(
      step: (R, bool) -> R, xor: (R, R) -> R, leaving: R -> bool, down: R -> R, r: R, quiet: R, n: nat)
    requires CombinesFirst(step, xor, leaving, down) && Quiet(leaving, down, quiet, n)
    ensures Run(step, xor(r, quiet), ClearBits(n)) == xor(Run(step, r, ClearBits(n)), Iterate(down, quiet, n))
    decreases n
  {
    if n > 0 {
      assert ClearBits(n)[1..] == ClearBits(n - 1);
      QuietPartMovesDown(step, xor, leaving, down, step(r, false), down(quiet), n - 1);
    }
  }

  lemma UnrollEmitted<R>(leaving: R -> bool, down: R -> R, w: R)
    ensures var w1 := down(w); var w2 := down(w1); var w3 := down(w2); var w4 := down(w3);
            var w5 := down(w4); var w6 := down(w5); var w7 := down(w6);
      Emitted(leaving, down, w, 8)
      == [leaving(w), leaving(w1), leaving(w2), leaving(w3), leaving(w4), leaving(w5), leaving(w6), leaving(w7)]
  {
  }

  lemma UnrollIterate<R>(down: R -> R, w: R)
    ensures Iterate(down, w, 8) == down(down(down(down(down(down(down(down(w))))))))
  {
  }
}
