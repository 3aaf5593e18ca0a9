// Raw memory as the C++ code sees it on a little-endian 64-bit machine: a sequence of octets, and
// the images that `memcpy` of an `int` or a `size_t` leaves there. Octets are numbers below 256, an image
// has its least significant octet first, and reading an image gives the number back. Copying over a part
// of memory leaves the octets in front of it and behind it alone.
module Bytes {

  type byte = x: int | 0 <= x < 256

  const SIZE_T: nat := 8
  const INT: nat := 4
  const SIZE_T_MODULUS: nat := 0x1_0000_0000_0000_0000
  const INT_MODULUS: nat := 0x1_0000_0000

  /** Number of values a little-endian field of `width` octets can hold. */
  function Modulus(width: nat): (m: nat)
    ensures m > 0
  {
    if width == 0 then 1 else 256 * Modulus(width - 1)
  }

  lemma ModulusValues()
    ensures Modulus(INT) == INT_MODULUS
    ensures Modulus(SIZE_T) == SIZE_T_MODULUS
  {
    assert Modulus(2) == 0x1_0000;
    assert Modulus(4) == 0x1_0000 * 0x1_0000;
    assert Modulus(6) == 0x1_0000 * Modulus(4);
    assert Modulus(8) == 0x1_0000 * Modulus(6);
  }

  /** The low `width` octets of `n`, least significant first. */
  function Encode(n: nat, width: nat): (s: seq<byte>)
    ensures |s| == width
    decreases width, n
  {
    if width == 0 then [] else [n % 256] + Encode(n / 256, width - 1)
  }

  function Decode(s: seq<byte>): nat {
    if s == [] then 0 else s[0] + 256 * Decode(s[1..])
  }

  lemma {:induction false} DecodeEncode(n: nat, width: nat)
    requires n < Modulus(width)
    ensures Decode(Encode(n, width)) == n
  {
    if width > 0 {
      assert n / 256 < Modulus(width - 1);
      DecodeEncode(n / 256, width - 1);
      assert Encode(n, width)[1..] == Encode(n / 256, width - 1);
    }
  }

  /** `memcpy` of a `size_t` and back loses nothing below 2^64. */
  lemma SizeTRoundTrip(n: nat)
    requires n < SIZE_T_MODULUS
    ensures Decode(Encode(n, SIZE_T)) == n
  {
    ModulusValues();
    DecodeEncode(n, SIZE_T);
  }

  function Zeros(n: nat): (z: seq<byte>)
    ensures |z| == n
    ensures forall i :: 0 <= i < n ==> z[i] == 0
  {
    if n == 0 then [] else Zeros(n - 1) + [0]
  }

  /** Nothing but zeros from a position on. */
  predicate ZeroFrom(mem: seq<byte>, at: nat) {
    forall k :: at <= k < |mem| ==> mem[k] == 0
  }

  lemma {:induction false} DecodeZeros(s: seq<byte>)
    requires ZeroFrom(s, 0)
    ensures Decode(s) == 0
  {
    if s != [] {
      DecodeZeros(s[1..]);
    }
  }

  lemma SliceOfSlice<T>(s: seq<T>, lo: nat, hi: nat, i: nat, j: nat)
    requires lo <= hi <= |s| && i <= j <= hi - lo
    ensures s[lo..hi][i..j] == s[lo + i..lo + j]
  {
    var window := s[lo..hi];
    forall k | 0 <= k < j - i
      ensures window[i..j][k] == s[lo + i..lo + j][k]
    {
      assert window[i..j][k] == window[i + k] == s[lo + (i + k)];
    }
  }

  /** `memory` with `image` copied over it at `at`, as `memcpy(base + at, ...)` leaves it. */
  function Splice(memory: seq<byte>, at: nat, image: seq<byte>): (r: seq<byte>)
    requires at + |image| <= |memory|
    ensures |r| == |memory|
    ensures r[..at] == memory[..at]
    ensures r[at..at + |image|] == image
    ensures r[at + |image|..] == memory[at + |image|..]
  {
    memory[..at] + image + memory[at + |image|..]
  }

  /** `memcpy` into an array, one octet after the other. */
  method CopyInto(a: array<byte>, at: nat, image: seq<byte>)
    requires at + |image| <= a.Length
    modifies a
    ensures a[..] == Splice(old(a[..]), at, image)
  {
    ghost var before := a[..];
    var i := 0;
    while i < |image|
      invariant 0 <= i <= |image|
      invariant forall k :: 0 <= k < a.Length ==> a[k] == if at <= k < at + i then image[k - at] else before[k]
    {
      a[at + i] := image[i];
      i := i + 1;
    }
    assert a[..] == Splice(before, at, image);
  }
}
