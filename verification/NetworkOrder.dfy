// Big-endian fields, and how the code produces them on a little-endian machine. The original stores integers
// whose memory image is the wanted one: it swaps 16 and 32 bits with the C library's functions and builds
// the 64-bit swap from two 32-bit swaps, low half first. The lemmas say that splitting a big-endian number
// in two is splitting the integer by a power of 256, and that the image of the swap is big-endian.
module NetworkOrder {
  import opened Bytes

  /** The low `width` octets of `n`, most significant first. */
  function BigEndian(n: nat, width: nat): (s: seq<byte>)
    ensures |s| == width
    decreases width, n
  {
    if width == 0 then [] else BigEndian(n / 256, width - 1) + [n % 256]
  }

  function FromBig(s: seq<byte>): nat {
    if s == [] then 0 else FromBig(s[..|s| - 1]) * 256 + s[|s| - 1]
  }

  lemma {:induction false} BigEndianRoundTrip(n: nat, width: nat)
    requires n < Modulus(width)
    ensures FromBig(BigEndian(n, width)) == n
  {
    if width > 0 {
      assert n / 256 < Modulus(width - 1);
      BigEndianRoundTrip(n / 256, width - 1);
      assert BigEndian(n, width)[..width - 1] == BigEndian(n / 256, width - 1);
    }
  }

  /** `htons`, `htonl` and their inverses: the integer whose memory image is the big-endian one. */
  function Swapped(n: nat, width: nat): nat {
    Decode(BigEndian(n, width))
  }

  /** The 64-bit swap written with two 32-bit ones. */
  function Swapped64(n: nat): nat {
    Swapped(n % 0x1_0000_0000, 4) * 0x1_0000_0000 + Swapped(n / 0x1_0000_0000, 4)
  }

  lemma {:induction false} EncodeDecode(s: seq<byte>)
    ensures Encode(Decode(s), |s|) == s
  {
    if s != [] {
      EncodeDecode(s[1..]);
      assert Decode(s) / 256 == Decode(s[1..]);
    }
  }

  lemma {:induction false} EncodePair(s: seq<byte>, high: nat, width: nat)
    ensures Encode(Decode(s) + Modulus(|s|) * high, |s| + width) == s + Encode(high, width)
  {
    if s == [] {
      assert Decode(s) + Modulus(|s|) * high == high;
    } else {
      var n := Decode(s) + Modulus(|s|) * high;
      var rest := Decode(s[1..]) + Modulus(|s| - 1) * high;
      assert n == s[0] + 256 * rest;
      assert n / 256 == rest && n % 256 == s[0];
      EncodePair(s[1..], high, width);
      assert s == [s[0]] + s[1..];
    }
  }

  function Quotient(n: nat, m: nat): nat
    requires m > 0
  {
    n / m
  }

  function Remainder(n: nat, m: nat): (r: nat)
    requires m > 0
    ensures r < m
  {
    n % m
  }

  lemma {:induction false} BigEndianSplit(n: nat, high: nat, low: nat)
    ensures BigEndian(n, high + low)
         == BigEndian(Quotient(n, Modulus(low)), high) + BigEndian(Remainder(n, Modulus(low)), low)
    decreases low
  {
    if low > 0 {
      var m := Modulus(low - 1);
      var q, r := Quotient(n, 256 * m), Remainder(n, 256 * m);
      BigEndianSplit(n / 256, high, low - 1);
      DivideTwice(n, m);
      var front, back := BigEndian(q, high), BigEndian(r / 256, low - 1);
      assert BigEndian(n, high + low) == front + back + [n % 256];
      assert BigEndian(r, low) == back + [n % 256];
    }
  }

  lemma DivideTwice(n: nat, m: nat)
    requires m > 0
    ensures Quotient(n / 256, m) == Quotient(n, 256 * m)
    ensures Remainder(n, 256 * m) / 256 == Remainder(n / 256, m)
    ensures Remainder(n, 256 * m) % 256 == n % 256
  {
    var q, r := n / 256, n % 256;
    var a, b := Quotient(q, m), Remainder(q, m);
    assert n == 256 * (m * a + b) + r;
    assert 256 * b + r < 256 * m;
    assert n == (256 * m) * a + (256 * b + r);
    QuotientIs(n, 256 * m, a, 256 * b + r);
  }

  lemma QuotientIs(n: nat, d: nat, q: nat, r: nat)
    requires d > 0 && n == d * q + r && r < d
    ensures Quotient(n, d) == q && Remainder(n, d) == r
  {
    var gap := n / d - q;
    assert d * gap == r - n % d;
    MultipleIsFar(d, gap);
  }

  lemma MultipleIsFar(d: nat, gap: int)
    ensures gap == 0 || d * gap >= d || d * gap <= -(d as int)
  {
    if gap >= 1 {
      assert d * gap >= d;
    } else if gap <= -1 {
      assert d * gap <= -(d as int);
    }
  }

  /** Octet `i` of a memory image counts 256 to the power of `i`. */
  lemma {:induction false} ImageOctet(n: nat, width: nat, i: nat)
    requires i < width
    ensures Encode(n, width)[i] == Quotient(n, Modulus(i)) % 256
    decreases width, n
  {
    if i > 0 {
      ImageOctet(n / 256, width - 1, i - 1);
      DivideTwice(n, Modulus(i - 1));
    }
  }

  /** A big-endian field is the image read backwards. */
  lemma {:induction false} BigEndianOctet(n: nat, width: nat, i: nat)
    requires i < width
    ensures BigEndian(n, width)[width - 1 - i] == Encode(n, width)[i]
    decreases width, n
  {
    if i > 0 {
      BigEndianOctet(n / 256, width - 1, i - 1);
    }
  }

  /** Storing the 64-bit swap puts the most significant octet first. */
  lemma Swapped64IsBigEndian(n: nat)
    ensures Encode(Swapped64(n), 8) == BigEndian(n, 8)
  {
    ModulusValues();
    var high := BigEndian(n / 0x1_0000_0000, 4);
    var low := BigEndian(n % 0x1_0000_0000, 4);
    EncodePair(high, Decode(low), 4);
    EncodeDecode(low);
    BigEndianSplit(n, 4, 4);
  }
}
