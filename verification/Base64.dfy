// base64 (sections 4 and 5 of RFC 4648) in both alphabets. Masks and shifts of octets are written as
// remainders and quotients. Encoding is a function of how three octets become four characters, decoding of
// how two neighbouring characters give one octet; that the one undoes the other group by group is shown
// once for both alphabets, and everything about lengths and padding is shown for any such pair. Octets
// beyond the end of the data count as 0 in the last group, and the characters they would give are padding
// or left out. The decoder works out from the length and the padding how many octets to expect.
module Base64 {
  import opened Bytes

  const UPPER := "ABCDEFGHIJKLMNOPQRSTUVWXYZ"
  const LOWER := "abcdefghijklmnopqrstuvwxyz"
  const DIGITS := "0123456789"
  const STANDARD := UPPER + LOWER + DIGITS + "+/"
  const URL_SAFE := UPPER + LOWER + DIGITS + "-_"

  type sextet = x: int | 0 <= x < 64

  /** Character of a value, as the decoder's ranges have it; the last two depend on the alphabet. */
  function Letter(i: sextet, urlSafe: bool): char {
    if i < 26 then ('A' as int + i) as char
    else if i < 52 then ('a' as int + (i - 26)) as char
    else if i < 62 then ('0' as int + (i - 52)) as char
    else if i == 62 then if urlSafe then '-' else '+'
    else if urlSafe then '_' else '/'
  }

  predicate IsAlphabet(key: string, urlSafe: bool) {
    |key| == 64 && forall i: sextet :: key[i] == Letter(i, urlSafe)
  }

  predicate Runs(chars: string, first: char, n: nat) {
    |chars| == n && forall i :: 0 <= i < n ==> chars[i] as int == first as int + i
  }

  lemma Parts()
    ensures Runs(UPPER, 'A', 26) && Runs(LOWER, 'a', 26) && Runs(DIGITS, '0', 10)
  {
  }

  lemma Alphabets()
    ensures IsAlphabet(STANDARD, false) && IsAlphabet(URL_SAFE, true)
  {
    Parts();
  }

  /** Characters that `n` octets cannot do without. */
  function Needed(n: nat): nat {
    if n >= 3 then 4 + Needed(n - 3) else if n == 0 then 0 else n + 1
  }

  lemma {:induction false} NeededIs(n: nat)
    ensures Needed(n) == n / 3 * 4 + (if n % 3 == 0 then 0 else n % 3 + 1)
  {
    if n >= 3 {
      NeededIs(n - 3);
    }
  }

  // base64encode

  datatype Four = Four(c1: char, c2: char, c3: char, c4: char)

  /** Three octets as four characters; octets beyond the end count as 0. */
  type Encoder = (byte, byte, byte) -> Four

  function Quad(key: string, a: byte, b: byte, c: byte): Four
    requires |key| == 64
  {
    Four(key[a / 4], key[a % 4 * 16 + b / 16], key[b % 16 * 4 + c / 64], key[c % 64])
  }

  function EncoderOf(key: string): Encoder
    requires |key| == 64
  {
    (a: byte, b: byte, c: byte) => Quad(key, a, b, c)
  }

  function Encode(quad: Encoder, data: seq<byte>): (text: string)
    ensures |text| >= Needed(|data|)
    ensures data != [] ==> |text| >= 4
  {
    if |data| >= 3 then
      var q := quad(data[0], data[1], data[2]);
      [q.c1, q.c2, q.c3, q.c4] + Encode(quad, data[3..])
    else if |data| == 2 then
      var q := quad(data[0], data[1], 0);
      [q.c1, q.c2, q.c3, '=']
    else if |data| == 1 then
      var q := quad(data[0], 0, 0);
      [q.c1, q.c2, '=', '=']
    else ""
  }

  lemma {:induction false} EncodedLength(quad: Encoder, data: seq<byte>)
    ensures |Encode(quad, data)| == (|data| + 2) / 3 * 4
  {
    if |data| >= 3 {
      EncodedLength(quad, data[3..]);
    }
  }

  // base64decode

  /** Characters outside the alphabets count as 0. */
  function KeyOf(c: char): sextet {
    if 'A' <= c <= 'Z' then c as int - 'A' as int
    else if 'a' <= c <= 'z' then c as int - 'a' as int + 26
    else if '0' <= c <= '9' then c as int - '0' as int + 52
    else if c == '+' || c == '-' then 62
    else if c == '/' || c == '_' then 63
    else 0
  }

  /** Number of octets a text stands for, with or without its padding. */
  function DecodedSizeOf(size: nat, twoPadded: bool, padded: bool): (n: nat)
    requires size >= 2
    ensures n / 3 * 4 + (if n % 3 == 0 then 0 else n % 3 + 1) <= size
  {
    if size % 4 == 2 then size / 4 * 3 + 1
    else if size % 4 == 3 then size / 4 * 3 + 2
    else if twoPadded then size / 4 * 3 - 2
    else if padded then size / 4 * 3 - 1
    else size / 4 * 3
  }

  function DecodedSize(text: string): (n: nat)
    requires |text| >= 2
    ensures Needed(n) <= |text|
  {
    var n := DecodedSizeOf(|text|, text[|text| - 2] == '=', text[|text| - 1] == '=');
    NeededIs(n);
    n
  }

  function First(k1: sextet, k2: sextet): byte {
    k1 * 4 + k2 / 16
  }

  function Second(k2: sextet, k3: sextet): byte {
    k2 % 16 * 16 + k3 / 4
  }

  function Third(k3: sextet, k4: sextet): byte {
    k3 % 4 * 64 + k4
  }

  /** Each octet is made from two neighbouring characters. */
  datatype Decoder = Decoder(first: (char, char) -> byte, second: (char, char) -> byte, third: (char, char) -> byte)

  function FirstOf(x: char, y: char): byte {
    First(KeyOf(x), KeyOf(y))
  }

  function SecondOf(x: char, y: char): byte {
    Second(KeyOf(x), KeyOf(y))
  }

  function ThirdOf(x: char, y: char): byte {
    Third(KeyOf(x), KeyOf(y))
  }

  const DECODER := Decoder(FirstOf, SecondOf, ThirdOf)

  /** `n` octets from the front of the text. */
  function DecodeSome(d: Decoder, text: string, n: nat): (data: seq<byte>)
    requires Needed(n) <= |text|
    ensures |data| == n
    decreases n
  {
    if n >= 3 then
      [d.first(text[0], text[1]), d.second(text[1], text[2]), d.third(text[2], text[3])] + DecodeSome(d, text[4..], n - 3)
    else if n == 2 then [d.first(text[0], text[1]), d.second(text[1], text[2])]
    else if n == 1 then [d.first(text[0], text[1])]
    else []
  }

  function Decode(text: string): seq<byte>
    requires |text| >= 2
  {
    DecodeSome(DECODER, text, DecodedSize(text))
  }

  // The round trip

  lemma KeyOfLetter(i: sextet, urlSafe: bool)
    ensures KeyOf(Letter(i, urlSafe)) == i && Letter(i, urlSafe) != '='
  {
  }

  /** A character of either alphabet has its own value, every other one 0. */
  lemma KeyOfCharacter(c: char, v: sextet)
    ensures KeyOf(c) == v <==> Letter(v, false) == c || Letter(v, true) == c || (v == 0 && IsForeign(c))
  {
    if IsForeign(c) {
      assert Letter(KeyOf(c), false) != c && Letter(KeyOf(c), true) != c;
    } else {
      var w: sextet :| Letter(w, false) == c || Letter(w, true) == c;
      KeyOfLetter(w, Letter(w, true) == c);
      KeyOfLetter(v, Letter(v, true) == c);
    }
  }

  ghost predicate IsForeign(c: char) {
    forall w: sextet :: Letter(w, false) != c && Letter(w, true) != c
  }

  lemma KeyOfKey(key: string, urlSafe: bool, i: sextet)
    requires IsAlphabet(key, urlSafe)
    ensures KeyOf(key[i]) == i && key[i] != '='
  {
    KeyOfLetter(i, urlSafe);
  }

  lemma ThreeOctets(a: byte, b: byte, c: byte)
    ensures First(a / 4, a % 4 * 16 + b / 16) == a
    ensures Second(a % 4 * 16 + b / 16, b % 16 * 4 + c / 64) == b
    ensures Third(b % 16 * 4 + c / 64, c % 64) == c
  {
  }

  /** The decoder undoes the encoder, and no later character of a full group is '='. */
  ghost predicate Inverse(quad: Encoder, d: Decoder) {
    forall a: byte, b: byte, c: byte :: Undone(quad(a, b, c), d, a, b, c)
  }

  predicate Undone(q: Four, d: Decoder, a: byte, b: byte, c: byte) {
    && d.first(q.c1, q.c2) == a && d.second(q.c2, q.c3) == b && d.third(q.c3, q.c4) == c
    && q.c2 != '=' && q.c3 != '=' && q.c4 != '='
  }

  lemma CodersAreInverse(key: string, urlSafe: bool)
    requires IsAlphabet(key, urlSafe)
    ensures Inverse(EncoderOf(key), DECODER)
  {
    var quad := EncoderOf(key);
    forall a: byte, b: byte, c: byte
      ensures Undone(quad(a, b, c), DECODER, a, b, c)
    {
      KeyOfKey(key, urlSafe, a / 4);
      KeyOfKey(key, urlSafe, a % 4 * 16 + b / 16);
      KeyOfKey(key, urlSafe, b % 16 * 4 + c / 64);
      KeyOfKey(key, urlSafe, c % 64);
      ThreeOctets(a, b, c);
    }
  }

  /** Trailing '=' removed. */
  function Stripped(text: string): (s: string)
    ensures s <= text
  {
    if text != "" && text[|text| - 1] == '=' then Stripped(text[..|text| - 1]) else text
  }

  lemma PrefixBehind(text: string, head: string, rest: string)
    requires text <= head + rest && |head| <= |text|
    ensures text[..|head|] == head && text[|head|..] <= rest
  {
    assert (head + rest)[..|head|] == head && (head + rest)[|head|..] == rest;
    assert text[|head|..] == (head + rest)[|head|..|text|];
  }

  /** The octets come back from the encoding, and from any beginning of it that is long enough. */
  lemma {:induction false} DecodeEncoded(quad: Encoder, d: Decoder, data: seq<byte>, text: string)
    requires Inverse(quad, d) && Needed(|data|) <= |text| && text <= Encode(quad, data)
    ensures DecodeSome(d, text, |data|) == data
    decreases |data|
  {
    if |data| >= 3 {
      var a, b, c := data[0], data[1], data[2];
      var q, rest := quad(a, b, c), Encode(quad, data[3..]);
      var head := [q.c1, q.c2, q.c3, q.c4];
      assert Undone(q, d, a, b, c);
      PrefixBehind(text, head, rest);
      assert text[..4][0] == q.c1 && text[..4][1] == q.c2 && text[..4][2] == q.c3 && text[..4][3] == q.c4;
      DecodeEncoded(quad, d, data[3..], text[4..]);
      assert data == [a, b, c] + data[3..];
    } else if |data| == 2 {
      var a, b := data[0], data[1];
      assert Undone(quad(a, b, 0), d, a, b, 0);
    } else if |data| == 1 {
      var a := data[0];
      assert Undone(quad(a, 0, 0), d, a, 0, 0);
    }
  }

  /** Where the padding of an encoding stands. */
  predicate PaddedFor(text: string, n: nat) {
    |text| >= 4 && (text[|text| - 1] == '=' <==> n % 3 != 0) && (text[|text| - 2] == '=' <==> n % 3 == 1)
    && text[|text| - 3] != '='
  }

  lemma {:induction false} PaddingOf(quad: Encoder, d: Decoder, data: seq<byte>)
    requires Inverse(quad, d) && data != []
    ensures PaddedFor(Encode(quad, data), |data|)
    decreases |data|
  {
    if |data| > 3 {
      PaddingOf(quad, d, data[3..]);
    } else {
      var a, b, c := data[0], if |data| > 1 then data[1] else 0, if |data| > 2 then data[2] else 0;
      assert Undone(quad(a, b, c), d, a, b, c);
    }
  }

  lemma StrippedPadding(text: string, n: nat)
    requires n > 0 && PaddedFor(text, n) && |text| == (n + 2) / 3 * 4
    ensures |Stripped(text)| == Needed(n)
  {
    NeededIs(n);
    var once := text[..|text| - 1];
    if n % 3 == 1 {
      var twice := once[..|once| - 1];
      assert Stripped(twice) == twice;
      assert Stripped(once) == twice;
    } else if n % 3 == 2 {
      assert Stripped(once) == once;
    }
  }

  lemma SizeOfEncoding(text: string, n: nat)
    requires n > 0
    requires (n % 3 != 0 && |text| == Needed(n)) || (PaddedFor(text, n) && |text| == (n + 2) / 3 * 4)
    ensures |text| >= 2 && DecodedSize(text) == n
  {
    NeededIs(n);
  }

  function KeyFor(urlSafe: bool): string {
    if urlSafe then URL_SAFE else STANDARD
  }

  function Encoded(urlSafe: bool, data: seq<byte>): string {
    Alphabets();
    Encode(EncoderOf(KeyFor(urlSafe)), data)
  }

  /** For every non-empty octet string, in both alphabets, with the padding and after it is stripped. */
  lemma RoundTrip(data: seq<byte>, urlSafe: bool)
    requires data != []
    ensures var text := Encoded(urlSafe, data);
            && |text| >= 2 && Decode(text) == data
            && |Stripped(text)| >= 2 && Decode(Stripped(text)) == data
  {
    Alphabets();
    CodersAreInverse(KeyFor(urlSafe), urlSafe);
    RoundTripOf(EncoderOf(KeyFor(urlSafe)), DECODER, data);
  }

  /** Octet `i` of the data; beyond the end it counts as 0. */
  function OctetAt(data: seq<byte>, i: nat): byte {
    if i < |data| then data[i] else 0
  }

  /** Four characters and three octets are the same number of 24 bits; `left` octets are data, and characters without a bit of them are padding. */
  ghost predicate SameNumber(f: Four, a: byte, b: byte, c: byte, left: int, urlSafe: bool) {
    exists v1: sextet, v2: sextet, v3: sextet, v4: sextet :: Sextets(v1, v2, v3, v4) == Octets(a, b, c)
      && f == Four(Letter(v1, urlSafe), Letter(v2, urlSafe), if left > 1 then Letter(v3, urlSafe) else '=',
                   if left > 2 then Letter(v4, urlSafe) else '=')
  }

  function Sextets(v1: sextet, v2: sextet, v3: sextet, v4: sextet): nat {
    262144 * v1 as int + 4096 * v2 as int + 64 * v3 as int + v4 as int
  }

  function Octets(a: byte, b: byte, c: byte): nat {
    65536 * a as int + 256 * b as int + c as int
  }

  /** Group `g` of the text belongs to group `g` of the data. */
  ghost predicate GroupIs(text: string, data: seq<byte>, g: nat, urlSafe: bool) {
    |text| >= 4 * g + 4
    && SameNumber(Four(text[4 * g], text[4 * g + 1], text[4 * g + 2], text[4 * g + 3]),
                  OctetAt(data, 3 * g), OctetAt(data, 3 * g + 1), OctetAt(data, 3 * g + 2), |data| - 3 * g, urlSafe)
  }

  lemma SextetsAreOctets(a: byte, b: byte, c: byte, v1: sextet, v2: sextet, v3: sextet, v4: sextet)
    requires v1 == a / 4 && v2 == a % 4 * 16 + b / 16 && v3 == b % 16 * 4 + c / 64 && v4 == c % 64
    ensures Sextets(v1, v2, v3, v4) == Octets(a, b, c)
  {
  }

  lemma QuadIsNumber(key: string, urlSafe: bool, a: byte, b: byte, c: byte, f: Four)
    requires IsAlphabet(key, urlSafe) && f == Quad(key, a, b, c)
    ensures SameNumber(f, a, b, c, 3, urlSafe) && SameNumber(f.(c4 := '='), a, b, c, 2, urlSafe)
    ensures SameNumber(f.(c3 := '=', c4 := '='), a, b, c, 1, urlSafe)
  {
    SextetsAreOctets(a, b, c, a / 4, a % 4 * 16 + b / 16, b % 16 * 4 + c / 64, c % 64);
  }

  lemma FirstGroup(data: seq<byte>, key: string, urlSafe: bool)
    requires IsAlphabet(key, urlSafe) && data != []
    ensures GroupIs(Encode(EncoderOf(key), data), data, 0, urlSafe)
  {
    var a, b, c := OctetAt(data, 0), OctetAt(data, 1), OctetAt(data, 2);
    var f := Quad(key, a, b, c);
    QuadIsNumber(key, urlSafe, a, b, c, f);
    var text := Encode(EncoderOf(key), data);
    assert Four(text[4 * 0], text[4 * 0 + 1], text[4 * 0 + 2], text[4 * 0 + 3])
        == if |data| >= 3 then f else if |data| == 2 then f.(c4 := '=') else f.(c3 := '=', c4 := '=');
    MoreThanThree(f, a, b, c, |data|, urlSafe);
  }

  lemma MoreThanThree(f: Four, a: byte, b: byte, c: byte, left: int, urlSafe: bool)
    ensures left > 3 ==> (SameNumber(f, a, b, c, left, urlSafe) <==> SameNumber(f, a, b, c, 3, urlSafe))
  {
  }

  lemma LaterGroup(text: string, data: seq<byte>, q: string, three: seq<byte>, g: nat, urlSafe: bool)
    requires |q| == 4 && |three| == 3 && GroupIs(text, data, g, urlSafe)
    ensures GroupIs(q + text, three + data, g + 1, urlSafe)
  {
    var t, d := q + text, three + data;
    assert t[4 * (g + 1)] == text[4 * g] && t[4 * (g + 1) + 1] == text[4 * g + 1];
    assert t[4 * (g + 1) + 2] == text[4 * g + 2] && t[4 * (g + 1) + 3] == text[4 * g + 3];
    assert OctetAt(d, 3 * (g + 1)) == OctetAt(data, 3 * g) && OctetAt(d, 3 * (g + 1) + 1) == OctetAt(data, 3 * g + 1);
    assert OctetAt(d, 3 * (g + 1) + 2) == OctetAt(data, 3 * g + 2);
  }

  /** The text of RFC 4648, group by group. */
  lemma {:induction false} EncodedGroups(data: seq<byte>, key: string, urlSafe: bool, g: nat)
    requires IsAlphabet(key, urlSafe) && 3 * g < |data|
    ensures GroupIs(Encode(EncoderOf(key), data), data, g, urlSafe)
    decreases g
  {
    if g == 0 {
      FirstGroup(data, key, urlSafe);
    } else {
      var quad := EncoderOf(key);
      var f := quad(data[0], data[1], data[2]);
      EncodedGroups(data[3..], key, urlSafe, g - 1);
      LaterGroup(Encode(quad, data[3..]), data[3..], [f.c1, f.c2, f.c3, f.c4], data[..3], g - 1, urlSafe);
      assert data[..3] + data[3..] == data;
    }
  }

  lemma RoundTripOf(quad: Encoder, d: Decoder, data: seq<byte>)
    requires Inverse(quad, d) && data != []
    ensures var text := Encode(quad, data);
            && DecodedSize(text) == |data| && DecodeSome(d, text, |data|) == data
            && |Stripped(text)| >= 2 && DecodedSize(Stripped(text)) == |data|
            && DecodeSome(d, Stripped(text), |data|) == data
  {
    var text := Encode(quad, data);
    EncodedLength(quad, data);
    PaddingOf(quad, d, data);
    StrippedPadding(text, |data|);
    SizeOfEncoding(text, |data|);
    NeededIs(|data|);
    assert |data| % 3 == 0 ==> Stripped(text) == text;
    SizeOfEncoding(Stripped(text), |data|);
    DecodeEncoded(quad, d, data, text);
    DecodeEncoded(quad, d, data, Stripped(text));
  }

  // The loops of the original.

  /** Characters written one after the other. */
  method Put(ret: array<char>, it: nat, q: string)
    requires it + |q| <= ret.Length
    modifies ret
    ensures ret[..it + |q|] == old(ret[..it]) + q
  {
    for i := 0 to |q|
      invariant ret[..it + i] == old(ret[..it]) + q[..i]
    {
      ret[it + i] := q[i];
      assert ret[..it + i + 1] == ret[..it + i] + [q[i]];
    }
    assert q[..|q|] == q;
  }

  /** Three octets to four characters. */
  method EncodeGroup(ret: array<char>, it: nat, quad: Encoder, data: seq<byte>, pos: nat)
    requires it + 4 <= ret.Length && pos + 3 <= |data|
    modifies ret
    ensures ret[..it + 4] + Encode(quad, data[pos + 3..]) == old(ret[..it]) + Encode(quad, data[pos..])
    ensures |Encode(quad, data[pos..])| == 4 + |Encode(quad, data[pos + 3..])|
  {
    var a, b, c := data[pos], data[pos + 1], data[pos + 2];
    var f := quad(a, b, c);
    var q := [f.c1, f.c2, f.c3, f.c4];
    EncodeThree(quad, data[pos..], q);
    assert data[pos..][3..] == data[pos + 3..];
    Put(ret, it, q);
  }

  method Base64Encode(data: seq<byte>, quad: Encoder) returns (ret: array<char>)
    ensures fresh(ret) && ret[..] == Encode(quad, data)
  {
    EncodedLength(quad, data);
    ret := new char[(|data| + 2) / 3 * 4];
    var it: nat, pos: nat, size: nat := 0, 0, |data|;
    assert data[0..] == data;
    while size >= 3
      invariant pos + size == |data| && it + |Encode(quad, data[pos..])| == ret.Length
      invariant ret[..it] + Encode(quad, data[pos..]) == Encode(quad, data)
    {
      EncodeGroup(ret, it, quad, data, pos);
      it, pos, size := it + 4, pos + 3, size - 3;
    }
    var last := "";
    if size == 1 {
      var a := data[pos];
      var f := quad(a, 0, 0);
      last := [f.c1, f.c2, '=', '='];
    } else if size == 2 {
      var a, b := data[pos], data[pos + 1];
      var f := quad(a, b, 0);
      last := [f.c1, f.c2, f.c3, '='];
    }
    assert last == Encode(quad, data[pos..]);
    Put(ret, it, last);
    assert ret[..] == ret[..it + |last|];
  }

  lemma EncodeThree(quad: Encoder, data: seq<byte>, q: string)
    requires |data| >= 3
    requires var f := quad(data[0], data[1], data[2]); q == [f.c1, f.c2, f.c3, f.c4]
    ensures Encode(quad, data) == q + Encode(quad, data[3..])
  {
  }

  lemma DecodeThree(d: Decoder, text: string, pos: nat, n: nat, done: seq<byte>)
    requires n >= 3 && pos <= |text| && Needed(n) <= |text| - pos
    ensures pos + 4 <= |text| && Needed(n - 3) <= |text| - pos - 4
    ensures done + DecodeSome(d, text[pos..], n)
         == done + [d.first(text[pos], text[pos + 1])] + [d.second(text[pos + 1], text[pos + 2])]
            + [d.third(text[pos + 2], text[pos + 3])] + DecodeSome(d, text[pos + 4..], n - 3)
  {
    assert text[pos..][4..] == text[pos + 4..];
  }

  method Base64Decode(text: string, d: Decoder) returns (ret: seq<byte>)
    requires |text| >= 2
    ensures ret == DecodeSome(d, text, DecodedSize(text))
  {
    var size: nat, pos: nat := DecodedSize(text), 0;
    ghost var whole := size;
    ret := [];
    assert text[0..] == text;
    while size >= 3
      invariant pos <= |text| && Needed(size) <= |text| - pos
      invariant ret + DecodeSome(d, text[pos..], size) == DecodeSome(d, text, whole)
    {
      var c1, c2, c3, c4 := text[pos], text[pos + 1], text[pos + 2], text[pos + 3];
      DecodeThree(d, text, pos, size, ret);
      ret := ret + [d.first(c1, c2)];
      ret := ret + [d.second(c2, c3)];
      ret := ret + [d.third(c3, c4)];
      pos, size := pos + 4, size - 3;
    }
    if size == 2 {
      ret := ret + [d.first(text[pos], text[pos + 1])];
      ret := ret + [d.second(text[pos + 1], text[pos + 2])];
    } else if size == 1 {
      ret := ret + [d.first(text[pos], text[pos + 1])];
    }
  }
}
