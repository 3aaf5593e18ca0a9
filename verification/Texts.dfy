// Texts that stand somewhere in a longer text. The printed JSON tree, the literals of the JSON parser,
// the fragments a route trie keeps in its nodes and the tags of a URL rule are all compared with a text
// in place, one character after the other; the comparison is the same for all of them, and it agrees
// with taking the part of the text out first and comparing it as a whole.
module Texts {

  /** The piece stands in the text at a position, read one character after the other. */
  predicate StartsWith(text: string, at: nat, piece: string)
    decreases |piece|
  {
    piece == "" || (at < |text| && text[at] == piece[0] && StartsWith(text, at + 1, piece[1..]))
  }

  lemma {:induction false} StartsWithIsSlice(text: string, at: nat, piece: string)
    requires at + |piece| <= |text|
    ensures StartsWith(text, at, piece) <==> text[at..at + |piece|] == piece
    decreases |piece|
  {
    if piece != "" {
      StartsWithIsSlice(text, at + 1, piece[1..]);
      var slice := text[at..at + |piece|];
      assert slice == [text[at]] + text[at + 1..at + |piece|];
      assert piece == [piece[0]] + piece[1..];
      assert slice[1..] == text[at + 1..at + |piece|] && slice[0] == text[at];
    }
  }

  /** Pieces stand one behind the other. */
  lemma {:induction false} StartsWithParts(text: string, at: nat, s: string, t: string)
    requires StartsWith(text, at, s + t)
    ensures StartsWith(text, at, s) && StartsWith(text, at + |s|, t)
    decreases |s|
  {
    if s == "" {
      assert s + t == t;
    } else {
      assert (s + t)[1..] == s[1..] + t;
      StartsWithParts(text, at + 1, s[1..], t);
    }
  }

  lemma {:induction false} StartsWithAt(text: string, at: nat, piece: string, i: nat)
    requires StartsWith(text, at, piece) && i < |piece|
    ensures at + i < |text| && text[at + i] == piece[i]
    decreases |piece|
  {
    if i > 0 {
      StartsWithAt(text, at + 1, piece[1..], i - 1);
    }
  }

  /** A piece lies inside the text. */
  lemma {:induction false} StartsWithInside(text: string, at: nat, piece: string)
    requires StartsWith(text, at, piece) && at <= |text|
    ensures at + |piece| <= |text|
    decreases |piece|
  {
    if piece != "" {
      StartsWithInside(text, at + 1, piece[1..]);
    }
  }
}
