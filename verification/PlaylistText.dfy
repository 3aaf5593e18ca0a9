// The text of the playlist and the file names found in it, letter by letter: the search for the number in a
// line finds its leftmost file name, the number read back is the largest one named, and an export appends
// exactly these characters.
module PlaylistText {
  import opened Decimal
  import opened Playlist

  /** The file name with these digits stands at a position. */
  predicate Occurs(line: string, at: nat, digits: string) {
    var name := "output" + digits + ".ts";
    && digits != "" && (forall i :: 0 <= i < |digits| ==> '0' <= digits[i] <= '9')
    && at + |name| <= |line| && line[at..at + |name|] == name
  }

  lemma OccursInParts(line: string, at: nat, digits: string)
    ensures Occurs(line, at, digits) <==>
      && digits != "" && AllDigits(digits) && Has(line, at, "output")
      && Has(line, at + 6, digits) && Has(line, at + 6 + |digits|, ".ts")
  {
    var name, n := "output" + digits + ".ts", |digits|;
    if at + n + 9 <= |line| {
      var slice := line[at..at + n + 9];
      assert slice == line[at..at + 6] + line[at + 6..at + 6 + n] + line[at + 6 + n..at + n + 9];
      SameParts(line[at..at + 6], line[at + 6..at + 6 + n], line[at + 6 + n..at + n + 9], "output", digits, ".ts");
    }
  }

  lemma SameParts(a: string, b: string, c: string, x: string, y: string, z: string)
    requires |a| == |x| && |b| == |y|
    ensures a + b + c == x + y + z <==> a == x && b == y && c == z
  {
    if a + b + c == x + y + z {
      assert (a + b + c)[..|a|] == a && (x + y + z)[..|a|] == x;
      assert (a + b + c)[|a|..|a| + |b|] == b && (x + y + z)[|a|..|a| + |b|] == y;
      assert (a + b + c)[|a| + |b|..] == c && (x + y + z)[|a| + |b|..] == z;
    }
  }

  lemma DigitsRun(line: string, at: nat, end: nat)
    requires at <= |line| && end == DigitsFrom(line, at)
    ensures end < |line| ==> !IsDigit(line[end])
    ensures forall i :: at <= i < end ==> IsDigit(line[i])
    decreases |line| - at
  {
    if at < |line| && IsDigit(line[at]) {
      DigitsRun(line, at + 1, end);
    }
  }

  /** A match at a position is the file name that stands there. */
  lemma MatchIsOccurrence(line: string, at: nat, digits: string)
    ensures MatchAt(line, at) == Number(digits) <==> Occurs(line, at, digits)
  {
    OccursInParts(line, at, digits);
    if Has(line, at, "output") {
      var start := at + 6;
      var end := DigitsFrom(line, start);
      DigitsRun(line, start, end);
      assert AllDigits(line[start..end]);
      if Occurs(line, at, digits) {
        var dot := start + |digits|;
        assert line[dot] == line[dot..dot + 3][0] == '.';
        DigitsEnd(line, start, digits);
      }
    }
  }

  /** No file name stands in front of a position. */
  ghost predicate NoneBefore(line: string, from: nat, at: nat) {
    forall i: nat, digits: string :: from <= i < at ==> !Occurs(line, i, digits)
  }

  ghost predicate IsLeftmost(line: string, from: nat, at: nat, digits: string) {
    from <= at && Occurs(line, at, digits) && NoneBefore(line, from, at)
  }

  lemma {:induction false} SearchIsLeftmost(line: string, from: nat, digits: string)
    requires from <= |line|
    ensures Search(line, from) == Number(digits) <==> exists at: nat :: IsLeftmost(line, from, at, digits)
    decreases |line| - from
  {
    forall d: string
      ensures MatchAt(line, from) == Number(d) <==> Occurs(line, from, d)
    {
      MatchIsOccurrence(line, from, d);
    }
    if MatchAt(line, from).Number? {
      assert Occurs(line, from, MatchAt(line, from).digits);
      assert forall at: nat :: IsLeftmost(line, from, at, digits) <==> at == from && Occurs(line, from, digits);
      assert IsLeftmost(line, from, from, digits) <==> Occurs(line, from, digits);
    } else if from < |line| {
      var next := from + 1;
      SearchIsLeftmost(line, next, digits);
      forall at: nat
        ensures IsLeftmost(line, from, at, digits) <==> IsLeftmost(line, next, at, digits)
      {
        assert !Occurs(line, from, digits);
        assert NoneBefore(line, next, at) ==> NoneBefore(line, from, at);
      }
      if at: nat :| IsLeftmost(line, next, at, digits) {
        assert IsLeftmost(line, from, at, digits);
      }
    } else {
      assert forall at: nat :: from <= at ==> !Occurs(line, at, digits);
    }
  }

  /** The regular expression finds the leftmost file name of a line, if there is one. */
  lemma FirstNameIsFound(line: string, digits: string)
    ensures Search(line, 0) == Number(digits) <==> exists at: nat :: IsLeftmost(line, 0, at, digits)
    ensures Search(line, 0) == NoMatch <==> forall at: nat, d: string :: !Occurs(line, at, d)
  {
    SearchIsLeftmost(line, 0, digits);
    if Search(line, 0).Number? {
      var d := Search(line, 0).digits;
      SearchIsLeftmost(line, 0, d);
      var at: nat :| IsLeftmost(line, 0, at, d);
      assert Occurs(line, at, d);
    } else {
      NothingFound(line, 0);
    }
  }

  lemma {:induction false} NothingFound(line: string, from: nat)
    requires from <= |line| && Search(line, from) == NoMatch
    ensures forall at: nat, d: string :: from <= at ==> !Occurs(line, at, d)
    decreases |line| - from
  {
    forall d: string
      ensures !Occurs(line, from, d)
    {
      MatchIsOccurrence(line, from, d);
    }
    if from < |line| {
      NothingFound(line, from + 1);
    }
  }

  /** The line has a file name with this number. */
  predicate NamesNumber(line: string, n: int) {
    Search(line, 0).Number? && DecimalValue(Search(line, 0).digits) == n
  }

  /** The number read back is the largest of those named, -1 if none is. */
  lemma {:induction false} LastSegmentIsMaximum(lines: seq<string>)
    ensures forall i: nat, n: int :: i < |lines| && NamesNumber(lines[i], n) ==> n <= LastSegment(lines)
    ensures LastSegment(lines) != -1 ==> exists i: nat :: i < |lines| && NamesNumber(lines[i], LastSegment(lines))
  {
    if lines != [] {
      var before, last := lines[..|lines| - 1], lines[|lines| - 1];
      LastSegmentIsMaximum(before);
      forall i: nat, n: int | i < |lines| && NamesNumber(lines[i], n)
        ensures n <= LastSegment(lines)
      {
        LastSegmentIsLargest(lines, i);
      }
      if LastSegment(lines) != -1 {
        if LastSegment(lines) == LastSegment(before) {
          var i: nat :| i < |before| && NamesNumber(before[i], LastSegment(before));
          assert lines[i] == before[i];
        } else {
          assert NamesNumber(last, LastSegment(lines)) && lines[|lines| - 1] == last;
        }
      }
    }
  }

  lemma Regrouped(front: string, p: string, x: string, q: string, nl: string, o: string, y: string, t: string, between: string, end: string)
    requires between == q + nl + o && end == t + nl
    ensures front + ((p + x + q) + nl + (o + y + t) + nl) == front + p + x + between + y + end
  {
  }

  lemma Literals()
    ensures ",\noutput" == "," + "\n" + OUTPUT && ".ts\n" == TS + "\n"
  {
  }

  lemma HeaderLines()
    ensures HEADER[0] == "#EXTM3U" && HEADER[1] == "#EXT-X-VERSION:3" && HEADER[2] == "#EXT-X-MEDIA-SEQUENCE:0"
  {
  }

  lemma ThreeLines(a: string, b: string, c: string, nl: string, bc: string, text: string)
    requires bc == b + nl + c + nl && text == a + nl + bc
    ensures text == a + nl + b + nl + c + nl
  {
  }

  lemma LastHeaderLines()
    ensures "#EXT-X-VERSION:3\n#EXT-X-MEDIA-SEQUENCE:0\n" == "#EXT-X-VERSION:3" + "\n" + "#EXT-X-MEDIA-SEQUENCE:0" + "\n"
  {
  }

  lemma FirstHeaderLine()
    ensures "#EXTM3U\n#EXT-X-VERSION:3\n#EXT-X-MEDIA-SEQUENCE:0\n"
         == "#EXTM3U" + "\n" + "#EXT-X-VERSION:3\n#EXT-X-MEDIA-SEQUENCE:0\n"
  {
  }

  lemma HeaderIsText()
    ensures HEADER_TEXT == "#EXTM3U\n#EXT-X-VERSION:3\n#EXT-X-MEDIA-SEQUENCE:0\n"
  {
    HeaderLines();
    LastHeaderLines();
    FirstHeaderLine();
    ThreeLines(HEADER[0], HEADER[1], HEADER[2], "\n", "#EXT-X-VERSION:3\n#EXT-X-MEDIA-SEQUENCE:0\n",
               "#EXTM3U\n#EXT-X-VERSION:3\n#EXT-X-MEDIA-SEQUENCE:0\n");
  }

  lemma AppendedIsText(content: string, seconds: string, n: nat, front: string)
    requires front == if content == "" then HEADER_TEXT else content
    ensures Appended(content, seconds, n) == front + "#EXTINF:" + seconds + ",\noutput" + Digits(n) + ".ts\n"
  {
    Literals();
    Regrouped(front, "#EXTINF:", seconds, ",", "\n", OUTPUT, Digits(n), TS, ",\noutput", ".ts\n");
  }

  /** The playlist after one more export. */
  lemma ContentIsText(durations: seq<string>, seconds: string)
    ensures Content([]) == ""
    ensures Content(durations + [seconds])
         == (if durations == [] then "#EXTM3U\n#EXT-X-VERSION:3\n#EXT-X-MEDIA-SEQUENCE:0\n" else Content(durations))
            + "#EXTINF:" + seconds + ",\noutput" + Digits(|durations|) + ".ts\n"
  {
    var front := if durations == [] then HEADER_TEXT else Content(durations);
    AppendedEntry(durations, seconds);
    AppendedIsText(Content(durations), seconds, |durations|, front);
    HeaderIsText();
  }

  lemma DigitsOfNumber()
    ensures Digits(3210) == "3210"
  {
  }
}
