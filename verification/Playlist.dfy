// The append-only HLS playlist: what each export appends, and the number it reads back from what is
// already there. The file is a text, read line by line; a regular expression finds the number in a file
// name, and the largest number found decides the next name. Numbers are those of an int: a larger one in
// the file makes the export throw. That the reader undoes the writer is shown for the lines, for a single
// file name and for the whole file.
module Playlist {
  import opened Options
  import opened Decimal

  const INT_MAX: int := 0x7FFF_FFFF

  const NEWLINE := '\n'

  // Text as lines.

  predicate IsLine(s: string) {
    forall i :: 0 <= i < |s| ==> s[i] != NEWLINE
  }

  function Joined(lines: seq<string>): string {
    if lines == [] then "" else lines[0] + [NEWLINE] + Joined(lines[1..])
  }

  function LineEnd(text: string, from: nat): (end: nat)
    requires from <= |text|
    ensures from <= end <= |text| && (end < |text| ==> text[end] == NEWLINE)
    ensures forall i :: from <= i < end ==> text[i] != NEWLINE
    decreases |text| - from
  {
    if from < |text| && text[from] != NEWLINE then LineEnd(text, from + 1) else from
  }

  /** `std::getline` until the end of the file. */
  function Lines(text: string): seq<string>
    decreases |text|
  {
    if text == "" then []
    else
      var end := LineEnd(text, 0);
      if end == |text| then [text] else [text[..end]] + Lines(text[end + 1..])
  }

  lemma FirstLine(line: string, rest: string)
    requires IsLine(line)
    ensures var text := line + [NEWLINE] + rest;
            && LineEnd(text, 0) == |line| && text[..|line|] == line && text[|line| + 1..] == rest
  {
    var text := line + [NEWLINE] + rest;
    var end := LineEnd(text, 0);
    assert text[|line|] == NEWLINE;
    assert forall i :: 0 <= i < |line| ==> text[i] == line[i];
  }

  lemma {:induction false} LinesOfJoined(lines: seq<string>)
    requires forall i :: 0 <= i < |lines| ==> IsLine(lines[i])
    ensures Lines(Joined(lines)) == lines
    decreases |lines|
  {
    if lines != [] {
      FirstLine(lines[0], Joined(lines[1..]));
      LinesOfJoined(lines[1..]);
    }
  }

  lemma {:induction false} JoinedConcat(s: seq<string>, t: seq<string>)
    ensures Joined(s + t) == Joined(s) + Joined(t)
    decreases |s|
  {
    if s == [] {
      assert s + t == t;
    } else {
      assert (s + t)[1..] == s[1..] + t;
      JoinedConcat(s[1..], t);
      assert s[0] + [NEWLINE] + Joined(s[1..]) + Joined(t) == s[0] + [NEWLINE] + (Joined(s[1..]) + Joined(t));
    }
  }

  // regex_search for output(\d+)\.ts

  const OUTPUT := "output"
  const TS := ".ts"

  predicate Has(line: string, at: nat, piece: string) {
    at + |piece| <= |line| && line[at..at + |piece|] == piece
  }

  function DigitsFrom(line: string, at: nat): (end: nat)
    requires at <= |line|
    ensures at <= end <= |line|
    decreases |line| - at
  {
    if at < |line| && IsDigit(line[at]) then DigitsFrom(line, at + 1) else at
  }

  datatype Match = NoMatch | Number(digits: string)

  /** A match that starts at a position; all digits belong to the number, since '.' is not a digit. */
  function MatchAt(line: string, at: nat): Match {
    if !Has(line, at, OUTPUT) then NoMatch
    else
      var start := at + |OUTPUT|;
      var end := DigitsFrom(line, start);
      if end > start && Has(line, end, TS) then Number(line[start..end]) else NoMatch
  }

  /** The leftmost match. */
  function Search(line: string, at: nat): Match
    requires at <= |line|
    decreases |line| - at
  {
    if MatchAt(line, at) != NoMatch || at == |line| then MatchAt(line, at) else Search(line, at + 1)
  }

  function Max(a: int, b: int): int {
    if a < b then b else a
  }

  function LastSegment(lines: seq<string>): int {
    if lines == [] then -1
    else
      var before := LastSegment(lines[..|lines| - 1]);
      match Search(lines[|lines| - 1], 0)
      case NoMatch => before
      case Number(digits) => Max(before, DecimalValue(digits))
  }

  /** The last segment number bounds every number found. */
  lemma {:induction false} LastSegmentIsLargest(lines: seq<string>, i: nat)
    requires i < |lines| && Search(lines[i], 0).Number?
    ensures DecimalValue(Search(lines[i], 0).digits) <= LastSegment(lines)
  {
    if i < |lines| - 1 {
      LastSegmentIsLargest(lines[..|lines| - 1], i);
    }
  }

  /** stoi; `None` is the out_of_range exception. */
  function Stoi(digits: string): Option<int>
    requires AllDigits(digits)
  {
    if DecimalValue(digits) <= INT_MAX then Some(DecimalValue(digits)) else None
  }

  lemma SearchGivesDigits(line: string, at: nat)
    requires at <= |line|
    ensures Search(line, at).Number? ==> AllDigits(Search(line, at).digits)
    decreases |line| - at
  {
    if at + |OUTPUT| <= |line| {
      DigitsFromAreDigits(line, at + |OUTPUT|);
    }
  }

  lemma DigitsFromAreDigits(line: string, at: nat)
    requires at <= |line|
    ensures forall i :: at <= i < DigitsFrom(line, at) ==> IsDigit(line[i])
    decreases |line| - at
  {
  }

  /**
   * readLastSegmentNumber; an absent file has no lines. A number beyond int makes stoi throw, wherever
   * it stands in the file.
   */
  method ReadLastSegmentNumber(content: string) returns (lastSegment: Option<int>)
    ensures lastSegment == if LastSegment(Lines(content)) <= 0x7FFF_FFFF then Some(LastSegment(Lines(content))) else None
  {
    var lines := Lines(content);
    var last := -1;
    for i := 0 to |lines|
      invariant last == LastSegment(lines[..i]) <= INT_MAX
    {
      var m := Search(lines[i], 0);
      if m.Number? {
        SearchGivesDigits(lines[i], 0);
        var number := Stoi(m.digits);
        if number.None? {
          LastSegmentIsLargest(lines, i);
          return None;
        }
        last := Max(last, number.value);
      }
      assert lines[..i + 1][..i] == lines[..i];
    }
    assert lines[..|lines|] == lines;
    lastSegment := Some(last);
  }

  // What is written.

  const HEADER := ["#EXTM3U", "#EXT-X-VERSION:3", "#EXT-X-MEDIA-SEQUENCE:0"]

  /** BaseHlsString. */
  const HEADER_TEXT := HEADER[0] + "\n" + HEADER[1] + "\n" + HEADER[2] + "\n"

  function FileName(n: nat): string {
    OUTPUT + Digits(n) + TS
  }

  function Duration(seconds: string): string {
    "#EXTINF:" + seconds + ","
  }

  /** A printed duration, whatever its form: it stays on its line, and has no letter that begins a file name. */
  predicate IsDuration(seconds: string) {
    forall i :: 0 <= i < |seconds| ==> seconds[i] != '\n' && seconds[i] != 'o'
  }

  function Entry(n: nat, seconds: string): seq<string> {
    [Duration(seconds), FileName(n)]
  }

  /** The lines after `n` exports. */
  function Entries(durations: seq<string>): seq<string> {
    if durations == [] then HEADER
    else Entries(durations[..|durations| - 1]) + Entry(|durations| - 1, durations[|durations| - 1])
  }

  function Content(durations: seq<string>): string {
    if durations == [] then "" else Joined(Entries(durations))
  }

  // The reader undoes the writer.

  predicate NoO(line: string) {
    forall i :: 0 <= i < |line| ==> line[i] != 'o'
  }

  lemma {:induction false} NoFileName(line: string, at: nat)
    requires NoO(line) && at <= |line|
    ensures Search(line, at) == NoMatch
    decreases |line| - at
  {
    if at + |OUTPUT| <= |line| {
      assert line[at..at + |OUTPUT|][0] == line[at] && OUTPUT[0] == 'o';
    }
    if at < |line| {
      NoFileName(line, at + 1);
    }
  }

  lemma {:induction false} DigitsEnd(line: string, at: nat, digits: string)
    requires at + |digits| < |line| && AllDigits(digits) && line[at..at + |digits|] == digits
    requires !IsDigit(line[at + |digits|])
    ensures DigitsFrom(line, at) == at + |digits|
    decreases |digits|
  {
    if digits != "" {
      assert line[at..at + |digits|][0] == line[at];
      assert line[at + 1..at + |digits|] == line[at..at + |digits|][1..];
      DigitsEnd(line, at + 1, digits[1..]);
    }
  }

  lemma FileNameIsFound(n: nat)
    ensures Search(FileName(n), 0) == Number(Digits(n))
  {
    var line, digits := FileName(n), Digits(n);
    assert line[0..|OUTPUT|] == OUTPUT;
    assert line[|OUTPUT|..|OUTPUT| + |digits|] == digits;
    assert line[|OUTPUT| + |digits|..] == TS;
    assert line[|OUTPUT| + |digits|] == TS[0];
    DigitsEnd(line, |OUTPUT|, digits);
  }

  lemma {:induction false} NothingNumbered(lines: seq<string>)
    requires forall i :: 0 <= i < |lines| ==> Search(lines[i], 0) == NoMatch
    ensures LastSegment(lines) == -1
  {
    if lines != [] {
      NothingNumbered(lines[..|lines| - 1]);
    }
  }

  lemma HeaderHasNoFileName()
    ensures LastSegment(HEADER) == -1
  {
    forall i | 0 <= i < |HEADER|
      ensures Search(HEADER[i], 0) == NoMatch
    {
      NoFileName(HEADER[i], 0);
    }
    NothingNumbered(HEADER);
  }

  lemma LastOfTwo(lines: seq<string>, a: string, b: string)
    ensures LastSegment(lines + [a, b])
         == match Search(b, 0)
            case NoMatch => LastSegment(lines + [a])
            case Number(digits) => Max(LastSegment(lines + [a]), DecimalValue(digits))
    ensures Search(a, 0) == NoMatch ==> LastSegment(lines + [a]) == LastSegment(lines)
  {
    assert (lines + [a, b])[..|lines| + 1] == lines + [a];
    assert (lines + [a])[..|lines|] == lines;
  }

  predicate AllDurations(durations: seq<string>) {
    forall i :: 0 <= i < |durations| ==> IsDuration(durations[i])
  }

  /** After n exports the last number read is n - 1. */
  lemma {:induction false} LastSegmentOfEntries(durations: seq<string>)
    requires AllDurations(durations)
    ensures LastSegment(Entries(durations)) == |durations| - 1
  {
    if durations == [] {
      HeaderHasNoFileName();
    } else {
      var n, front := |durations| - 1, durations[..|durations| - 1];
      LastSegmentOfEntries(front);
      NoFileName(Duration(durations[n]), 0);
      FileNameIsFound(n);
      ValueOfDigits(n);
      LastOfTwo(Entries(front), Duration(durations[n]), FileName(n));
    }
  }

  lemma {:induction false} EntriesAreLines(durations: seq<string>)
    requires AllDurations(durations)
    ensures forall i :: 0 <= i < |Entries(durations)| ==> IsLine(Entries(durations)[i])
  {
    if durations != [] {
      EntriesAreLines(durations[..|durations| - 1]);
    }
  }

  lemma ReadBack(durations: seq<string>)
    requires AllDurations(durations)
    ensures LastSegment(Lines(Content(durations))) == |durations| - 1
  {
    if durations != [] {
      EntriesAreLines(durations);
      LinesOfJoined(Entries(durations));
      LastSegmentOfEntries(durations);
    }
  }

  class PlaylistFile {
    var content: string
    /** Durations of the segments exported so far. */
    ghost var durations: seq<string>

    ghost predicate Valid()
      reads this
    {
      AllDurations(durations) && content == Content(durations)
    }

    constructor ()
      ensures Valid() && content == "" && durations == []
    {
      content, durations := "", [];
    }

    /**
     * The playlist part of CreateHLSVideoSegment; `segment` is the number in the new file's name, `None`
     * the exception. The original adds 1 to an int.
     */
    method Export(seconds: string) returns (segment: Option<nat>)
      requires IsDuration(seconds) && LastSegment(Lines(content)) != 0x7FFF_FFFF
      modifies this
      ensures segment == if LastSegment(Lines(old(content))) < 0x7FFF_FFFF then Some(LastSegment(Lines(old(content))) + 1) else None
      ensures segment.None? ==> content == old(content) && durations == old(durations)
      ensures segment.Some? ==> content == Appended(old(content), seconds, segment.value)
      ensures segment.Some? && old(Valid()) ==> Valid() && durations == old(durations) + [seconds] && segment.value == |old(durations)|
    {
      LastSegmentIsAtLeast(Lines(content));
      var last := ReadLastSegmentNumber(content);
      if last.None? {
        return None;
      }
      var number := last.value + 1;
      ExportedEntry(content, durations, seconds, number);
      AppendEntry(seconds, number);
      segment := Some(number);
    }

    method AppendEntry(seconds: string, number: nat)
      modifies this
      ensures content == Appended(old(content), seconds, number) && durations == old(durations) + [seconds]
    {
      if content == "" {
        content := content + HEADER_TEXT;
      }
      content := content + (Duration(seconds) + "\n" + FileName(number) + "\n");
      durations := durations + [seconds];
    }

    /**
     * Exports in a row: one header and the entries output0.ts to output(n-1).ts in order, as long as
     * the numbers are those of an int.
     */
    method ExportAll(all: seq<string>)
      requires content == "" && durations == [] && AllDurations(all) && |all| <= 0x8000_0000
      modifies this
      ensures content == Content(all)
    {
      for i := 0 to |all|
        invariant Valid() && durations == all[..i]
      {
        ReadBack(durations);
        var segment := Export(all[i]);
        assert segment == Some(i);
        assert all[..i + 1] == all[..i] + [all[i]];
      }
      assert all[..|all|] == all;
    }
  }

  /** What an export makes of the file. */
  function Appended(content: string, seconds: string, n: nat): string {
    (if content == "" then HEADER_TEXT else content) + (Duration(seconds) + "\n" + FileName(n) + "\n")
  }

  lemma LastSegmentIsAtLeast(lines: seq<string>)
    ensures LastSegment(lines) >= -1
  {
  }

  lemma ExportedEntry(content: string, durations: seq<string>, seconds: string, n: nat)
    requires n == LastSegment(Lines(content)) + 1 && IsDuration(seconds)
    ensures AllDurations(durations) && content == Content(durations) ==>
      && n == |durations| && AllDurations(durations + [seconds])
      && Appended(content, seconds, n) == Content(durations + [seconds])
  {
    if AllDurations(durations) && content == Content(durations) {
      ReadBack(durations);
      AppendedEntry(durations, seconds);
    }
  }

  lemma JoinedEntry(a: string, b: string)
    ensures Joined([a, b]) == a + "\n" + b + "\n"
  {
    assert [a, b][1..] == [b] && [b][1..] == [];
    assert Joined([b]) == b + "\n";
  }

  lemma JoinedHeader()
    ensures Joined(HEADER) == HEADER_TEXT
  {
    assert HEADER == [HEADER[0]] + [HEADER[1], HEADER[2]];
    JoinedConcat([HEADER[0]], [HEADER[1], HEADER[2]]);
    JoinedEntry(HEADER[1], HEADER[2]);
    assert [HEADER[0]][1..] == [];
  }

  lemma ContentIsNotEmpty(durations: seq<string>)
    ensures durations != [] ==> Content(durations) != ""
    ensures Joined(Entries(durations)) == (if durations == [] then HEADER_TEXT else Content(durations))
  {
    JoinedHeader();
    if durations != [] {
      assert Entries(durations) != [];
    }
  }

  /** An export appends its two lines, to an empty file behind the header. */
  lemma AppendedEntry(durations: seq<string>, seconds: string)
    ensures durations != [] ==> Content(durations) != ""
    ensures Content(durations + [seconds]) == Appended(Content(durations), seconds, |durations|)
  {
    ContentIsNotEmpty(durations);
    assert (durations + [seconds])[..|durations|] == durations;
    JoinedConcat(Entries(durations), Entry(|durations|, seconds));
    JoinedEntry(Duration(seconds), FileName(|durations|));
  }
}
