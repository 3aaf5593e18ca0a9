// What URL parameters take from a URL, in terms of its characters, and which URLs a rule's text matches.
module RouteParams {
  import opened Options
  import opened Texts
  import opened Decimal
  import opened UrlMatching
  import opened RouteTrie
  import opened RouteRules

  // One parameter.

  /** A segment: not empty, without a slash, and up to a slash or the end. */
  predicate IsSegment(url: string, pos: nat, end: nat) {
    pos < end <= |url| && (forall i :: pos <= i < end ==> url[i] != '/') && (end < |url| ==> url[end] == '/')
  }

  lemma {:induction false} SegmentEndIsNextSlash(url: string, from: nat)
    requires from <= |url|
    ensures var end := SegmentEnd(url, from);
      (forall i :: from <= i < end ==> url[i] != '/') && (end < |url| ==> url[end] == '/')
    decreases |url| - from
  {
    if from < |url| && url[from] != '/' {
      SegmentEndIsNextSlash(url, from + 1);
    }
  }

  /** A string parameter takes the segment that starts there, if one does. */
  lemma StringTakesSegment(double: DoubleReader, url: string, pos: nat, m: Option<Capture>)
    requires pos <= |url| && m == MatchParam(double, STRING, url, pos)
    ensures m.Some? ==> IsSegment(url, pos, m.value.next) && m.value.value == StringValue(url[pos..m.value.next])
    ensures m.None? <==> pos == |url| || url[pos] == '/'
  {
    SegmentEndIsNextSlash(url, pos);
  }

  lemma SegmentIsTaken(double: DoubleReader, url: string, pos: nat, end: nat)
    requires IsSegment(url, pos, end)
    ensures MatchParam(double, STRING, url, pos) == Some(Capture(end, StringValue(url[pos..end])))
  {
    SegmentEndIsNextSlash(url, pos);
    var other := SegmentEnd(url, pos);
    assert other < |url| ==> url[other] == '/';
    assert end < |url| ==> url[end] == '/';
  }

  /** A path parameter takes the whole rest, if there is one. */
  lemma PathTakesRest(double: DoubleReader, url: string, pos: nat)
    requires pos <= |url|
    ensures MatchParam(double, PATH, url, pos)
         == if pos == |url| then None else Some(Capture(|url|, StringValue(url[pos..])))
  {
  }

  /** One of the ten digits. */
  predicate OneOfTen(c: char) {
    c == '0' || c == '1' || c == '2' || c == '3' || c == '4' || c == '5' || c == '6' || c == '7' || c == '8' || c == '9'
  }

  lemma DigitsAreTen(c: char)
    ensures IsDigit(c) <==> OneOfTen(c)
  {
  }

  /** Where the digits of an integer begin: behind its sign, if it has one. */
  function DigitsStart(url: string, pos: nat): (from: nat)
    requires pos < |url|
    ensures pos <= from <= pos + 1
  {
    if url[pos] == '+' || url[pos] == '-' then pos + 1 else pos
  }

  /** Optional sign and a maximal, non-empty run of digits. */
  predicate IsInteger(url: string, pos: nat, end: nat) {
    && pos < |url| && DigitsStart(url, pos) < end <= |url|
    && (forall i :: DigitsStart(url, pos) <= i < end ==> OneOfTen(url[i]))
    && (end < |url| ==> !OneOfTen(url[end]))
  }

  function IntegerAt(url: string, pos: nat, end: nat): int
    requires IsInteger(url, pos, end)
  {
    var value := DecimalValue(url[DigitsStart(url, pos)..end]);
    if url[pos] == '-' then -value else value
  }

  lemma {:induction false} DigitsEndIsMaximal(url: string, from: nat)
    requires from <= |url|
    ensures var end := DigitsEnd(url, from);
      (forall i :: from <= i < end ==> OneOfTen(url[i])) && (end < |url| ==> !OneOfTen(url[end]))
    decreases |url| - from
  {
    if from < |url| {
      DigitsAreTen(url[from]);
      if IsDigit(url[from]) {
        DigitsEndIsMaximal(url, from + 1);
      }
    }
  }

  lemma IntegerEndsAtDigitsEnd(url: string, pos: nat, end: nat)
    requires IsInteger(url, pos, end)
    ensures DigitsEnd(url, DigitsStart(url, pos)) == end
    ensures IsDigit(url[pos]) || url[pos] == '+' || url[pos] == '-'
  {
    var from := DigitsStart(url, pos);
    var other := DigitsEnd(url, from);
    DigitsEndIsMaximal(url, from);
    DigitsAreTen(url[pos]);
    assert other < |url| ==> !OneOfTen(url[other]);
    assert end < |url| ==> !OneOfTen(url[end]);
  }

  /** Only integers in range are read. */
  lemma ReadIsInteger(url: string, pos: nat, low: int, high: int)
    requires pos < |url|
    ensures var r := ReadInteger(url, pos, low, high);
      r.Some? ==> IsInteger(url, pos, r.value.0) && r.value.1 == IntegerAt(url, pos, r.value.0) && low <= r.value.1 <= high
  {
    DigitsEndIsMaximal(url, DigitsStart(url, pos));
  }

  /** Every integer in range is read. */
  lemma IntegerIsRead(url: string, pos: nat, end: nat, low: int, high: int)
    requires IsInteger(url, pos, end)
    ensures ReadInteger(url, pos, low, high)
         == if low <= IntegerAt(url, pos, end) <= high then Some((end, IntegerAt(url, pos, end))) else None
  {
    IntegerEndsAtDigitsEnd(url, pos, end);
  }

  const LLONG_MIN: int := -9223372036854775808
  const LLONG_MAX: int := 9223372036854775807
  const ULLONG_MAX: int := 18446744073709551615

  /** A signed parameter takes nothing but an integer of 64 bits, with its sign and all its digits. */
  lemma IntTakesInteger(double: DoubleReader, url: string, pos: nat, m: Option<Capture>)
    requires pos <= |url| && m == MatchParam(double, INT, url, pos)
    ensures m.Some? ==>
      && IsInteger(url, pos, m.value.next) && m.value.value == IntValue(IntegerAt(url, pos, m.value.next))
      && LLONG_MIN <= IntegerAt(url, pos, m.value.next) <= LLONG_MAX
  {
    if pos < |url| {
      ReadIsInteger(url, pos, LLONG_MIN, LLONG_MAX);
    }
  }

  /** It takes every one of them, and refuses an integer that is out of range. */
  lemma IntegerIsTaken(double: DoubleReader, url: string, pos: nat, end: nat)
    requires IsInteger(url, pos, end)
    ensures MatchParam(double, INT, url, pos)
         == if LLONG_MIN <= IntegerAt(url, pos, end) <= LLONG_MAX then Some(Capture(end, IntValue(IntegerAt(url, pos, end)))) else None
  {
    IntegerIsRead(url, pos, end, LLONG_MIN, LLONG_MAX);
    IntegerEndsAtDigitsEnd(url, pos, end);
  }

  /** An unsigned parameter takes no minus sign. */
  lemma UintTakesInteger(double: DoubleReader, url: string, pos: nat, m: Option<Capture>)
    requires pos <= |url| && m == MatchParam(double, UINT, url, pos)
    ensures m.Some? ==>
      && IsInteger(url, pos, m.value.next) && m.value.value == UintValue(IntegerAt(url, pos, m.value.next))
      && url[pos] != '-' && 0 <= IntegerAt(url, pos, m.value.next) <= ULLONG_MAX
  {
    if pos < |url| {
      ReadIsInteger(url, pos, 0, ULLONG_MAX);
    }
  }

  lemma UnsignedIsTaken(double: DoubleReader, url: string, pos: nat, end: nat)
    requires IsInteger(url, pos, end)
    ensures MatchParam(double, UINT, url, pos)
         == if url[pos] != '-' && IntegerAt(url, pos, end) <= ULLONG_MAX then Some(Capture(end, UintValue(IntegerAt(url, pos, end)))) else None
  {
    IntegerIsRead(url, pos, end, 0, ULLONG_MAX);
    IntegerEndsAtDigitsEnd(url, pos, end);
    ValueIsNatural(url[DigitsStart(url, pos)..end]);
  }

  lemma {:induction false} ValueIsNatural(digits: string)
    requires forall c :: c in digits ==> OneOfTen(c)
    ensures DecimalValue(digits) >= 0
  {
    if digits != "" {
      var last := digits[|digits| - 1];
      assert last in digits;
      DigitsAreTen(last);
      ValueIsNatural(digits[..|digits| - 1]);
    }
  }

  /** The printed text of an integer, in front of something that is no digit, is read as that integer. */
  lemma TextIsInteger(url: string, pos: nat, n: int, end: nat)
    requires end == pos + |Text(n)| <= |url| && url[pos..end] == Text(n) && (end < |url| ==> !OneOfTen(url[end]))
    ensures IsInteger(url, pos, end) && IntegerAt(url, pos, end) == n
  {
    var text, digits := Text(n), Digits(if n < 0 then -n else n);
    var sign := |text| - |digits|;
    ValueOfDigits(if n < 0 then -n else n);
    assert url[pos..end][0] == text[0];
    DigitsAreTen(text[0]);
    assert DigitsStart(url, pos) == pos + sign;
    assert text[sign..] == digits;
    assert url[pos + sign..end] == url[pos..end][sign..];
    forall i | pos + sign <= i < end
      ensures OneOfTen(url[i])
    {
      assert url[i] == digits[i - pos - sign];
      DigitsAreTen(url[i]);
    }
  }

  // Whole URLs.

  /** A part of a rule with what it stands for in a URL. */
  datatype Piece =
    | Fixed(c: char)
    | IntArg(text: string, i: int)
    | UintArg(text: string, u: int)
    | DoubleArg(text: string, long: bool)     // <double>, or <float>
    | StrArg(text: string, long: bool)        // <string>, or <str>
    | PathArg(text: string)

  /** How a rule writes the piece. */
  function RuleText(p: Piece): string {
    match p
    case Fixed(c) => [c]
    case IntArg(_, _) => "<int>"
    case UintArg(_, _) => "<uint>"
    case DoubleArg(_, long) => if long then "<double>" else "<float>"
    case StrArg(_, long) => if long then "<string>" else "<str>"
    case PathArg(_) => "<path>"
  }

  function RuleTexts(ps: seq<Piece>): string {
    if ps == [] then "" else RuleText(ps[0]) + RuleTexts(ps[1..])
  }

  function UrlText(p: Piece): string {
    if p.Fixed? then [p.c] else p.text
  }

  /** The piece stands at a position of the URL, which goes on behind it. */
  ghost predicate Stands(double: DoubleReader, p: Piece, url: string, pos: nat) {
    var end := pos + |UrlText(p)|;
    && pos < end <= |url| && url[pos..end] == UrlText(p)
    && match p
       case Fixed(_) => true
       case IntArg(_, i) => IsInteger(url, pos, end) && i == IntegerAt(url, pos, end) && LLONG_MIN <= i <= LLONG_MAX
       case UintArg(_, u) => IsInteger(url, pos, end) && u == IntegerAt(url, pos, end) && url[pos] != '-' && u <= ULLONG_MAX
       case DoubleArg(_, _) => (IsDigit(url[pos]) || url[pos] == '+' || url[pos] == '-' || url[pos] == '.') && double(url, pos) == Some(end)
       case StrArg(_, _) => IsSegment(url, pos, end)
       case PathArg(_) => end == |url|
  }

  /** Where a piece may stand. */
  type Standing = (Piece, nat) -> bool

  ghost function StandsIn(double: DoubleReader, url: string): Standing {
    (p: Piece, pos: nat) => Stands(double, p, url, pos)
  }

  /** A text from a position to its end consists of the pieces. */
  predicate Spells(stands: Standing, ps: seq<Piece>, pos: nat, end: nat)
    decreases |ps|
  {
    if ps == [] then pos == end else stands(ps[0], pos) && Spells(stands, ps[1..], pos + |UrlText(ps[0])|, end)
  }

  // The arguments in the order of the rule, by type.

  function Ints(ps: seq<Piece>): seq<int> {
    if ps == [] then [] else (if ps[0].IntArg? then [ps[0].i] else []) + Ints(ps[1..])
  }

  function Uints(ps: seq<Piece>): seq<int> {
    if ps == [] then [] else (if ps[0].UintArg? then [ps[0].u] else []) + Uints(ps[1..])
  }

  function Doubles(ps: seq<Piece>): seq<string> {
    if ps == [] then [] else (if ps[0].DoubleArg? then [ps[0].text] else []) + Doubles(ps[1..])
  }

  function Strings(ps: seq<Piece>): seq<string> {
    if ps == [] then [] else (if ps[0].StrArg? || ps[0].PathArg? then [ps[0].text] else []) + Strings(ps[1..])
  }

  /** The captures of a rule that begins with some captures already taken. */
  function Arguments(before: Params, ps: seq<Piece>): Params {
    Params(before.ints + Ints(ps), before.uints + Uints(ps), before.doubles + Doubles(ps), before.strings + Strings(ps))
  }

  // Rule text.

  function TokenOf(p: Piece): Token {
    match p
    case Fixed(c) => Char(c)
    case IntArg(_, _) => Param(INT)
    case UintArg(_, _) => Param(UINT)
    case DoubleArg(_, _) => Param(DOUBLE)
    case StrArg(_, _) => Param(STRING)
    case PathArg(_) => Param(PATH)
  }

  function TokensOf(ps: seq<Piece>): (ts: seq<Token>)
    ensures |ts| == |ps|
  {
    if ps == [] then [] else [TokenOf(ps[0])] + TokensOf(ps[1..])
  }

  predicate NoBracket(ps: seq<Piece>) {
    forall p :: p in ps && p.Fixed? ==> p.c != '<'
  }

  /** Position of a piece's tag in the table of tags. */
  function TagOf(p: Piece): nat {
    match p
    case Fixed(_) => TAG_COUNT
    case IntArg(_, _) => 0
    case UintArg(_, _) => 1
    case DoubleArg(_, long) => if long then 3 else 2
    case StrArg(_, long) => if long then 5 else 4
    case PathArg(_) => 6
  }

  lemma TagTable(p: Piece)
    requires !p.Fixed?
    ensures TagText(TagOf(p)) == RuleText(p) && Param(TagParam(TagOf(p))) == TokenOf(p)
  {
  }

  /** No tag begins another one. */
  lemma TagsDiffer(text: string, at: nat, m: nat, n: nat)
    requires m < n < TAG_COUNT && StartsWith(text, at, TagText(n))
    ensures !StartsWith(text, at, TagText(m))
  {
    if StartsWith(text, at, TagText(m)) {
      StartsWithAt(text, at, TagText(m), 1);
      StartsWithAt(text, at, TagText(n), 1);
      if m == 4 {
        StartsWithAt(text, at, TagText(m), 4);
        StartsWithAt(text, at, TagText(n), 4);
      }
    }
  }

  lemma {:induction false} TagIsFound(text: string, at: nat, n: nat, from: nat)
    requires at <= |text| && from <= n < TAG_COUNT && StartsWith(text, at, TagText(n))
    ensures TagAt(text, at, from) == n
    decreases n - from
  {
    if from < n {
      TagsDiffer(text, at, from, n);
      TagIsFound(text, at, n, from + 1);
    }
  }

  lemma TokenizeChar(text: string, at: nat, ts: seq<Token>)
    requires at < |text| && text[at] != '<' && Tokenize(text, at + 1) == Some(ts)
    ensures Tokenize(text, at) == Some([Char(text[at])] + ts)
  {
  }

  lemma TokenizeTag(text: string, at: nat, tag: nat, next: nat, ts: seq<Token>)
    requires at < |text| && text[at] == '<' && tag == TagAt(text, at, 0) < TAG_COUNT
    requires next == at + |TagText(tag)| <= |text| && Tokenize(text, next) == Some(ts)
    ensures Tokenize(text, at) == Some([Param(TagParam(tag))] + ts)
  {
  }

  lemma TokenizePiece(p: Piece, text: string, at: nat, next: nat, ts: seq<Token>)
    requires at <= |text| && StartsWith(text, at, RuleText(p)) && next == at + |RuleText(p)| <= |text|
    requires (p.Fixed? ==> p.c != '<') && Tokenize(text, next) == Some(ts)
    ensures Tokenize(text, at) == Some([TokenOf(p)] + ts)
  {
    StartsWithAt(text, at, RuleText(p), 0);
    if p.Fixed? {
      TokenizeChar(text, at, ts);
    } else {
      TagTable(p);
      TagIsFound(text, at, TagOf(p), 0);
      TokenizeTag(text, at, TagOf(p), next, ts);
    }
  }

  /** A rule's text is taken apart into its pieces. */
  lemma {:induction false} RuleTextIsTokenized(ps: seq<Piece>, text: string, at: nat)
    requires NoBracket(ps) && at <= |text| && StartsWith(text, at, RuleTexts(ps)) && at + |RuleTexts(ps)| == |text|
    ensures Tokenize(text, at) == Some(TokensOf(ps))
    decreases |ps|
  {
    if ps != [] {
      var p, rest := ps[0], RuleTexts(ps[1..]);
      var next := at + |RuleText(p)|;
      StartsWithParts(text, at, RuleText(p), rest);
      RuleTextIsTokenized(ps[1..], text, next);
      TokenizePiece(p, text, at, next, TokensOf(ps[1..]));
    }
  }

  // Matching.

  lemma ArgumentOf(p: Piece)
    ensures Ints([p]) == if p.IntArg? then [p.i] else []
    ensures Uints([p]) == if p.UintArg? then [p.u] else []
    ensures Doubles([p]) == if p.DoubleArg? then [p.text] else []
    ensures Strings([p]) == if p.StrArg? || p.PathArg? then [p.text] else []
  {
    assert [p][1..] == [];
  }

  function ValueOf(p: Piece): Captured
    requires !p.Fixed?
  {
    match p
    case IntArg(_, i) => IntValue(i)
    case UintArg(_, u) => UintValue(u)
    case DoubleArg(text, _) => DoubleValue(text)
    case StrArg(text, _) => StringValue(text)
    case PathArg(text) => StringValue(text)
  }

  /** One piece adds at most one argument, behind those of its type. */
  lemma OneArgument(before: Params, p: Piece)
    ensures Arguments(before, [p]) == if p.Fixed? then before else Push(before, ValueOf(p))
  {
    ArgumentOf(p);
    assert before.ints + [] == before.ints && before.uints + [] == before.uints;
    assert before.doubles + [] == before.doubles && before.strings + [] == before.strings;
  }

  lemma Regroup<T>(before: seq<T>, first: seq<T>, rest: seq<T>)
    ensures before + first + rest == before + (first + rest)
  {
  }

  lemma ArgumentsInOrder(before: Params, ps: seq<Piece>)
    requires ps != []
    ensures Arguments(Arguments(before, [ps[0]]), ps[1..]) == Arguments(before, ps)
  {
    var first, rest := [ps[0]], ps[1..];
    ArgumentOf(ps[0]);
    Regroup(before.ints, Ints(first), Ints(rest));
    Regroup(before.uints, Uints(first), Uints(rest));
    Regroup(before.doubles, Doubles(first), Doubles(rest));
    Regroup(before.strings, Strings(first), Strings(rest));
  }

  /** A parameter token is its parameter, with the captured value behind those of its type. */
  lemma CrowToken(double: DoubleReader, kind: ParamType, url: string, at: Progress)
    requires at.pos <= |url|
    ensures MatchToken(CrowParams(double), Param(kind), url, at)
         == match MatchParam(double, kind, url, at.pos)
            case None => None
            case Some(capture) => Some(Progress(capture.next, Push(at.params, capture.value)))
  {
  }

  /** What the match of a piece gives. */
  function Behind(p: Piece, at: Progress): Progress {
    Progress(at.pos + |UrlText(p)|, Arguments(at.params, [p]))
  }

  /** A reader takes a piece wherever it stands. */
  ghost predicate TakesPieces(reader: ParamReader, stands: Standing, url: string) {
    forall p: Piece, at: Progress {:trigger MatchToken(reader, TokenOf(p), url, at)} ::
      at.pos <= |url| && stands(p, at.pos) ==> MatchToken(reader, TokenOf(p), url, at) == Some(Behind(p, at))
  }

  lemma CharMatches(reader: ParamReader, c: char, url: string, at: Progress)
    requires at.pos < |url| && url[at.pos..at.pos + 1] == [c]
    ensures MatchToken(reader, Char(c), url, at) == Some(at.(pos := at.pos + 1))
  {
    assert url[at.pos..at.pos + 1][0] == c;
  }

  lemma ArgumentTokenMatches(double: DoubleReader, p: Piece, kind: ParamType, url: string, at: Progress, after: Params)
    requires at.pos <= |url| && Stands(double, p, url, at.pos) && !p.Fixed? && TokenOf(p) == Param(kind)
    requires after == Push(at.params, ValueOf(p))
    ensures MatchToken(CrowParams(double), Param(kind), url, at) == Some(Progress(at.pos + |UrlText(p)|, after))
  {
    CrowToken(double, kind, url, at);
    ArgumentMatches(double, p, url, at.pos);
  }

  lemma PieceMatches(double: DoubleReader, p: Piece, url: string, at: Progress, after: Params)
    requires at.pos <= |url| && Stands(double, p, url, at.pos) && after == if p.Fixed? then at.params else Push(at.params, ValueOf(p))
    ensures MatchToken(CrowParams(double), TokenOf(p), url, at) == Some(Progress(at.pos + |UrlText(p)|, after))
  {
    if p.Fixed? {
      CharMatches(CrowParams(double), p.c, url, at);
    } else {
      ArgumentTokenMatches(double, p, TokenOf(p).p, url, at, after);
    }
  }

  lemma CrowTakesPieces(double: DoubleReader, url: string)
    ensures TakesPieces(CrowParams(double), StandsIn(double, url), url)
  {
    forall p: Piece, at: Progress | at.pos <= |url| && Stands(double, p, url, at.pos)
      ensures MatchToken(CrowParams(double), TokenOf(p), url, at) == Some(Behind(p, at))
    {
      OneArgument(at.params, p);
      PieceMatches(double, p, url, at, Arguments(at.params, [p]));
    }
  }

  lemma MatchFirst(reader: ParamReader, ts: seq<Token>, url: string, at: Progress, next: Progress)
    requires at.pos <= |url| && ts != [] && MatchToken(reader, ts[0], url, at) == Some(next)
    ensures MatchTokens(reader, ts, url, at) == MatchTokens(reader, ts[1..], url, next)
  {
  }

  lemma IntMatches(double: DoubleReader, p: Piece, url: string, pos: nat)
    requires pos <= |url| && p.IntArg?
    ensures Stands(double, p, url, pos) ==> MatchParam(double, INT, url, pos) == Some(Capture(pos + |p.text|, IntValue(p.i)))
  {
    if Stands(double, p, url, pos) {
      IntegerIsTaken(double, url, pos, pos + |p.text|);
    }
  }

  lemma UintMatches(double: DoubleReader, p: Piece, url: string, pos: nat)
    requires pos <= |url| && p.UintArg?
    ensures Stands(double, p, url, pos) ==> MatchParam(double, UINT, url, pos) == Some(Capture(pos + |p.text|, UintValue(p.u)))
  {
    if Stands(double, p, url, pos) {
      UnsignedIsTaken(double, url, pos, pos + |p.text|);
    }
  }

  lemma TextMatches(double: DoubleReader, p: Piece, url: string, pos: nat)
    requires pos <= |url| && (p.DoubleArg? || p.StrArg? || p.PathArg?)
    ensures Stands(double, p, url, pos) ==> MatchParam(double, TokenOf(p).p, url, pos) == Some(Capture(pos + |UrlText(p)|, ValueOf(p)))
  {
    if Stands(double, p, url, pos) && p.StrArg? {
      SegmentIsTaken(double, url, pos, pos + |UrlText(p)|);
    }
    PathTakesRest(double, url, pos);
    assert url[pos..] == url[pos..|url|];
  }

  lemma ArgumentMatches(double: DoubleReader, p: Piece, url: string, pos: nat)
    requires pos <= |url| && !p.Fixed?
    ensures Stands(double, p, url, pos) ==> MatchParam(double, TokenOf(p).p, url, pos) == Some(Capture(pos + |UrlText(p)|, ValueOf(p)))
  {
    if p.IntArg? {
      IntMatches(double, p, url, pos);
    } else if p.UintArg? {
      UintMatches(double, p, url, pos);
    } else {
      TextMatches(double, p, url, pos);
    }
  }

  /** A URL that consists of the pieces is matched, and the captures are their arguments in order. */
  lemma {:induction false} SpellingMatches(reader: ParamReader, stands: Standing, ps: seq<Piece>, ts: seq<Token>, url: string, at: Progress)
    requires at.pos <= |url| && TakesPieces(reader, stands, url) && ts == TokensOf(ps)
    requires Spells(stands, ps, at.pos, |url|)
    ensures MatchTokens(reader, ts, url, at) == Some(Progress(|url|, Arguments(at.params, ps)))
    decreases |ps|
  {
    if ps == [] {
      NoArguments(at.params);
    } else {
      var next := Behind(ps[0], at);
      assert MatchToken(reader, TokenOf(ps[0]), url, at) == Some(next);
      TokensOfFirst(ps);
      MatchFirst(reader, ts, url, at, next);
      SpellingMatches(reader, stands, ps[1..], ts[1..], url, next);
      ArgumentsInOrder(at.params, ps);
    }
  }

  lemma NoArguments(before: Params)
    ensures Arguments(before, []) == before
  {
    assert before.ints + [] == before.ints && before.uints + [] == before.uints;
    assert before.doubles + [] == before.doubles && before.strings + [] == before.strings;
  }

  lemma TokensOfFirst(ps: seq<Piece>)
    requires ps != []
    ensures TokensOf(ps)[0] == TokenOf(ps[0]) && TokensOf(ps)[1..] == TokensOf(ps[1..])
  {
  }

  /** The piece that a parameter takes up to a position. */
  ghost function ArgumentTo(kind: ParamType, url: string, pos: nat, end: nat): (p: Piece)
    requires pos <= end <= |url|
    ensures kind != MAX ==> TokenOf(p) == Param(kind) && UrlText(p) == url[pos..end]
  {
    var text := url[pos..end];
    match kind
    case INT => IntArg(text, if IsInteger(url, pos, end) then IntegerAt(url, pos, end) else 0)
    case UINT => UintArg(text, if IsInteger(url, pos, end) then IntegerAt(url, pos, end) else 0)
    case DOUBLE => DoubleArg(text, true)
    case STRING => StrArg(text, true)
    case PATH | MAX => PathArg(text)
  }

  lemma NumberIsArgument(double: DoubleReader, kind: ParamType, url: string, pos: nat, end: nat)
    requires pos <= |url| && MatchParam(double, kind, url, pos).Some? && end == MatchParam(double, kind, url, pos).value.next
    requires kind == INT || kind == UINT
    ensures Stands(double, ArgumentTo(kind, url, pos, end), url, pos)
  {
    if kind == INT {
      IntTakesInteger(double, url, pos, MatchParam(double, INT, url, pos));
    } else {
      UintTakesInteger(double, url, pos, MatchParam(double, UINT, url, pos));
    }
  }

  lemma TextIsArgument(double: DoubleReader, kind: ParamType, url: string, pos: nat, end: nat)
    requires pos <= |url| && MatchParam(double, kind, url, pos).Some? && end == MatchParam(double, kind, url, pos).value.next
    requires kind == DOUBLE || kind == STRING || kind == PATH
    ensures Stands(double, ArgumentTo(kind, url, pos, end), url, pos)
  {
    StringTakesSegment(double, url, pos, MatchParam(double, STRING, url, pos));
    PathTakesRest(double, url, pos);
  }

  /** What a parameter takes is a piece. */
  lemma MatchIsArgument(double: DoubleReader, kind: ParamType, url: string, pos: nat, end: nat)
    requires pos <= |url| && MatchParam(double, kind, url, pos).Some? && end == MatchParam(double, kind, url, pos).value.next
    ensures Stands(double, ArgumentTo(kind, url, pos, end), url, pos)
  {
    match kind
    case INT | UINT => NumberIsArgument(double, kind, url, pos, end);
    case DOUBLE | STRING | PATH => TextIsArgument(double, kind, url, pos, end);
    case MAX =>
  }

  ghost function PieceTo(t: Token, url: string, pos: nat, end: nat): Piece
    requires pos <= end <= |url|
  {
    match t
    case Char(c) => Fixed(c)
    case Param(kind) => ArgumentTo(kind, url, pos, end)
  }

  ghost function PieceIn(url: string): (Token, nat, nat) -> Piece {
    (t: Token, pos: nat, end: nat) => if pos <= end <= |url| then PieceTo(t, url, pos, end) else Fixed('/')
  }

  lemma MatchIsPiece(double: DoubleReader, t: Token, url: string, at: Progress, end: nat)
    requires at.pos <= |url| && Usable(t) && MatchToken(CrowParams(double), t, url, at).Some?
    requires end == MatchToken(CrowParams(double), t, url, at).value.pos
    ensures var p := PieceTo(t, url, at.pos, end);
      TokenOf(p) == t && Stands(double, p, url, at.pos) && end == at.pos + |UrlText(p)|
  {
    match t
    case Char(c) => assert url[at.pos..at.pos + 1] == [c];
    case Param(kind) =>
      CrowToken(double, kind, url, at);
      MatchIsArgument(double, kind, url, at.pos, end);
  }

  /** A reader takes nothing but pieces: `pieceTo` says which, from a token and the two ends. */
  ghost predicate TakesOnlyPieces(reader: ParamReader, stands: Standing, url: string, pieceTo: (Token, nat, nat) -> Piece) {
    forall t: Token, at: Progress, end: nat {:trigger pieceTo(t, at.pos, end), MatchToken(reader, t, url, at)} ::
      at.pos <= |url| && Usable(t) && MatchToken(reader, t, url, at).Some? && end == MatchToken(reader, t, url, at).value.pos ==>
        var p := pieceTo(t, at.pos, end);
        TokenOf(p) == t && stands(p, at.pos) && end == at.pos + |UrlText(p)|
  }

  lemma CrowTakesOnlyPieces(double: DoubleReader, url: string)
    ensures TakesOnlyPieces(CrowParams(double), StandsIn(double, url), url, PieceIn(url))
  {
    forall t: Token, at: Progress, end: nat
      | at.pos <= |url| && Usable(t) && MatchToken(CrowParams(double), t, url, at).Some?
        && end == MatchToken(CrowParams(double), t, url, at).value.pos
      ensures var p := PieceTo(t, url, at.pos, end);
        TokenOf(p) == t && Stands(double, p, url, at.pos) && end == at.pos + |UrlText(p)|
    {
      MatchIsPiece(double, t, url, at, end);
    }
  }

  /** A URL is matched only if it consists of pieces for the tokens. */
  lemma {:induction false} MatchIsSpelling(reader: ParamReader, stands: Standing, pieceTo: (Token, nat, nat) -> Piece,
                                           ts: seq<Token>, url: string, at: Progress) returns (ps: seq<Piece>)
    requires at.pos <= |url| && UsableTokens(ts) && TakesOnlyPieces(reader, stands, url, pieceTo)
    requires MatchTokens(reader, ts, url, at).Some? && MatchTokens(reader, ts, url, at).value.pos == |url|
    ensures TokensOf(ps) == ts && Spells(stands, ps, at.pos, |url|)
    decreases |ts|
  {
    ps := [];
    if ts != [] {
      assert ts[0] in ts && MatchToken(reader, ts[0], url, at).Some?;
      var next := MatchToken(reader, ts[0], url, at).value;
      var p := pieceTo(ts[0], at.pos, next.pos);
      MatchFirst(reader, ts, url, at, next);
      var rest := MatchIsSpelling(reader, stands, pieceTo, ts[1..], url, next);
      ps := [p] + rest;
      PieceInFront(stands, p, rest, ps, ts, at.pos, |url|);
    }
  }

  lemma PieceInFront(stands: Standing, p: Piece, rest: seq<Piece>, ps: seq<Piece>, ts: seq<Token>, pos: nat, end: nat)
    requires ps == [p] + rest && ts != [] && TokenOf(p) == ts[0] && TokensOf(rest) == ts[1..]
    ensures TokensOf(ps) == ts
    ensures Spells(stands, ps, pos, end) <==> stands(p, pos) && Spells(stands, rest, pos + |UrlText(p)|, end)
  {
    assert ps[1..] == rest;
  }

  /** A rule matches the URLs its pieces spell, with their arguments as captures. */
  lemma SpelledIsHit(double: DoubleReader, r: Rule, url: string, ps: seq<Piece>)
    requires r.index != 0 && TokensOf(ps) == r.tokens && Spells(StandsIn(double, url), ps, 0, |url|)
    ensures Attempt(CrowParams(double), r, url, Progress(0, NO_PARAMS)) == Hit(r.index, Arguments(NO_PARAMS, ps))
  {
    CrowTakesPieces(double, url);
    SpellingMatches(CrowParams(double), StandsIn(double, url), ps, r.tokens, url, Progress(0, NO_PARAMS));
  }

  /** It matches no other URL. */
  lemma HitIsSpelled(double: DoubleReader, r: Rule, url: string) returns (ps: seq<Piece>)
    requires UsableTokens(r.tokens) && r.index != 0
    requires Attempt(CrowParams(double), r, url, Progress(0, NO_PARAMS)).Hit?
    ensures TokensOf(ps) == r.tokens && Spells(StandsIn(double, url), ps, 0, |url|)
    ensures Attempt(CrowParams(double), r, url, Progress(0, NO_PARAMS)) == Hit(r.index, Arguments(NO_PARAMS, ps))
  {
    CrowTakesOnlyPieces(double, url);
    ps := MatchIsSpelling(CrowParams(double), StandsIn(double, url), PieceIn(url), r.tokens, url, Progress(0, NO_PARAMS));
    SpelledIsHit(double, r, url, ps);
  }
}
