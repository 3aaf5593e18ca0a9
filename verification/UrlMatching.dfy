// What a URL rule of the Crow router is and what it matches: the specification the route trie is
// an index for. A rule is a sequence of characters and parameters; each parameter takes from the URL
// what its reader takes, and the captured values are kept by type in the order of the rule. A linear
// scan over all rules says which rule a URL belongs to.
module UrlMatching {
  import opened Options
  import opened Decimal

  datatype ParamType = INT | UINT | DOUBLE | STRING | PATH | MAX    // MAX = no param

  datatype Token = Char(c: char) | Param(p: ParamType)

  datatype Rule = Rule(tokens: seq<Token>, index: nat)

  /** routing_params; a double is represented by the text it was read from. */
  datatype Params = Params(ints: seq<int>, uints: seq<int>, doubles: seq<string>, strings: seq<string>)

  const NO_PARAMS := Params([], [], [], [])

  datatype Captured =
    | IntValue(i: int) | UintValue(u: int) | DoubleValue(text: string) | StringValue(s: string)

  function Push(params: Params, v: Captured): Params {
    match v
    case IntValue(i) => params.(ints := params.ints + [i])
    case UintValue(u) => params.(uints := params.uints + [u])
    case DoubleValue(t) => params.(doubles := params.doubles + [t])
    case StringValue(s) => params.(strings := params.strings + [s])
  }

  datatype Capture = Capture(next: nat, value: Captured)

  /** strtod: end of the double that starts at a position, `None` for ERANGE or no conversion. */
  type DoubleReader = (string, nat) -> Option<nat>

  function DigitsEnd(url: string, from: nat): (end: nat)
    requires from <= |url|
    ensures from <= end <= |url|
    decreases |url| - from
  {
    if from < |url| && IsDigit(url[from]) then DigitsEnd(url, from + 1) else from
  }

  /** strtoll and strtoull from a position on: optional sign, then digits; out of range is no match. */
  function ReadInteger(url: string, pos: nat, low: int, high: int): Option<(nat, int)>
    requires pos < |url|
  {
    var from := if url[pos] == '+' || url[pos] == '-' then pos + 1 else pos;
    var end := DigitsEnd(url, from);
    var value := if url[pos] == '-' then -DecimalValue(url[from..end]) else DecimalValue(url[from..end]);
    if end == from || value < low || high < value then None else Some((end, value))
  }

  function SegmentEnd(url: string, from: nat): (end: nat)
    requires from <= |url|
    ensures from <= end <= |url|
    decreases |url| - from
  {
    if from < |url| && url[from] != '/' then SegmentEnd(url, from + 1) else from
  }

  /** What a parameter takes from the URL at a position before its end. */
  function MatchParam(double: DoubleReader, p: ParamType, url: string, pos: nat): (m: Option<Capture>)
    requires pos <= |url|
    ensures m.Some? ==> pos < m.value.next <= |url|
  {
    if pos == |url| then None
    else
      var c := url[pos];
      match p
      case INT =>
        if !(IsDigit(c) || c == '+' || c == '-') then None
        else (match ReadInteger(url, pos, -0x8000_0000_0000_0000, 0x7FFF_FFFF_FFFF_FFFF)
              case None => None
              case Some((end, value)) => Some(Capture(end, IntValue(value))))
      case UINT =>
        if !(IsDigit(c) || c == '+') then None
        else (match ReadInteger(url, pos, 0, 0xFFFF_FFFF_FFFF_FFFF)
              case None => None
              case Some((end, value)) => Some(Capture(end, UintValue(value))))
      case DOUBLE =>
        if !(IsDigit(c) || c == '+' || c == '-' || c == '.') then None
        else (match double(url, pos)
              case None => None
              case Some(end) => if pos < end <= |url| then Some(Capture(end, DoubleValue(url[pos..end]))) else None)
      case STRING =>
        var end := SegmentEnd(url, pos);
        if end == pos then None else Some(Capture(end, StringValue(url[pos..end])))
      case PATH => Some(Capture(|url|, StringValue(url[pos..])))
      case MAX => None
  }

  /** How parameters are read; the trie and the scan use the same reader, whatever it is. */
  type ParamReader = (ParamType, string, nat) -> Option<Capture>

  /** Crow's reader, up to the conversion of doubles. */
  function CrowParams(double: DoubleReader): ParamReader {
    (p: ParamType, url: string, pos: nat) => if pos <= |url| then MatchParam(double, p, url, pos) else None
  }

  /** Position and captures after the tokens have been matched one after the other. */
  datatype Progress = Progress(pos: nat, params: Params)

  function MatchToken(reader: ParamReader, t: Token, url: string, at: Progress): (m: Option<Progress>)
    requires at.pos <= |url|
    ensures m.Some? ==> at.pos < m.value.pos <= |url|
  {
    match t
    case Char(c) =>
      if at.pos < |url| && url[at.pos] == c then Some(at.(pos := at.pos + 1)) else None
    case Param(p) =>
      match reader(p, url, at.pos)
      case None => None
      case Some(capture) =>
        if at.pos < capture.next <= |url| then Some(Progress(capture.next, Push(at.params, capture.value))) else None
  }

  function MatchTokens(reader: ParamReader, tokens: seq<Token>, url: string, at: Progress): (m: Option<Progress>)
    requires at.pos <= |url|
    ensures m.Some? ==> at.pos <= m.value.pos <= |url|
    ensures m.Some? && tokens != [] ==> at.pos < m.value.pos
    decreases |tokens|
  {
    if tokens == [] then Some(at)
    else
      match MatchToken(reader, tokens[0], url, at)
      case None => None
      case Some(next) => MatchTokens(reader, tokens[1..], url, next)
  }

  lemma {:induction false} MatchConcat(reader: ParamReader, s: seq<Token>, t: seq<Token>, url: string, at: Progress)
    requires at.pos <= |url|
    ensures MatchTokens(reader, s + t, url, at)
         == match MatchTokens(reader, s, url, at)
            case None => None
            case Some(middle) => MatchTokens(reader, t, url, middle)
    decreases |s|
  {
    if s == [] {
      assert s + t == t;
    } else {
      assert (s + t)[1..] == s[1..] + t;
      var next := MatchToken(reader, s[0], url, at);
      if next.Some? {
        MatchConcat(reader, s[1..], t, url, next.value);
      }
    }
  }

  /** A rule index with its captures. With no rule there are no captures to speak of: no caller reads them. */
  datatype Found = Nothing | Hit(rule: nat, params: Params)

  /** Rule index 0 stands for no rule. */
  function HitOf(index: nat, params: Params): Found {
    if index == 0 then Nothing else Hit(index, params)
  }

  /** `update_found`: the smaller rule index wins. */
  function Better(found: Found, ret: Found): Found {
    if ret.Hit? && (found.Nothing? || found.rule > ret.rule) then ret else found
  }

  /** A rule matches when its tokens use up the whole rest of the URL. */
  function Attempt(reader: ParamReader, r: Rule, url: string, at: Progress): Found
    requires at.pos <= |url|
  {
    match MatchTokens(reader, r.tokens, url, at)
    case None => Nothing
    case Some(end) => if end.pos == |url| then HitOf(r.index, end.params) else Nothing
  }

  /** The linear scan: every rule is tried. */
  function Scan(reader: ParamReader, rules: seq<Rule>, url: string, at: Progress): Found
    requires at.pos <= |url|
  {
    if rules == [] then Nothing
    else Better(Scan(reader, rules[..|rules| - 1], url, at), Attempt(reader, rules[|rules| - 1], url, at))
  }

  lemma {:induction false} ScanConcat(reader: ParamReader, s: seq<Rule>, t: seq<Rule>, url: string, at: Progress)
    requires at.pos <= |url|
    ensures Scan(reader, s + t, url, at) == Better(Scan(reader, s, url, at), Scan(reader, t, url, at))
  {
    if t == [] {
      assert s + t == s;
    } else {
      assert (s + t)[..|s + t| - 1] == s + t[..|t| - 1];
      ScanConcat(reader, s, t[..|t| - 1], url, at);
    }
  }

  /** The scan yields the smallest index of a matching rule with that rule's captures, or nothing if none matches. */
  lemma {:induction false} ScanIsBest(reader: ParamReader, rules: seq<Rule>, url: string, at: Progress)
    requires at.pos <= |url|
    ensures IsBest(Scan(reader, rules, url, at), reader, rules, url, at)
  {
    if rules != [] {
      var front, last := rules[..|rules| - 1], rules[|rules| - 1];
      ScanIsBest(reader, front, url, at);
      assert forall r :: r in rules <==> r in front || r == last;
    }
  }

  /** The smallest index of a matching rule with captures of a matching rule of that index; nothing if no rule matches. */
  ghost predicate IsBest(found: Found, reader: ParamReader, rules: seq<Rule>, url: string, at: Progress)
    requires at.pos <= |url|
  {
    && (found.Hit? ==> exists r :: r in rules && Attempt(reader, r, url, at) == found)
    && (forall r :: r in rules && Attempt(reader, r, url, at).Hit? ==>
          found.Hit? && found.rule <= Attempt(reader, r, url, at).rule)
  }

  ghost predicate DistinctIndices(rules: seq<Rule>) {
    forall r, s :: r in rules && s in rules && r.index == s.index ==> r == s
  }

  /** Order and repetition of the rules are irrelevant. */
  lemma ScanDependsOnSet(reader: ParamReader, rules: seq<Rule>, others: seq<Rule>, url: string, at: Progress)
    requires at.pos <= |url|
    requires DistinctIndices(rules) && forall r :: r in rules <==> r in others
    ensures Scan(reader, rules, url, at) == Scan(reader, others, url, at)
  {
    ScanIsBest(reader, rules, url, at);
    ScanIsBest(reader, others, url, at);
    var a, b := Scan(reader, rules, url, at), Scan(reader, others, url, at);
    if a.Hit? {
      var r :| r in rules && Attempt(reader, r, url, at) == a;
      assert b.Hit?;
      var s :| s in others && Attempt(reader, s, url, at) == b;
      assert a.rule == b.rule;
      assert r.index == a.rule && s.index == b.rule;
    }
  }
}
