// The body states of the HTTP parser, one octet at a time.
module HttpBody {
  import opened Bytes

  const ULLONG_MAX: nat := 0xFFFF_FFFF_FFFF_FFFF
  const MAX_HEADER_SIZE: nat := 81920

  const CR: byte := 13
  const LF: byte := 10
  const SPACE: byte := 32
  const SEMICOLON: byte := 59

  datatype State =
    | HeadersDone                     // a message without a body: complete, and still in s_headers_done
    | ChunkSizeStart | ChunkSize | ChunkParameters | ChunkSizeAlmostDone
    | TrailerStart                    // s_header_field_start behind the last chunk
    | Trailer                         // a trailer field has begun: no further modelled
    | HeadersAlmostDone               // behind the last chunk: the final line feed is still to come, or was seen
    | ChunkData | ChunkDataAlmostDone | ChunkDataDone
    | BodyIdentity | MessageDone

  datatype Errno = Ok | Strict | InvalidChunkSize | InvalidContentLength | HeaderOverflow

  /** `body` is what on_body has been given, `completions` counts the message_complete callbacks. */
  datatype Parser = Parser(state: State, contentLength: nat, nread: nat, errno: Errno, body: seq<byte>, completions: nat)

  /** CROW_PARSING_HEADER: chunk sizes and trailers count against the header limit. */
  predicate ParsingHeader(s: State) {
    s.HeadersDone? || s.ChunkSizeStart? || s.ChunkSize? || s.ChunkParameters? || s.ChunkSizeAlmostDone?
    || s.TrailerStart? || s.Trailer? || s.HeadersAlmostDone?
  }

  function Unhex(ch: byte): (v: int)
    ensures -1 <= v < 16
  {
    if 48 <= ch <= 57 then ch - 48
    else if 65 <= ch <= 70 then ch - 55
    else if 97 <= ch <= 102 then ch - 87
    else -1
  }

  function Fail(p: Parser, e: Errno): Parser {
    p.(errno := e)
  }

  function Complete(p: Parser): Parser {
    p.(completions := p.completions + 1)
  }

  /** The conservative overflow test of both accumulators. */
  predicate WouldOverflow(soFar: nat, base: nat)
    requires base > 0
  {
    (ULLONG_MAX - base) / base < soFar
  }

  /** One octet. */
  function Step(p: Parser, ch: byte): Parser {
    if p.errno != Ok then p
    else
      var counted := if ParsingHeader(p.state) then p.(nread := p.nread + 1) else p;
      if ParsingHeader(p.state) && counted.nread > MAX_HEADER_SIZE then Fail(counted, HeaderOverflow)
      else Act(counted, ch)
  }

  function Act(p: Parser, ch: byte): Parser {
    match p.state
    case HeadersDone => if ch != LF then Fail(p, Strict) else Complete(p.(nread := 0))
    case ChunkSizeStart =>
      if Unhex(ch) == -1 then Fail(p, InvalidChunkSize)
      else p.(contentLength := Unhex(ch), state := ChunkSize)
    case ChunkSize =>
      if ch == CR then p.(state := ChunkSizeAlmostDone)
      else if Unhex(ch) == -1 then
        if ch == SEMICOLON || ch == SPACE then p.(state := ChunkParameters) else Fail(p, InvalidChunkSize)
      else if WouldOverflow(p.contentLength, 16) then Fail(p, InvalidContentLength)
      else p.(contentLength := (p.contentLength * 16 + Unhex(ch)) % SIZE_T_MODULUS)
    case ChunkParameters => if ch == CR then p.(state := ChunkSizeAlmostDone) else p
    case ChunkSizeAlmostDone =>
      if ch != LF then Fail(p, Strict)
      else p.(nread := 0, state := if p.contentLength == 0 then TrailerStart else ChunkData)
    case TrailerStart =>
      if ch == CR then p.(state := HeadersAlmostDone)
      else if ch == LF then Complete(p.(state := HeadersAlmostDone))
      else p.(state := Trailer)
    case Trailer => p
    case HeadersAlmostDone => if ch != LF then Fail(p, Strict) else Complete(p)
    case ChunkData => BodyOctet(p, ch, ChunkDataAlmostDone)
    case ChunkDataAlmostDone => if ch != CR then Fail(p, Strict) else p.(state := ChunkDataDone)
    case ChunkDataDone => if ch != LF then Fail(p, Strict) else p.(nread := 0, state := ChunkSizeStart)
    case BodyIdentity =>
      var more := BodyOctet(p, ch, MessageDone);
      if more.state == MessageDone then Complete(more) else more
    case MessageDone => Complete(p)
  }

  function BodyOctet(p: Parser, ch: byte, done: State): Parser {
    var left := if p.contentLength > 0 then p.contentLength - 1 else 0;
    p.(contentLength := left, body := p.body + [ch], state := if left == 0 then done else p.state)
  }

  function Run(p: Parser, octets: seq<byte>): Parser {
    if octets == [] then p else Step(Run(p, octets[..|octets| - 1]), octets[|octets| - 1])
  }

  /** The split into buffers is invisible. */
  lemma {:induction false} RunConcat(p: Parser, s: seq<byte>, t: seq<byte>)
    ensures Run(p, s + t) == Run(Run(p, s), t)
  {
    if t == [] {
      assert s + t == s;
    } else {
      assert (s + t)[..|s + t| - 1] == s + t[..|t| - 1];
      RunConcat(p, s, t[..|t| - 1]);
    }
  }

  /** After the headers: chunked, of known length, or without a body. */
  function Start(chunked: bool, contentLength: nat): Parser {
    if chunked then Parser(ChunkSizeStart, contentLength, 0, Ok, [], 0)
    else if contentLength == 0 || contentLength == ULLONG_MAX then Parser(HeadersDone, contentLength, 0, Ok, [], 1)
    else Parser(BodyIdentity, contentLength, 0, Ok, [], 0)
  }

  // What holds in every reachable state.

  /**
   * The assertions in the parser, and the accumulator below its bound: since it is only extended
   * while no digit can wrap it, the reduction to 64 bits never does anything.
   */
  predicate Invariant(p: Parser) {
    p.errno == Ok ==>
      && p.nread <= MAX_HEADER_SIZE
      && match p.state
         case HeadersDone => p.nread == 0 && (p.contentLength == 0 || p.contentLength == ULLONG_MAX)
         case ChunkSizeStart => p.nread == 0
         case ChunkSize | ChunkParameters | ChunkSizeAlmostDone => p.contentLength < ULLONG_MAX - 15
         case ChunkData => 0 < p.contentLength < ULLONG_MAX - 15
         case BodyIdentity => 0 < p.contentLength < ULLONG_MAX
         case ChunkDataAlmostDone | ChunkDataDone | TrailerStart | Trailer | HeadersAlmostDone => p.contentLength == 0
         case MessageDone => true
  }

  lemma NoWrap(soFar: nat, base: nat, digit: nat)
    requires base == 10 || base == 16
    requires digit < base && !WouldOverflow(soFar, base)
    ensures soFar * base + digit < ULLONG_MAX - (base - digit) + 1 < SIZE_T_MODULUS
  {
  }

  lemma StepKeepsInvariant(p: Parser, ch: byte)
    requires Invariant(p)
    ensures Invariant(Step(p, ch))
    ensures p.state == ChunkSize && Unhex(ch) >= 0 && Step(p, ch).errno == Ok ==>
      Step(p, ch).contentLength == p.contentLength * 16 + Unhex(ch)
  {
    if p.state == ChunkSize && Unhex(ch) >= 0 && !WouldOverflow(p.contentLength, 16) {
      NoWrap(p.contentLength, 16, Unhex(ch));
    }
  }

  /** For any input whatever. */
  lemma {:induction false} InvariantAlways(p: Parser, octets: seq<byte>)
    requires Invariant(p)
    ensures Invariant(Run(p, octets))
  {
    if octets != [] {
      InvariantAlways(p, octets[..|octets| - 1]);
      StepKeepsInvariant(Run(p, octets[..|octets| - 1]), octets[|octets| - 1]);
    }
  }

  // Bodies of known length

  /** Where a body of length `n` stands after some octets. */
  function AfterIdentity(n: nat, octets: seq<byte>): Parser {
    if |octets| < n then Parser(BodyIdentity, n - |octets|, 0, Ok, octets, 0)
    else Parser(MessageDone, 0, 0, Ok, octets[..n], |octets| - n + 1)
  }

  lemma IdentityStep(n: nat, octets: seq<byte>, last: byte)
    requires 0 < n
    ensures Step(AfterIdentity(n, octets), last) == AfterIdentity(n, octets + [last])
  {
    if n <= |octets| {
      assert (octets + [last])[..n] == octets[..n];
    } else {
      assert |octets| + 1 == n ==> (octets + [last])[..n] == octets + [last];
    }
  }

  /**
   * The body is the next `n` octets; message_complete fires with the last of them, and again for every
   * further octet of the connection that is fed before the parser is reset.
   */
  lemma {:induction false} IdentityBody(n: nat, octets: seq<byte>)
    requires 0 < n < ULLONG_MAX
    ensures Run(Start(false, n), octets) == AfterIdentity(n, octets)
  {
    if octets != [] {
      var front, last := octets[..|octets| - 1], octets[|octets| - 1];
      IdentityBody(n, front);
      IdentityStep(n, front, last);
      assert octets == front + [last];
    }
  }

  // Messages without a body

  predicate OnlyLineFeeds(octets: seq<byte>) {
    forall i :: 0 <= i < |octets| ==> octets[i] == LF
  }

  /**
   * Without a body the message is complete behind the headers and once more for every further line
   * feed; any other octet is refused.
   */
  lemma {:induction false} EmptyBody(n: nat, octets: seq<byte>)
    requires n == 0 || n == ULLONG_MAX
    ensures if OnlyLineFeeds(octets) then Run(Start(false, n), octets) == Parser(HeadersDone, n, 0, Ok, [], 1 + |octets|)
            else Run(Start(false, n), octets).errno == Strict
  {
    if octets != [] {
      EmptyBody(n, octets[..|octets| - 1]);
    }
  }

  // The Content-Length header

  /** The octet is the decimal digit for a value. */
  predicate IsDecimalDigit(octet: byte, d: nat) {
    match d
    case 0 => octet == 48 case 1 => octet == 49 case 2 => octet == 50 case 3 => octet == 51 case 4 => octet == 52
    case 5 => octet == 53 case 6 => octet == 54 case 7 => octet == 55 case 8 => octet == 56 case 9 => octet == 57
    case _ => false
  }

  /** Decimal text of a number, leading zeros allowed. */
  predicate IsDecimalText(text: seq<byte>, n: nat)
    decreases |text|
  {
    if text == [] then n == 0
    else IsDecimalDigit(text[|text| - 1], n % 10) && IsDecimalText(text[..|text| - 1], n / 10)
  }

  predicate AllDecimal(digits: seq<byte>) {
    forall i :: 0 <= i < |digits| ==> 48 <= digits[i] <= 57
  }

  function DigitOf(d: byte): (v: nat)
    requires 48 <= d <= 57
    ensures v < 10
  {
    d - 48
  }

  datatype Length = Refused | Accepted(value: nat)

  /** The digits of a Content-Length value, one after the other; `Refused` is the invalid-length error. */
  function ReadLength(digits: seq<byte>): Length
    requires digits != [] && AllDecimal(digits)
    decreases |digits|
  {
    var last := digits[|digits| - 1];
    if |digits| == 1 then Accepted(DigitOf(last))
    else
      match ReadLength(digits[..|digits| - 1])
      case Refused => Refused
      case Accepted(soFar) =>
        if WouldOverflow(soFar, 10) then Refused else Accepted((soFar * 10 + DigitOf(last)) % SIZE_T_MODULUS)
  }

  function DecimalOf(digits: seq<byte>): nat
    requires AllDecimal(digits)
  {
    if digits == [] then 0 else DecimalOf(digits[..|digits| - 1]) * 10 + DigitOf(digits[|digits| - 1])
  }

  lemma OneMoreDigit(soFar: nat, digit: nat)
    requires digit < 10
    ensures WouldOverflow(soFar, 10) <==> soFar * 10 + digit > 18446744073709551609
    ensures !WouldOverflow(soFar, 10) ==> (soFar * 10 + digit) % SIZE_T_MODULUS == soFar * 10 + digit
  {
  }

  lemma {:induction false} DecimalTextIsRead(text: seq<byte>, n: nat)
    ensures IsDecimalText(text, n) <==> AllDecimal(text) && DecimalOf(text) == n
    decreases |text|
  {
    if text != [] {
      var front, last := text[..|text| - 1], text[|text| - 1];
      DecimalTextIsRead(front, n / 10);
      assert AllDecimal(text) <==> AllDecimal(front) && 48 <= last <= 57;
    }
  }

  lemma {:induction false} ReadLengthIsDecimal(digits: seq<byte>)
    requires digits != [] && AllDecimal(digits)
    ensures ReadLength(digits) == if DecimalOf(digits) <= 18446744073709551609 then Accepted(DecimalOf(digits)) else Refused
    decreases |digits|
  {
    if |digits| > 1 {
      ReadLengthIsDecimal(digits[..|digits| - 1]);
      OneMoreDigit(DecimalOf(digits[..|digits| - 1]), DigitOf(digits[|digits| - 1]));
    } else {
      assert DecimalOf(digits[..0]) == 0;
    }
  }

  /** Exactly the numbers up to 18446744073709551609 are accepted, and read without wrapping. */
  lemma LengthIsExact(digits: seq<byte>, n: nat)
    requires digits != [] && IsDecimalText(digits, n)
    ensures AllDecimal(digits) && ReadLength(digits) == if n <= 18446744073709551609 then Accepted(n) else Refused
  {
    DecimalTextIsRead(digits, n);
    ReadLengthIsDecimal(digits);
  }
}
