// The number scanner of the JSON parser.
module JsonNumber {
  import opened Options
  import opened Texts
  import Decimal
  import opened JsonText

  datatype NumberState = Minus | AfterMinus | ZeroFirst | InDigits | DigitsAfterPoints | E | DigitsAfterE | Invalid

  predicate IsNumberChar(c: char) {
    Decimal.IsDigit(c) || c == '.' || c == '-' || c == '+' || c == 'e' || c == 'E'
  }

  /** The parser's state tables, one per class of character. */
  function NextState(state: NumberState, c: char): NumberState
    requires IsNumberChar(c) && state != Invalid
  {
    if c == '0' then
      (match state
       case Minus | AfterMinus => ZeroFirst
       case ZeroFirst => Invalid
       case InDigits => InDigits
       case DigitsAfterPoints => DigitsAfterPoints
       case E | DigitsAfterE | Invalid => DigitsAfterE)
    else if Decimal.IsDigit(c) then
      (match state
       case Minus | AfterMinus | InDigits => InDigits
       case ZeroFirst => Invalid
       case DigitsAfterPoints => DigitsAfterPoints
       case E | DigitsAfterE | Invalid => DigitsAfterE)
    else if c == '.' then
      (if state == ZeroFirst || state == InDigits then DigitsAfterPoints else Invalid)
    else if c == '-' then
      (if state == Minus then AfterMinus else if state == E then DigitsAfterE else Invalid)
    else if c == '+' then
      (if state == E then DigitsAfterE else Invalid)
    else
      (if state == InDigits || state == DigitsAfterPoints then E else Invalid)
  }

  predicate Accepting(state: NumberState) {
    state == ZeroFirst || state == InDigits || state == DigitsAfterPoints || state == DigitsAfterE
  }

  /** End of the number whose scan is in a state at a position. */
  function NumberEnd(text: string, at: nat, state: NumberState): (end: Option<nat>)
    requires Terminated(text) && at < |text|
    ensures end.Some? ==> at <= end.value < |text|
    ensures state == Minus && end.Some? ==> at < end.value
    decreases |text| - at
  {
    if state == Invalid then None
    else if !IsNumberChar(text[at]) then if Accepting(state) then Some(at) else None
    else NumberEnd(text, at + 1, NextState(state, text[at]))
  }

  /** decode_number, on a buffer that holds `whole` from there on; a run of digits that starts with 1 to 9 is skipped in one go. */
  method DecodeNumber(text: array<char>, data: nat, ghost whole: string) returns (end: Option<nat>)
    requires Terminated(whole) && data < text.Length == |whole|
    requires forall k :: data <= k < |whole| ==> text[k] == whole[k]
    ensures end == NumberEnd(whole, data, Minus)
  {
    var pos, state := data, Minus;
    while state != Invalid
      invariant data <= pos < text.Length
      invariant NumberEnd(whole, pos, state) == NumberEnd(whole, data, Minus)
      decreases text.Length - pos, if state == Invalid then 0 else 1
    {
      var c := text[pos];
      if !IsNumberChar(c) {
        return if Accepting(state) then Some(pos) else None;
      }
      ghost var start, before := pos, state;
      state := NextState(state, c);
      if '1' <= c <= '9' {
        assert IsNumberChar(whole[pos]);
        while Decimal.IsDigit(text[pos + 1])
          invariant data <= start <= pos < text.Length - 1
          invariant NumberEnd(whole, pos + 1, state) == NumberEnd(whole, start, before)
          decreases text.Length - pos
        {
          pos := pos + 1;
          assert state != Invalid ==> NextState(state, whole[pos]) == state;
        }
      }
      pos := pos + 1;
    }
    return None;
  }

  lemma {:induction false} DigitsAreScanned(text: string, at: nat, digits: string)
    requires Terminated(text) && StartsWith(text, at, digits) && Decimal.AllDigits(digits)
    requires at + |digits| < |text| && !IsNumberChar(text[at + |digits|])
    ensures NumberEnd(text, at, InDigits) == Some(at + |digits|)
    decreases |digits|
  {
    if digits != "" {
      StartsWithParts(text, at, digits[..1], digits[1..]);
      assert digits == digits[..1] + digits[1..];
      StartsWithAt(text, at, digits, 0);
      DigitsAreScanned(text, at + 1, digits[1..]);
    }
  }

  lemma NaturalIsScanned(text: string, at: nat, n: nat, state: NumberState)
    requires Terminated(text) && StartsWith(text, at, Decimal.Digits(n))
    requires at + |Decimal.Digits(n)| < |text| && !IsNumberChar(text[at + |Decimal.Digits(n)|])
    requires state == Minus || state == AfterMinus
    ensures NumberEnd(text, at, state) == Some(at + |Decimal.Digits(n)|)
  {
    var digits := Decimal.Digits(n);
    StartsWithAt(text, at, digits, 0);
    if digits[0] != '0' {
      assert digits == digits[..1] + digits[1..];
      StartsWithParts(text, at, digits[..1], digits[1..]);
      DigitsAreScanned(text, at + 1, digits[1..]);
    }
  }

  /** A printed integer is scanned to its end. */
  lemma IntegerIsScanned(text: string, at: nat, n: int)
    requires Terminated(text) && StartsWith(text, at, Decimal.Text(n))
    requires at + |Decimal.Text(n)| < |text| && !IsNumberChar(text[at + |Decimal.Text(n)|])
    ensures NumberEnd(text, at, Minus) == Some(at + |Decimal.Text(n)|)
  {
    if n < 0 {
      StartsWithParts(text, at, "-", Decimal.Digits(-n));
      StartsWithAt(text, at, Decimal.Text(n), 0);
      NaturalIsScanned(text, at + 1, -n, AfterMinus);
    } else {
      NaturalIsScanned(text, at, n, Minus);
    }
  }
}
