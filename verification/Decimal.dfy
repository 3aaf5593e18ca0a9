// Decimal text of integers. Numbers of JSON values and of URL parameters, and the segment numbers in the
// file names of a playlist, are printed and read as decimal digits; reading what was printed gives the
// number back. Digits are read from the left, each time ten times what was read plus the next digit, and
// a minus sign in front negates the whole.
module Decimal {

  predicate IsDigit(c: char) {
    '0' <= c <= '9'
  }

  predicate AllDigits(s: string) {
    forall i :: 0 <= i < |s| ==> IsDigit(s[i])
  }

  function DecimalValue(digits: string): int {
    if digits == "" then 0
    else DecimalValue(digits[..|digits| - 1]) * 10 + (digits[|digits| - 1] as int - '0' as int)
  }

  function DigitChar(d: int): (c: char)
    requires 0 <= d < 10
    ensures IsDigit(c) && c as int - '0' as int == d
  {
    ('0' as int + d) as char
  }

  /** Shortest decimal text of a natural number. */
  function Digits(n: nat): (s: string)
    ensures |s| > 0 && AllDigits(s)
    ensures s[0] == '0' ==> n == 0 && s == "0"
  {
    if n < 10 then [DigitChar(n)] else Digits(n / 10) + [DigitChar(n % 10)]
  }

  lemma {:induction false} ValueOfDigits(n: nat)
    ensures DecimalValue(Digits(n)) == n
  {
    if n >= 10 {
      ValueOfDigits(n / 10);
      assert Digits(n)[..|Digits(n)| - 1] == Digits(n / 10);
    } else {
      assert Digits(n)[..0] == "";
    }
  }

  /** `std::to_string` of an integer. */
  function Text(n: int): string {
    if n < 0 then "-" + Digits(-n) else Digits(n)
  }

  /** The value of integer text: optional minus sign, then digits. */
  function Value(text: string): int {
    if text != "" && text[0] == '-' then -DecimalValue(text[1..]) else DecimalValue(text)
  }

  lemma ValueOfText(n: int)
    ensures Value(Text(n)) == n
  {
    if n < 0 {
      assert Text(n)[1..] == Digits(-n);
      ValueOfDigits(-n);
    } else {
      assert IsDigit(Text(n)[0]);
      ValueOfDigits(n);
    }
  }
}
