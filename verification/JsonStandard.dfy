// Where the numbers and strings of the parser differ from those of RFC 8259.
module JsonStandard {
  import opened Options
  import opened JsonText
  import opened JsonTree
  import opened JsonGrammar

  // Section 6 of RFC 8259.

  /** One digit, then digits. */
  predicate SomeDigits(text: string, i: nat, end: nat)
    requires end <= |text|
  {
    i < end && NumberDigit(text[i]) && Digits(text, i + 1, end)
  }

  predicate IsE(text: string, i: nat, end: nat)
    requires end <= |text|
  {
    i < end && (text[i] == 'e' || text[i] == 'E')
  }

  predicate IsSign(text: string, i: nat, end: nat)
    requires end <= |text|
  {
    i < end && (text[i] == '+' || text[i] == '-')
  }

  /** An exponent or nothing. */
  predicate Exp(text: string, i: nat, end: nat)
    requires end <= |text|
  {
    i == end || (IsE(text, i, end) && SomeDigits(text, if IsSign(text, i + 1, end) then i + 2 else i + 1, end))
  }

  /** More digits of a fraction. */
  predicate FracDigits(text: string, i: nat, end: nat)
    requires end <= |text|
    decreases if i < end then end - i else 0
  {
    Exp(text, i, end) || (i < end && NumberDigit(text[i]) && FracDigits(text, i + 1, end))
  }

  /** A fraction and an exponent, both optional. */
  predicate FracExp(text: string, i: nat, end: nat)
    requires end <= |text|
  {
    Exp(text, i, end) || (i + 1 < end && text[i] == '.' && NumberDigit(text[i + 1]) && FracDigits(text, i + 2, end))
  }

  /** More digits of an integer part that does not begin with zero. */
  predicate IntDigits(text: string, i: nat, end: nat)
    requires end <= |text|
    decreases if i < end then end - i else 0
  {
    FracExp(text, i, end) || (i < end && NumberDigit(text[i]) && IntDigits(text, i + 1, end))
  }

  predicate StandardUnsigned(text: string, i: nat, end: nat)
    requires end <= |text|
  {
    i < end && if text[i] == '0' then FracExp(text, i + 1, end) else NumberDigit(text[i]) && IntDigits(text, i + 1, end)
  }

  predicate StandardNumber(text: string, i: nat, end: nat)
    requires end <= |text|
  {
    i < end && StandardUnsigned(text, if text[i] == '-' then i + 1 else i, end)
  }

  // What the parser asks for instead.

  predicate DigitAt(text: string, i: nat, end: nat)
    requires end <= |text|
  {
    i < end && NumberDigit(text[i])
  }

  predicate DigitBehind(text: string, i: nat, end: nat)
    requires i < end <= |text|
  {
    text[i] == '.' || text[i] == '+' || text[i] == '-' ==> DigitAt(text, i + 1, end)
  }

  /** A digit stands behind every point and sign. */
  predicate DigitsBehind(text: string, i: nat, end: nat)
    requires end <= |text|
  {
    forall k: nat :: i <= k < end ==> DigitBehind(text, k, end)
  }

  /** The integer part is a single zero with the exponent directly behind. */
  predicate ZeroAndE(text: string, i: nat, end: nat)
    requires i < end <= |text|
  {
    var first := if text[i] == '-' then i + 1 else i;
    first < end && text[first] == '0' && IsE(text, first + 1, end)
  }

  lemma OneFurther(text: string, i: nat, end: nat)
    requires i < end <= |text|
    ensures DigitsBehind(text, i, end) <==> DigitBehind(text, i, end) && DigitsBehind(text, i + 1, end)
  {
    assert DigitsBehind(text, i, end) ==> DigitBehind(text, i, end);
  }

  lemma {:induction false} DigitsNeedNothing(text: string, i: nat, end: nat)
    requires end <= |text| && Digits(text, i, end)
    ensures DigitsBehind(text, i, end)
    decreases if i < end then end - i else 0
  {
    if i < end {
      OneFurther(text, i, end);
      DigitsNeedNothing(text, i + 1, end);
    }
  }

  lemma ExponentIsStandard(text: string, i: nat, end: nat)
    requires end <= |text| && IsE(text, i, end)
    ensures Exponent(text, i + 1, end) && DigitsBehind(text, i, end) <==> Exp(text, i, end)
  {
    OneFurther(text, i, end);
    if i + 1 < end {
      OneFurther(text, i + 1, end);
      if Digits(text, i + 2, end) {
        DigitsNeedNothing(text, i + 2, end);
      }
      if IsSign(text, i + 1, end) && SomeDigits(text, i + 2, end) {
        assert Digits(text, i + 2, end);
      }
    }
  }

  lemma {:induction false} FractionIsStandard(text: string, i: nat, end: nat)
    requires end <= |text|
    ensures Fraction(text, i, end) && DigitsBehind(text, i, end) <==> FracDigits(text, i, end)
    decreases if i < end then end - i else 0
  {
    if i < end {
      OneFurther(text, i, end);
      if NumberDigit(text[i]) {
        FractionIsStandard(text, i + 1, end);
      } else if IsE(text, i, end) {
        ExponentIsStandard(text, i, end);
      }
    }
  }

  /** A point with a fraction behind it. */
  lemma PointIsStandard(text: string, i: nat, end: nat)
    requires i < end <= |text| && text[i] == '.'
    ensures Fraction(text, i + 1, end) && DigitsBehind(text, i, end) <==> FracExp(text, i, end)
  {
    OneFurther(text, i, end);
    if DigitAt(text, i + 1, end) {
      OneFurther(text, i + 1, end);
      FractionIsStandard(text, i + 2, end);
    }
  }

  lemma {:induction false} IntegerIsStandard(text: string, i: nat, end: nat)
    requires end <= |text|
    ensures MoreDigits(text, i, end) && DigitsBehind(text, i, end) <==> IntDigits(text, i, end)
    decreases if i < end then end - i else 0
  {
    if i < end {
      OneFurther(text, i, end);
      if NumberDigit(text[i]) {
        IntegerIsStandard(text, i + 1, end);
      } else if text[i] == '.' {
        PointIsStandard(text, i, end);
      } else if IsE(text, i, end) {
        ExponentIsStandard(text, i, end);
      }
    }
  }

  lemma ZeroIsStandard(text: string, i: nat, end: nat)
    requires end <= |text|
    ensures AfterZero(text, i, end) && DigitsBehind(text, i, end) <==> FracExp(text, i, end) && !IsE(text, i, end)
  {
    if i < end && text[i] == '.' {
      PointIsStandard(text, i, end);
    }
  }

  lemma UnsignedIsStandard(text: string, i: nat, end: nat)
    requires end <= |text|
    ensures Unsigned(text, i, end) && DigitsBehind(text, i, end) <==>
      StandardUnsigned(text, i, end) && !(i < end && text[i] == '0' && IsE(text, i + 1, end))
  {
    if i < end {
      OneFurther(text, i, end);
      ZeroIsStandard(text, i + 1, end);
      IntegerIsStandard(text, i + 1, end);
    }
  }

  /**
   * The numbers of the parser with a digit behind every point and sign are those of the standard without
   * an exponent directly behind a single zero.
   */
  lemma NumberIsStandard(text: string, i: nat, end: nat)
    requires i < end <= |text|
    ensures NumberText(text, i, end) && DigitsBehind(text, i, end) <==> StandardNumber(text, i, end) && !ZeroAndE(text, i, end)
  {
    var first := if text[i] == '-' then i + 1 else i;
    UnsignedIsStandard(text, first, end);
    OneFurther(text, i, end);
  }

  // Both differences are real.

  lemma PointAtTheEndIsAccepted()
    ensures Parse("1.\0") == Some(Number("1.")) && !StandardNumber("1.\0", 0, 2)
  {
    var text := "1.\0";
    assert Fraction(text, 2, 2) && MoreDigits(text, 1, 2) && NumberText(text, 0, 2);
    assert text[0..2] == "1.";
    assert ValueText(text, 0, 2, Number("1."));
    assert Spaces(text, 0, 0) && Spaces(text, 2, 2);
    assert DocumentText(text, Number("1."));
    ParseIsGrammar(text, Number("1."));
    assert FracExp(text, 1, 2) == false;
  }

  lemma ZeroWithExponentIsRefused()
    ensures Parse("0e5\0") == None && StandardNumber("0e5\0", 0, 3)
  {
    var text := "0e5\0";
    assert Digits(text, 3, 3) && SomeDigits(text, 2, 3) && Exp(text, 1, 3) && FracExp(text, 1, 3);
    if Parse(text).Some? {
      var v := Parse(text).value;
      ParseIsGrammar(text, v);
      assert false;
    }
  }

  // Section 7 of RFC 8259.

  /** A character, or an escape, of a standard string: control characters have to be escaped. */
  ghost predicate StandardPiece(text: string, at: nat, next: nat, bytes: string) {
    && at < next <= |text|
    && if text[at] == '\\' then Piece(text, at, next, bytes)
       else text[at] as int >= 0x20 && text[at] != '\"' && next == at + 1 && bytes == [text[at]]
  }

  /** The parser's strings may have control characters other than NUL in them. */
  lemma PieceIsStandard(text: string, at: nat, next: nat, bytes: string)
    requires at < |text|
    ensures StandardPiece(text, at, next, bytes) <==> Piece(text, at, next, bytes) && text[at] as int >= 0x20
  {
  }
}
