/** Worked keystroke examples: concrete data, one key, and the data the
    handler leaves behind. */
module Scenarios {
  import opened DecimalText
  import opened JsNumber
  import opened NumericInput
  import opened ArithmeticReading

  /** On a fresh field with precision 0, the digit 1 gives 1. */
  lemma TypeFirstDigit()
    ensures KeyProcess(Init, "1", 0).state == State(1.0, "0", false)
  {
    KeyProcessIsArithmetic(Init, "1", 0);
  }

  /** With precision 0, the digit 3 on 12 gives 123. */
  lemma TypeThirdDigit()
    ensures KeyProcess(State(12.0, "0", false), "3", 0).state == State(123.0, "0", false)
  {
    KeyProcessIsArithmetic(State(12.0, "0", false), "3", 0);
  }

  /** '-' on 123 gives -123, and a second '-' gives 123 back. */
  lemma NegateTwice()
    ensures KeyProcess(State(123.0, "0", false), "-", 0).state == State(-123.0, "0", false)
    ensures KeyProcess(KeyProcess(State(123.0, "0", false), "-", 0).state, "-", 0).state == State(123.0, "0", false)
  {
    KeyProcessIsArithmetic(State(123.0, "0", false), "-", 0);
    KeyProcessIsArithmetic(KeyProcess(State(123.0, "0", false), "-", 0).state, "-", 0);
  }

  /** With precision 2, '.' on a fresh field enters fraction mode. */
  lemma TypeSeparator()
    ensures KeyProcess(Init, ".", 2).state == State(0.0, "0", true)
  {
    assert FractionValue("0") == 0.0 by { assert FractionFrom("0", 1) == 0.0; }
    KeyProcessIsArithmetic(Init, ".", 2);
  }

  /** With precision 2, 6 after the fraction digit 5 gives the fraction "56"
      and the value 0.56. */
  lemma TypeFractionDigit()
    ensures KeyProcess(State(0.5, "5", true), "6", 2).state == State(0.56, "56", true)
  {
    var f, c := "5", '6';
    assert Classify("6") == DigitKey(c);
    assert AppendDigit(f, c) == f + [c] == "56";
    assert FractionValue(f) == 0.5 by { assert FractionFrom(f, 1) == 0.0; }
    FractionValueAppend(f, c);
    assert DigitPlace(6, 2) == 0.06;
    KeyProcessIsArithmetic(State(0.5, "5", true), "6", 2);
  }

  /** With precision 2 the fraction is not capped: a fourth fraction digit is
      kept and composed. */
  lemma FractionLongerThanPrecision()
    ensures KeyProcess(State(0.123, "123", true), "4", 2).state == State(0.1234, "1234", true)
  {
    var f, c := "123", '4';
    assert Classify("4") == DigitKey(c);
    assert AppendDigit(f, c) == f + [c] == "1234";
    assert FractionValue(f) == 0.123 by {
      assert FractionFrom(f, 3) == 0.0;
      assert FractionFrom(f, 2) == 0.3;
      assert FractionFrom(f, 1) == 0.23;
    }
    FractionValueAppend(f, c);
    assert DigitPlace(4, 4) == 0.0004;
    KeyProcessIsArithmetic(State(0.123, "123", true), "4", 2);
  }

  /** With precision 0, backspace on -7 gives 0, and again stays 0. */
  lemma BackspaceMinusSeven()
    ensures KeyProcess(State(-7.0, "0", false), "Backspace", 0).state == State(0.0, "0", false)
    ensures KeyProcess(KeyProcess(State(-7.0, "0", false), "Backspace", 0).state, "Backspace", 0).state == State(0.0, "0", false)
  {
    KeyProcessIsArithmetic(State(-7.0, "0", false), "Backspace", 0);
    KeyProcessIsArithmetic(KeyProcess(State(-7.0, "0", false), "Backspace", 0).state, "Backspace", 0);
  }

  /** '-' on 0.5 gives -0.5; a following 3 gives 3.5, without the sign. */
  lemma MinusOnZeroThenDigit()
    ensures KeyProcess(State(0.5, "5", false), "-", 2).state == State(-0.5, "5", false)
    ensures KeyProcess(KeyProcess(State(0.5, "5", false), "-", 2).state, "3", 2).state == State(3.5, "5", false)
  {
    assert FractionValue("5") == 0.5 by { assert FractionFrom("5", 1) == 0.0; }
    KeyProcessIsArithmetic(State(0.5, "5", false), "-", 2);
    KeyProcessIsArithmetic(KeyProcess(State(0.5, "5", false), "-", 2).state, "3", 2);
  }

  /** An external 2.75 on a fresh field becomes 2 on the next unrecognised key. */
  lemma ExternalFractionDropped()
    ensures KeyProcess(WatchValue(Init, 2.75), "Shift", 2).state == State(2.0, "0", false)
  {
    KeyProcessIsArithmetic(WatchValue(Init, 2.75), "Shift", 2);
    assert FractionValue("0") == 0.0 by { assert FractionFrom("0", 1) == 0.0; }
  }
}
