/** An arithmetic reading of the keydown handler. The handler edits text;
    here each key is a plain operation on the integer part i = trunc(value):
    a digit gives 10·i ± d, backspace divides by ten toward zero, '-' negates.
    KeyProcessIsArithmetic proves the text edits compute exactly this. */
module ArithmeticReading {
  import opened DecimalText
  import opened JsNumber
  import opened NumericInput

  /** The integer part after typing digit d onto integer part i. */
  function DigitInt(i: int, d: nat): (r: int)
    requires d < 10
    ensures i == 0 ==> r == d
    ensures i != 0 ==> Abs(r) == 10 * Abs(i) + d && (r < 0 <==> i < 0)
  {
    if i == 0 then d else if i > 0 then 10 * i + d else 10 * i - d
  }

  /** The integer part after backspace: i divided by ten, truncated toward zero. */
  function BackspaceInt(i: int): (r: int)
    ensures 10 * Abs(r) <= Abs(i) < 10 * Abs(r) + 10
    ensures r == 0 || (r < 0 <==> i < 0)
  {
    if i >= 0 then i / 10 else -((-i) / 10)
  }

  /** The value composed from integer part k and fraction text f. The flag
      `negativeZero` marks the text "-0", which only the '-' key on integer
      part 0 produces. */
  function ComposeReal(k: int, negativeZero: bool, f: string, precision: int): (x: real)
    requires Canonical(f)
    requires negativeZero ==> k == 0
    ensures Trunc(x) == k
    ensures x < 0.0 <==> k < 0 || (negativeZero && precision > 0 && f != "0")
  {
    FractionZero(f);
    var frac := if precision > 0 then FractionValue(f) else 0.0;
    if k < 0 || negativeZero then k as real - frac else k as real + frac
  }

  /** The keydown handler's new data, computed arithmetically. */
  function ArithStep(st: State, key: string, precision: int): State
    requires Valid(st)
  {
    var i := Trunc(st.internalValue);
    var f := st.fractPart;
    var edited := st.fractDigitsEdited;
    match Classify(key)
    case DigitKey(c) =>
      if edited then
        var f' := AppendDigit(f, c);
        AppendDigitCanonical(f, c);
        State(ComposeReal(i, false, f', precision), f', true)
      else
        State(ComposeReal(DigitInt(i, DigitValue(c)), false, f, precision), f, false)
    case MinusKey =>
      State(ComposeReal(-i, i == 0, f, precision), f, edited)
    case BackspaceKey =>
      if edited then
        var f' := DropLast(f);
        DropLastCanonical(f);
        State(ComposeReal(i, false, f', precision), f', true)
      else
        State(ComposeReal(BackspaceInt(i), false, f, precision), f, false)
    case SeparatorKey =>
      State(ComposeReal(i, false, f, precision), f, if precision > 0 then !edited else edited)
    case OtherKey =>
      State(ComposeReal(i, false, f, precision), f, edited)
  }

  lemma AppendDigitCanonical(f: string, c: char)
    requires Canonical(f) && IsDigit(c)
    ensures Canonical(AppendDigit(f, c))
  {
  }

  lemma DropLastCanonical(f: string)
    requires Canonical(f)
    ensures Canonical(DropLast(f))
  {
  }

  /** The text of integer part k, or "-0" when `negativeZero`. */
  function IntegerText(k: int, negativeZero: bool): string {
    SignedText(k < 0 || negativeZero, NatToString(Abs(k)))
  }

  /** A digit typed on the printed integer part prints the integer 10·i ± d. */
  lemma DigitText(i: int, c: char)
    requires IsDigit(c)
    ensures AppendDigit(IntToString(i), c) == IntToString(DigitInt(i, DigitValue(c)))
  {
    if i == 0 {
      DigitTextOnZero(c);
    } else if i > 0 {
      DigitTextPositive(i, c);
    } else {
      DigitTextNegative(i, c);
    }
  }

  lemma DigitTextOnZero(c: char)
    requires IsDigit(c)
    ensures AppendDigit(IntToString(0), c) == IntToString(DigitValue(c))
  {
    assert IntToString(0) == "0";
    SingleDigitText(c);
  }

  /** A one-digit integer prints as its digit. */
  lemma SingleDigitText(c: char)
    requires IsDigit(c)
    ensures IntToString(DigitValue(c)) == [c]
  {
    DigitCharOfValue(c);
  }

  lemma DigitTextPositive(i: int, c: char)
    requires i > 0 && IsDigit(c)
    ensures AppendDigit(IntToString(i), c) == IntToString(10 * i + DigitValue(c))
  {
    var s := NatToString(i);
    assert IntToString(i) == s;
    assert s != "0" by {
      assert DigitsValue("0") == 0;
    }
    assert AppendDigit(s, c) == s + [c];
    AppendDigitText(i, c);
    assert IntToString(10 * i + DigitValue(c)) == NatToString(10 * i + DigitValue(c));
  }

  lemma DigitTextNegative(i: int, c: char)
    requires i < 0 && IsDigit(c)
    ensures AppendDigit(IntToString(i), c) == IntToString(10 * i - DigitValue(c))
  {
    var n := -i;
    var j := 10 * i - DigitValue(c);
    NegativeText(i);
    NegativeText(j);
    AppendDigitAfterSign(NatToString(n), c);
    AppendDigitText(n, c);
    assert NatToString(n) + [c] == NatToString(-j);
  }

  /** A digit typed after a minus sign is appended. */
  lemma AppendDigitAfterSign(s: string, c: char)
    ensures AppendDigit("-" + s, c) == "-" + (s + [c])
  {
    assert ("-" + s)[0] == '-';
    assert ("-" + s) + [c] == "-" + (s + [c]);
  }

  /** A negative integer prints as a minus sign and the digits of its magnitude. */
  lemma NegativeText(i: int)
    requires i < 0
    ensures IntToString(i) == "-" + NatToString(-i)
  {
  }

  /** The '-' key on the printed integer part prints -i, or "-0" for i = 0. */
  lemma SignText(i: int)
    ensures ToggleSign(IntToString(i)) == IntegerText(-i, i == 0)
  {
    if i < 0 {
      var s := NatToString(-i);
      assert IntToString(i) == "-" + s;
      assert ("-" + s)[1..] == s;
      assert ToggleSign("-" + s) == s;
    } else {
      var s := NatToString(i);
      assert IntToString(i) == s;
      assert ToggleSign(s) == "-" + s;
    }
  }

  /** Backspace on the printed integer part prints i divided by ten toward zero. */
  lemma BackspaceText(i: int)
    ensures BackspaceInteger(IntToString(i)) == IntToString(BackspaceInt(i))
  {
    if Abs(i) < 10 {
      BackspaceTextOneDigit(i);
    } else if i > 0 {
      BackspaceTextPositive(i);
    } else {
      BackspaceTextNegative(i);
    }
  }

  lemma BackspaceTextOneDigit(i: int)
    requires -10 < i < 10
    ensures BackspaceInteger(IntToString(i)) == "0" == IntToString(BackspaceInt(i))
  {
    var s := NatToString(Abs(i));
    assert |s| == 1;
    assert BackspaceInt(i) == 0;
    assert IntToString(0) == "0";
    if i < 0 {
      assert IntToString(i) == "-" + s;
    } else {
      assert IntToString(i) == s;
    }
  }

  lemma BackspaceTextPositive(i: int)
    requires i >= 10
    ensures BackspaceInteger(IntToString(i)) == IntToString(i / 10)
  {
    var s := NatToString(i);
    assert IntToString(i) == s;
    assert |s| >= 2;
    DropLastDigitText(i);
    assert IntToString(i / 10) == NatToString(i / 10);
  }

  lemma BackspaceTextNegative(i: int)
    requires i <= -10
    ensures BackspaceInteger(IntToString(i)) == IntToString(-((-i) / 10))
  {
    var m := -i;
    var s := NatToString(m);
    assert IntToString(i) == "-" + s;
    assert |s| >= 2;
    DropLastDigitText(m);
    assert ("-" + s)[..|"-" + s| - 1] == "-" + s[..|s| - 1];
    assert (-i) / 10 > 0;
    assert IntToString(-((-i) / 10)) == "-" + NatToString(m / 10);
  }

  /** The text of integer part k: signed when k < 0 or for "-0", with the
      digits of |k|. */
  lemma IntegerTextShape(k: int, negativeZero: bool)
    ensures var t := IntegerText(k, negativeZero);
      && WellFormedInteger(t)
      && (t[0] == '-' <==> k < 0 || negativeZero)
      && Magnitude(t) == NatToString(Abs(k))
  {
    var m := NatToString(Abs(k));
    if k < 0 || negativeZero {
      assert IntegerText(k, negativeZero) == "-" + m;
      assert ("-" + m)[1..] == m;
    } else {
      assert IntegerText(k, negativeZero) == m;
    }
  }

  /** The value the handler parses from integer text k and fraction f. */
  lemma IntegerTextValue(k: int, negativeZero: bool, f: string, edited: bool, precision: int)
    requires Canonical(f)
    requires negativeZero ==> k == 0
    ensures WellFormed(Buffer(IntegerText(k, negativeZero), f, edited))
    ensures BufferValue(Buffer(IntegerText(k, negativeZero), f, edited), precision)
      == ComposeReal(k, negativeZero, f, precision)
  {
    IntegerTextShape(k, negativeZero);
    var b := Buffer(IntegerText(k, negativeZero), f, edited);
    var m := NatToString(Abs(k));
    var frac := if precision > 0 then FractionValue(f) else 0.0;
    var x := if precision > 0 then DecimalValue(m, f) else DigitsValue(m) as real;
    assert x == Abs(k) as real + frac;
    assert BufferValue(b, precision) == if k < 0 || negativeZero then -x else x;
  }

  /** A digit key: appended to the fraction text in fraction mode, to the
      integer text otherwise. */
  lemma DigitStepIsArithmetic(st: State, key: string, c: char, precision: int)
    requires Valid(st) && Classify(key) == DigitKey(c)
    ensures KeyProcess(st, key, precision).state == ArithStep(st, key, precision)
  {
    var i := Trunc(st.internalValue);
    var f := st.fractPart;
    KeyProcessState(st, key, precision);
    if st.fractDigitsEdited {
      assert IntToString(i) == IntegerText(i, false);
      AppendDigitCanonical(f, c);
      IntegerTextValue(i, false, AppendDigit(f, c), true, precision);
    } else {
      DigitText(i, c);
      var j := DigitInt(i, DigitValue(c));
      assert IntToString(j) == IntegerText(j, false);
      IntegerTextValue(j, false, f, false, precision);
    }
  }

  /** The '-' key: the sign of the integer text is toggled. */
  lemma MinusStepIsArithmetic(st: State, key: string, precision: int)
    requires Valid(st) && Classify(key) == MinusKey
    ensures var i := Trunc(st.internalValue);
      KeyProcess(st, key, precision).state
        == State(ComposeReal(-i, i == 0, st.fractPart, precision), st.fractPart, st.fractDigitsEdited)
    ensures KeyProcess(st, key, precision).state == ArithStep(st, key, precision)
  {
    var i := Trunc(st.internalValue);
    var f := st.fractPart;
    var b := EditBuffer(st, key, precision);
    var start := Buffer(IntToString(i), f, st.fractDigitsEdited);
    assert b == ApplyKey(start, MinusKey, precision) == start.(text := ToggleSign(IntToString(i)));
    KeyProcessState(st, key, precision);
    SignText(i);
    assert b == Buffer(IntegerText(-i, i == 0), f, st.fractDigitsEdited);
    IntegerTextValue(-i, i == 0, f, st.fractDigitsEdited, precision);
    var x := ComposeReal(-i, i == 0, f, precision);
    assert BufferValue(b, precision) == x;
    assert KeyProcess(st, key, precision).state == State(x, f, st.fractDigitsEdited);
    assert ArithStep(st, key, precision) == State(x, f, st.fractDigitsEdited);
  }

  /** Backspace: the last digit of the fraction text or the integer text goes. */
  lemma BackspaceStepIsArithmetic(st: State, key: string, precision: int)
    requires Valid(st) && Classify(key) == BackspaceKey
    ensures KeyProcess(st, key, precision).state == ArithStep(st, key, precision)
  {
    var i := Trunc(st.internalValue);
    var f := st.fractPart;
    KeyProcessState(st, key, precision);
    if st.fractDigitsEdited {
      assert IntToString(i) == IntegerText(i, false);
      DropLastCanonical(f);
      IntegerTextValue(i, false, DropLast(f), true, precision);
    } else {
      BackspaceText(i);
      var j := BackspaceInt(i);
      assert IntToString(j) == IntegerText(j, false);
      IntegerTextValue(j, false, f, false, precision);
    }
  }

  /** A separator or any other key leaves both texts as they are. */
  lemma UneditedStepIsArithmetic(st: State, key: string, precision: int)
    requires Valid(st) && (Classify(key) == SeparatorKey || Classify(key) == OtherKey)
    ensures KeyProcess(st, key, precision).state == ArithStep(st, key, precision)
  {
    var i := Trunc(st.internalValue);
    KeyProcessState(st, key, precision);
    assert IntToString(i) == IntegerText(i, false);
    IntegerTextValue(i, false, st.fractPart, EditBuffer(st, key, precision).fractDigitsEdited, precision);
  }

  /** The keydown handler's text edits compute exactly the arithmetic step. */
  lemma KeyProcessIsArithmetic(st: State, key: string, precision: int)
    requires Valid(st)
    ensures KeyProcess(st, key, precision).state == ArithStep(st, key, precision)
  {
    match Classify(key)
    case DigitKey(c) => DigitStepIsArithmetic(st, key, c, precision);
    case MinusKey => MinusStepIsArithmetic(st, key, precision);
    case BackspaceKey => BackspaceStepIsArithmetic(st, key, precision);
    case SeparatorKey => UneditedStepIsArithmetic(st, key, precision);
    case OtherKey => UneditedStepIsArithmetic(st, key, precision);
  }
}
