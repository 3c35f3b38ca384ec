/** Properties of the keydown handler, the colour rule and clearing, each
    stated for all states and keys. */
module KeyProperties {
  import opened DecimalText
  import opened JsNumber
  import opened NumericInput
  import opened ArithmeticReading

  /** A digit in integer mode: 0 then '0' stays 0, 0 then d gives d, and
      otherwise the digit is appended, giving 10·i + d or 10·i − d. The
      fraction text and the mode are untouched. */
  lemma IntegerDigit(st: State, key: string, c: char, precision: int)
    requires Valid(st) && !st.fractDigitsEdited && Classify(key) == DigitKey(c)
    ensures var i := Trunc(st.internalValue);
      var d := DigitValue(c);
      var r := KeyProcess(st, key, precision).state;
      && (i == 0 && d == 0 ==> Trunc(r.internalValue) == i)
      && (i == 0 && d != 0 ==> Trunc(r.internalValue) == d)
      && (i > 0 ==> Trunc(r.internalValue) == 10 * i + d)
      && (i < 0 ==> Trunc(r.internalValue) == 10 * i - d)
      && r.fractPart == st.fractPart && !r.fractDigitsEdited
  {
    KeyProcessIsArithmetic(st, key, precision);
  }

  /** A digit in fraction mode: the placeholder "0" is replaced by a non-zero
      digit and kept for '0'; any other fraction text gets the digit appended
      whatever the precision (FractionValueAppend gives its value). The
      integer part is kept. */
  lemma FractionDigit(st: State, key: string, c: char, precision: int)
    requires Valid(st) && st.fractDigitsEdited && Classify(key) == DigitKey(c)
    ensures var f := st.fractPart;
      var r := KeyProcess(st, key, precision).state;
      && (f == "0" ==> r.fractPart == (if c == '0' then "0" else [c]))
      && (f != "0" ==> r.fractPart == f + [c] && |r.fractPart| == |f| + 1)
      && Trunc(r.internalValue) == Trunc(st.internalValue) && r.fractDigitsEdited
      && r.internalValue == ComposeReal(Trunc(st.internalValue), false, r.fractPart, precision)
  {
    DigitStepIsArithmetic(st, key, c, precision);
  }

  /** Backspace in fraction mode drops the last fraction digit, and a single
      digit becomes the placeholder "0". The integer part is kept. */
  lemma FractionBackspace(st: State, key: string, precision: int)
    requires Valid(st) && st.fractDigitsEdited && Classify(key) == BackspaceKey
    ensures var f := st.fractPart;
      var r := KeyProcess(st, key, precision).state;
      && (|f| == 1 ==> r.fractPart == "0")
      && (|f| > 1 ==> r.fractPart + [f[|f| - 1]] == f)
      && Trunc(r.internalValue) == Trunc(st.internalValue) && r.fractDigitsEdited
  {
    KeyProcessIsArithmetic(st, key, precision);
    var f := st.fractPart;
    if |f| > 1 {
      assert f[..|f| - 1] + [f[|f| - 1]] == f;
    }
  }

  /** Backspace in integer mode divides the integer part by ten, truncating
      toward zero: a one-digit part, negative or not, becomes 0 (the text
      "-5" becomes "0", never "-"), and 0 stays 0. */
  lemma IntegerBackspace(st: State, key: string, precision: int)
    requires Valid(st) && !st.fractDigitsEdited && Classify(key) == BackspaceKey
    ensures var i := Trunc(st.internalValue);
      var j := Trunc(KeyProcess(st, key, precision).state.internalValue);
      && 10 * Abs(j) <= Abs(i) < 10 * Abs(j) + 10
      && (j < 0 ==> i < 0) && (j > 0 ==> i > 0)
      && (-9 <= i <= 9 ==> j == 0 && EditBuffer(st, key, precision).text == "0")
      && KeyProcess(st, key, precision).state.fractPart == st.fractPart
  {
    KeyProcessIsArithmetic(st, key, precision);
    BackspaceText(Trunc(st.internalValue));
  }

  /** The '-' key negates a non-zero integer part; the fraction text and the
      mode never change. */
  lemma SignToggle(st: State, key: string, precision: int)
    requires Valid(st) && Classify(key) == MinusKey
    ensures var i := Trunc(st.internalValue);
      var r := KeyProcess(st, key, precision).state;
      && (i != 0 ==> Trunc(r.internalValue) == -i)
      && r.fractPart == st.fractPart && r.fractDigitsEdited == st.fractDigitsEdited
  {
    MinusStepIsArithmetic(st, key, precision);
  }

  /** On integer part 0 the '-' key produces the text "-0", whose value is
      negative exactly when a non-zero fraction is composed. */
  lemma SignToggleOnZero(st: State, key: string, precision: int)
    requires Valid(st) && Classify(key) == MinusKey && Trunc(st.internalValue) == 0
    ensures EditBuffer(st, key, precision).text == "-0"
    ensures var r := KeyProcess(st, key, precision).state;
      Trunc(r.internalValue) == 0 && (r.internalValue < 0.0 <==> precision > 0 && st.fractPart != "0")
  {
    MinusOnZeroText(st, key, precision);
    MinusStepIsArithmetic(st, key, precision);
  }

  lemma MinusOnZeroText(st: State, key: string, precision: int)
    requires Valid(st) && Classify(key) == MinusKey && Trunc(st.internalValue) == 0
    ensures EditBuffer(st, key, precision).text == "-0"
  {
    var t := IntToString(Trunc(st.internalValue));
    assert t == "0" by {
      assert NatToString(0) == "0";
    }
    assert EditBuffer(st, key, precision).text == ToggleSign(t);
    assert ToggleSign("0") == "-0";
  }

  /** On a value composed from its buffer with a non-zero integer part,
      pressing '-' twice gives back the very same data. */
  lemma MinusTwiceRestores(st: State, minus: string, precision: int)
    requires Valid(st) && Classify(minus) == MinusKey && Trunc(st.internalValue) != 0
    requires st.internalValue == ComposeReal(Trunc(st.internalValue), false, st.fractPart, precision)
    ensures Run(st, [minus, minus], precision) == st
  {
    RunTwo(st, minus, minus, precision);
    MinusTwiceState(st, minus, precision);
  }

  lemma RunTwo(st: State, a: string, b: string, precision: int)
    requires Valid(st)
    ensures Run(st, [a, b], precision) == KeyProcess(KeyProcess(st, a, precision).state, b, precision).state
  {
    assert [a, b][..1] == [a] && [a][..0] == [];
    assert Run(st, [a], precision) == KeyProcess(st, a, precision).state;
  }

  lemma MinusTwiceState(st: State, minus: string, precision: int)
    requires Valid(st) && Classify(minus) == MinusKey && Trunc(st.internalValue) != 0
    requires st.internalValue == ComposeReal(Trunc(st.internalValue), false, st.fractPart, precision)
    ensures KeyProcess(KeyProcess(st, minus, precision).state, minus, precision).state == st
  {
    var i := Trunc(st.internalValue);
    var once := KeyProcess(st, minus, precision).state;
    MinusStepIsArithmetic(st, minus, precision);
    assert once == State(ComposeReal(-i, false, st.fractPart, precision), st.fractPart, st.fractDigitsEdited);
    MinusStepIsArithmetic(once, minus, precision);
  }

  /** The sign of integer part 0 does not survive: after '-' on 0 with a
      non-zero fraction the value is negative, a second '-' leaves it
      unchanged, and any other key that follows, in either mode, makes it
      non-negative again, since trunc of the value prints "0". */
  lemma NegativeZeroIsLost(st: State, minus: string, key: string, precision: int)
    requires Valid(st)
    requires Classify(minus) == MinusKey && Classify(key) != MinusKey
    requires Trunc(st.internalValue) == 0 && precision > 0 && st.fractPart != "0"
    ensures var once := KeyProcess(st, minus, precision).state;
      && once.internalValue < 0.0
      && KeyProcess(once, minus, precision).state == once
      && KeyProcess(once, key, precision).state.internalValue >= 0.0
  {
    var once := KeyProcess(st, minus, precision).state;
    KeyProcessIsArithmetic(st, minus, precision);
    KeyProcessIsArithmetic(once, minus, precision);
    KeyProcessIsArithmetic(once, key, precision);
  }

  /** Separator keys flip fraction mode exactly when precision > 0, and
      change nothing else but the recomposition. */
  lemma SeparatorToggles(st: State, key: string, precision: int)
    requires Valid(st) && Classify(key) == SeparatorKey
    ensures var r := KeyProcess(st, key, precision).state;
      && (r.fractDigitsEdited <==> (if precision > 0 then !st.fractDigitsEdited else st.fractDigitsEdited))
      && r.fractPart == st.fractPart && Trunc(r.internalValue) == Trunc(st.internalValue)
  {
    KeyProcessIsArithmetic(st, key, precision);
  }

  /** With precision 0 every keystroke leaves an integral value and never
      enters fraction mode; in integer mode the fraction text is untouched. */
  lemma PrecisionZeroStep(st: State, key: string, precision: int)
    requires Valid(st) && precision <= 0
    ensures var r := KeyProcess(st, key, precision).state;
      && r.internalValue == Trunc(r.internalValue) as real
      && r.fractDigitsEdited == st.fractDigitsEdited
      && (!st.fractDigitsEdited ==> r.fractPart == st.fractPart)
  {
    KeyProcessIsArithmetic(st, key, precision);
    ArithStepWithoutFraction(st, key, precision);
  }

  lemma ArithStepWithoutFraction(st: State, key: string, precision: int)
    requires Valid(st) && precision <= 0
    ensures var a := ArithStep(st, key, precision);
      && a.internalValue == Trunc(a.internalValue) as real
      && a.fractDigitsEdited == st.fractDigitsEdited
      && (!st.fractDigitsEdited ==> a.fractPart == st.fractPart)
  {
    var a := ArithStep(st, key, precision);
    var k := Trunc(a.internalValue);
    assert a.internalValue == ComposeReal(k, k == 0 && a.internalValue < 0.0, a.fractPart, precision);
  }

  /** Every value a keystroke leaves with a non-zero integer part is its
      integer part composed with the fraction text, so '-' pressed twice
      then restores it. */
  lemma KeyLeavesComposedValue(st: State, key: string, precision: int)
    requires Valid(st)
    ensures var r := KeyProcess(st, key, precision).state;
      var k := Trunc(r.internalValue);
      k != 0 ==> r.internalValue == ComposeReal(k, false, r.fractPart, precision)
  {
    KeyProcessIsArithmetic(st, key, precision);
    ArithStepComposed(st, key, precision);
  }

  lemma ArithStepComposed(st: State, key: string, precision: int)
    requires Valid(st)
    ensures var a := ArithStep(st, key, precision);
      var k := Trunc(a.internalValue);
      k != 0 ==> a.internalValue == ComposeReal(k, false, a.fractPart, precision)
  {
    var a := ArithStep(st, key, precision);
    var k := Trunc(a.internalValue);
    assert a.internalValue == ComposeReal(k, k == 0 && a.internalValue < 0.0, a.fractPart, precision);
  }

  /** After any keystroke that leaves a non-zero integer part, pressing '-'
      twice gives back exactly the data that keystroke left. */
  lemma MinusTwiceAfterKey(st: State, key: string, minus: string, precision: int)
    requires Valid(st) && Classify(minus) == MinusKey
    requires Trunc(KeyProcess(st, key, precision).state.internalValue) != 0
    ensures var r := KeyProcess(st, key, precision).state;
      Run(r, [minus, minus], precision) == r
  {
    KeyLeavesComposedValue(st, key, precision);
    MinusTwiceRestores(KeyProcess(st, key, precision).state, minus, precision);
  }

  /** With precision 0, from integral data with the fraction untouched, no
      key sequence ever reaches fraction mode or a non-integral value. */
  lemma {:induction false} PrecisionZeroRun(st: State, keys: seq<string>, precision: int)
    requires Valid(st) && precision <= 0
    requires st.fractPart == "0" && !st.fractDigitsEdited && st.internalValue == Trunc(st.internalValue) as real
    ensures var r := Run(st, keys, precision);
      r.fractPart == "0" && !r.fractDigitsEdited && r.internalValue == Trunc(r.internalValue) as real
    decreases |keys|
  {
    if |keys| > 0 {
      PrecisionZeroRun(st, keys[..|keys| - 1], precision);
      PrecisionZeroStep(Run(st, keys[..|keys| - 1], precision), keys[|keys| - 1], precision);
    }
  }

  /** In particular a freshly created field with precision 0 only ever holds
      integers. */
  lemma PrecisionZeroFromInit(keys: seq<string>, precision: int)
    requires precision <= 0
    ensures var r := Run(Init, keys, precision);
      r.fractPart == "0" && !r.fractDigitsEdited && r.internalValue == Trunc(r.internalValue) as real
  {
    PrecisionZeroRun(Init, keys, precision);
  }

  /** An unrecognised key (arrows included) edits nothing but still
      recomposes the value from trunc(value) and the fraction text; doing it
      again changes nothing. */
  lemma UnrecognisedKey(st: State, key: string, precision: int)
    requires Valid(st) && Classify(key) == OtherKey
    ensures var r := KeyProcess(st, key, precision).state;
      && r == State(ComposeReal(Trunc(st.internalValue), false, st.fractPart, precision), st.fractPart, st.fractDigitsEdited)
      && KeyProcess(r, key, precision).state == r
  {
    var r := KeyProcess(st, key, precision).state;
    KeyProcessIsArithmetic(st, key, precision);
    KeyProcessIsArithmetic(r, key, precision);
  }

  /** A value set from outside keeps only its integer part on the next
      keystroke, whatever the key: the handler acts as if trunc(v) had been
      set. For an unrecognised key the fraction of v is replaced by the
      fraction text. */
  lemma ExternalValueTruncated(st: State, v: real, key: string, precision: int)
    requires Valid(st)
    ensures KeyProcess(WatchValue(st, v), key, precision).state
      == KeyProcess(WatchValue(st, Trunc(v) as real), key, precision).state
    ensures Classify(key) == OtherKey ==>
      var r := KeyProcess(WatchValue(st, v), key, precision).state;
      && Trunc(r.internalValue) == Trunc(v)
      && r.internalValue == ComposeReal(Trunc(v), false, st.fractPart, precision)
      && r.fractPart == st.fractPart && r.fractDigitsEdited == st.fractDigitsEdited
  {
    var a := WatchValue(st, v);
    var b := WatchValue(st, Trunc(v) as real);
    TruncOfInt(Trunc(v));
    assert EditBuffer(a, key, precision) == EditBuffer(b, key, precision);
    KeyProcessState(a, key, precision);
    KeyProcessState(b, key, precision);
    if Classify(key) == OtherKey {
      UnrecognisedKey(a, key, precision);
    }
  }

  /** A buffer denotes a negative value exactly when its text carries a sign
      and the digits composed are not all zero. */
  lemma NegativeBufferValue(b: Buffer, precision: int)
    requires WellFormed(b)
    ensures BufferValue(b, precision) < 0.0
      <==> b.text[0] == '-' && (DigitsValue(Magnitude(b.text)) > 0 || (precision > 0 && b.fractPart != "0"))
  {
    FractionZero(b.fractPart);
  }

  /** After a keystroke the text colour is the negative colour exactly when
      one is configured and the edited text is negative: a '-' in front of
      digits that are not all zero. */
  lemma ColorAfterKey(st: State, key: string, precision: int, negativeTextColor: Option<string>, color: Option<string>)
    requires Valid(st)
    ensures var b := EditBuffer(st, key, precision);
      var v := KeyProcess(st, key, precision).state.internalValue;
      ComputedColor(v, negativeTextColor, color)
        == if Truthy(negativeTextColor) && b.text[0] == '-'
                && (DigitsValue(Magnitude(b.text)) > 0 || (precision > 0 && b.fractPart != "0"))
           then negativeTextColor else color
  {
    KeyProcessState(st, key, precision);
    NegativeBufferValue(EditBuffer(st, key, precision), precision);
  }

  /** Once the deferred step of clearing has run, the field is a freshly
      created one when the `value` prop is absent or zero, and a fresh one
      whose value was set through the watcher when the prop is non-zero. */
  lemma ClearAfterTick(valueAtTick: Option<real>)
    ensures valueAtTick == None || valueAtTick == Some(0.0) ==> ClearValue(valueAtTick).afterTick == Init
    ensures valueAtTick.Some? && valueAtTick.value != 0.0 ==>
      ClearValue(valueAtTick).afterTick == WatchValue(Init, valueAtTick.value)
  {
  }
}
