/** The JavaScript number primitives the component relies on, on exact values:
    Math.trunc, integer toString, String.prototype.replace of the first
    occurrence of a character, and Number() on signed decimal text. */
module JsNumber {
  import opened DecimalText

  /** Outcome of Number(text): a finite value, or NaN for text that is not a number. */
  datatype Parsed = NaN | Finite(value: real)

  function Abs(i: int): nat {
    if i < 0 then -i else i
  }

  /** Math.trunc: the integer part of r, rounding toward zero. */
  function Trunc(r: real): (i: int)
    ensures 0.0 <= r ==> 0.0 <= i as real <= r < i as real + 1.0
    ensures r < 0.0 ==> i as real - 1.0 < r <= i as real <= 0.0
  {
    if r >= 0.0 then r.Floor else -((-r).Floor)
  }

  /** Digits preceded by a minus sign when `negative` holds. */
  function SignedText(negative: bool, digits: string): string {
    (if negative then "-" else "") + digits
  }

  /** toString of an integral number. JavaScript prints -0 as "0", and the
      integer 0 has no sign here, so 0 always prints "0". */
  function IntToString(i: int): (s: string)
    ensures |s| >= 1 && (s[0] == '-' <==> i < 0)
    ensures WellFormedInteger(s)
  {
    SignedText(i < 0, NatToString(Abs(i)))
  }

  /** Positions i up to (not including) j of s exist and hold digits. */
  predicate DigitsBetween(s: string, i: nat, j: nat) {
    j <= |s| && forall k :: i <= k < j ==> IsDigit(s[k])
  }

  /** Text of the shape `-?digits`, as composed from the integer part. */
  predicate WellFormedInteger(t: string) {
    |t| >= 1 && (if t[0] == '-' then |t| >= 2 && DigitsBetween(t, 1, |t|) else DigitsBetween(t, 0, |t|))
  }

  /** The digits of a well-formed integer text, without its sign. */
  function Magnitude(t: string): (m: string)
    requires WellFormedInteger(t)
    ensures |m| >= 1 && AllDigits(m)
  {
    if t[0] == '-' then
      assert forall k :: 0 <= k < |t| - 1 ==> t[1..][k] == t[k + 1];
      t[1..]
    else t
  }

  /** Index of the first occurrence of c in s, or |s| when there is none. */
  function Find(s: string, c: char): (k: nat)
    ensures k <= |s|
    ensures k < |s| ==> s[k] == c
    ensures forall j :: 0 <= j < k ==> s[j] != c
  {
    FindFrom(s, c, 0)
  }

  /** Index of the first occurrence of c in s at or after position i. */
  function FindFrom(s: string, c: char, i: nat): (k: nat)
    requires i <= |s|
    ensures i <= k <= |s|
    ensures k < |s| ==> s[k] == c
    ensures forall j :: i <= j < k ==> s[j] != c
    decreases |s| - i
  {
    if i == |s| then i else if s[i] == c then i else FindFrom(s, c, i + 1)
  }

  /** s.replace(c, ''): removes the first occurrence of c, if any. */
  function RemoveFirst(s: string, c: char): (r: string)
    ensures |s| >= 1 && s[0] == c ==> r == s[1..]
    ensures (forall j :: 0 <= j < |s| ==> s[j] != c) ==> r == s
  {
    var k := Find(s, c);
    if k < |s| then s[..k] + s[k + 1..] else s
  }

  /** The value of the digits after a decimal point: 0.d1d2d3... */
  function FractionValue(f: string): (x: real)
    requires AllDigits(f)
    ensures 0.0 <= x < 1.0
    ensures |f| >= 1 && f[0] != '0' ==> x >= 0.1
  {
    FractionFrom(f, 0)
  }

  /** The value of the fraction digits from position i on: 0.f[i]f[i+1]... */
  function FractionFrom(f: string, i: nat): (x: real)
    requires i <= |f| && DigitsBetween(f, i, |f|)
    ensures 0.0 <= x < 1.0
    ensures i < |f| && f[i] != '0' ==> x >= 0.1
    decreases |f| - i
  {
    if i == |f| then 0.0 else (DigitValue(f[i]) as real + FractionFrom(f, i + 1)) / 10.0
  }

  /** The value of digit d placed k positions after the decimal point: d·10^-k. */
  function DigitPlace(d: nat, k: nat): (x: real)
    requires d < 10
    ensures 0.0 <= x
    ensures k >= 1 ==> x < 1.0
  {
    if k == 0 then d as real else DigitPlace(d, k - 1) / 10.0
  }

  /** A fraction digit typed at the end of n fraction digits adds its value
      at position n + 1. */
  lemma FractionValueAppend(f: string, c: char)
    requires AllDigits(f) && IsDigit(c)
    ensures AllDigits(f + [c])
    ensures FractionValue(f + [c]) == FractionValue(f) + DigitPlace(DigitValue(c), |f| + 1)
  {
    FractionFromAppend(f, c, 0);
  }

  lemma {:induction false} FractionFromAppend(f: string, c: char, i: nat)
    requires AllDigits(f) && IsDigit(c) && i <= |f|
    ensures AllDigits(f + [c])
    ensures FractionFrom(f + [c], i) == FractionFrom(f, i) + DigitPlace(DigitValue(c), |f| + 1 - i)
    decreases |f| - i
  {
    var g := f + [c];
    assert forall j :: 0 <= j < |f| ==> g[j] == f[j];
    if i == |f| {
      assert g[i] == c;
    } else {
      FractionFromAppend(f, c, i + 1);
      assert g[i] == f[i];
    }
  }

  /** A canonical fraction text is worth 0 exactly when it is the placeholder "0". */
  lemma FractionZero(f: string)
    requires Canonical(f)
    ensures FractionValue(f) == 0.0 <==> f == "0"
  {
    if f == "0" {
      assert FractionFrom(f, 1) == 0.0;
    }
  }

  /** The value of text `whole.frac`. */
  function DecimalValue(whole: string, frac: string): real
    requires AllDigits(whole) && AllDigits(frac)
  {
    DigitsValue(whole) as real + FractionValue(frac)
  }

  /** The base-ten reading of the digits at positions i up to j of s. */
  function DigitsIn(s: string, i: nat, j: nat): (n: nat)
    requires i <= j && DigitsBetween(s, i, j)
    decreases j - i
  {
    if j == i then 0 else DigitsIn(s, i, j - 1) * 10 + DigitValue(s[j - 1])
  }

  /** Number() of the unsigned text that starts at position i of s:
      `digits` or `digits.digits`, anything else is NaN. */
  function UnsignedAt(s: string, i: nat): Parsed
    requires i <= |s|
  {
    var k := FindFrom(s, '.', i);
    if k < |s| then
      if i < k && DigitsBetween(s, i, k) && k + 1 < |s| && DigitsBetween(s, k + 1, |s|) then
        Finite(DigitsIn(s, i, k) as real + FractionFrom(s, k + 1))
      else
        NaN
    else if i < |s| && DigitsBetween(s, i, |s|) then
      Finite(DigitsIn(s, i, |s|) as real)
    else
      NaN
  }

  /** Number() of text `-?digits(.digits)?`; any other text is NaN. */
  function Number(s: string): Parsed {
    if |s| >= 1 && s[0] == '-' then
      match UnsignedAt(s, 1)
      case Finite(x) => Finite(-x)
      case NaN => NaN
    else
      UnsignedAt(s, 0)
  }

  /** Digits m found at offset o of s read as m does. */
  lemma {:induction false} DigitsInShift(s: string, o: nat, m: string)
    requires AllDigits(m) && o + |m| <= |s|
    requires forall t :: 0 <= t < |m| ==> s[o + t] == m[t]
    ensures DigitsBetween(s, o, o + |m|) && DigitsIn(s, o, o + |m|) == DigitsValue(m)
    decreases |m|
  {
    if |m| > 0 {
      var m' := m[..|m| - 1];
      DigitsInShift(s, o, m');
      assert s[o + |m| - 1] == m[|m| - 1];
    }
  }

  /** Fraction digits f found at the end of s, from offset o, read as f does. */
  lemma {:induction false} FractionFromShift(s: string, o: nat, f: string, i: nat)
    requires AllDigits(f) && o + |f| == |s| && i <= |f|
    requires forall t :: 0 <= t < |f| ==> s[o + t] == f[t]
    ensures DigitsBetween(s, o + i, |s|) && FractionFrom(s, o + i) == FractionFrom(f, i)
    decreases |f| - i
  {
    if i < |f| {
      FractionFromShift(s, o, f, i + 1);
      assert s[o + i] == f[i];
    }
  }

  /** In text with digits from o up to a '.', the search from o stops at that '.'. */
  lemma FindDotAfterDigits(s: string, o: nat, k: nat)
    requires o <= k < |s| && DigitsBetween(s, o, k) && s[k] == '.'
    ensures FindFrom(s, '.', o) == k
  {
  }

  /** In text with digits from o to the end, there is no '.' to find. */
  lemma FindDotInDigits(s: string, o: nat)
    requires o <= |s| && DigitsBetween(s, o, |s|)
    ensures FindFrom(s, '.', o) == |s|
  {
  }

  /** A well-formed integer text is its sign followed by its magnitude. */
  lemma SplitSign(t: string)
    requires WellFormedInteger(t)
    ensures t == SignedText(t[0] == '-', Magnitude(t))
  {
  }

  /** Number() of `-?m.f` is the signed sum of the integer digits and the fraction. */
  lemma NumberOfDecimal(negative: bool, m: string, f: string)
    requires |m| >= 1 && AllDigits(m) && |f| >= 1 && AllDigits(f)
    ensures Number(SignedText(negative, m) + "." + f)
      == Finite(if negative then -DecimalValue(m, f) else DecimalValue(m, f))
  {
    var s := SignedText(negative, m) + "." + f;
    var o := if negative then 1 else 0;
    var k := o + |m|;
    assert |s| == k + 1 + |f|;
    assert forall t :: 0 <= t < |m| ==> s[o + t] == m[t];
    assert s[k] == '.';
    assert forall t :: 0 <= t < |f| ==> s[k + 1 + t] == f[t];
    assert s[0] == '-' <==> negative;
    DigitsInShift(s, o, m);
    FractionFromShift(s, k + 1, f, 0);
    FindDotAfterDigits(s, o, k);
    assert UnsignedAt(s, o) == Finite(DecimalValue(m, f));
  }

  /** Number() of `-?m` is the signed digit value. */
  lemma NumberOfInteger(negative: bool, m: string)
    requires |m| >= 1 && AllDigits(m)
    ensures Number(SignedText(negative, m)) == Finite(if negative then -(DigitsValue(m) as real) else DigitsValue(m) as real)
  {
    var s := SignedText(negative, m);
    var o := if negative then 1 else 0;
    assert |s| == o + |m|;
    assert forall t :: 0 <= t < |m| ==> s[o + t] == m[t];
    assert s[0] == '-' <==> negative;
    DigitsInShift(s, o, m);
    FindDotInDigits(s, o);
    assert UnsignedAt(s, o) == Finite(DigitsValue(m) as real);
  }

  /** Printing an integer and parsing the text gives the integer back. */
  lemma NumberOfIntToString(i: int)
    ensures Number(IntToString(i)) == Finite(i as real)
  {
    NumberOfInteger(i < 0, NatToString(Abs(i)));
  }

  /** Truncating an integral value gives the integer back. */
  lemma TruncOfInt(i: int)
    ensures Trunc(i as real) == i
  {
  }
}
