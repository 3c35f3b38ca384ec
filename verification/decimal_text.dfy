/** Decimal digit strings: the text form of non-negative integers that the
    numeric input edits one keystroke at a time, and their base-ten reading. */
module DecimalText {

  predicate IsDigit(c: char) {
    '0' <= c <= '9'
  }

  function DigitValue(c: char): (d: nat)
    requires IsDigit(c)
    ensures d < 10
  {
    (c as int) - ('0' as int)
  }

  function DigitChar(d: nat): (c: char)
    requires d < 10
    ensures IsDigit(c) && DigitValue(c) == d
  {
    (('0' as int) + d) as char
  }

  lemma DigitCharOfValue(c: char)
    requires IsDigit(c)
    ensures DigitChar(DigitValue(c)) == c
  {
  }

  predicate AllDigits(s: string) {
    forall i :: 0 <= i < |s| ==> IsDigit(s[i])
  }

  /** A non-empty digit string without a superfluous leading zero: "0" itself,
      or digits whose first one is not '0'. */
  predicate Canonical(s: string) {
    |s| >= 1 && AllDigits(s) && (s[0] == '0' ==> s == "0")
  }

  function Pow10(k: nat): (p: nat)
    ensures p >= 1
  {
    if k == 0 then 1 else 10 * Pow10(k - 1)
  }

  /** The base-ten reading of a digit string; the empty string reads as 0. */
  function DigitsValue(s: string): (n: nat)
    requires AllDigits(s)
    ensures n < Pow10(|s|)
  {
    if |s| == 0 then 0 else DigitsValue(s[..|s| - 1]) * 10 + DigitValue(s[|s| - 1])
  }

  lemma DigitsValueAppend(s: string, c: char)
    requires AllDigits(s) && IsDigit(c)
    ensures AllDigits(s + [c])
    ensures DigitsValue(s + [c]) == DigitsValue(s) * 10 + DigitValue(c)
  {
    assert (s + [c])[..|s|] == s;
  }

  /** A digit string that starts with a non-zero digit is worth at least
      10^(length-1); in particular it is not worth 0. */
  lemma {:induction false} LeadingDigitBound(s: string)
    requires |s| >= 1 && AllDigits(s) && s[0] != '0'
    ensures DigitsValue(s) >= Pow10(|s| - 1)
    ensures DigitsValue(s) > 0
  {
    if |s| > 1 {
      var t := s[..|s| - 1];
      assert t[0] == s[0];
      LeadingDigitBound(t);
    }
  }

  /** The decimal text of a natural number, as JavaScript's toString prints it. */
  function NatToString(n: nat): (s: string)
    ensures Canonical(s)
    ensures DigitsValue(s) == n
    ensures |s| == 1 <==> n < 10
    decreases n
  {
    if n < 10 then
      [DigitChar(n)]
    else
      var t := NatToString(n / 10);
      DigitsValueAppend(t, DigitChar(n % 10));
      t + [DigitChar(n % 10)]
  }

  /** Reading a canonical digit string and printing the number gives the string back. */
  lemma {:induction false} NatToStringOfValue(s: string)
    requires Canonical(s)
    ensures NatToString(DigitsValue(s)) == s
    decreases |s|
  {
    if |s| == 1 {
      DigitCharOfValue(s[0]);
    } else {
      var t := s[..|s| - 1];
      var c := s[|s| - 1];
      assert t[0] == s[0];
      assert s == t + [c];
      LeadingDigitBound(t);
      NatToStringOfValue(t);
      DigitCharOfValue(c);
      var n := DigitsValue(s);
      assert n == DigitsValue(t) * 10 + DigitValue(c);
      assert n / 10 == DigitsValue(t) && n % 10 == DigitValue(c);
    }
  }

  /** Typing a digit after the text of a positive number gives the text of 10n+d. */
  lemma AppendDigitText(n: nat, c: char)
    requires n > 0 && IsDigit(c)
    ensures NatToString(n) + [c] == NatToString(10 * n + DigitValue(c))
  {
    var m := 10 * n + DigitValue(c);
    assert m / 10 == n && m % 10 == DigitValue(c);
    DigitCharOfValue(c);
  }

  /** Dropping the last digit of the text of n (at least two digits) gives the text of n/10. */
  lemma DropLastDigitText(n: nat)
    requires n >= 10
    ensures NatToString(n)[..|NatToString(n)| - 1] == NatToString(n / 10)
  {
    var t := NatToString(n / 10);
    assert NatToString(n) == t + [DigitChar(n % 10)];
  }
}
