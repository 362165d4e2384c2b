/**
 * Decimal rendering of a non-negative count, as Java's `String.valueOf(long)`
 * (what `String.format("%s", amount)` produces) writes it: the digits of the
 * number, most significant first, with no sign and no leading zero.
 * The parse-back function is the inverse that shows the rendering loses nothing.
 */
module Decimal {

  predicate IsDigit(c: char) {
    '0' <= c <= '9'
  }

  predicate AllDigits(s: string) {
    forall i :: 0 <= i < |s| ==> IsDigit(s[i])
  }

  function DigitChar(d: nat): (c: char)
    requires d < 10
    ensures IsDigit(c) && DigitValue(c) == d
  {
    ('0' as int + d) as char
  }

  function DigitValue(c: char): (d: nat)
    requires IsDigit(c)
    ensures d < 10
  {
    c as int - '0' as int
  }

  /** The decimal digits of `n`; "0" for zero, no leading zero otherwise. */
  function ToDecimal(n: nat): (s: string)
    ensures |s| >= 1 && AllDigits(s)
    ensures n == 0 ==> s == "0"
    ensures n > 0 ==> s[0] != '0'
    decreases n
  {
    if n < 10 then [DigitChar(n)] else ToDecimal(n / 10) + [DigitChar(n % 10)]
  }

  /** Reads a string of decimal digits back as a number. */
  function FromDecimal(s: string): nat
    requires AllDigits(s)
  {
    if |s| == 0 then 0 else FromDecimal(s[..|s| - 1]) * 10 + DigitValue(s[|s| - 1])
  }

  lemma {:induction false} FromToDecimal(n: nat)
    ensures FromDecimal(ToDecimal(n)) == n
    decreases n
  {
    var s := ToDecimal(n);
    if n >= 10 {
      FromToDecimal(n / 10);
      assert s[..|s| - 1] == ToDecimal(n / 10);
    }
  }

  /** Two different counts never render to the same digits. */
  lemma ToDecimalInjective(a: nat, b: nat)
    ensures ToDecimal(a) == ToDecimal(b) ==> a == b
  {
    FromToDecimal(a);
    FromToDecimal(b);
  }

  /** The length of the run of digits that `s` starts with. */
  function LeadingDigits(s: string): (k: nat)
    ensures k <= |s| && AllDigits(s[..k])
    ensures k < |s| ==> !IsDigit(s[k])
  {
    if |s| == 0 || !IsDigit(s[0]) then 0 else 1 + LeadingDigits(s[1..])
  }

  lemma {:induction false} LeadingDigitsOfConcat(d: string, t: string)
    requires AllDigits(d)
    requires |t| > 0 && !IsDigit(t[0])
    ensures LeadingDigits(d + t) == |d|
  {
    if |d| > 0 {
      assert (d + t)[1..] == d[1..] + t;
      LeadingDigitsOfConcat(d[1..], t);
    }
  }

  /**
   * A string made of a run of digits followed by a text that does not start
   * with a digit splits in only one way.
   */
  lemma DigitsThenTextSplit(d1: string, t1: string, d2: string, t2: string)
    requires AllDigits(d1) && AllDigits(d2)
    requires |t1| > 0 && !IsDigit(t1[0])
    requires |t2| > 0 && !IsDigit(t2[0])
    requires d1 + t1 == d2 + t2
    ensures d1 == d2 && t1 == t2
  {
    LeadingDigitsOfConcat(d1, t1);
    LeadingDigitsOfConcat(d2, t2);
    assert d1 == (d1 + t1)[..|d1|];
    assert d2 == (d2 + t2)[..|d2|];
    assert t1 == (d1 + t1)[|d1|..];
    assert t2 == (d2 + t2)[|d2|..];
  }
}
