/** Decimal text of non-negative integers, as Python's `f"{n}"` writes it:
    the shortest string of ASCII digits, most significant first, with no
    leading zero except for the number zero itself. */
module Decimal {

  predicate IsDigit(c: char) {
    '0' <= c <= '9'
  }

  predicate AllDigits(s: string) {
    forall i :: 0 <= i < |s| ==> IsDigit(s[i])
  }

  /** A canonical decimal numeral: non-empty, all digits, no leading zero
      unless it is the single digit "0". */
  predicate IsCanonical(s: string) {
    |s| >= 1 && AllDigits(s) && (|s| > 1 ==> s[0] != '0')
  }

  function Pow10(k: nat): (p: nat)
    ensures p >= 1
  {
    if k == 0 then 1 else 10 * Pow10(k - 1)
  }

  function DigitChar(d: nat): (c: char)
    requires d < 10
    ensures IsDigit(c) && c as int - '0' as int == d
  {
    ('0' as int + d) as char
  }

  function DigitValue(c: char): (d: nat)
    requires IsDigit(c)
    ensures d < 10 && DigitChar(d) == c
  {
    c as int - '0' as int
  }

  /** The text Python produces for `f"{n}"` when `n >= 0`. */
  function ToDecimal(n: nat): (s: string)
    ensures IsCanonical(s)
  {
    if n < 10 then [DigitChar(n)] else ToDecimal(n / 10) + [DigitChar(n % 10)]
  }

  /** The number a string of digits denotes (leading zeros allowed). */
  function ValueOf(s: string): nat
    requires AllDigits(s)
  {
    if s == [] then 0 else 10 * ValueOf(s[..|s| - 1]) + DigitValue(s[|s| - 1])
  }

  /** Reading back the text of `n` gives `n`. */
  lemma {:induction false} ValueOfToDecimal(n: nat)
    ensures ValueOf(ToDecimal(n)) == n
  {
    var s := ToDecimal(n);
    if n < 10 {
      assert s[..|s| - 1] == [];
    } else {
      ValueOfToDecimal(n / 10);
      assert s[..|s| - 1] == ToDecimal(n / 10);
    }
  }

  /** A numeral whose first digit is '0' denotes less than the smallest
      number of its width. */
  lemma {:induction false} LeadingZeroBound(s: string)
    requires |s| >= 1 && AllDigits(s) && s[0] == '0'
    ensures ValueOf(s) < Pow10(|s| - 1)
  {
    if |s| == 1 {
      assert s[..0] == [];
    } else {
      var t := s[..|s| - 1];
      assert t[0] == '0';
      LeadingZeroBound(t);
      assert ValueOf(s) == 10 * ValueOf(t) + DigitValue(s[|s| - 1]);
      assert ValueOf(t) + 1 <= Pow10(|t| - 1);
    }
  }

  /** A canonical numeral whose length is at least two denotes at least 10. */
  lemma {:induction false} CanonicalAtLeastTen(s: string)
    requires IsCanonical(s) && |s| >= 2
    ensures ValueOf(s) >= 10
  {
    var t := s[..|s| - 1];
    assert t[0] == s[0];
    if |t| == 1 {
      assert t[..0] == [];
      assert ValueOf(t) == DigitValue(t[0]) >= 1;
    } else {
      CanonicalAtLeastTen(t);
    }
  }

  /** Writing out the value of a canonical numeral gives the numeral back. */
  lemma {:induction false} ToDecimalValueOf(s: string)
    requires IsCanonical(s)
    ensures ToDecimal(ValueOf(s)) == s
  {
    var t := s[..|s| - 1];
    var d := DigitValue(s[|s| - 1]);
    if |s| == 1 {
      assert t == [];
      assert ValueOf(s) == d;
    } else {
      assert t[0] == s[0];
      CanonicalAtLeastTen(s);
      var n := ValueOf(s);
      assert n == 10 * ValueOf(t) + d;
      assert n / 10 == ValueOf(t) && n % 10 == d;
      ToDecimalValueOf(t);
      assert s == t + [s[|s| - 1]];
    }
  }

  /** The text of a number of `k` digits has exactly `k` characters (zero is
      written with one digit). */
  lemma {:induction false} ToDecimalLength(n: nat, k: nat)
    requires k >= 1 && (k == 1 || Pow10(k - 1) <= n) && n < Pow10(k)
    ensures |ToDecimal(n)| == k
  {
    if k > 1 {
      assert n >= 10 by {
        assert Pow10(k - 1) == 10 * Pow10(k - 2);
      }
      assert Pow10(k - 2) <= n / 10 < Pow10(k - 1) by {
        assert Pow10(k - 1) == 10 * Pow10(k - 2);
        assert Pow10(k) == 10 * Pow10(k - 1);
      }
      ToDecimalLength(n / 10, k - 1);
    }
  }

  /** The strings that are the text of `n` are exactly the canonical numerals
      denoting `n`. */
  lemma ToDecimalUnique(n: nat, s: string)
    ensures s == ToDecimal(n) <==> IsCanonical(s) && ValueOf(s) == n
  {
    if s == ToDecimal(n) {
      ValueOfToDecimal(n);
    }
    if IsCanonical(s) && ValueOf(s) == n {
      ToDecimalValueOf(s);
    }
  }
}
