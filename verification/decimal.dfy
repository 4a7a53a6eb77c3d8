/** Decimal text of natural numbers: Python's `int(digits)` on an ASCII digit
    string and `str(n)` on a non-negative integer. */
module Decimal {

  /** An ASCII decimal digit, the class `[0-9]` of a regular expression. */
  predicate IsDigit(c: char) {
    '0' <= c <= '9'
  }

  predicate AllDigits(s: string) {
    forall k :: 0 <= k < |s| ==> IsDigit(s[k])
  }

  function DigitValue(c: char): (d: nat)
    requires IsDigit(c)
    ensures d < 10
  {
    c as int - '0' as int
  }

  function DigitChar(d: nat): (c: char)
    requires d < 10
    ensures IsDigit(c) && DigitValue(c) == d
  {
    ('0' as int + d) as char
  }

  /** `int(s)` for a string of ASCII digits; leading zeros add nothing. */
  function Value(s: string): nat
    requires AllDigits(s)
    decreases |s|
  {
    if s == [] then 0 else Value(s[..|s| - 1]) * 10 + DigitValue(s[|s| - 1])
  }

  /** `str(n)` for a non-negative integer: unpadded decimal digits. */
  function Show(n: nat): (r: string)
    ensures |r| >= 1 && AllDigits(r)
    ensures r[0] == '0' ==> n == 0
    decreases n
  {
    if n < 10 then [DigitChar(n)] else Show(n / 10) + [DigitChar(n % 10)]
  }

  /** A digit string written the way `str` writes numbers: no leading zero
      unless it is the single digit `0`. */
  predicate Canonical(s: string) {
    AllDigits(s) && |s| >= 1 && (s[0] != '0' || |s| == 1)
  }

  /** Reading back what `str` wrote gives the number again. */
  lemma {:induction false} ValueOfShow(n: nat)
    ensures Value(Show(n)) == n
    decreases n
  {
    if n >= 10 {
      var t := Show(n / 10);
      ValueOfShow(n / 10);
      assert (t + [DigitChar(n % 10)])[..|t|] == t;
    }
  }

  /** A digit string whose first digit is not zero denotes a positive number. */
  lemma {:induction false} PositiveValue(s: string)
    requires AllDigits(s) && |s| >= 1 && s[0] != '0'
    ensures Value(s) >= 1
    decreases |s|
  {
    if |s| > 1 {
      PositiveValue(s[..|s| - 1]);
    }
  }

  /** Writing out the value of a canonical digit string gives the string back. */
  lemma {:induction false} ShowOfValue(s: string)
    requires Canonical(s)
    ensures Show(Value(s)) == s
    decreases |s|
  {
    if |s| > 1 {
      var t := s[..|s| - 1];
      assert Canonical(t);
      PositiveValue(t);
      ShowOfValue(t);
      var n := Value(s);
      assert n / 10 == Value(t) && n % 10 == DigitValue(s[|s| - 1]);
      assert s == t + [s[|s| - 1]];
    }
  }

  /** A leading zero does not change the value. */
  lemma {:induction false} LeadingZeroValue(s: string)
    requires AllDigits(s)
    ensures AllDigits(['0'] + s) && Value(['0'] + s) == Value(s)
    decreases |s|
  {
    var z := ['0'] + s;
    if s != [] {
      var t := s[..|s| - 1];
      LeadingZeroValue(t);
      assert z[..|z| - 1] == ['0'] + t;
    }
  }

  /** `str(int(s))` is never longer than `s`: leading zeros are dropped. */
  lemma {:induction false} ShowWidth(s: string)
    requires AllDigits(s) && |s| >= 1
    ensures |Show(Value(s))| <= |s|
    decreases |s|
  {
    var n := Value(s);
    if |s| > 1 && n >= 10 {
      var t := s[..|s| - 1];
      ShowWidth(t);
      assert n / 10 == Value(t);
    } else if |s| == 1 {
      assert n == DigitValue(s[0]) < 10;
    }
  }

  /** `str(int(s))` has exactly as many digits as `s` precisely when `s` is
      canonical; with a leading zero (as in `0001`) it is strictly shorter. */
  lemma WidthKept(s: string)
    requires AllDigits(s) && |s| >= 1
    ensures |Show(Value(s))| == |s| <==> Canonical(s)
  {
    if Canonical(s) {
      ShowOfValue(s);
    } else {
      var t := s[1..];
      assert s == ['0'] + t;
      LeadingZeroValue(t);
      ShowWidth(t);
    }
  }
}
