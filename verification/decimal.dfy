/** The decimal form JavaScript gives an integer in a template literal
    (`${n}`): an optional '-', then digits without leading zeros. The model
    needs it for cache keys (`${gameId}:${limit}`) and for the HTTP status
    classification of errors. */
module Decimal {

  predicate IsDigit(c: char) {
    '0' <= c <= '9'
  }

  function DigitValue(c: char): (d: int)
    requires IsDigit(c)
    ensures 0 <= d < 10
  {
    c as int - '0' as int
  }

  function DigitChar(d: int): (c: char)
    requires 0 <= d < 10
    ensures IsDigit(c) && DigitValue(c) == d
  {
    ('0' as int + d) as char
  }

  predicate AllDigits(s: string) {
    forall i :: 0 <= i < |s| ==> IsDigit(s[i])
  }

  /** An optional '-' followed by at least one digit: what a numeric reply
      field holds. */
  predicate IsNumeral(s: string) {
    && |s| >= 1
    && (s[0] == '-' ==> |s| >= 2 && AllDigits(s[1..]))
    && (s[0] != '-' ==> AllDigits(s))
  }

  /** `${n}` for n >= 0. */
  function NatToString(n: nat): (s: string)
    ensures |s| >= 1 && AllDigits(s)
    ensures |s| > 1 ==> s[0] != '0'
  {
    if n < 10 then [DigitChar(n)]
    else NatToString(n / 10) + [DigitChar(n % 10)]
  }

  /** `${n}` for any integer. */
  function IntToString(n: int): (s: string)
    ensures |s| >= 1
    ensures s[0] == '-' <==> n < 0
    ensures n >= 0 ==> AllDigits(s)
    ensures n < 0 ==> AllDigits(s[1..])
    ensures IsNumeral(s)
  {
    if n < 0 then "-" + NatToString(-n) else NatToString(n)
  }

  /** The value of a string of decimal digits, read most significant first. */
  function ParseDigits(s: string): nat
    requires |s| >= 1 && AllDigits(s)
  {
    if |s| == 1 then DigitValue(s[0])
    else ParseDigits(s[..|s| - 1]) * 10 + DigitValue(s[|s| - 1])
  }

  /** Reads back what `IntToString` writes. */
  function ParseInt(s: string): int
    requires IsNumeral(s)
  {
    if s[0] == '-' then -(ParseDigits(s[1..]) as int) else ParseDigits(s)
  }

  lemma {:induction false} NatRoundTrip(n: nat)
    ensures ParseDigits(NatToString(n)) == n
  {
    if n >= 10 {
      var s := NatToString(n);
      assert s[..|s| - 1] == NatToString(n / 10);
      NatRoundTrip(n / 10);
    }
  }

  /** Printing an integer and reading it back gives the integer. */
  lemma IntRoundTrip(n: int)
    ensures ParseInt(IntToString(n)) == n
  {
    if n < 0 {
      assert IntToString(n)[1..] == NatToString(-n);
      NatRoundTrip(-n);
    } else {
      NatRoundTrip(n);
    }
  }

  /** Distinct integers print differently. */
  lemma IntToStringInjective(a: int, b: int)
    requires IntToString(a) == IntToString(b)
    ensures a == b
  {
    IntRoundTrip(a);
    IntRoundTrip(b);
  }

  /** The most significant decimal digit of `n`. */
  function LeadingDigit(n: nat): (d: nat)
    ensures d < 10
    ensures n > 0 ==> d > 0
  {
    if n < 10 then n else LeadingDigit(n / 10)
  }

  /** The first character of the decimal form is the leading digit. */
  lemma {:induction false} FirstCharIsLeadingDigit(n: nat)
    ensures NatToString(n)[0] == DigitChar(LeadingDigit(n))
  {
    if n >= 10 {
      FirstCharIsLeadingDigit(n / 10);
    }
  }

  /** The decimal form of an integer starts with '4' exactly when the
      integer is positive and its leading digit is 4. */
  lemma LeadsWithFour(n: int)
    ensures IntToString(n)[0] == '4' <==> n > 0 && LeadingDigit(n) == 4
  {
    if n >= 0 {
      FirstCharIsLeadingDigit(n);
      var d := LeadingDigit(n);
      assert DigitValue(DigitChar(d)) == d;
      assert DigitValue('4') == 4;
    }
  }

  /** For a three-digit number the leading digit is the hundreds digit. */
  lemma ThreeDigitLeading(n: nat)
    requires 100 <= n < 1000
    ensures LeadingDigit(n) == n / 100
  {
    assert LeadingDigit(n) == LeadingDigit(n / 10);
    assert LeadingDigit(n / 10) == LeadingDigit(n / 100);
  }
}
