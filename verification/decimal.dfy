/**
  Base-10 rendering of integers, as Go's `strconv.FormatInt(n, 10)` does
  it, together with a reader for the same notation. The two are shown to
  be inverse bijections between the integers and the canonical decimal
  strings: an optional minus sign, then digits with no leading zero, and
  "0" (never "-0") for zero.
*/
module Decimal {
  import opened Wrappers

  predicate IsDigit(c: char)
  {
    '0' <= c <= '9'
  }

  function DigitValue(c: char): nat
    requires IsDigit(c)
  {
    c as int - '0' as int
  }

  function DigitChar(d: nat): (c: char)
    requires d < 10
    ensures IsDigit(c) && DigitValue(c) == d
  {
    "0123456789"[d]
  }

  predicate AllDigits(s: string)
  {
    forall k :: 0 <= k < |s| ==> IsDigit(s[k])
  }

  /** Non-empty digits with no leading zero, except for "0" itself. */
  predicate CanonicalDigits(s: string)
  {
    |s| > 0 && AllDigits(s) && (s[0] == '0' ==> s == "0")
  }

  /** The form `FormatInt` produces: canonical digits, negated only when non-zero. */
  predicate Canonical(s: string)
  {
    if |s| > 0 && s[0] == '-' then CanonicalDigits(s[1..]) && s[1..] != "0"
    else CanonicalDigits(s)
  }

  /** The value of a string of digits, most significant first. */
  function DigitsValue(s: string): nat
    requires AllDigits(s)
    decreases |s|
  {
    if |s| == 0 then 0 else 10 * DigitsValue(s[..|s| - 1]) + DigitValue(s[|s| - 1])
  }

  /** Reads an optional minus sign followed by at least one digit. */
  function Parse(s: string): Option<int>
  {
    if |s| > 1 && s[0] == '-' && AllDigits(s[1..]) then var v: int := DigitsValue(s[1..]); Some(-v)
    else if |s| > 0 && AllDigits(s) then Some(DigitsValue(s))
    else None
  }

  /** The decimal digits of a natural number. */
  function FormatNat(n: nat): (s: string)
    ensures CanonicalDigits(s)
    ensures DigitsValue(s) == n
    decreases n
  {
    if n < 10 then [DigitChar(n)]
    else
      var t := FormatNat(n / 10);
      var s := t + [DigitChar(n % 10)];
      assert s[..|s| - 1] == t;
      s
  }

  /** `strconv.FormatInt(n, 10)`: a minus sign for negative numbers, then the digits of the magnitude. */
  function FormatInt(n: int): (s: string)
    ensures Canonical(s)
    ensures s[0] == '-' <==> n < 0
    ensures Parse(s) == Some(n)
  {
    if n < 0 then
      var t := FormatNat(-n);
      assert ("-" + t)[1..] == t;
      "-" + t
    else
      FormatNat(n)
  }

  /** Distinct integers have distinct renderings. */
  lemma FormatIntInjective(a: int, b: int)
    ensures FormatInt(a) == FormatInt(b) <==> a == b
  {
    if FormatInt(a) == FormatInt(b) {
      assert Some(a) == Parse(FormatInt(a)) == Parse(FormatInt(b)) == Some(b);
    }
  }

  /** Digits that do not start with '0' have a positive value. */
  lemma {:induction false} LeadingDigitPositive(s: string)
    requires |s| > 0 && AllDigits(s) && s[0] != '0'
    ensures DigitsValue(s) > 0
  {
    if |s| > 1 {
      var p := s[..|s| - 1];
      assert p[0] == s[0];
      LeadingDigitPositive(p);
    }
  }

  /** Every canonical string of digits is the rendering of its value. */
  lemma {:induction false} FormatNatOfDigits(s: string)
    requires CanonicalDigits(s)
    ensures FormatNat(DigitsValue(s)) == s
    decreases |s|
  {
    if |s| > 1 {
      var p := s[..|s| - 1];
      assert p[0] == s[0] != '0';
      LeadingDigitPositive(p);
      FormatNatOfDigits(p);
      var n := DigitsValue(s);
      assert n / 10 == DigitsValue(p) && n % 10 == DigitValue(s[|s| - 1]);
      assert s == p + [s[|s| - 1]];
    }
  }

  /**
    Every canonical decimal string is read back to a number whose rendering
    is that same string; with `FormatInt`'s contract this makes `FormatInt`
    a bijection onto the canonical strings.
  */
  lemma FormatOfParse(s: string)
    requires Canonical(s)
    ensures Parse(s).Some?
    ensures FormatInt(Parse(s).value) == s
  {
    if s[0] == '-' {
      var t := s[1..];
      FormatNatOfDigits(t);
      LeadingDigitPositive(t);
      assert s == "-" + t;
    } else {
      FormatNatOfDigits(s);
    }
  }

  function Pow10(k: nat): (p: nat)
    ensures p >= 1
  {
    if k == 0 then 1 else 10 * Pow10(k - 1)
  }

  /** A natural number below 10^k has at most k digits. */
  lemma {:induction false} FormatNatLength(n: nat, k: nat)
    requires 1 <= k && n < Pow10(k)
    ensures |FormatNat(n)| <= k
    decreases k
  {
    if n >= 10 {
      assert k >= 2;
      assert n / 10 < Pow10(k - 1);
      FormatNatLength(n / 10, k - 1);
    }
  }

  /** A 64-bit signed integer renders in at most 20 characters (19 digits and a sign). */
  lemma FormatInt64Length(n: int)
    requires -0x8000_0000_0000_0000 <= n <= 0x7fff_ffff_ffff_ffff
    ensures |FormatInt(n)| <= 20
  {
    assert Pow10(4) == 10_000;
    assert Pow10(8) == 100_000_000;
    assert Pow10(12) == 1_000_000_000_000;
    assert Pow10(16) == 10_000_000_000_000_000;
    assert Pow10(19) == 10_000_000_000_000_000_000;
    if n < 0 {
      FormatNatLength(-n, 19);
    } else {
      FormatNatLength(n, 19);
    }
  }
}
