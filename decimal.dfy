/** Decimal rendering of integers as `std::to_string` produces it: the digits
    of the magnitude with no leading zeros, preceded by '-' for a negative
    value. The parser is the partner that shows the rendering loses nothing. */
module Decimal {

  predicate IsDigit(c: char) { '0' <= c <= '9' }

  function DigitChar(d: nat): (c: char)
    requires d < 10
    ensures IsDigit(c) && c as int - '0' as int == d
  {
    ('0' as int + d) as char
  }

  function DigitValue(c: char): nat
    requires IsDigit(c)
  {
    c as int - '0' as int
  }

  /** The decimal digits of `n`, most significant first. */
  function NatToString(n: nat): (s: string)
    ensures |s| >= 1
    ensures forall i :: 0 <= i < |s| ==> IsDigit(s[i])
    ensures s[0] == '0' ==> n == 0 && s == "0"
  {
    if n < 10 then [DigitChar(n)] else NatToString(n / 10) + [DigitChar(n % 10)]
  }

  /** An optionally '-'-prefixed, non-empty string of decimal digits. */
  predicate IsDecimal(s: string)
  {
    |s| >= 1 &&
    (s[0] == '-' ==> |s| >= 2 && forall i :: 1 <= i < |s| ==> IsDigit(s[i])) &&
    (s[0] != '-' ==> forall i :: 0 <= i < |s| ==> IsDigit(s[i]))
  }

  /** `std::to_string` on a signed integer. */
  function IntToString(n: int): (s: string)
    ensures IsDecimal(s)
    ensures s[0] == '-' <==> n < 0
    ensures var digits := if n < 0 then s[1..] else s;
            digits[0] == '0' ==> s == "0"
  {
    if n < 0 then "-" + NatToString(-n) else NatToString(n)
  }

  /** The value of a string of decimal digits. */
  function ParseNat(s: string): nat
    requires forall i :: 0 <= i < |s| ==> IsDigit(s[i])
  {
    if s == [] then 0 else ParseNat(s[..|s| - 1]) * 10 + DigitValue(s[|s| - 1])
  }

  /** The value of an optionally '-'-prefixed string of decimal digits. */
  function ParseInt(s: string): int
    requires IsDecimal(s)
  {
    if s[0] == '-' then -(ParseNat(s[1..]) as int) else ParseNat(s)
  }

  lemma {:induction false} NatToStringRoundTrip(n: nat)
    ensures ParseNat(NatToString(n)) == n
  {
    var s := NatToString(n);
    if n >= 10 {
      NatToStringRoundTrip(n / 10);
      assert s[..|s| - 1] == NatToString(n / 10);
    }
  }

  /** Reading back the rendering of any integer gives that integer. */
  lemma IntToStringRoundTrip(n: int)
    ensures ParseInt(IntToString(n)) == n
  {
    var s := IntToString(n);
    if n < 0 {
      assert s[1..] == NatToString(-n);
      NatToStringRoundTrip(-n);
    } else {
      NatToStringRoundTrip(n);
    }
  }

  /** A decimal numeral in the form `std::to_string` writes: no leading zero
      and no "-0". */
  predicate IsCanonical(s: string)
  {
    IsDecimal(s) &&
    var digits := if s[0] == '-' then s[1..] else s;
    digits[0] == '0' ==> s == "0"
  }

  /** The rendering is the only canonical numeral for its value: any canonical
      numeral is the rendering of the integer it denotes. */
  lemma CanonicalIsRendering(s: string)
    requires IsCanonical(s)
    ensures s == IntToString(ParseInt(s))
  {
    if s[0] == '-' {
      var digits := s[1..];
      NoLeadingZeroPositive(digits);
      CanonicalNat(digits);
      assert s == "-" + digits;
    } else {
      CanonicalNat(s);
    }
  }

  lemma {:induction false} CanonicalNat(d: string)
    requires |d| >= 1 && forall i :: 0 <= i < |d| ==> IsDigit(d[i])
    requires d[0] == '0' ==> |d| == 1
    ensures NatToString(ParseNat(d)) == d
    decreases |d|
  {
    if |d| > 1 {
      var prefix := d[..|d| - 1];
      NoLeadingZeroPositive(prefix);
      CanonicalNat(prefix);
      assert d == prefix + [d[|d| - 1]];
    } else {
      assert ParseNat(d) == ParseNat([]) * 10 + DigitValue(d[0]);
    }
  }

  lemma {:induction false} NoLeadingZeroPositive(d: string)
    requires |d| >= 1 && forall i :: 0 <= i < |d| ==> IsDigit(d[i])
    requires d[0] != '0'
    ensures ParseNat(d) >= 1
    decreases |d|
  {
    if |d| > 1 {
      NoLeadingZeroPositive(d[..|d| - 1]);
    }
  }

  /** Distinct integers render differently. */
  lemma IntToStringInjective(m: int, n: int)
    requires IntToString(m) == IntToString(n)
    ensures m == n
  {
    IntToStringRoundTrip(m);
    IntToStringRoundTrip(n);
  }
}
