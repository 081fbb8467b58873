/** The string conversion `operator std::string`: the numerator and the
    denominator, each as `std::to_string` writes an `int`, joined by '/'.
    A parser for that text serves as its inverse. */
module Render {
  import opened Fractions

  datatype Option<+T> = None | Some(value: T)

  predicate IsDigit(c: char) {
    '0' <= c <= '9'
  }

  predicate AllDigits(s: string) {
    forall i :: 0 <= i < |s| ==> IsDigit(s[i])
  }

  function DigitChar(d: nat): (c: char)
    requires d < 10
    ensures IsDigit(c)
  {
    (('0' as int) + d) as char
  }

  function DigitValue(c: char): (d: nat)
    requires IsDigit(c)
    ensures d < 10 && DigitChar(d) == c
  {
    (c as int) - ('0' as int)
  }

  /** Decimal digits of n, most significant first, without leading zeros. */
  function NatToString(n: nat): (s: string)
    ensures |s| >= 1 && AllDigits(s)
    ensures |s| > 1 ==> s[0] != '0'
    decreases n
  {
    if n < 10 then [DigitChar(n)] else NatToString(n / 10) + [DigitChar(n % 10)]
  }

  /** `std::to_string(int)`: a '-' before the digits of a negative number. */
  function IntToString(i: int): (s: string)
    ensures |s| >= 1 && '/' !in s
    ensures (s[0] == '-') <==> i < 0
  {
    if i < 0 then "-" + NatToString(-i) else NatToString(i)
  }

  /** `operator std::string`: "numerator/denominator". */
  function ToString(f: Fraction): (s: string)
    ensures '/' in s
  {
    IntToString(f.numerator) + "/" + IntToString(f.denominator)
  }

  /** The number a string of decimal digits denotes. */
  function DigitsValue(s: string): nat
    requires AllDigits(s)
  {
    if |s| == 0 then 0 else DigitsValue(s[..|s| - 1]) * 10 + DigitValue(s[|s| - 1])
  }

  /** Reads an optional '-' followed by one or more digits. */
  function ParseInt(s: string): Option<int> {
    if |s| > 0 && s[0] == '-' then
      var t := s[1..];
      if |t| > 0 && AllDigits(t) then var v: int := DigitsValue(t); Some(-v) else None
    else if |s| > 0 && AllDigits(s) then Some(DigitsValue(s))
    else None
  }

  /** Position of the first '/' in s. */
  function FirstSlash(s: string): (r: Option<nat>)
    ensures r.Some? ==> r.value < |s| && s[r.value] == '/' && '/' !in s[..r.value]
    ensures r.None? ==> '/' !in s
  {
    if |s| == 0 then None
    else if s[0] == '/' then Some(0)
    else match FirstSlash(s[1..])
      case None => None
      case Some(i) =>
        assert s[..i + 1] == [s[0]] + s[1..][..i];
        Some(i + 1)
  }

  /** Reads "n/d" back into the fields n and d; a zero denominator, a missing
      '/' or a malformed number gives None. */
  function ParseFraction(s: string): Option<Fraction> {
    match FirstSlash(s)
    case None => None
    case Some(i) =>
      match (ParseInt(s[..i]), ParseInt(s[i + 1..]))
      case (Some(n), Some(d)) => if d != 0 then Some(FractionFields(n, d)) else None
      case _ => None
  }

  lemma {:induction false} DigitsRoundTrip(n: nat)
    ensures DigitsValue(NatToString(n)) == n
    decreases n
  {
    if n >= 10 {
      var s := NatToString(n);
      DigitsRoundTrip(n / 10);
      assert s[..|s| - 1] == NatToString(n / 10);
    }
  }

  /** Parsing inverts `std::to_string`. */
  lemma IntRoundTrip(i: int)
    ensures ParseInt(IntToString(i)) == Some(i)
  {
    var s := IntToString(i);
    if i < 0 {
      assert s[1..] == NatToString(-i);
      DigitsRoundTrip(-i);
    } else {
      DigitsRoundTrip(i);
    }
  }

  lemma {:induction false} FirstSlashAfter(p: string, q: string)
    requires '/' !in p
    ensures FirstSlash(p + "/" + q) == Some(|p|)
    decreases |p|
  {
    if |p| > 0 {
      assert (p + "/" + q)[1..] == p[1..] + "/" + q;
      FirstSlashAfter(p[1..], q);
    }
  }

  /** The rendering is read back to the same fields. */
  lemma ToStringRoundTrip(f: Fraction)
    ensures ParseFraction(ToString(f)) == Some(f)
  {
    var p, q := IntToString(f.numerator), IntToString(f.denominator);
    var s := ToString(f);
    FirstSlashAfter(p, q);
    assert s[..|p|] == p;
    assert s[|p| + 1..] == q;
    IntRoundTrip(f.numerator);
    IntRoundTrip(f.denominator);
  }

  /** Distinct fields render differently. */
  lemma ToStringInjective(a: Fraction, b: Fraction)
    ensures ToString(a) == ToString(b) <==> a == b
  {
    if ToString(a) == ToString(b) {
      ToStringRoundTrip(a);
      ToStringRoundTrip(b);
    }
  }

  /** `Fraction(3, 4)` renders "3/4"; `Fraction(-1, 2)` renders "1/-2". */
  lemma ToStringExamples()
    ensures ToString(FractionFields(3, 4)) == "3/4"
    ensures ToString(FractionFields(1, -2)) == "1/-2"
  {
  }
}
