/** Decimal numerals: `str(n)` for integers, `int()` on a run of digits, and
    the part of Python's `float()` that the hashrate parser meets in worker
    output (an optional sign, digits, an optional point and fraction). */
module Decimal {

  import opened Wrappers

  predicate IsDigit(c: char) {
    '0' <= c <= '9'
  }

  predicate AllDigits(s: string) {
    forall i :: 0 <= i < |s| ==> IsDigit(s[i])
  }

  function DigitValue(c: char): nat
    requires IsDigit(c)
  {
    c as int - '0' as int
  }

  function DigitChar(d: nat): (c: char)
    requires d < 10
    ensures IsDigit(c) && DigitValue(c) == d
  {
    ('0' as int + d) as char
  }

  /** The value of a run of decimal digits, most significant first. */
  function DigitsValue(s: string): nat
    requires AllDigits(s)
  {
    if s == [] then 0 else DigitsValue(s[..|s| - 1]) * 10 + DigitValue(s[|s| - 1])
  }

  function Pow10(n: nat): (r: nat)
    ensures r >= 1
  {
    if n == 0 then 1 else 10 * Pow10(n - 1)
  }

  /** `str(n)` for a non-negative integer: a non-empty run of digits whose
      value is `n`. */
  function NatToString(n: nat): (r: string)
    ensures r != [] && AllDigits(r)
    ensures DigitsValue(r) == n
  {
    if n < 10 then [DigitChar(n)]
    else
      var r := NatToString(n / 10) + [DigitChar(n % 10)];
      assert r[..|r| - 1] == NatToString(n / 10);
      r
  }

  /** `str(i)` for any integer. */
  function IntToString(i: int): (r: string)
    ensures r != []
    ensures i >= 0 ==> r == NatToString(i)
    ensures i < 0 ==> r[0] == '-'
  {
    if i < 0 then "-" + NatToString(-i) else NatToString(i)
  }

  /** Python `int()` applied to a match of the regular expression `\d+`. */
  function ParseNat(s: string): (r: Option<nat>)
    ensures r.Some? <==> s != [] && AllDigits(s)
    ensures forall n: nat :: s == NatToString(n) ==> r == Some(n)
  {
    if s != [] && AllDigits(s) then Some(DigitsValue(s)) else None
  }

  /** The longest prefix of `s` made of digits (what a greedy `\d*` takes). */
  function LeadingDigits(s: string): (r: string)
    ensures r <= s && AllDigits(r)
    ensures |r| < |s| ==> !IsDigit(s[|r|])
  {
    if s != [] && IsDigit(s[0]) then [s[0]] + LeadingDigits(s[1..]) else []
  }

  lemma LeadingDigitsOf(d: string, rest: string)
    requires AllDigits(d)
    requires rest == [] || !IsDigit(rest[0])
    ensures LeadingDigits(d + rest) == d
  {
    var r := LeadingDigits(d + rest);
    assert forall i :: 0 <= i < |d| ==> (d + rest)[i] == d[i];
    assert forall i :: 0 <= i < |r| ==> r[i] == (d + rest)[i];
    assert |d + rest| > |d| ==> (d + rest)[|d|] == rest[0];
    assert |r| == |d|;
  }

  function Fraction(d: string): real
    requires AllDigits(d)
  {
    DigitsValue(d) as real / Pow10(|d|) as real
  }

  /** Digits, optionally followed by a point and more digits; at least one
      digit in all. */
  function ParseUnsigned(s: string): (r: Option<real>)
    ensures r.Some? ==> r.value >= 0.0
    ensures r.Some? ==> s != [] && (IsDigit(s[|s| - 1]) || s[|s| - 1] == '.')
  {
    var a := LeadingDigits(s);
    var rest := s[|a|..];
    if rest == [] then
      (if a != [] then Some(DigitsValue(a) as real) else None)
    else if rest[0] == '.' && AllDigits(rest[1..]) && (a != [] || |rest| > 1) then
      assert s[|s| - 1] == rest[|rest| - 1];
      assert |rest| > 1 ==> rest[|rest| - 1] == rest[1..][|rest| - 2];
      Some(DigitsValue(a) as real + Fraction(rest[1..]))
    else
      None
  }

  /** Python's `float()` on a token holding no whitespace, for the numerals
      `[+-]?(\d+(\.\d*)?|\.\d+)`; anything else gives `None`. A token that
      ends in a letter never parses. */
  function ParseFloat(s: string): (r: Option<real>)
    ensures r.Some? ==> s != [] && (IsDigit(s[|s| - 1]) || s[|s| - 1] == '.')
    ensures r.Some? && s[0] != '-' ==> r.value >= 0.0
  {
    if s != [] && (s[0] == '+' || s[0] == '-') then
      match ParseUnsigned(s[1..])
      case None => None
      case Some(v) =>
        assert s[|s| - 1] == s[1..][|s| - 2];
        Some(if s[0] == '-' then -v else v)
    else
      ParseUnsigned(s)
  }

  /** `float(str(n)) == n`. */
  lemma ParseFloatOfNat(n: nat)
    ensures ParseFloat(NatToString(n)) == Some(n as real)
  {
    var d := NatToString(n);
    assert d + [] == d;
    LeadingDigitsOf(d, []);
    assert d[|d|..] == [];
  }

  /** `float("a.b")` for digit runs `a` and `b`, not both empty: the whole
      part plus the fraction, as `2.5` reads as 2 + 5/10. */
  lemma ParseFloatOfDecimal(a: string, b: string)
    requires AllDigits(a) && AllDigits(b) && (a != [] || b != [])
    ensures ParseFloat(a + "." + b) == Some(DigitsValue(a) as real + Fraction(b))
  {
    var s := a + "." + b;
    assert s == a + ("." + b);
    LeadingDigitsOf(a, "." + b);
    assert s[|a|..] == "." + b;
    assert ("." + b)[1..] == b;
    assert s != [] && (s[0] == '+' || s[0] == '-') ==> false by {
      if a != [] { assert s[0] == a[0]; } else { assert s[0] == '.'; }
    }
  }

  lemma TwoPointFive()
    ensures ParseFloat("2.5") == Some(2.5)
  {
    ParseFloatOfDecimal("2", "5");
    assert "2" + "." + "5" == "2.5";
  }
}
