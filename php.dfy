/**
 * The few PHP language rules the modelled code relies on: `empty()` on a
 * string, the `(int)` cast of a string, and the decimal rendering of an int.
 */
module Php {

  predicate IsDigit(c: char) { '0' <= c <= '9' }

  /** PHP's `empty()` on a string: true for "" and for "0". */
  predicate Empty(s: string) { s == "" || s == "0" }

  /** The blanks that the `(int)` cast skips before the number. */
  predicate IsLeadingBlank(c: char) {
    c == ' ' || c == '\t' || c == '\n' || c == '\r' || c == '\U{000B}' || c == '\U{000C}'
  }

  function DigitChar(d: nat): (c: char)
    requires d < 10
    ensures IsDigit(c)
  {
    (('0' as int) + d) as char
  }

  function DigitValue(c: char): (d: nat)
    requires IsDigit(c)
    ensures d < 10
  {
    (c as int) - ('0' as int)
  }

  predicate AllDigits(s: string) {
    forall k :: 0 <= k < |s| ==> IsDigit(s[k])
  }

  /** The decimal text of `n`, as PHP interpolates an int into a string. */
  function NatToString(n: nat): (s: string)
    ensures |s| >= 1 && AllDigits(s)
    decreases n
  {
    if n < 10 then [DigitChar(n)] else NatToString(n / 10) + [DigitChar(n % 10)]
  }

  /** The value of a string of decimal digits. */
  function DigitsValue(s: string): nat
    requires AllDigits(s)
    decreases |s|
  {
    if s == [] then 0 else DigitsValue(s[..|s| - 1]) * 10 + DigitValue(s[|s| - 1])
  }

  /** Reading back the decimal text of `n` gives `n`. */
  lemma {:induction false} DigitsValueOfNatToString(n: nat)
    ensures DigitsValue(NatToString(n)) == n
    decreases n
  {
    var s := NatToString(n);
    if n >= 10 {
      DigitsValueOfNatToString(n / 10);
      assert s[..|s| - 1] == NatToString(n / 10);
    }
  }

  /** Different numbers have different decimal texts. */
  lemma NatToStringInjective(m: nat, n: nat)
    requires NatToString(m) == NatToString(n)
    ensures m == n
  {
    DigitsValueOfNatToString(m);
    DigitsValueOfNatToString(n);
  }

  /** The longest prefix of `s` made of digits. */
  function LeadingDigits(s: string): (r: string)
    ensures |r| <= |s| && r == s[..|r|] && AllDigits(r)
    ensures |r| < |s| ==> !IsDigit(s[|r|])
  {
    if s != [] && IsDigit(s[0]) then [s[0]] + LeadingDigits(s[1..]) else []
  }

  function SkipBlanks(s: string): (r: string)
    ensures |r| <= |s| && r == s[|s| - |r|..]
    ensures r == [] || !IsLeadingBlank(r[0])
  {
    if s != [] && IsLeadingBlank(s[0]) then SkipBlanks(s[1..]) else s
  }

  /** `10` to the power `n`. */
  function Pow10(n: nat): (p: nat)
    ensures p >= 1
  {
    if n == 0 then 1 else 10 * Pow10(n - 1)
  }

  /** `n * 10^k`, truncated toward zero when `k` is negative: one decimal shift at a time. */
  function Scaled(n: nat, k: int): nat
    decreases if k >= 0 then k else -k
  {
    if k == 0 then n else if k > 0 then 10 * Scaled(n, k - 1) else Scaled(n / 10, k + 1)
  }

  /** A non-negative shift multiplies by a power of ten. */
  lemma {:induction false} ScaledUp(n: nat, k: nat)
    ensures Scaled(n, k) == n * Pow10(k)
    decreases k
  {
    if k > 0 {
      ScaledUp(n, k - 1);
      assert 10 * (n * Pow10(k - 1)) == n * (10 * Pow10(k - 1));
    }
  }

  /** Shifting right by as many places as there are fraction digits drops the fraction. */
  lemma {:induction false} ScaledDropsFraction(d: string, e: string)
    requires AllDigits(d) && AllDigits(e)
    ensures AllDigits(d + e)
    ensures Scaled(DigitsValue(d + e), -|e|) == DigitsValue(d)
    decreases |e|
  {
    assert AllDigits(d + e) by {
      forall k | 0 <= k < |d + e|
        ensures IsDigit((d + e)[k])
      {
        if k >= |d| {
          assert (d + e)[k] == e[k - |d|];
        }
      }
    }
    if e == [] {
      assert d + e == d;
    } else {
      var e' := e[..|e| - 1];
      assert (d + e)[..|d + e| - 1] == d + e';
      ScaledDropsFraction(d, e');
      var y := DigitsValue(d + e');
      var c := DigitValue(e[|e| - 1]);
      assert DigitsValue(d + e) == y * 10 + c;
      assert (y * 10 + c) / 10 == y;
    }
  }

  /** The exponent `e[+-]digits` (or `E...`) at the head of `s`; 0 when there is none. */
  function Exponent(s: string): int {
    if s != [] && (s[0] == 'e' || s[0] == 'E') then
      var rest := s[1..];
      if rest != [] && rest[0] == '-' then -(DigitsValue(LeadingDigits(rest[1..])) as int)
      else if rest != [] && rest[0] == '+' then DigitsValue(LeadingDigits(rest[1..]))
      else DigitsValue(LeadingDigits(rest))
    else 0
  }

  /** Two runs of digits make one. */
  lemma AllDigitsConcat(a: string, b: string)
    requires AllDigits(a) && AllDigits(b)
    ensures AllDigits(a + b)
  {
    forall k | 0 <= k < |a + b|
      ensures IsDigit((a + b)[k])
    {
      if k >= |a| {
        assert (a + b)[k] == b[k - |a|];
      }
    }
  }

  /**
   * The magnitude of the unsigned number at the head of `u`, truncated to an
   * integer: digits, then an optional `.` and fraction digits, then an
   * optional exponent. With no digit before the exponent it is 0.
   */
  function Magnitude(u: string): nat {
    var whole := LeadingDigits(u);
    MagnitudeAfter(whole, u[|whole|..])
  }

  /** The magnitude once the whole digits are read; `rest` is the text after them. */
  function MagnitudeAfter(whole: string, rest: string): nat
    requires AllDigits(whole)
  {
    if rest != [] && rest[0] == '.' then
      var frac := LeadingDigits(rest[1..]);
      ShiftedFraction(whole, frac, rest[1 + |frac|..])
    else Scaled(DigitsValue(whole), Exponent(rest))
  }

  /** `whole.frac` times ten to the exponent at the head of `tail`, truncated toward zero. */
  function ShiftedFraction(whole: string, frac: string, tail: string): nat
    requires AllDigits(whole) && AllDigits(frac)
  {
    AllDigitsConcat(whole, frac);
    Scaled(DigitsValue(whole + frac), Exponent(tail) - |frac|)
  }

  /**
   * PHP's `(int)` cast and `intval()` of a string: leading blanks, an optional
   * sign, then the longest leading numeric text (digits, fraction, exponent),
   * whose value is truncated toward zero; no number at all gives 0.
   */
  function IntVal(s: string): int {
    var t := SkipBlanks(s);
    if t != [] && t[0] == '-' then -(Magnitude(t[1..]) as int)
    else if t != [] && t[0] == '+' then Magnitude(t[1..])
    else Magnitude(t)
  }

  lemma {:induction false} LeadingDigitsOfDigits(s: string)
    requires AllDigits(s)
    ensures LeadingDigits(s) == s
    decreases |s|
  {
    if s != [] {
      LeadingDigitsOfDigits(s[1..]);
    }
  }

  /** The digits of `d` are the whole leading run of `d + r` when `r` does not start with a digit. */
  lemma {:induction false} LeadingDigitsConcat(d: string, r: string)
    requires AllDigits(d) && (r == [] || !IsDigit(r[0]))
    ensures LeadingDigits(d + r) == d
    decreases |d|
  {
    if d == [] {
      assert d + r == r;
    } else {
      assert (d + r)[1..] == d[1..] + r;
      LeadingDigitsConcat(d[1..], r);
    }
  }

  /** Text that starts with a digit or `.` has no blank and no sign to skip: the cast is its magnitude. */
  lemma IntValOfUnsigned(u: string)
    requires u != [] && (IsDigit(u[0]) || u[0] == '.')
    ensures IntVal(u) == Magnitude(u)
  {
    assert SkipBlanks(u) == u;
  }

  /** `e` followed by digits is the exponent those digits denote. */
  lemma ExponentOfDigits(e: string)
    requires AllDigits(e)
    ensures Exponent("e" + e) == DigitsValue(e)
  {
    assert ("e" + e)[1..] == e;
    LeadingDigitsOfDigits(e);
  }

  /** The cast reads back what PHP printed for a non-negative int. */
  lemma IntValOfNatToString(n: nat)
    ensures IntVal(NatToString(n)) == n
  {
    var s := NatToString(n);
    IntValOfUnsigned(s);
    var none: string := [];
    assert s + none == s;
    MagnitudeWithoutFraction(s, none);
    DigitsValueOfNatToString(n);
  }

  /** A number with a fraction: `w.f` followed by a tail that does not continue the fraction. */
  lemma MagnitudeWithFraction(w: string, f: string, t: string)
    requires AllDigits(w) && AllDigits(f) && AllDigits(w + f)
    requires t == [] || !IsDigit(t[0])
    ensures Magnitude(w + ("." + (f + t))) == Scaled(DigitsValue(w + f), Exponent(t) - |f|)
  {
    var rest := "." + (f + t);
    LeadingDigitsConcat(w, rest);
    assert (w + rest)[|w|..] == rest;
    assert Magnitude(w + rest) == MagnitudeAfter(w, rest);
    MagnitudeAfterFraction(w, f, t);
  }

  /** Behind the whole digits, `.f` followed by a tail that does not continue the fraction. */
  lemma MagnitudeAfterFraction(w: string, f: string, t: string)
    requires AllDigits(w) && AllDigits(f)
    requires t == [] || !IsDigit(t[0])
    ensures MagnitudeAfter(w, "." + (f + t)) == ShiftedFraction(w, f, t)
  {
    var rest := "." + (f + t);
    assert rest[1..] == f + t;
    LeadingDigitsConcat(f, t);
    assert rest[1 + |f|..] == t;
  }

  /** A number without a fraction: the digits `w` followed by a tail that starts with neither a digit nor `.`. */
  lemma MagnitudeWithoutFraction(w: string, t: string)
    requires AllDigits(w)
    requires t == [] || (!IsDigit(t[0]) && t[0] != '.')
    ensures Magnitude(w + t) == Scaled(DigitsValue(w), Exponent(t))
  {
    LeadingDigitsConcat(w, t);
    assert (w + t)[|w|..] == t;
    assert Magnitude(w + t) == MagnitudeAfter(w, t);
  }

  /** `m` written with an exponent `k` casts to `m * 10^k`: the cast reads scientific notation. */
  lemma IntValOfScientific(m: nat, k: nat)
    ensures IntVal(NatToString(m) + "e" + NatToString(k)) == m * Pow10(k)
  {
    var d, e := NatToString(m), NatToString(k);
    assert d + "e" + e == d + ("e" + e);
    IntValOfUnsigned(d + ("e" + e));
    MagnitudeWithoutFraction(d, "e" + e);
    ExponentOfDigits(e);
    DigitsValueOfNatToString(k);
    DigitsValueOfNatToString(m);
    ScaledUp(m, k);
  }

  /** `m.f` casts to `m`: the fraction is dropped, truncating toward zero. */
  lemma IntValOfDecimal(m: nat, f: nat)
    ensures IntVal(NatToString(m) + "." + NatToString(f)) == m
  {
    var d, e := NatToString(m), NatToString(f);
    var none: string := [];
    assert d + "." + e == d + ("." + (e + none));
    IntValOfUnsigned(d + ("." + (e + none)));
    ScaledDropsFraction(d, e);
    MagnitudeWithFraction(d, e, none);
    DigitsValueOfNatToString(m);
  }

  lemma ExponentOfE1()
    ensures Exponent("e1") == 1
  {
    var rest := "e1"[1..];
    assert rest == "1";
    LeadingDigitsOfDigits(rest);
  }

  /** `"1e3"` casts to 1000. */
  lemma IntValOfExponentText()
    ensures IntVal("1e3") == 1000
  {
    IntValOfScientific(1, 3);
    assert NatToString(1) + "e" + NatToString(3) == "1e3";
  }

  /** `"2.5e1"` casts to 25: the fraction is shifted in by the exponent. */
  lemma IntValOfFractionWithExponent()
    ensures IntVal("2.5e1") == 25
  {
    IntValOfUnsigned("2.5e1");
    MagnitudeOfFractionWithExponent();
  }

  lemma MagnitudeOfFractionWithExponent()
    ensures Magnitude("2.5e1") == 25
  {
    var w, f, t := "2", "5", "e1";
    assert "2.5e1" == w + ("." + (f + t));
    assert AllDigits(w + f) && DigitsValue(w + f) == 25 by {
      assert w + f == "25";
      assert "25"[..1] == "2";
    }
    ExponentOfE1();
    MagnitudeWithFraction(w, f, t);
  }

  /** `".5e1"` casts to 5: a number may start with its fraction. */
  lemma IntValOfLeadingDot()
    ensures IntVal(".5e1") == 5
  {
    IntValOfUnsigned(".5e1");
    MagnitudeOfLeadingDot();
  }

  lemma MagnitudeOfLeadingDot()
    ensures Magnitude(".5e1") == 5
  {
    var w, f, t := "", "5", "e1";
    assert ".5e1" == w + ("." + (f + t));
    assert w + f == f && DigitsValue(f) == 5;
    ExponentOfE1();
    MagnitudeWithFraction(w, f, t);
  }

  /** `"-1.9"` casts to -1: truncation is toward zero. */
  lemma IntValOfNegativeFraction()
    ensures IntVal("-1.9") == -1
  {
    var w, f, t := "1", "9", "";
    assert "-1.9"[1..] == w + ("." + (f + t));
    assert SkipBlanks("-1.9") == "-1.9";
    AllDigitsConcat(w, f);
    MagnitudeWithFraction(w, f, t);
    assert DigitsValue(w + f) == 19 by {
      assert (w + f)[..1] == "1";
    }
    assert Scaled(19, -1) == Scaled(1, 0);
  }

  /** The empty text, and text with no number where the number should start, cast to 0. */
  lemma IntValOfNonNumeric(s: string)
    requires s != [] ==> !IsDigit(s[0]) && !IsLeadingBlank(s[0]) && s[0] != '-' && s[0] != '+' && s[0] != '.'
    ensures IntVal(s) == 0
  {
    assert SkipBlanks(s) == s;
    MagnitudeWithoutFraction([], s);
    assert [] + s == s;
    ScaledOfZero(Exponent(s));
  }

  /** Zero stays zero under any shift. */
  lemma {:induction false} ScaledOfZero(k: int)
    ensures Scaled(0, k) == 0
    decreases if k >= 0 then k else -k
  {
    if k > 0 {
      ScaledOfZero(k - 1);
    } else if k < 0 {
      ScaledOfZero(k + 1);
    }
  }

  function Max(a: int, b: int): int { if a >= b then a else b }

  function Min(a: int, b: int): int { if a <= b then a else b }

  /** `(int)ceil($a / $b)` for a positive divisor. */
  function CeilDiv(a: int, b: int): (q: int)
    requires b > 0
    ensures (q - 1) * b < a <= q * b
  {
    var f := (-a) / b;
    assert -a == f * b + (-a) % b;
    -f
  }
}
