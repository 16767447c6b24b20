/**
 * JavaScript's `Number(token)` on the decimal literals found in WKT
 * coordinates: an optional sign, digits with an optional decimal point,
 * and an optional exponent. `Number("")` is 0. Tokens that `Number` turns
 * into NaN give `None`.
 */
module Number {

  import opened Wrappers

  predicate IsDigit(c: char) {
    '0' <= c <= '9'
  }

  predicate AllDigits(s: string) {
    forall i :: 0 <= i < |s| ==> IsDigit(s[i])
  }

  function DigitValue(c: char): nat
    requires IsDigit(c)
  {
    c as int - '0' as int
  }

  /** The value of a string of decimal digits, most significant first. */
  function DigitsValue(s: string): nat
    requires AllDigits(s)
  {
    if s == [] then 0 else DigitsValue(s[..|s| - 1]) * 10 + DigitValue(s[|s| - 1])
  }

  function Pow10(k: nat): (r: nat)
    ensures r >= 1
  {
    if k == 0 then 1 else 10 * Pow10(k - 1)
  }

  /** The first index of `c` in `s`, if any. */
  function IndexOf(s: string, c: char): (r: Option<nat>)
    ensures r.None? <==> c !in s
    ensures r.Some? ==> r.value < |s| && s[r.value] == c && c !in s[..r.value]
  {
    if s == [] then None
    else if s[0] == c then Some(0)
    else
      var r := IndexOf(s[1..], c);
      assert s == [s[0]] + s[1..];
      if r.None? then None
      else
        assert s[..r.value + 1] == [s[0]] + s[1..][..r.value];
        Some(r.value + 1)
  }

  /** The first index of an exponent marker `e` or `E`, if any. */
  function ExponentMark(s: string): (r: Option<nat>)
    ensures r.None? <==> 'e' !in s && 'E' !in s
    ensures r.Some? ==> r.value < |s| && (s[r.value] == 'e' || s[r.value] == 'E')
    ensures r.Some? ==> 'e' !in s[..r.value] && 'E' !in s[..r.value]
  {
    var e, E := IndexOf(s, 'e'), IndexOf(s, 'E');
    if e.None? then
      assert E.Some? ==> forall i :: 0 <= i < E.value ==> s[..E.value][i] == s[i];
      E
    else if E.None? then
      assert forall i :: 0 <= i < e.value ==> s[..e.value][i] == s[i];
      e
    else if e.value < E.value then
      assert s[..e.value] == s[..E.value][..e.value];
      e
    else
      assert s[..E.value] == s[..e.value][..E.value];
      E
  }

  /** A mantissa: digits, or digits "." digits with at least one digit on
      one side of the point ("5", "5.", ".5", "5.25"). */
  function ParseMantissa(s: string): Option<real>
  {
    match IndexOf(s, '.')
    case None => if s != [] && AllDigits(s) then Some(DigitsValue(s) as real) else None
    case Some(dot) => ParsePointedParts(s[..dot], s[dot + 1..])
  }

  /** The whole and fraction digits either side of the decimal point. */
  function ParsePointedParts(ip: string, fp: string): Option<real>
  {
    if (ip != [] || fp != []) && AllDigits(ip) && AllDigits(fp)
    then Some(DigitsValue(ip) as real + Shift(DigitsValue(fp) as real, |fp|))
    else None
  }

  /** An exponent: an optional sign and at least one digit. */
  function ParseExponent(s: string): Option<int>
  {
    if s != [] && (s[0] == '+' || s[0] == '-') then
      var d := s[1..];
      if d != [] && AllDigits(d) then
        Some(if s[0] == '-' then -(DigitsValue(d) as int) else DigitsValue(d) as int)
      else None
    else if s != [] && AllDigits(s) then Some(DigitsValue(s) as int)
    else None
  }

  /** x with the decimal point moved k places left: x / 10^k. */
  function Shift(x: real, k: nat): real {
    if k == 0 then x else Shift(x, k - 1) / 10.0
  }

  /** x scaled by 10^e, for an exponent e of either sign. */
  function Scale10(x: real, e: int): real
    decreases if e >= 0 then e else -e
  {
    if e == 0 then x
    else if e > 0 then Scale10(x, e - 1) * 10.0
    else Scale10(x, e + 1) / 10.0
  }

  /** Shifting k places is dividing by 10^k. */
  lemma {:induction false} ShiftPow10(x: real, k: nat)
    ensures Shift(x, k) == x / Pow10(k) as real
  {
    if k > 0 {
      ShiftPow10(x, k - 1);
      var p := Pow10(k - 1) as real;
      var q := x / p;
      assert q * p == x;
      assert (q / 10.0) * (p * 10.0) == x;
      assert Pow10(k) as real == p * 10.0;
    }
  }

  /** Scaling by 10^e is multiplying by 10^e for e >= 0. */
  lemma {:induction false} Scale10Up(x: real, e: nat)
    ensures Scale10(x, e) == x * Pow10(e) as real
  {
    if e > 0 {
      Scale10Up(x, e - 1);
      assert Pow10(e) as real == Pow10(e - 1) as real * 10.0;
    }
  }

  /** Scaling by 10^-k is shifting k places, that is dividing by 10^k. */
  lemma {:induction false} Scale10Down(x: real, k: nat)
    ensures Scale10(x, -(k as int)) == Shift(x, k)
  {
    if k > 0 {
      Scale10Down(x, k - 1);
    }
  }

  /** An unsigned literal: a mantissa with an optional exponent. */
  function ParseUnsigned(s: string): Option<real>
  {
    match ExponentMark(s)
    case None => ParseMantissa(s)
    case Some(k) =>
      match (ParseMantissa(s[..k]), ParseExponent(s[k + 1..]))
      case (Some(m), Some(e)) => Some(Scale10(m, e))
      case _ => None
  }

  /** `Number(token)` for a token without whitespace. */
  function ParseNumber(s: string): Option<real>
  {
    if s == [] then Some(0.0)
    else if s[0] == '-' then
      match ParseUnsigned(s[1..])
      case Some(v) => Some(-v)
      case None => None
    else if s[0] == '+' then ParseUnsigned(s[1..])
    else ParseUnsigned(s)
  }

  /** An exponent of digits, with or without a sign, reads as their value,
      negated after a minus sign. */
  lemma ParseExponentSigned(d: string)
    requires d != [] && AllDigits(d)
    ensures ParseExponent(d) == Some(DigitsValue(d) as int)
    ensures ParseExponent("+" + d) == Some(DigitsValue(d) as int)
    ensures ParseExponent("-" + d) == Some(-(DigitsValue(d) as int))
  {
    assert ("+" + d)[1..] == d;
    assert ("-" + d)[1..] == d;
  }

  /** A literal with an exponent: a mantissa text m reading as v, a marker
      `e` or `E`, and an exponent text x reading as k together read as v
      scaled by 10^k. */
  lemma ParseUnsignedExponent(m: string, c: char, x: string, v: real, k: int)
    requires c == 'e' || c == 'E'
    requires ParseMantissa(m) == Some(v) && ParseExponent(x) == Some(k)
    requires 'e' !in m && 'E' !in m
    ensures ParseUnsigned(m + [c] + x) == Some(Scale10(v, k))
  {
    var s := m + [c] + x;
    assert s[|m|] == c;
    var r := ExponentMark(s);
    assert forall i :: 0 <= i < |m| ==> s[i] == m[i];
    assert forall n :: |m| < n <= |s| ==> s[..n][|m|] == c;
    assert r.value == |m|;
    assert s[..|m|] == m;
    assert s[|m| + 1..] == x;
  }

  /** A plus sign in front of a literal changes nothing. */
  lemma ParsePlus(body: string)
    ensures ParseNumber("+" + body) == ParseUnsigned(body)
  {
    assert ("+" + body)[1..] == body;
  }

  // ---------------------------------------------------------------------
  // Writing decimals, and reading them back

  /** A decimal as written: a sign, a whole part and `places` fraction
      digits holding `frac` (so `frac < 10^places`). */
  datatype Decimal = Decimal(negative: bool, whole: nat, frac: nat, places: nat)

  predicate WellFormed(d: Decimal) {
    d.frac < Pow10(d.places)
  }

  /** The value written: the whole part plus the fraction digits shifted
      `places` places right of the point (whole + frac / 10^places). */
  function Magnitude(d: Decimal): real {
    d.whole as real + Shift(d.frac as real, d.places)
  }

  function Value(d: Decimal): real {
    if d.negative then -Magnitude(d) else Magnitude(d)
  }

  function DigitChar(k: nat): (c: char)
    requires k < 10
    ensures IsDigit(c) && DigitValue(c) == k
  {
    ('0' as int + k) as char
  }

  /** The decimal digits of n, without leading zeros ("0" for zero). */
  function NatDigits(n: nat): (s: string)
    ensures AllDigits(s) && s != []
  {
    if n < 10 then [DigitChar(n)] else NatDigits(n / 10) + [DigitChar(n % 10)]
  }

  /** `k` zeros followed by `s`. */
  function ZeroPad(s: string, k: nat): (r: string)
    ensures |r| == |s| + k
  {
    if k == 0 then s else ['0'] + ZeroPad(s, k - 1)
  }

  /** The digits of n, left-padded with zeros to exactly `width`
      characters (n must fit). */
  function FixedDigits(n: nat, width: nat): (s: string)
    requires width >= 1 && n < Pow10(width)
    ensures |s| == width && AllDigits(s)
  {
    var ds := NatDigits(n);
    NatDigitsLength(n, width);
    ZeroPadDigits(ds, width - |ds|);
    ZeroPad(ds, width - |ds|)
  }

  /** How a coordinate is written: an optional minus sign, the whole part,
      and for `places > 0` a decimal point and exactly `places` fraction
      digits ("-73.90", "40.7", "12"). */
  function FormatDecimal(d: Decimal): string
    requires WellFormed(d)
  {
    (if d.negative then "-" else "") + FormatMagnitude(d)
  }

  function FormatMagnitude(d: Decimal): (s: string)
    requires WellFormed(d)
    ensures s != [] && IsDigit(s[0])
  {
    if d.places == 0 then NatDigits(d.whole)
    else NatDigits(d.whole) + "." + FixedDigits(d.frac, d.places)
  }

  /** The digit string of n reads back as n. */
  lemma {:induction false} NatDigitsValue(n: nat)
    ensures DigitsValue(NatDigits(n)) == n
  {
    if n >= 10 {
      NatDigitsValue(n / 10);
      var s := NatDigits(n);
      assert s[..|s| - 1] == NatDigits(n / 10);
    }
  }

  /** A number below 10^w has at most w digits (w >= 1). */
  lemma {:induction false} NatDigitsLength(n: nat, w: nat)
    requires n < Pow10(w)
    ensures w >= 1 ==> |NatDigits(n)| <= w
  {
    if n >= 10 && w >= 1 {
      assert n / 10 < Pow10(w - 1);
      NatDigitsLength(n / 10, w - 1);
    }
  }

  /** Leading zeros do not change the value of a digit string. */
  lemma {:induction false} ZeroPadDigits(s: string, k: nat)
    requires AllDigits(s)
    ensures AllDigits(ZeroPad(s, k)) && DigitsValue(ZeroPad(s, k)) == DigitsValue(s)
  {
    if k > 0 {
      ZeroPadDigits(s, k - 1);
      LeadingZero(ZeroPad(s, k - 1));
    }
  }

  lemma {:induction false} LeadingZero(s: string)
    requires AllDigits(s)
    ensures AllDigits(['0'] + s) && DigitsValue(['0'] + s) == DigitsValue(s)
  {
    if s != [] {
      var t := ['0'] + s;
      assert t[..|t| - 1] == ['0'] + s[..|s| - 1];
      LeadingZero(s[..|s| - 1]);
    }
  }

  lemma {:induction false} FixedDigitsValue(n: nat, width: nat)
    requires width >= 1 && n < Pow10(width)
    ensures DigitsValue(FixedDigits(n, width)) == n
  {
    var ds := NatDigits(n);
    NatDigitsLength(n, width);
    ZeroPadDigits(ds, width - |ds|);
    NatDigitsValue(n);
  }

  /** Reading back a written decimal gives its exact value. */
  lemma ParseFormatDecimal(d: Decimal)
    requires WellFormed(d)
    ensures ParseNumber(FormatDecimal(d)) == Some(Value(d))
  {
    var body := FormatMagnitude(d);
    ParseFormatMagnitude(d);
    if d.negative {
      assert FormatDecimal(d) == "-" + body;
      ParseNegative(body);
    } else {
      assert FormatDecimal(d) == body;
      ParsePositive(body);
    }
  }

  /** A minus sign in front of a literal negates its value. */
  lemma ParseNegative(body: string)
    ensures ParseNumber("-" + body) == match ParseUnsigned(body)
      case Some(v) => Some(-v)
      case None => None
  {
    assert ("-" + body)[1..] == body;
  }

  /** A literal that starts with a digit reads without a sign. */
  lemma ParsePositive(body: string)
    requires body != [] && IsDigit(body[0])
    ensures ParseNumber(body) == ParseUnsigned(body)
  {
  }

  /** The unsigned part of a written decimal reads back as its magnitude. */
  lemma ParseFormatMagnitude(d: Decimal)
    requires WellFormed(d)
    ensures ParseUnsigned(FormatMagnitude(d)) == Some(Magnitude(d))
  {
    if d.places == 0 {
      ParseFormatWhole(d);
    } else {
      ParseFormatPointed(d);
    }
  }

  /** Without fraction digits only the whole part is written. */
  lemma ParseFormatWhole(d: Decimal)
    requires WellFormed(d) && d.places == 0
    ensures ParseUnsigned(FormatMagnitude(d)) == Some(Magnitude(d))
  {
    var ip := NatDigits(d.whole);
    NatDigitsValue(d.whole);
    assert d.frac == 0;
    assert Magnitude(d) == d.whole as real;
    ParseDigitsOnly(ip);
  }

  /** With fraction digits the whole part, a point and exactly `places`
      digits are written. */
  lemma ParseFormatPointed(d: Decimal)
    requires WellFormed(d) && d.places > 0
    ensures ParseUnsigned(FormatMagnitude(d)) == Some(Magnitude(d))
  {
    var ip := NatDigits(d.whole);
    var fp := FixedDigits(d.frac, d.places);
    assert FormatMagnitude(d) == ip + "." + fp;
    ParsePointed(ip, fp);
    PointedPartsValue(d);
  }

  /** The two digit strings of a decimal with a fraction read as its
      magnitude. */
  lemma PointedPartsValue(d: Decimal)
    requires WellFormed(d) && d.places > 0
    ensures ParsePointedParts(NatDigits(d.whole), FixedDigits(d.frac, d.places)) == Some(Magnitude(d))
  {
    NatDigitsValue(d.whole);
    FixedDigitsValue(d.frac, d.places);
  }

  /** A non-empty digit string reads as its value. */
  lemma ParseDigitsOnly(s: string)
    requires s != [] && AllDigits(s)
    ensures ParseUnsigned(s) == Some(DigitsValue(s) as real)
  {
    NoMarks(s);
  }

  /** Digits, a point and digits read as whole part plus fraction. */
  lemma ParsePointed(ip: string, fp: string)
    requires ip != [] && AllDigits(ip) && AllDigits(fp)
    ensures ParseUnsigned(ip + "." + fp) == ParsePointedParts(ip, fp)
  {
    var s := ip + "." + fp;
    NoMarks(ip);
    NoMarks(fp);
    NoExponent(s);
    IndexAfter(ip, '.', fp);
    MantissaPointed(ip, fp);
  }

  lemma NoExponent(s: string)
    requires 'e' !in s && 'E' !in s
    ensures ParseUnsigned(s) == ParseMantissa(s)
  {
  }

  lemma MantissaPointed(ip: string, fp: string)
    requires IndexOf(ip + "." + fp, '.') == Some(|ip|)
    ensures ParseMantissa(ip + "." + fp) == ParsePointedParts(ip, fp)
  {
    var s := ip + "." + fp;
    assert s[..|ip|] == ip;
    assert s[|ip| + 1..] == fp;
  }

  lemma IndexAfter(a: string, c: char, b: string)
    requires c !in a
    ensures IndexOf(a + [c] + b, c) == Some(|a|)
  {
    var s := a + [c] + b;
    assert s[|a|] == c;
    assert s[..|a|] == a;
  }

  lemma NoMarks(s: string)
    requires AllDigits(s)
    ensures '.' !in s && 'e' !in s && 'E' !in s
    ensures IndexOf(s, '.').None? && ExponentMark(s).None?
  {
  }

}
