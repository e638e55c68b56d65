/**
 * Fixed-point rendering of numbers as Python's format specifications `.Nf`
 * produce it (`f"{x:.2f}"`, `f"{x:.0f}"`), for the summary text.
 *
 * A float is represented by its exact value as a `real`. Python renders
 * that exact value rounded to N decimals, with ties going to the even last
 * digit. A negative value keeps its minus sign even when it rounds to zero.
 */
module Formatting {

  function Pow10(n: nat): (p: nat)
    ensures p >= 1
  {
    if n == 0 then 1 else 10 * Pow10(n - 1)
  }

  predicate IsDigit(c: char) {
    '0' <= c <= '9'
  }

  predicate AllDigits(s: string) {
    forall i :: 0 <= i < |s| ==> IsDigit(s[i])
  }

  function DigitChar(d: nat): (c: char)
    requires d < 10
    ensures IsDigit(c) && c as int - '0' as int == d
  {
    (d + '0' as int) as char
  }

  /** The number a string of decimal digits denotes, most significant first. */
  function DigitsValue(s: string): nat
    requires AllDigits(s)
  {
    if s == [] then 0
    else 10 * DigitsValue(s[..|s| - 1]) + (s[|s| - 1] as int - '0' as int)
  }

  /** Appending one digit shifts the value one place to the left. */
  lemma DigitsValueSnoc(s: string, d: nat)
    requires AllDigits(s) && d < 10
    ensures AllDigits(s + [DigitChar(d)])
    ensures DigitsValue(s + [DigitChar(d)]) == 10 * DigitsValue(s) + d
  {
    assert (s + [DigitChar(d)])[..|s|] == s;
  }

  /** `str(n)` for a non-negative integer: its digits without leading zeros. */
  function Decimal(n: nat): (s: string)
    ensures |s| >= 1 && AllDigits(s)
    ensures |s| > 1 ==> s[0] != '0'
    ensures DigitsValue(s) == n
  {
    if n < 10 then
      DigitsValueSnoc([], n);
      [DigitChar(n)]
    else
      var prefix := Decimal(n / 10);
      DigitsValueSnoc(prefix, n % 10);
      prefix + [DigitChar(n % 10)]
  }

  /** The last `width` digits of n, zero-padded on the left: the fractional
      part of a fixed-point rendering. */
  function PaddedDecimal(n: nat, width: nat): (s: string)
    requires n < Pow10(width)
    ensures |s| == width && AllDigits(s)
    ensures DigitsValue(s) == n
  {
    if width == 0 then []
    else
      var prefix := PaddedDecimal(n / 10, width - 1);
      DigitsValueSnoc(prefix, n % 10);
      prefix + [DigitChar(n % 10)]
  }

  /** The integer nearest to x; on a tie, the even one. */
  function RoundHalfEven(x: real): (n: int)
    ensures -0.5 <= x - (n as real) <= 0.5
    ensures x - (n as real) == 0.5 || (n as real) - x == 0.5 ==> n % 2 == 0
  {
    var f := x.Floor;
    var frac := x - f as real;
    if frac < 0.5 then f
    else if frac > 0.5 then f + 1
    else if f % 2 == 0 then f
    else f + 1
  }

  function Abs(x: real): (y: real)
    ensures y >= 0.0 && (y == x || y == -x)
  {
    if x < 0.0 then -x else x
  }

  /** |x| multiplied by 10 `places` times. */
  function Scale(x: real, places: nat): (y: real)
    ensures y >= 0.0
  {
    if places == 0 then Abs(x) else 10.0 * Scale(x, places - 1)
  }

  /** Scale is |x| * 10^places. */
  lemma {:induction false} ScaleIsProduct(x: real, places: nat)
    ensures Scale(x, places) == Abs(x) * Pow10(places) as real
  {
    if places > 0 {
      ScaleIsProduct(x, places - 1);
      assert Pow10(places) as real == 10.0 * Pow10(places - 1) as real;
    }
  }

  /** |x| * 10^places rounded to the nearest integer, ties to even: the
      digits Fixed prints, as one integer. */
  function ScaledMagnitude(x: real, places: nat): (m: nat)
    ensures -0.5 <= Scale(x, places) - m as real <= 0.5
    ensures (Scale(x, places) - m as real == 0.5 || m as real - Scale(x, places) == 0.5)
            ==> m % 2 == 0
  {
    RoundHalfEven(Scale(x, places))
  }

  /** The integer part and the fractional digits (as one integer) of the
      scaled magnitude m: m == whole * 10^places + fraction. */
  function SplitScaled(m: nat, places: nat): (parts: (nat, nat))
    ensures parts.1 < Pow10(places)
    ensures parts.0 * Pow10(places) + parts.1 == m
  {
    var p := Pow10(places);
    DivMod(m, p);
    (m / p, m % p)
  }

  lemma DivMod(m: nat, p: nat)
    requires p >= 1
    ensures m / p >= 0 && 0 <= m % p < p && (m / p) * p + m % p == m
  {
  }

  /** The text after the integer part: nothing when places == 0, otherwise a
      point and exactly `places` digits. */
  function FractionText(fraction: nat, places: nat): (s: string)
    requires fraction < Pow10(places)
    ensures |s| == if places == 0 then 0 else places + 1
  {
    if places == 0 then "" else "." + PaddedDecimal(fraction, places)
  }

  /** `format(x, f".{places}f")`: optional minus sign, the integer part, and
      when places > 0 a point followed by exactly `places` digits. */
  function Fixed(x: real, places: nat): (s: string)
    ensures |s| > 0
    ensures s[0] == '-' <==> x < 0.0
  {
    var parts := SplitScaled(ScaledMagnitude(x, places), places);
    (if x < 0.0 then "-" else "") + (Decimal(parts.0) + FractionText(parts.1, places))
  }

  /** A non-empty string of digits without a leading zero, as `str` writes
      a non-negative integer. */
  predicate IsNumeral(w: string) {
    |w| >= 1 && AllDigits(w) && (|w| > 1 ==> w[0] != '0')
  }

  /** The shape of Fixed's output without its sign: an integer part without
      leading zeros and, when places > 0, a point followed by exactly
      `places` digits. */
  predicate IsUnsignedFixedText(u: string, places: nat) {
    if places == 0 then IsNumeral(u)
    else
      && |u| >= places + 2
      && IsNumeral(u[..|u| - places - 1])
      && u[|u| - places - 1] == '.'
      && AllDigits(u[|u| - places..])
  }

  /** The shape Fixed produces for a given number of decimals. */
  predicate IsFixedText(s: string, places: nat) {
    |s| > 0 && IsUnsignedFixedText(if s[0] == '-' then s[1..] else s, places)
  }

  /** The digits of an unsigned fixed-point text with the point removed. */
  function UnsignedDigits(u: string, places: nat): (d: string)
    requires IsUnsignedFixedText(u, places)
    ensures AllDigits(d)
  {
    if places == 0 then u else u[..|u| - places - 1] + u[|u| - places..]
  }

  /** Reads a fixed-point text back as the integer number of units of
      10^-places it denotes ("-1.25" with two places is -125). */
  function ParseScaled(s: string, places: nat): int
    requires IsFixedText(s, places)
  {
    if s[0] == '-' then 0 - DigitsValue(UnsignedDigits(s[1..], places))
    else DigitsValue(UnsignedDigits(s, places))
  }

  /** Digits of a concatenation: the first part shifted by the length of the
      second. */
  lemma {:induction false} DigitsValueAppend(a: string, b: string)
    requires AllDigits(a) && AllDigits(b)
    ensures AllDigits(a + b)
    ensures DigitsValue(a + b) == DigitsValue(a) * Pow10(|b|) + DigitsValue(b)
    decreases |b|
  {
    if b == [] {
      assert a + b == a;
    } else {
      var b' := b[..|b| - 1];
      var d := b[|b| - 1] as int - '0' as int;
      assert b == b' + [b[|b| - 1]];
      assert a + b == (a + b') + [b[|b| - 1]];
      assert (a + b)[..|a + b| - 1] == a + b';
      DigitsValueAppend(a, b');
      assert DigitsValue(a + b) == 10 * DigitsValue(a + b') + d;
      assert DigitsValue(b) == 10 * DigitsValue(b') + d;
      ShiftDigit(DigitsValue(a), DigitsValue(b'), d, Pow10(|b'|));
    }
  }

  /** The algebra of appending one digit d to a number split as a * p + b. */
  lemma ShiftDigit(a: int, b: int, d: int, p: int)
    ensures 10 * (a * p + b) + d == a * (10 * p) + (10 * b + d)
  {
  }

  /** The unsigned part of Fixed's output reads back as whole * 10^places +
      fraction. */
  lemma ParseUnsignedParts(whole: nat, fraction: nat, places: nat)
    requires fraction < Pow10(places)
    ensures IsUnsignedFixedText(Decimal(whole) + FractionText(fraction, places), places)
    ensures DigitsValue(UnsignedDigits(Decimal(whole) + FractionText(fraction, places), places))
            == whole * Pow10(places) + fraction
  {
    if places > 0 {
      var f := PaddedDecimal(fraction, places);
      PointSplit(Decimal(whole), f);
      DigitsValueAppend(Decimal(whole), f);
    } else {
      assert Decimal(whole) + FractionText(fraction, places) == Decimal(whole);
      assert Pow10(places) == 1;
    }
  }

  /** Where the point sits in an integer part, a point and a fractional part. */
  lemma PointSplit(w: string, f: string)
    requires IsNumeral(w) && |f| >= 1 && AllDigits(f)
    ensures var u := w + ("." + f);
            && IsUnsignedFixedText(u, |f|)
            && UnsignedDigits(u, |f|) == w + f
  {
    var u := w + ("." + f);
    assert u[..|u| - |f| - 1] == w;
    assert u[|u| - |f|..] == f;
  }

  /** Rendering followed by reading back: the printed digits, as a count of
      10^-places units, are |x| * 10^places rounded to the nearest integer
      with ties to even (ScaledMagnitude), carrying the sign of x. */
  lemma FixedRoundTrip(x: real, places: nat)
    ensures IsFixedText(Fixed(x, places), places)
    ensures ParseScaled(Fixed(x, places), places)
            == if x < 0.0 then -(ScaledMagnitude(x, places) as int) else ScaledMagnitude(x, places)
  {
    var m := ScaledMagnitude(x, places);
    var parts := SplitScaled(m, places);
    var u := Decimal(parts.0) + FractionText(parts.1, places);
    ParseUnsignedParts(parts.0, parts.1, places);
    ParseSign(x < 0.0, u, places);
    assert Fixed(x, places) == (if x < 0.0 then "-" else "") + u;
  }

  /** Reading back a text with an optional minus sign. */
  lemma ParseSign(negative: bool, u: string, places: nat)
    requires IsUnsignedFixedText(u, places) && IsDigit(u[0])
    ensures IsFixedText((if negative then "-" else "") + u, places)
    ensures var v := DigitsValue(UnsignedDigits(u, places)) as int;
            ParseScaled((if negative then "-" else "") + u, places) == if negative then -v else v
  {
    if negative {
      assert ("-" + u)[1..] == u;
    } else {
      assert "" + u == u;
    }
  }

  /** A string of n digits denotes less than 10^n. */
  lemma {:induction false} DigitsValueBelow(s: string)
    requires AllDigits(s)
    ensures DigitsValue(s) < Pow10(|s|)
  {
    if s != [] {
      DigitsValueBelow(s[..|s| - 1]);
    }
  }

  /** A numeral of n > 1 digits denotes at least 10^(n-1). */
  lemma {:induction false} NumeralAtLeast(w: string)
    requires IsNumeral(w) && |w| > 1
    ensures DigitsValue(w) >= Pow10(|w| - 1)
  {
    var prefix := w[..|w| - 1];
    if |prefix| > 1 {
      assert prefix[0] == w[0];
      NumeralAtLeast(prefix);
    }
  }

  /** Digit strings of the same length and value are equal. */
  lemma {:induction false} DigitsInjective(a: string, b: string)
    requires AllDigits(a) && AllDigits(b) && |a| == |b|
    requires DigitsValue(a) == DigitsValue(b)
    ensures a == b
  {
    if a != [] {
      var n := |a| - 1;
      assert IsDigit(a[n]) && IsDigit(b[n]);
      assert AllDigits(a[..n]) && AllDigits(b[..n]);
      var da: nat, db: nat := a[n] as int - '0' as int, b[n] as int - '0' as int;
      assert DigitsValue(a) == DigitsValue(a[..n]) * 10 + da;
      assert DigitsValue(b) == DigitsValue(b[..n]) * 10 + db;
      SplitUnique(DigitsValue(a[..n]), da, DigitsValue(b[..n]), db, 10);
      DigitsInjective(a[..n], b[..n]);
      assert a == a[..n] + [a[n]] && b == b[..n] + [b[n]];
    }
  }

  /** Numerals of the same value are equal: a shorter one denotes less. */
  lemma NumeralInjective(a: string, b: string)
    requires IsNumeral(a) && IsNumeral(b)
    requires DigitsValue(a) == DigitsValue(b)
    ensures a == b
  {
    if |a| < |b| {
      ShorterNumeralSmaller(a, b);
    } else if |b| < |a| {
      ShorterNumeralSmaller(b, a);
    }
    DigitsInjective(a, b);
  }

  lemma ShorterNumeralSmaller(a: string, b: string)
    requires IsNumeral(a) && IsNumeral(b) && |a| < |b|
    ensures DigitsValue(a) < DigitsValue(b)
  {
    DigitsValueBelow(a);
    NumeralAtLeast(b);
    Pow10Monotone(|a|, |b| - 1);
  }

  lemma {:induction false} Pow10Monotone(i: nat, j: nat)
    requires i <= j
    ensures Pow10(i) <= Pow10(j)
  {
    if i < j {
      Pow10Monotone(i, j - 1);
    }
  }

  /** Quotient and remainder are unique: q * p + r with 0 <= r < p. */
  lemma {:induction false} SplitUnique(q1: nat, r1: nat, q2: nat, r2: nat, p: nat)
    requires r1 < p && r2 < p
    requires q1 * p + r1 == q2 * p + r2
    ensures q1 == q2 && r1 == r2
    decreases q1 + q2
  {
    if q1 > 0 && q2 > 0 {
      assert (q1 - 1) * p + r1 == (q2 - 1) * p + r2;
      SplitUnique(q1 - 1, r1, q2 - 1, r2, p);
    }
  }

  /** An unsigned fixed-point text is determined by the number its digits
      denote. */
  lemma UnsignedUnique(u: string, v: string, places: nat)
    requires IsUnsignedFixedText(u, places) && IsUnsignedFixedText(v, places)
    requires DigitsValue(UnsignedDigits(u, places)) == DigitsValue(UnsignedDigits(v, places))
    ensures u == v
  {
    if places == 0 {
      NumeralInjective(u, v);
    } else {
      var wu, fu := u[..|u| - places - 1], u[|u| - places..];
      var wv, fv := v[..|v| - places - 1], v[|v| - places..];
      DigitsValueAppend(wu, fu);
      DigitsValueAppend(wv, fv);
      DigitsValueBelow(fu);
      DigitsValueBelow(fv);
      SplitUnique(DigitsValue(wu), DigitsValue(fu), DigitsValue(wv), DigitsValue(fv), Pow10(places));
      NumeralInjective(wu, wv);
      DigitsInjective(fu, fv);
      assert u == wu + [u[|u| - places - 1]] + fu;
      assert v == wv + [v[|v| - places - 1]] + fv;
    }
  }

  /** A fixed-point text is determined by its sign and the number it
      denotes. */
  lemma FixedTextUnique(s: string, t: string, places: nat)
    requires IsFixedText(s, places) && IsFixedText(t, places)
    requires (s[0] == '-') == (t[0] == '-')
    requires ParseScaled(s, places) == ParseScaled(t, places)
    ensures s == t
  {
    if s[0] == '-' {
      UnsignedUnique(s[1..], t[1..], places);
      assert s == [s[0]] + s[1..] && t == [t[0]] + t[1..];
    } else {
      UnsignedUnique(s, t, places);
    }
  }

  /** Fixed's output is the only well-shaped text with the sign of x whose
      value is |x| * 10^places rounded half to even: no other rendering
      (a leading zero, a missing digit) meets its specification. */
  lemma FixedIsDetermined(x: real, places: nat, s: string)
    requires IsFixedText(s, places)
    requires s[0] == '-' <==> x < 0.0
    requires ParseScaled(s, places)
             == if x < 0.0 then -(ScaledMagnitude(x, places) as int) else ScaledMagnitude(x, places)
    ensures s == Fixed(x, places)
  {
    FixedRoundTrip(x, places);
    FixedTextUnique(s, Fixed(x, places), places);
  }

  /** Two decimals of a score n/100 below one, as the summary prints it: a
      zero, the point, and the two digits of n. */
  lemma FixedCents(n: nat)
    requires n < 100
    ensures Fixed(n as real / 100.0, 2) == "0." + [DigitChar(n / 10), DigitChar(n % 10)]
  {
    var x := n as real / 100.0;
    assert Scale(x, 1) == 10.0 * x;
    assert Scale(x, 2) == n as real;
    assert ScaledMagnitude(x, 2) == n;
    assert SplitScaled(n, 2) == (0, n);
    assert Decimal(0) == "0";
    assert PaddedDecimal(n, 2) == [DigitChar(n / 10), DigitChar(n % 10)] by {
      assert PaddedDecimal(n / 10 / 10, 0) == [];
    }
  }

  /** Two decimals of a score below one, as the summary prints it. */
  lemma FixedTwoPlaces()
    ensures Fixed(0.83, 2) == "0.83"
  {
    assert Scale(0.83, 2) == 83.0;
    assert ScaledMagnitude(0.83, 2) == 83;
    assert SplitScaled(83, 2) == (0, 83);
    assert PaddedDecimal(83, 2) == "83";
  }

  /** Further digits are rounded away, to the nearest hundredth. */
  lemma FixedRoundsToNearest()
    ensures Fixed(0.7654, 2) == "0.77"
  {
    assert Scale(0.7654, 2) == 76.54;
    assert ScaledMagnitude(0.7654, 2) == 77;
    assert SplitScaled(77, 2) == (0, 77);
    assert PaddedDecimal(77, 2) == "77";
  }

  /** No decimals: an area printed as a whole number, with no point. */
  lemma FixedNoPlaces()
    ensures Fixed(961.0, 0) == "961"
  {
    assert ScaledMagnitude(961.0, 0) == 961;
    assert SplitScaled(961, 0) == (961, 0);
    assert Decimal(961) == "961";
  }

  /** A tie is broken toward the even digit, downward here... */
  lemma FixedTieDown()
    ensures Fixed(0.125, 2) == "0.12"
  {
    assert Scale(0.125, 2) == 12.5;
    assert ScaledMagnitude(0.125, 2) == 12;
    assert SplitScaled(12, 2) == (0, 12);
    assert PaddedDecimal(12, 2) == "12";
  }

  /** ...and upward here. */
  lemma FixedTieUp()
    ensures Fixed(961.5, 0) == "962"
  {
    assert ScaledMagnitude(961.5, 0) == 962;
    assert SplitScaled(962, 0) == (962, 0);
    assert Decimal(962) == "962";
  }

  /** A negative value that rounds to zero keeps its sign. */
  lemma FixedNegativeZero()
    ensures Fixed(-0.001, 2) == "-0.00"
  {
    assert Scale(-0.001, 2) == 0.1;
    assert ScaledMagnitude(-0.001, 2) == 0;
    assert SplitScaled(0, 2) == (0, 0);
    assert PaddedDecimal(0, 2) == "00";
  }
}
