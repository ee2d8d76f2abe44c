// What the default format of an output stream promises: the nearest number of six digits, in its one canonical text.
module RoundingLaws {
  import opened Numerals
  import opened NumberFormat

  //
  // Powers of ten
  //

  function Power(e: int): real {
    Scale(1.0, e)
  }

  function Times(a: real, b: real): real {
    a * b
  }

  lemma {:induction false} ScaleTimes(n: real, e: int)
    ensures Scale(n, e) == Times(n, Power(e))
    decreases if e < 0 then -e else e
  {
    if e > 0 {
      ScaleTimes(n * 10.0, e - 1);
      ScaleTimes(10.0, e - 1);
      assert Power(e) == Scale(1.0 * 10.0, e - 1) == 10.0 * Power(e - 1);
    } else if e < 0 {
      ScaleTimes(n / 10.0, e + 1);
      ScaleTimes(0.1, e + 1);
      assert Power(e) == Scale(1.0 / 10.0, e + 1) == 0.1 * Power(e + 1);
    }
  }

  lemma {:induction false} PowerUp(e: int)
    ensures Power(e + 1) == 10.0 * Power(e)
  {
    ScaleAdd(1.0, e, 1);
    assert Scale(Power(e), 1) == Power(e) * 10.0;
  }

  lemma {:induction false} PowerPositive(e: int)
    ensures Power(e) > 0.0
    decreases if e < 0 then -e else e
  {
    if e > 0 {
      PowerPositive(e - 1);
      PowerUp(e - 1);
    } else if e < 0 {
      PowerPositive(e + 1);
      PowerUp(e);
    }
  }

  lemma {:induction false} PowerMono(a: int, b: int)
    requires a <= b
    ensures Power(a) <= Power(b)
    decreases b - a
  {
    if a == b {
    } else {
      PowerMono(a, b - 1);
      PowerUp(b - 1);
      PowerPositive(b - 1);
    }
  }

  lemma PowerValues()
    ensures Power(6) == 1000000.0 && Power(-4) == 0.0001 && Power(0) == 1.0
  {
    PowerUp(0);
    PowerUp(1);
    PowerUp(2);
    PowerUp(3);
    PowerUp(4);
    PowerUp(5);
    PowerUp(-1);
    PowerUp(-2);
    PowerUp(-3);
    PowerUp(-4);
  }

  lemma {:induction false} FiveDown(e: int)
    ensures Power(e) == 100000.0 * Power(e - 5)
  {
    PowerUp(e - 1);
    PowerUp(e - 2);
    PowerUp(e - 3);
    PowerUp(e - 4);
    PowerUp(e - 5);
  }

  //
  // The nearest number of six digits, ties to even
  //

  function Abs(x: real): real {
    if x < 0.0 then -x else x
  }

  // z units of the sixth digit of a number in the decade of 10^e
  function Units(z: real, e: int): real {
    Times(z, Power(e - 5))
  }

  function Multiple(n: int, e: int): real {
    Units(n as real, e)
  }

  lemma TimesMono(a: real, b: real, unit: real)
    requires unit > 0.0 && a <= b
    ensures Times(a, unit) <= Times(b, unit)
    ensures a < b ==> Times(a, unit) < Times(b, unit)
  {
    assert (b - a) * unit == b * unit - a * unit;
  }

  lemma {:induction false} UnitsMono(a: real, b: real, e: int)
    requires a <= b
    ensures Units(a, e) <= Units(b, e)
    ensures a < b ==> Units(a, e) < Units(b, e)
  {
    PowerPositive(e - 5);
    TimesMono(a, b, Power(e - 5));
  }

  lemma {:induction false} UnitsDiffer(a: real, b: real, e: int)
    ensures Units(-a, e) == -Units(a, e)
    ensures Abs(Units(a, e) - Units(b, e)) == Units(Abs(a - b), e)
  {
    PowerPositive(e - 5);
    TimesDiffer(a, b, Power(e - 5));
  }

  lemma TimesDiffer(a: real, b: real, unit: real)
    requires unit > 0.0
    ensures Times(-a, unit) == -Times(a, unit)
    ensures Abs(Times(a, unit) - Times(b, unit)) == Times(Abs(a - b), unit)
  {
    assert (a - b) * unit == a * unit - b * unit && (b - a) * unit == b * unit - a * unit;
    TimesMono(0.0, Abs(a - b), unit);
  }

  lemma NearestWhole(y: real)
    ensures Abs(RoundHalfEven(y) as real - y) <= 0.5
    ensures Abs(RoundHalfEven(y) as real - y) == 0.5 ==> RoundHalfEven(y) % 2 == 0
  {
  }

  lemma {:induction false} NormalIs(x: real, e: int)
    requires x > 0.0 && Power(e) <= x < Power(e + 1)
    ensures Normal(x).1 == e && x == Times(Normal(x).0, Power(e))
  {
    var (m, f) := Normal(x);
    ScaleTimes(m, f);
    PowerPositive(f);
    PowerUp(f);
    WithinDecade(m, Power(f), x);
    if f < e {
      PowerMono(f + 1, e);
    } else if e < f {
      PowerMono(e + 1, f);
    }
  }

  lemma WithinDecade(m: real, unit: real, x: real)
    requires 1.0 <= m < 10.0 && unit > 0.0 && x == Times(m, unit)
    ensures unit <= x < 10.0 * unit
  {
    TimesMono(1.0, m, unit);
    TimesMono(m, 10.0, unit);
  }

  // The six digits are the nearest whole number of units.
  lemma {:induction false} SixDigitsRound(x: real, e: int)
    requires x > 0.0 && Power(e) <= x < Power(e + 1)
    ensures RoundedPositive(x) == Multiple(RoundHalfEven(Normal(x).0 * 100000.0), e)
    ensures x == Units(Normal(x).0 * 100000.0, e)
  {
    SixDigitsAreRounded(x, e);
    NormalIs(x, e);
    assert Times(Normal(x).0, Power(e)) == Units(Normal(x).0 * 100000.0, e) by {
      FiveDown(e);
      MoveFactor(Normal(x).0, 100000.0, Power(e - 5));
    }
  }

  lemma {:induction false} SixDigitsAreRounded(x: real, e: int)
    requires x > 0.0 && Power(e) <= x < Power(e + 1)
    ensures RoundedPositive(x) == Multiple(RoundHalfEven(Normal(x).0 * 100000.0), e)
  {
    NormalIs(x, e);
    SixDigitsValue(x);
    PowerUp(e - 5);
    MoveFactor(100000.0, 10.0, Power(e - 5));
  }

  lemma MoveFactor(a: real, b: real, unit: real)
    ensures Times(a, b * unit) == Times(a * b, unit)
  {
  }

  lemma {:induction false} SixDigitsValue(x: real)
    requires x > 0.0
    ensures RoundedPositive(x) == Multiple(SixDigits(x).0, SixDigits(x).1)
  {
    ScaleTimes(SixDigits(x).0 as real, SixDigits(x).1 - 5);
  }

  // A number in the decade of 10^e is printed as a multiple n of 10^(e - 5) that is no more than half of that away,
  // with an even n if it is exactly half; no other multiple is nearer.
  lemma {:induction false} RoundedToNearest(x: real, e: int) returns (n: int)
    requires Power(e) <= Abs(x) < Power(e + 1)
    ensures Rounded(x) == Multiple(n, e)
    ensures Abs(Rounded(x) - x) <= Units(0.5, e)
    ensures Abs(Rounded(x) - x) == Units(0.5, e) ==> n % 2 == 0
    ensures forall m: int :: Abs(Multiple(m, e) - x) >= Abs(Rounded(x) - x)
  {
    PowerPositive(e);
    n := PositiveToNearest(Abs(x), e);
    if x < 0.0 {
      NearestMirrored(RoundedPositive(-x), -x, n, e);
      n := -n;
    }
  }

  ghost predicate IsNearest(v: real, x: real, n: int, e: int) {
    && v == Multiple(n, e) && Abs(v - x) <= Units(0.5, e) && (Abs(v - x) == Units(0.5, e) ==> n % 2 == 0)
    && forall m: int :: Abs(Multiple(m, e) - x) >= Abs(v - x)
  }

  lemma {:induction false} NearestMirrored(v: real, x: real, n: int, e: int)
    requires IsNearest(v, x, n, e)
    ensures IsNearest(-v, -x, -n, e)
  {
    MultipleMirrored(n, e);
    forall m: int ensures Abs(Multiple(m, e) - (-x)) >= Abs(-v - (-x)) {
      MultipleMirrored(m, e);
      assert Abs(Multiple(-m, e) - x) >= Abs(v - x);
    }
  }

  lemma {:induction false} MultipleMirrored(n: int, e: int)
    ensures Multiple(-n, e) == -Multiple(n, e)
  {
    UnitsDiffer(n as real, 0.0, e);
    assert (-n) as real == -(n as real);
  }

  lemma {:induction false} PositiveToNearest(x: real, e: int) returns (n: int)
    requires x > 0.0 && Power(e) <= x < Power(e + 1)
    ensures IsNearest(RoundedPositive(x), x, n, e)
  {
    var y := Normal(x).0 * 100000.0;
    n := RoundHalfEven(y);
    SixDigitsRound(x, e);
    NearestWhole(y);
    NearestMultiple(n, y, e);
  }

  lemma {:induction false} NearestMultiple(n: int, z: real, e: int)
    requires Abs(n as real - z) <= 0.5 && (Abs(n as real - z) == 0.5 ==> n % 2 == 0)
    ensures Abs(Multiple(n, e) - Units(z, e)) <= Units(0.5, e)
    ensures Abs(Multiple(n, e) - Units(z, e)) == Units(0.5, e) ==> n % 2 == 0
    ensures forall m: int :: Abs(Multiple(m, e) - Units(z, e)) >= Abs(Multiple(n, e) - Units(z, e))
  {
    UnitsDiffer(n as real, z, e);
    UnitsMono(Abs(n as real - z), 0.5, e);
    forall m: int ensures Abs(Multiple(m, e) - Units(z, e)) >= Abs(Multiple(n, e) - Units(z, e)) {
      UnitsDiffer(m as real, z, e);
      Farther(m, n, z);
      UnitsMono(Abs(n as real - z), Abs(m as real - z), e);
    }
  }

  lemma Farther(m: int, n: int, z: real)
    requires Abs(n as real - z) <= 0.5
    ensures Abs(m as real - z) >= Abs(n as real - z)
  {
    if m < n {
      assert m as real <= n as real - 1.0;
    } else if n < m {
      assert m as real >= n as real + 1.0;
    }
  }

  lemma ZeroStays()
    ensures Rounded(0.0) == 0.0
  {
  }

  // An exponent is shown exactly when the printed number is not zero and below 10^-4 or at least 10^6.
  lemma {:induction false} ExponentShownIff(x: real)
    ensures ShownAs(x).parts.exponent != 0
            <==> Rounded(x) != 0.0 && (Abs(Rounded(x)) < 0.0001 || Abs(Rounded(x)) >= 1000000.0)
    ensures ShownAs(x).negative <==> x < 0.0
  {
    if x != 0.0 {
      PrintedDecade(Abs(x));
      DecadeIff(RoundedPositive(Abs(x)), SixDigits(Abs(x)).1);
      PowerPositive(SixDigits(Abs(x)).1);
    }
  }

  lemma {:induction false} PrintedDecade(x: real)
    requires x > 0.0
    ensures Power(SixDigits(x).1) <= RoundedPositive(x) < Power(SixDigits(x).1 + 1)
  {
    var (n, e) := SixDigits(x);
    SixDigitsValue(x);
    UnitsMono(100000.0, n as real, e);
    UnitsMono(n as real, 1000000.0, e);
    FiveDown(e);
    PowerUp(e);
  }

  lemma {:induction false} DecadeIff(v: real, e: int)
    requires Power(e) <= v < Power(e + 1)
    ensures e < -4 <==> v < 0.0001
    ensures e >= 6 <==> v >= 1000000.0
  {
    PowerValues();
    if e < -4 { PowerMono(e + 1, -4); } else { PowerMono(-4, e); }
    if e >= 6 { PowerMono(6, e); } else { PowerMono(e + 1, 6); }
  }

  // Every number but zero lies in some decade.
  lemma {:induction false} DecadeOf(x: real) returns (e: int)
    requires x != 0.0
    ensures Power(e) <= Abs(x) < Power(e + 1)
  {
    var (m, f) := Normal(Abs(x));
    e := f;
    ScaleTimes(m, f);
    PowerPositive(f);
    PowerUp(f);
    WithinDecade(m, Power(f), Abs(x));
  }

  //
  // The text
  //

  // No zeros at the end of the fraction, none in front of the digits before the point, and a single digit other than
  // zero there if there is an exponent.
  predicate Canonical(p: Printed) {
    && WellPrinted(p)
    && (p.fraction != [] ==> p.fraction[|p.fraction| - 1] != '0')
    && (|p.whole| > 1 ==> p.whole[0] != '0')
    && (p.exponent != 0 ==> |p.whole| == 1 && p.whole[0] != '0')
  }

  lemma {:induction false} DecimalShape(n: nat)
    ensures n > 0 ==> Decimal(n)[0] != '0'
    ensures n % 10 != 0 ==> Decimal(n)[|Decimal(n)| - 1] != '0'
  {
    if n < 10 {
    } else {
      DecimalShape(n / 10);
      assert DigitChar(n % 10) == '0' <==> n % 10 == 0;
    }
  }

  lemma {:induction false} StripEnds(m: nat)
    requires m > 0
    ensures Strip(m).0 % 10 != 0
  {
    if m % 10 == 0 {
      StripEnds(m / 10);
    } else {
    }
  }

  lemma {:induction false} PlaceCanonical(d: string, e: int)
    requires d != [] && AllDigits(d) && d[0] != '0' && d[|d| - 1] != '0'
    ensures Canonical(Place(d, e))
  {
  }

  // Any number is shown canonically.
  lemma {:induction false} ShownCanonically(x: real)
    ensures Canonical(ShownAs(x).parts)
  {
    if x != 0.0 {
      var (m, e) := SixDigits(Abs(x));
      StripEnds(m);
      DecimalShape(Strip(m).0);
      PlaceCanonical(Decimal(Strip(m).0), e);
    }
  }

  lemma {:induction false} LastDigit(s: string)
    requires s != [] && AllDigits(s)
    ensures NumberOf(s) == 10 * NumberOf(s[..|s| - 1]) + DigitValue(s[|s| - 1])
    ensures NumberOf(s) % 10 == DigitValue(s[|s| - 1])
  {
  }

  function TenTo(n: nat): nat {
    if n == 0 then 1 else 10 * TenTo(n - 1)
  }

  // Digits are worth what the decimal system says.
  lemma DigitTable(i: nat)
    requires i < 10
    ensures IsDigit("0123456789"[i]) && DigitValue("0123456789"[i]) == i && NumberOf(["0123456789"[i]]) == i
  {
    var s := ["0123456789"[i]];
    assert s[..0] == [];
  }

  lemma {:induction false} PlaceValue(a: string, b: string)
    requires AllDigits(a) && AllDigits(b)
    ensures NumberOf(a + b) == NumberOf(a) * TenTo(|b|) + NumberOf(b)
    decreases |b|
  {
    if b == [] {
      assert a + b == a;
    } else {
      var init := b[..|b| - 1];
      assert (a + b)[..|a + b| - 1] == a + init;
      PlaceValue(a, init);
      LastDigit(a + b);
      LastDigit(b);
      TenFold(NumberOf(a), |init|);
    }
  }

  lemma TenFold(n: nat, k: nat)
    ensures n * TenTo(k + 1) == 10 * (n * TenTo(k))
  {
  }

  lemma {:induction false} TenTimes(n: int, k: nat)
    ensures TimesPower(n, k) == n * TenTo(k)
    decreases k
  {
    if k == 0 {
    } else {
      TenTimes(10 * n, k - 1);
      assert 10 * n * TenTo(k - 1) == n * (10 * TenTo(k - 1));
    }
  }

  lemma {:induction false} TenToMono(a: nat, b: nat)
    requires a <= b
    ensures TenTo(a) <= TenTo(b)
  {
    if a == b {
    } else {
      TenToMono(a, b - 1);
    }
  }

  lemma {:induction false} NumberBounds(s: string)
    requires AllDigits(s)
    ensures NumberOf(s) < TenTo(|s|)
    ensures s != [] && s[0] != '0' ==> NumberOf(s) >= TenTo(|s| - 1)
  {
    if s == [] {
    } else {
      var init := s[..|s| - 1];
      NumberBounds(init);
      if |s| == 1 { assert DigitValue(s[0]) == 0 <==> s[0] == '0'; }
    }
  }

  lemma {:induction false} SameDigits(s: string, t: string)
    requires AllDigits(s) && AllDigits(t) && |s| == |t| && NumberOf(s) == NumberOf(t)
    ensures s == t
  {
    if s == [] {
    } else {
      var n := |s| - 1;
      LastDigit(s);
      LastDigit(t);
      SameDigits(s[..n], t[..n]);
      assert s == s[..n] + [s[n]] && t == t[..n] + [t[n]];
    }
  }

  lemma {:induction false} ScaleInjective(a: real, b: real, e: int)
    requires Scale(a, e) == Scale(b, e)
    ensures a == b
  {
    ScaleTimes(a, e);
    ScaleTimes(b, e);
    PowerPositive(e);
    if a < b { TimesMono(a, b, Power(e)); } else if b < a { TimesMono(b, a, Power(e)); }
  }

  // The longer fraction would end in a zero.
  lemma {:induction false} SameFraction(p: Printed, q: Printed)
    requires Canonical(p) && Canonical(q) && p.exponent == q.exponent && Meant(p) == Meant(q)
    requires |p.fraction| <= |q.fraction|
    ensures |p.fraction| == |q.fraction| && NumberOf(p.whole + p.fraction) == NumberOf(q.whole + q.fraction)
  {
    var s, t, k := p.whole + p.fraction, q.whole + q.fraction, |q.fraction| - |p.fraction|;
    var e := q.exponent - |q.fraction|;
    ScaleAdd(NumberOf(s) as real, k, e);
    ScaleInjective(Scale(NumberOf(s) as real, k), NumberOf(t) as real, e);
    ScaleWhole(NumberOf(s), k);
    TenTimes(NumberOf(s), k);
    LastDigit(t);
    assert q.fraction != [] ==> t[|t| - 1] == q.fraction[|q.fraction| - 1];
    if k > 0 { TenMultiple(NumberOf(s), k); }
  }

  lemma TenMultiple(n: nat, k: nat)
    requires k > 0
    ensures n * TenTo(k) % 10 == 0
  {
    assert n * TenTo(k) == 10 * (n * TenTo(k - 1));
  }

  lemma {:induction false} SameLength(p: Printed, q: Printed)
    requires Canonical(p) && Canonical(q) && |p.fraction| == |q.fraction|
    requires NumberOf(p.whole + p.fraction) == NumberOf(q.whole + q.fraction)
    ensures |p.whole| >= |q.whole|
  {
    var s, t := p.whole + p.fraction, q.whole + q.fraction;
    if |p.whole| < |q.whole| {
      NumberBounds(s);
      NumberBounds(t);
      assert t[0] == q.whole[0];
      TenToMono(|s|, |t| - 1);
    }
  }

  // A canonical text is determined by the number it means and its exponent.
  lemma {:induction false} CanonicalIsUnique(p: Printed, q: Printed)
    requires Canonical(p) && Canonical(q) && p.exponent == q.exponent && Meant(p) == Meant(q)
    ensures p == q
  {
    if |p.fraction| <= |q.fraction| { SameFraction(p, q); } else { SameFraction(q, p); }
    SameLength(p, q);
    SameLength(q, p);
    SameDigits(p.whole + p.fraction, q.whole + q.fraction);
    var n := |p.whole|;
    assert (p.whole + p.fraction)[..n] == p.whole && (q.whole + q.fraction)[..n] == q.whole;
    assert (p.whole + p.fraction)[n..] == p.fraction && (q.whole + q.fraction)[n..] == q.fraction;
  }

  // The exponent is shown with its sign and at least two digits, and no zero in front of more.
  lemma {:induction false} TwoDigitsShape(n: nat)
    ensures |TwoDigits(n)| >= 2 && NumberOf(TwoDigits(n)) == n && (|TwoDigits(n)| > 2 ==> TwoDigits(n)[0] != '0')
  {
    DecimalRead(n);
    DecimalShape(n);
    if n < 10 {
      assert TwoDigits(n)[..1] == "0" && "0"[..0] == [];
    } else {
      assert Decimal(n / 10) != [];
    }
  }
}
