// How an output stream prints a double at its default precision of six digits, the format %g of C: rounded to six
// significant digits, ties to even, without trailing zeros, with an exponent when it is below -4 or above 5.
module NumberFormat {
  import opened Numerals

  //
  // Powers of ten
  //

  lemma ScaleUp(n: real, e: int)
    ensures Scale(n * 10.0, e) == Scale(n, e + 1)
    ensures Scale(n / 10.0, e) == Scale(n, e - 1)
  {
    assert (n * 10.0) / 10.0 == n && (n / 10.0) * 10.0 == n;
  }

  lemma {:induction false} ScaleAdd(n: real, a: int, b: int)
    ensures Scale(Scale(n, a), b) == Scale(n, a + b)
    decreases if a < 0 then -a else a
  {
    if a > 0 {
      ScaleAdd(n * 10.0, a - 1, b);
      ScaleUp(n, a - 1 + b);
    } else if a < 0 {
      ScaleAdd(n / 10.0, a + 1, b);
      ScaleUp(n, a + 1 + b);
    }
  }

  lemma {:induction false} ScaleNegated(n: real, e: int)
    ensures Scale(-n, e) == -Scale(n, e)
    decreases if e < 0 then -e else e
  {
    if e > 0 {
      ScaleNegated(n * 10.0, e - 1);
    } else if e < 0 {
      ScaleNegated(n / 10.0, e + 1);
    }
  }

  function Times10(n: int, e: int): real {
    Scale(n as real, e)
  }

  function TimesPower(n: int, e: nat): int
    decreases e
  {
    if e == 0 then n else TimesPower(10 * n, e - 1)
  }

  lemma {:induction false} ScaleWhole(n: int, e: nat)
    ensures Scale(n as real, e) == TimesPower(n, e) as real
    decreases e
  {
    if e == 0 {
    } else {
      ScaleWhole(10 * n, e - 1);
      assert (10 * n) as real == (n as real) * 10.0;
    }
  }

  //
  // Rounding
  //

  // A mantissa from 1 up to 10, and the power of ten that goes with it.
  function Normal(x: real): (r: (real, int))
    requires x > 0.0
    ensures 1.0 <= r.0 < 10.0 && Scale(r.0, r.1) == x
    decreases if x >= 10.0 then x.Floor else if x < 1.0 then (1.0 / x).Floor else 0
  {
    if x >= 10.0 then
      var (m, e) := Normal(x / 10.0);
      ScaleAdd(m, e, 1);
      (m, e + 1)
    else if x < 1.0 then
      SmallerInverse(x);
      var (m, e) := Normal(x * 10.0);
      ScaleAdd(m, e, -1);
      (m, e - 1)
    else (x, 0)
  }

  lemma SmallerInverse(x: real)
    requires 0.0 < x < 1.0
    ensures (1.0 / x).Floor >= 1
    ensures x * 10.0 < 1.0 ==> (1.0 / (x * 10.0)).Floor < (1.0 / x).Floor
  {
    var y := 1.0 / x;
    assert y * x == 1.0;
    assert (y - 1.0) * x == 1.0 - x;
    assert y > 1.0;
    assert 1.0 / (x * 10.0) == y / 10.0;
  }

  function RoundHalfEven(y: real): int {
    var f := y.Floor;
    var d := y - f as real;
    if d < 0.5 || (d == 0.5 && f % 2 == 0) then f else f + 1
  }

  // Six digits, the first one not zero, and the exponent of that first one.
  function SixDigits(x: real): (r: (nat, int))
    requires x > 0.0
    ensures 100000 <= r.0 < 1000000
  {
    var (m, e) := Normal(x);
    var n := RoundHalfEven(m * 100000.0);
    if n == 1000000 then (100000, e + 1) else (n, e)
  }

  // The number that is printed for x.
  function Rounded(x: real): real {
    if x == 0.0 then 0.0
    else if x > 0.0 then RoundedPositive(x)
    else -RoundedPositive(-x)
  }

  function RoundedPositive(x: real): real
    requires x > 0.0
  {
    Scale(SixDigits(x).0 as real, SixDigits(x).1 - 5)
  }

  // A number is printed exactly if and only if it has at most six significant decimal digits.
  lemma RoundedIff(x: real)
    ensures Rounded(x) == x <==> HasSixDigits(x)
  {
    if x > 0.0 {
      RoundedPositiveIff(x);
    } else if x < 0.0 {
      RoundedPositiveIff(-x);
      NegatedDigits(x);
    } else {
      assert Times10(0, 0) == x;
    }
  }

  ghost predicate HasSixDigits(x: real) {
    exists m: int, e: int :: -1000000 < m < 1000000 && x == Times10(m, e)
  }

  lemma NegatedDigits(x: real)
    ensures HasSixDigits(x) <==> HasSixDigits(-x)
  {
    if HasSixDigits(x) {
      var m: int, e: int :| -1000000 < m < 1000000 && x == Times10(m, e);
      ScaleNegated(m as real, e);
      assert -x == Times10(-m, e);
    }
    if HasSixDigits(-x) {
      var m: int, e: int :| -1000000 < m < 1000000 && -x == Times10(m, e);
      ScaleNegated(m as real, e);
      assert x == Times10(-m, e);
    }
  }

  lemma RoundedPositiveIff(x: real)
    requires x > 0.0
    ensures RoundedPositive(x) == x <==> HasSixDigits(x)
  {
    assert RoundedPositive(x) == Times10(SixDigits(x).0, SixDigits(x).1 - 5);
    if HasSixDigits(x) {
      var m: int, e: int :| -1000000 < m < 1000000 && x == Times10(m, e);
      ExactDigits(x, m, e);
    }
  }

  lemma ExactDigits(x: real, m: int, e: int)
    requires x > 0.0 && m < 1000000 && x == Times10(m, e)
    ensures RoundedPositive(x) == x
  {
    var (n, f) := Normal(x);
    ExponentBound(x, m, e);
    // n * 10^5 is the whole number m * 10^(e + 5 - f)
    assert Scale(n, 5) == n * 100000.0 by { FiveUp(n); }
    assert Scale(x, 5 - f) == Scale(n, 5) by { ScaleAdd(n, f, 5 - f); }
    ScaleAdd(m as real, e, 5 - f);
    ScaleWhole(m, e + 5 - f);
    var k := TimesPower(m, e + 5 - f);
    assert n * 100000.0 == k as real;
    assert RoundHalfEven(n * 100000.0) == k;
    ScaleAdd(n, 5, f - 5);
  }

  lemma FiveUp(n: real)
    ensures Scale(n, 5) == n * 100000.0
  {
    assert Scale(n, 5) == Scale(n * 10.0, 4) == Scale(n * 10.0 * 10.0, 3);
    assert Scale(n * 10.0 * 10.0, 3) == Scale(n * 10.0 * 10.0 * 10.0, 2) == Scale(n * 10.0 * 10.0 * 10.0 * 10.0, 1);
  }

  // Fewer than seven digits: the exponent of the first one is at most five above that of the last one.
  lemma ExponentBound(x: real, m: int, e: int)
    requires x > 0.0 && m < 1000000 && x == Times10(m, e)
    ensures Normal(x).1 <= e + 5
  {
    var (n, f) := Normal(x);
    ScaleAdd(n, f, -e);
    ScaleAdd(m as real, e, -e);
    // m is n * 10^(f - e), and would be at least 10^6
    if f - e >= 6 { AtLeastMillion(n, f - e); }
  }

  lemma {:induction false} AtLeastMillion(n: real, a: int)
    requires n >= 1.0 && a >= 6
    ensures Scale(n, a) >= 1000000.0
    decreases a
  {
    if a == 6 {
      FiveUp(n * 10.0);
    } else {
      AtLeastMillion(n * 10.0, a - 1);
    }
  }

  //
  // The text
  //

  // A number without its trailing zeros, and how many there were.
  function Strip(m: nat): (r: (nat, nat))
    requires m > 0
    ensures r.0 > 0
  {
    if m % 10 == 0 then
      var (d, z) := Strip(m / 10);
      (d, z + 1)
    else (m, 0)
  }

  function Zeros(n: nat): (s: string)
    ensures |s| == n && AllDigits(s)
  {
    seq(n, _ => '0')
  }

  // The digits before and after the point, and the exponent, which is not shown when it is 0.
  datatype Printed = Printed(whole: string, fraction: string, exponent: int)

  // The digits d of a number, the first one of which stands for d[0] * 10^e.
  function Place(d: string, e: int): Printed
    requires d != []
  {
    if e < -4 || e >= 6 then Printed(d[..1], d[1..], e)
    else if |d| <= e + 1 then Printed(d + Zeros(e + 1 - |d|), [], 0)
    else if e >= 0 then Printed(d[..e + 1], d[e + 1..], 0)
    else Printed(['0'], Zeros(-e - 1) + d, 0)
  }

  // A sign and at least two digits
  function ExponentText(e: int, tail: string): string {
    if e == 0 then tail
    else if e < 0 then "e-" + (TwoDigits(-e) + tail)
    else "e+" + (TwoDigits(e) + tail)
  }

  function TwoDigits(n: nat): (s: string)
    ensures s != [] && AllDigits(s)
  {
    if n < 10 then "0" + Decimal(n) else Decimal(n)
  }

  function FractionText(fraction: string, tail: string): string {
    if fraction == [] then tail else "." + (fraction + tail)
  }

  function Joined(p: Printed, tail: string): string {
    p.whole + FractionText(p.fraction, ExponentText(p.exponent, tail))
  }

  function PositiveParts(x: real): Printed
    requires x > 0.0
  {
    var (m, e) := SixDigits(x);
    Place(Decimal(Strip(m).0), e)
  }

  // A number as it is shown: zero has the one digit.
  datatype Shown = Shown(negative: bool, parts: Printed)

  function ShownAs(x: real): Shown {
    if x == 0.0 then Shown(false, Printed(['0'], [], 0))
    else if x > 0.0 then Shown(false, PositiveParts(x))
    else Shown(true, PositiveParts(-x))
  }

  function ShownText(s: Shown, tail: string): string {
    if s.negative then ['-'] + Joined(s.parts, tail) else Joined(s.parts, tail)
  }

  function NumberText(x: real, tail: string): string {
    ShownText(ShownAs(x), tail)
  }

  //
  // What the text says
  //

  lemma {:induction false} StripCounts(m: nat, e: int)
    requires m > 0
    ensures Scale(Strip(m).0 as real, Strip(m).1 + e) == Scale(m as real, e)
    ensures |Decimal(Strip(m).0)| + Strip(m).1 == |Decimal(m)|
  {
    if m % 10 != 0 {
    } else {
      StripCounts(m / 10, e + 1);
      ScaleUp((m / 10) as real, e);
      assert m as real == (m / 10) as real * 10.0;
    }
  }

  lemma SixLong(m: nat)
    requires 100000 <= m < 1000000
    ensures |Decimal(m)| == 6
  {
    assert |Decimal(m / 100000)| == 1;
    assert |Decimal(m / 10000)| == 2;
    assert |Decimal(m / 1000)| == 3;
    assert |Decimal(m / 100)| == 4;
    assert |Decimal(m / 10)| == 5;
  }

  predicate WellPrinted(p: Printed) {
    p.whole != [] && AllDigits(p.whole) && AllDigits(p.fraction)
  }

  // The number that the digits of p spell, times ten to the exponent.
  function Meant(p: Printed): real
    requires WellPrinted(p)
  {
    Scale(NumberOf(p.whole + p.fraction) as real, p.exponent - |p.fraction|)
  }

  lemma {:induction false} PlaceMeans(d: string, e: int)
    requires d != [] && AllDigits(d)
    ensures WellPrinted(Place(d, e)) && Meant(Place(d, e)) == Scale(NumberOf(d) as real, e + 1 - |d|)
  {
    if e < -4 || e >= 6 {
      PlaceScientific(d, e);
    } else if |d| <= e + 1 {
      WholeMeans(d, e + 1 - |d|);
    } else if e >= 0 {
      SplitMeans(d, e + 1, 0);
    } else {
      FractionMeans(d, -e - 1);
    }
  }

  lemma {:induction false} PlaceScientific(d: string, e: int)
    requires d != [] && AllDigits(d) && (e < -4 || e >= 6)
    ensures WellPrinted(Place(d, e)) && Meant(Place(d, e)) == Scale(NumberOf(d) as real, e + 1 - |d|)
  {
    SplitMeans(d, 1, e);
  }

  lemma {:induction false} SplitMeans(d: string, n: nat, exponent: int)
    requires AllDigits(d) && 0 < n <= |d|
    ensures WellPrinted(Printed(d[..n], d[n..], exponent))
    ensures Meant(Printed(d[..n], d[n..], exponent)) == Scale(NumberOf(d) as real, exponent + n - |d|)
  {
    assert d[..n] + d[n..] == d;
    PartsMeant(d[..n], d[n..], NumberOf(d), exponent);
  }

  lemma {:induction false} FractionMeans(d: string, n: nat)
    requires d != [] && AllDigits(d)
    ensures WellPrinted(Printed(['0'], Zeros(n) + d, 0))
    ensures Meant(Printed(['0'], Zeros(n) + d, 0)) == Scale(NumberOf(d) as real, 0 - (n + |d|))
  {
    ZeroFirst(d, n);
    PartsMeant(['0'], Zeros(n) + d, NumberOf(d), 0);
  }

  lemma {:induction false} PartsMeant(whole: string, fraction: string, m: nat, exponent: int)
    requires whole != [] && AllDigits(whole) && AllDigits(fraction) && NumberOf(whole + fraction) == m
    ensures WellPrinted(Printed(whole, fraction, exponent))
    ensures Meant(Printed(whole, fraction, exponent)) == Scale(m as real, exponent - |fraction|)
  {
  }

  lemma {:induction false} ZeroFirst(d: string, n: nat)
    requires AllDigits(d)
    ensures NumberOf(['0'] + (Zeros(n) + d)) == NumberOf(d)
  {
    assert ['0'] + (Zeros(n) + d) == Zeros(n + 1) + d;
    ZerosBefore(d, n + 1);
  }

  lemma {:induction false} WholeMeans(d: string, n: nat)
    requires d != [] && AllDigits(d)
    ensures WellPrinted(Printed(d + Zeros(n), [], 0))
    ensures Meant(Printed(d + Zeros(n), [], 0)) == Scale(NumberOf(d) as real, n)
  {
    assert d + Zeros(n) + [] == d + Zeros(n);
    ZerosAfter(d, n);
    PartsMeant(d + Zeros(n), [], NumberOf(d + Zeros(n)), 0);
  }

  lemma {:induction false} ZerosAfter(d: string, n: nat)
    requires AllDigits(d)
    ensures Scale(NumberOf(d + Zeros(n)) as real, 0) == Scale(NumberOf(d) as real, n)
  {
    if n == 0 {
      assert d + Zeros(0) == d;
    } else {
      var longer := d + Zeros(n);
      assert longer[..|longer| - 1] == d + Zeros(n - 1);
      ZerosAfter(d, n - 1);
      ScaleUp(NumberOf(d) as real, n - 1);
      ScaleAdd(NumberOf(d) as real, n - 1, 1);
    }
  }

  lemma {:induction false} ZerosBefore(d: string, n: nat)
    requires AllDigits(d)
    ensures NumberOf(Zeros(n) + d) == NumberOf(d)
    decreases n + |d|
  {
    var longer := Zeros(n) + d;
    if d != [] {
      assert longer[..|longer| - 1] == Zeros(n) + d[..|d| - 1];
      ZerosBefore(d[..|d| - 1], n);
    } else if n > 0 {
      assert longer[..n - 1] == Zeros(n - 1) + d;
      ZerosBefore(d, n - 1);
    } else {
      assert longer == d;
    }
  }

  // The text of a positive number means its rounded value.
  lemma {:induction false} PartsMean(x: real)
    requires x > 0.0
    ensures WellPrinted(PositiveParts(x))
    ensures Meant(PositiveParts(x)) == RoundedPositive(x)
  {
    var (m, e) := SixDigits(x);
    SixLong(m);
    StripCounts(m, e - 5);
    DecimalRead(Strip(m).0);
    PlaceMeans(Decimal(Strip(m).0), e);
  }

  function ShownValue(s: Shown): real
    requires WellPrinted(s.parts)
  {
    if s.negative then -Meant(s.parts) else Meant(s.parts)
  }

  // The text of a number means the number it is rounded to.
  lemma {:induction false} ShownMeans(x: real)
    ensures WellPrinted(ShownAs(x).parts) && ShownValue(ShownAs(x)) == Rounded(x)
  {
    if x > 0.0 {
      PartsMean(x);
    } else if x < 0.0 {
      PartsMean(-x);
    } else {
      ZeroMeans();
    }
  }

  lemma {:induction false} ZeroMeans()
    ensures WellPrinted(Printed(['0'], [], 0)) && Meant(Printed(['0'], [], 0)) == 0.0
  {
    assert NumberOf(['0'] + []) == 0 by { assert (['0'] + [])[..0] == []; }
  }
}
