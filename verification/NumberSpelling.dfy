/** How a number is spelled, told from its value: which digits, where the point goes, and when there is an exponent. */
module NumberSpelling {
  import opened Sequences
  import opened CodeUnits
  import opened Digits
  import opened JsonNumbers

  // ----- The value of a decimal

  function Power(n: nat): (p: nat)
    ensures p > 0
  {
    if n == 0 then 1 else 10 * Power(n - 1)
  }

  /** A power of ten, also a negative one. */
  function Scale(e: int): (x: real)
    ensures x > 0.0
    decreases if e < 0 then -e else e
  {
    if e == 0 then 1.0 else if e > 0 then 10.0 * Scale(e - 1) else Scale(e + 1) / 10.0
  }

  function Times(n: nat, s: real): real
  {
    n as real * s
  }

  lemma ScaleStep(e: int)
    ensures Scale(e + 1) == 10.0 * Scale(e)
  {
  }

  lemma {:induction false} ScaleRises(a: int, b: int)
    requires a <= b
    ensures Scale(a) <= Scale(b)
    decreases b - a
  {
    if a < b {
      ScaleRises(a, b - 1);
      ScaleStep(b - 1);
    }
  }

  lemma TenTimes(p: nat, s: real, x: real, y: real)
    requires y == Times(p, s) && x == 10.0 * y
    ensures x == Times(10 * p, s)
  {
    assert (10 * p) as real == 10.0 * p as real;
    assert 10.0 * (p as real * s) == (10.0 * p as real) * s;
  }

  lemma {:induction false} ScaleAdds(a: int, n: nat)
    ensures Scale(a + n) == Times(Power(n), Scale(a))
  {
    if n > 0 {
      var before := a + (n - 1);
      ScaleAdds(a, n - 1);
      ScaleStep(before);
      TenTimes(Power(n - 1), Scale(a), Scale(a + n), Scale(before));
    }
  }

  /** The size of a decimal: its digits before the point of 0.d1 d2 ..., moved by its exponent. */
  function Magnitude(d: Decimal): real
  {
    Times(FromDigits(d.digits), Scale(d.point - |d.digits|))
  }

  /** What a numeral says: digits before and after the point, times a power of ten. */
  function NumeralValue(p: Numeral): real
  {
    Times(FromDigits(p.whole + p.fraction), Scale(p.exponent - |p.fraction|))
  }

  lemma {:induction false} DigitsBetween(ds: seq<Digit>)
    requires ds != [] && ds[0] != 0
    ensures Power(|ds| - 1) <= FromDigits(ds) < Power(|ds|)
  {
    if |ds| > 1 {
      DigitsBetween(ds[..|ds| - 1]);
    } else {
      assert ds[..0] == [] && Power(1) == 10 * Power(0);
    }
  }

  /** The point says between which powers of ten a number lies. */
  lemma Place(d: Decimal)
    requires d.Valid() && d.digits != []
    ensures Scale(d.point - 1) <= Magnitude(d) < Scale(d.point)
  {
    var k, e := |d.digits|, d.point - |d.digits|;
    DigitsBetween(d.digits);
    assert e + (k - 1) == d.point - 1 && e + k == d.point;
    ScaleAdds(e, k - 1);
    ScaleAdds(e, k);
    Between(Power(k - 1), FromDigits(d.digits), Power(k), Scale(e), Scale(d.point - 1), Scale(d.point));
  }

  lemma Between(low: nat, m: nat, high: nat, s: real, x: real, y: real)
    requires low <= m < high && s > 0.0 && x == Times(low, s) && y == Times(high, s)
    ensures x <= Times(m, s) < y
  {
    TimesRises(low, m, s);
    TimesRises(m, high, s);
  }

  lemma TimesRises(a: nat, b: nat, s: real)
    requires a <= b && s > 0.0
    ensures a as real * s <= b as real * s && (a < b ==> a as real * s < b as real * s)
  {
    assert (b - a) as real * s >= 0.0;
    assert b as real * s == a as real * s + (b - a) as real * s;
  }

  const MILLIONTH: real := 0.000001
  const SEXTILLION: real := 1_000_000_000_000_000_000_000.0

  lemma Thresholds()
    ensures Scale(-6) == MILLIONTH && Scale(21) == SEXTILLION
  {
    assert Scale(-3) == 0.001;
    FiveMore(0);
    FiveMore(5);
    FiveMore(10);
    FiveMore(15);
    ScaleStep(20);
  }

  lemma FiveMore(e: int)
    ensures Scale(e + 5) == 100_000.0 * Scale(e)
  {
    ScaleStep(e);
    ScaleStep(e + 1);
    ScaleStep(e + 2);
    ScaleStep(e + 3);
    ScaleStep(e + 4);
  }

  /** Ordinary sizes are those from a millionth up to, and without, a sextillion. */
  lemma OrdinaryIff(d: Decimal)
    requires d.Valid() && d.digits != []
    ensures MILLIONTH <= Magnitude(d) < SEXTILLION <==> -6 < d.point <= 21
  {
    Place(d);
    Thresholds();
    if d.point > -6 { ScaleRises(-6, d.point - 1); } else { ScaleRises(d.point, -6); }
    if d.point <= 21 { ScaleRises(d.point, 21); } else { ScaleRises(21, d.point - 1); }
  }

  // ----- When there is an exponent

  lemma NoLetterInCodes(ds: seq<Digit>)
    ensures LETTER_E !in Codes(ds) && LETTER_E !in FractionText(ds)
  {
  }

  lemma LetterIffExponent(p: Numeral)
    ensures LETTER_E in NumeralText(p) <==> p.exponent != 0
  {
    NoLetterInCodes(p.whole);
    NoLetterInCodes(p.fraction);
    if p.exponent != 0 { assert ExponentText(p.exponent)[0] == LETTER_E; }
  }

  /** There is an exponent exactly for numbers of no ordinary size; zero has none. */
  lemma ExponentIff(d: Decimal)
    requires d.Valid()
    ensures LETTER_E in NumberText(d) <==> d.digits != [] && !(MILLIONTH <= Magnitude(d) < SEXTILLION)
  {
    if d.digits != [] { OrdinaryIff(d); }
    LetterIffExponent(Layout(d.digits, d.point));
  }

  // ----- Whole numbers

  lemma {:induction false} FromDigitsLast(ds: seq<Digit>, n: nat)
    requires ds != [] && ds[0] != 0 && FromDigits(ds) == n
    ensures ToDigits(n) == ds
  {
    var init, last := ds[..|ds| - 1], ds[|ds| - 1];
    if init == [] {
      assert ds == [last];
    } else {
      DigitsBetween(init);
      FromDigitsLast(init, FromDigits(init));
      assert ds == init + [last];
    }
  }

  lemma {:induction false} TrailingZeros(ds: seq<Digit>, k: nat)
    ensures FromDigits(ds + Zeros(k)) == FromDigits(ds) * Power(k)
  {
    var s := ds + Zeros(k);
    if k == 0 {
      assert s == ds;
    } else {
      TrailingZeros(ds, k - 1);
      assert s[..|s| - 1] == ds + Zeros(k - 1);
    }
  }

  lemma {:induction false} LeadingZeros(k: nat, ds: seq<Digit>)
    ensures FromDigits(Zeros(k) + ds) == FromDigits(ds)
  {
    var s := Zeros(k) + ds;
    if ds != [] {
      LeadingZeros(k, ds[..|ds| - 1]);
      assert s[..|s| - 1] == Zeros(k) + ds[..|ds| - 1];
    } else {
      assert s == Zeros(k);
      AllZeros(k);
    }
  }

  lemma {:induction false} AllZeros(k: nat)
    ensures FromDigits(Zeros(k)) == 0
  {
    if k > 0 {
      assert Zeros(k)[..k - 1] == Zeros(k - 1);
      AllZeros(k - 1);
    }
  }

  lemma PositiveMagnitude(d: Decimal)
    requires d.Valid()
    ensures Magnitude(d) == 0.0 <==> d.digits == []
  {
    if d.digits != [] { Place(d); }
  }

  lemma TenDivides(m: nat, rest: nat, last: nat, n: nat, p: nat)
    requires m == 10 * rest + last && last < 10 && m == n * (10 * p)
    ensures last == 0
  {
    assert n * (10 * p) == 10 * (n * p);
  }

  lemma DivisibleLast(ds: seq<Digit>, n: nat, k: nat)
    requires ds != [] && k > 0 && FromDigits(ds) == n * Power(k)
    ensures ds[|ds| - 1] == 0
  {
    TenDivides(FromDigits(ds), FromDigits(ds[..|ds| - 1]), ds[|ds| - 1] as nat, n, Power(k - 1));
  }

  lemma Inverse(m: real, n: real, p: real, s: real)
    requires p * s == 1.0 && m * s == n
    ensures m == n * p
  {
    assert (m * s) * p == m * (p * s);
  }

  lemma BehindPoint(m: nat, n: nat, k: int)
    requires k > 0 && Times(m, Scale(-k)) == n as real
    ensures m == n * Power(k)
  {
    ScaleAdds(-k, k);
    Inverse(m as real, n as real, Power(k) as real, Scale(-k));
    assert (n * Power(k)) as real == n as real * Power(k) as real;
  }

  /** A whole number has no digits behind its point. */
  lemma WholeReachesPoint(d: Decimal, n: nat)
    requires d.Valid() && d.digits != [] && Magnitude(d) == n as real
    ensures d.point >= |d.digits|
  {
    if d.point < |d.digits| {
      BehindPoint(FromDigits(d.digits), n, |d.digits| - d.point);
      DivisibleLast(d.digits, n, |d.digits| - d.point);
    }
  }

  lemma ScaleIsPower(n: nat)
    ensures Scale(n) == Power(n) as real
  {
    ScaleAdds(0, n);
  }

  lemma WholeProduct(a: nat, b: nat, s: real)
    requires s == b as real
    ensures Times(a, s) == (a * b) as real
  {
    assert (a * b) as real == a as real * b as real;
  }

  lemma WholeDigits(d: Decimal, n: nat)
    requires d.Valid() && d.digits != [] && Magnitude(d) == n as real
    ensures d.point >= |d.digits| && ToDigits(n) == d.digits + Zeros(d.point - |d.digits|)
  {
    WholeReachesPoint(d, n);
    var k := d.point - |d.digits|;
    TrailingZeros(d.digits, k);
    ScaleIsPower(k);
    WholeProduct(FromDigits(d.digits), Power(k), Scale(k));
    FromDigitsLast(d.digits + Zeros(k), n);
  }

  /** A whole number below a sextillion is written as its sign and its decimal digits, without point or exponent. */
  lemma WholeNumberText(d: Decimal, n: nat)
    requires d.Valid() && Magnitude(d) == n as real && n < 1_000_000_000_000_000_000_000
    ensures NumberText(d) == Sign(d.negative) + Codes(ToDigits(n))
  {
    PositiveMagnitude(d);
    if d.digits == [] {
      assert n == 0 && ToDigits(0) == [0];
    } else {
      WholeDigits(d, n);
      OrdinaryIff(d);
      ScaleRises(-6, 0);
      Thresholds();
    }
    assert NumeralText(Layout(d.digits, d.point)) == Codes(ToDigits(n));
  }

  // ----- Every number

  /** Digits before the point do not start with a needless zero, and those after it do not end in one. */
  predicate Neat(p: Numeral)
  {
    && p.whole != [] && (p.whole[0] == 0 ==> |p.whole| == 1)
    && (p.fraction != [] ==> p.fraction[|p.fraction| - 1] != 0)
    && (p.exponent != 0 ==> |p.whole| == 1 && p.whole[0] != 0)
  }

  lemma LayoutIsNeat(d: Decimal)
    requires d.Valid()
    ensures Neat(Layout(d.digits, d.point))
  {
  }

  lemma LayoutTotal(ds: seq<Digit>, n: int) returns (after: nat)
    requires ds != []
    ensures var p := Layout(ds, n);
            && FromDigits(p.whole + p.fraction) == FromDigits(ds) * Power(after)
            && p.exponent - |p.fraction| + after == n - |ds|
  {
    var p := Layout(ds, n);
    var before;
    before, after := LayoutDigits(ds, n);
    assert |p.whole| + |p.fraction| == |p.whole + p.fraction| == before + |ds| + after;
    TrailingZeros(Zeros(before) + ds, after);
    LeadingZeros(before, ds);
  }

  lemma LayoutValue(d: Decimal)
    requires d.Valid()
    ensures NumeralValue(Layout(d.digits, d.point)) == Magnitude(d)
  {
    var p := Layout(d.digits, d.point);
    if d.digits == [] {
      AllZeros(1);
      assert p.whole + p.fraction == Zeros(1);
    } else {
      var after := LayoutTotal(d.digits, d.point);
      var e := p.exponent - |p.fraction|;
      ScaleAdds(e, after);
      MoveFactor(FromDigits(d.digits), Power(after), Scale(e), FromDigits(p.whole + p.fraction), Scale(d.point - |d.digits|));
    }
  }

  lemma MoveFactor(a: nat, b: nat, s: real, n: nat, x: real)
    requires n == a * b && x == Times(b, s)
    ensures Times(n, s) == Times(a, x)
  {
    assert n as real == a as real * b as real;
    Regroup(a as real, b as real, s);
  }

  lemma Regroup(a: real, b: real, s: real)
    ensures (a * b) * s == a * (b * s)
  {
  }

  /**
   The text of a number is its sign and a neat numeral of the same value: with an exponent, it is one digit, maybe a point
   and more digits, the letter, the exponent's sign and its decimal digits.
   */
  lemma NumberTextMeans(d: Decimal) returns (p: Numeral)
    requires d.Valid()
    ensures NumberText(d) == Sign(d.negative) + (Codes(p.whole) + FractionText(p.fraction) + ExponentText(p.exponent))
    ensures NumeralValue(p) == Magnitude(d) && Neat(p)
    ensures p.exponent != 0 <==> d.digits != [] && !(MILLIONTH <= Magnitude(d) < SEXTILLION)
  {
    p := Layout(d.digits, d.point);
    LayoutIsNeat(d);
    LayoutValue(d);
    ExponentIff(d);
    LetterIffExponent(p);
  }
}
