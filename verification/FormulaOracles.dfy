/** The numeric expectations of the benchmark for formulas over whole columns, for every size. */
module FormulaOracles {
  /** A column of numbers, by row. */
  type Numbers = nat -> int

  function Edited(column: Numbers, n: int): Numbers
  {
    (row: nat) => if row == 0 then n else column(row)
  }

  function SumProduct(a: Numbers, b: Numbers, n: nat): int
  {
    if n == 0 then 0 else SumProduct(a, b, n - 1) + a(n - 1) * b(n - 1)
  }

  /** Sum of b over the rows in which a reaches the threshold. */
  function SumIf(a: Numbers, threshold: int, b: Numbers, n: nat): int
  {
    if n == 0 then 0 else SumIf(a, threshold, b, n - 1) + (if a(n - 1) >= threshold then b(n - 1) else 0)
  }

  /** Sum of c over the rows in which a, doubled, reaches the bound and b equals the key. */
  function SumIfs(c: Numbers, a: Numbers, bound: int, b: Numbers, key: int, n: nat): int
  {
    if n == 0 then 0
    else SumIfs(c, a, bound, b, key, n - 1) + (if 2 * a(n - 1) >= bound && b(n - 1) == key then c(n - 1) else 0)
  }

  function CountIfs(a: Numbers, bound: int, b: Numbers, key: int, n: nat): int
  {
    if n == 0 then 0
    else CountIfs(a, bound, b, key, n - 1) + (if 2 * a(n - 1) < bound && b(n - 1) == key then 1 else 0)
  }

  const COUNTING: Numbers := (row: nat) => row
  const ONES: Numbers := (row: nat) => 1
  const TWOS: Numbers := (row: nat) => 2
  const DIGITS: Numbers := (row: nat) => row % 10 + 1
  const PARITY: Numbers := (row: nat) => row % 2

  // ----- SUMPRODUCT

  /** Full tens add 55 each, and the r rows after them r (r + 1) / 2; doubled. */
  function Tens(n: nat): int
  {
    110 * (n / 10) + n % 10 * (n % 10 + 1)
  }

  lemma NextTens(n: nat)
    ensures Tens(n + 1) == Tens(n) + 2 * (n % 10 + 1)
  {
    var r := n % 10;
    assert n == n / 10 * 10 + r;
    if r == 9 {
      assert (n + 1) % 10 == 0 && (n + 1) / 10 == n / 10 + 1;
    } else {
      assert (n + 1) % 10 == r + 1 && (n + 1) / 10 == n / 10;
      assert r * (r + 1) + 2 * (r + 1) == (r + 1) * (r + 2);
    }
  }

  /** The edit of the first row adds 2 to it, and 4 to the sum. */
  lemma {:induction false} DigitSum(n: nat)
    ensures n > 0 ==> SumProduct(Edited(DIGITS, 3), TWOS, n) == Tens(n) + 4
  {
    if n > 1 {
      DigitSum(n - 1);
      NextTens(n - 1);
    } else if n == 1 {
      assert SumProduct(Edited(DIGITS, 3), TWOS, 0) == 0;
    }
  }

  /** The expected 11 n + 4 is right exactly for multiples of ten. */
  lemma SumProductOracle(n: nat)
    requires n > 0
    ensures SumProduct(Edited(DIGITS, 3), TWOS, n) == 11 * n + 4 <==> n % 10 == 0
  {
    DigitSum(n);
    var r := n % 10;
    assert n == n / 10 * 10 + r;
    if r != 0 { assert r * (r + 1) != 11 * r; }
  }

  // ----- SUMIF

  lemma {:induction false} SumIfCounts(threshold: nat, m: int, n: nat)
    requires n > 0
    ensures SumIf(Edited(COUNTING, m), threshold, ONES, n) ==
            (if m >= threshold then 1 else 0) + (if n <= threshold then 0 else if threshold == 0 then n - 1 else n - threshold)
  {
    if n > 1 { SumIfCounts(threshold, m, n - 1); } else { assert SumIf(Edited(COUNTING, m), threshold, ONES, 0) == 0; }
  }

  /** The expected n - floor(n / 2) + 1 is right for every column but that of a single row. */
  lemma SumIfOracle(n: nat)
    requires n > 0
    ensures SumIf(Edited(COUNTING, n), n / 2, ONES, n) == n - n / 2 + 1 <==> n >= 2
  {
    SumIfCounts(n / 2, n, n);
  }

  // ----- SUMIFS and COUNTIFS

  /** Odd rows from half of the bound on, up to row n. */
  lemma {:induction false} SumIfsOdd(quarter: nat, m: int, n: nat)
    requires 0 < n <= 4 * quarter
    ensures SumIfs(TWOS, Edited(COUNTING, m), 4 * quarter, PARITY, 1, n) == if n <= 2 * quarter then 0 else 2 * ((n - 2 * quarter) / 2)
  {
    if n > 1 {
      SumIfsOdd(quarter, m, n - 1);
    } else {
      assert SumIfs(TWOS, Edited(COUNTING, m), 4 * quarter, PARITY, 1, 0) == 0;
    }
  }

  /** Even rows below half of the bound, without the edited first one. */
  lemma {:induction false} CountIfsEven(quarter: nat, m: int, n: nat)
    requires 0 < n <= 4 * quarter && m >= 2 * quarter
    ensures CountIfs(Edited(COUNTING, m), 4 * quarter, PARITY, 0, n) == (if n <= 2 * quarter then (n + 1) / 2 else quarter) - 1
  {
    if n > 1 {
      CountIfsEven(quarter, m, n - 1);
    } else {
      assert CountIfs(Edited(COUNTING, m), 4 * quarter, PARITY, 0, 0) == 0;
    }
  }

  /** The expected 0.75 n - 1 is right exactly for multiples of four: for other sizes it is not even a whole number. */
  lemma MultiCriteriaOracle(n: nat)
    requires n > 0
    ensures var total := SumIfs(TWOS, Edited(COUNTING, n), n, PARITY, 1, n) + CountIfs(Edited(COUNTING, n), n, PARITY, 0, n);
            total as real == 0.75 * n as real - 1.0 <==> n % 4 == 0
  {
    var total := SumIfs(TWOS, Edited(COUNTING, n), n, PARITY, 1, n) + CountIfs(Edited(COUNTING, n), n, PARITY, 0, n);
    if n % 4 == 0 {
      var quarter := n / 4;
      assert n == 4 * quarter;
      CriteriaTotal(quarter, n);
      assert 0.75 * n as real == (3 * quarter) as real;
    }
    if total as real == 0.75 * n as real - 1.0 { WholeQuarters(total, n); }
  }

  lemma CriteriaTotal(quarter: nat, n: nat)
    requires n == 4 * quarter && n > 0
    ensures SumIfs(TWOS, Edited(COUNTING, n), n, PARITY, 1, n) == 2 * quarter
    ensures CountIfs(Edited(COUNTING, n), n, PARITY, 0, n) == quarter - 1
  {
    SumIfsOdd(quarter, n, n);
    HalfOfTwice(quarter, n - 2 * quarter);
    CountIfsEven(quarter, n, n);
  }

  lemma HalfOfTwice(quarter: nat, twice: int)
    requires twice == 2 * quarter
    ensures twice / 2 == quarter
  {
  }

  lemma WholeQuarters(total: int, n: nat)
    requires total as real == 0.75 * n as real - 1.0
    ensures n % 4 == 0
  {
    assert (4 * total) as real == (3 * n - 4) as real;
  }

  // ----- PERCENTILE.INC and COVARIANCE.P

  function Total(a: Numbers, n: nat): int
  {
    if n == 0 then 0 else Total(a, n - 1) + a(n - 1)
  }

  /** The population covariance: the mean of the products less the product of the means. */
  function CovarianceP(a: Numbers, b: Numbers, n: nat): real
    requires n > 0
  {
    SumProduct(a, b, n) as real / n as real - (Total(a, n) as real / n as real) * (Total(b, n) as real / n as real)
  }

  /** The value of an ascending column at the given part of the way, interpolated between rows. */
  function PercentileInc(a: Numbers, n: nat, p: real): real
    requires n > 0 && 0.0 <= p <= 1.0
  {
    NotNegative((n - 1) as real, p);
    var position := (n - 1) as real * p;
    var lower := position.Floor;
    a(lower) as real + (a(lower + 1) - a(lower)) as real * (position - lower as real)
  }

  lemma NotNegative(x: real, y: real)
    requires x >= 0.0 && y >= 0.0
    ensures x * y >= 0.0
  {
  }

  const FROM_ONE: Numbers := (row: nat) => row + 1
  const AFFINE: Numbers := (row: nat) => 2 * (row + 1) + 3

  lemma {:induction false} FirstSums(n: nat)
    ensures 2 * Total(FROM_ONE, n) == n * (n + 1)
    ensures Total(AFFINE, n) == 2 * Total(FROM_ONE, n) + 3 * n
  {
    if n > 0 {
      FirstSums(n - 1);
      assert (n - 1) * n + 2 * n == n * (n + 1);
    }
  }

  lemma CubicStep(n: int)
    ensures (n - 1) * n * (2 * (n - 1) + 1) + 6 * (n * n) == n * (n + 1) * (2 * n + 1)
  {
  }

  lemma {:induction false} SquareSums(n: nat)
    ensures 6 * SumProduct(FROM_ONE, FROM_ONE, n) == n * (n + 1) * (2 * n + 1)
  {
    if n > 0 {
      SquareSums(n - 1);
      CubicStep(n);
    }
  }

  lemma AffineProduct(n: int)
    ensures n * (2 * n + 3) == 2 * (n * n) + 3 * n
  {
  }

  lemma {:induction false} ProductSums(n: nat)
    ensures SumProduct(FROM_ONE, AFFINE, n) == 2 * SumProduct(FROM_ONE, FROM_ONE, n) + 3 * Total(FROM_ONE, n)
  {
    if n > 0 {
      ProductSums(n - 1);
      AffineProduct(n);
    }
  }

  lemma Quotient(x: real, n: real, s: real)
    requires n > 0.0 && s == x * n
    ensures s / n == x
  {
  }

  function Mean(x: real): real
  {
    (x + 1.0) / 2.0
  }

  function MeanSquare(x: real): real
  {
    (x + 1.0) * (2.0 * x + 1.0) / 6.0
  }

  lemma HalfOf(t: int, n: nat)
    requires 2 * t == n * (n + 1)
    ensures t as real == Mean(n as real) * n as real
  {
    var x := n as real;
    assert (2 * t) as real == x * (x + 1.0);
  }

  lemma Cubic(x: real)
    ensures x * (x + 1.0) * (2.0 * x + 1.0) == 6.0 * (MeanSquare(x) * x)
  {
    var y := (x + 1.0) * (2.0 * x + 1.0);
    assert x * (x + 1.0) * (2.0 * x + 1.0) == x * y;
    assert MeanSquare(x) == y / 6.0;
  }

  lemma SixthOf(t: int, n: nat)
    requires 6 * t == n * (n + 1) * (2 * n + 1)
    ensures t as real == MeanSquare(n as real) * n as real
  {
    var x := n as real;
    assert (n * (n + 1)) as real == x * (x + 1.0);
    assert (6 * t) as real == x * (x + 1.0) * (2.0 * x + 1.0);
    Cubic(x);
  }

  lemma AffineVariance(x: real)
    ensures (2.0 * MeanSquare(x) + 3.0 * Mean(x)) - Mean(x) * (2.0 * Mean(x) + 3.0) == (x * x - 1.0) / 6.0
  {
  }

  lemma Combine(u: real, v: real, a: real, b: real, x: real)
    requires x > 0.0 && u == a * x && v == b * x
    ensures (2.0 * u + 3.0 * v) / x == 2.0 * a + 3.0 * b
  {
    assert (2.0 * a + 3.0 * b) * x == 2.0 * (a * x) + 3.0 * (b * x);
    Quotient(2.0 * a + 3.0 * b, x, 2.0 * u + 3.0 * v);
  }

  lemma CombineSums(sum: int, q: int, t: int, a: real, b: real, x: real)
    requires sum == 2 * q + 3 * t && x > 0.0 && q as real == a * x && t as real == b * x
    ensures sum as real / x == 2.0 * a + 3.0 * b
  {
    Combine(q as real, t as real, a, b, x);
    assert sum as real == 2.0 * q as real + 3.0 * t as real;
  }

  lemma TotalProduct(n: nat)
    requires n > 0
    ensures Total(FROM_ONE, n) as real == Mean(n as real) * n as real
  {
    FirstSums(n);
    HalfOf(Total(FROM_ONE, n), n);
  }

  lemma TotalMean(n: nat)
    requires n > 0
    ensures Total(FROM_ONE, n) as real == Mean(n as real) * n as real
    ensures Total(FROM_ONE, n) as real / n as real == Mean(n as real)
  {
    TotalProduct(n);
    Quotient(Mean(n as real), n as real, Total(FROM_ONE, n) as real);
  }

  lemma AffineMean(n: nat)
    requires n > 0
    ensures Total(AFFINE, n) as real / n as real == 2.0 * Mean(n as real) + 3.0
  {
    FirstSums(n);
    TotalMean(n);
    Combine(Total(FROM_ONE, n) as real, n as real, Mean(n as real), 1.0, n as real);
    assert Total(AFFINE, n) as real == 2.0 * Total(FROM_ONE, n) as real + 3.0 * n as real;
  }

  lemma SquareMean(n: nat)
    requires n > 0
    ensures SumProduct(FROM_ONE, FROM_ONE, n) as real == MeanSquare(n as real) * n as real
  {
    SquareSums(n);
    SixthOf(SumProduct(FROM_ONE, FROM_ONE, n), n);
  }

  lemma ProductMean(n: nat)
    requires n > 0
    ensures SumProduct(FROM_ONE, AFFINE, n) as real / n as real == 2.0 * MeanSquare(n as real) + 3.0 * Mean(n as real)
  {
    var t, q := Total(FROM_ONE, n), SumProduct(FROM_ONE, FROM_ONE, n);
    SquareMean(n);
    TotalProduct(n);
    ProductSums(n);
    CombineSums(SumProduct(FROM_ONE, AFFINE, n), q, t, MeanSquare(n as real), Mean(n as real), n as real);
  }

  lemma CovarianceOfAffine(n: nat)
    requires n > 0
    ensures CovarianceP(FROM_ONE, AFFINE, n) == (n as real * n as real - 1.0) / 6.0
  {
    TotalMean(n);
    AffineMean(n);
    ProductMean(n);
    AffineVariance(n as real);
  }

  /** The expected closed form is right for every size. */
  lemma PercentileCovarianceOracle(n: nat)
    requires n > 0
    ensures PercentileInc(FROM_ONE, n, 0.9) + CovarianceP(FROM_ONE, AFFINE, n) ==
            (n as real * n as real - 1.0) / 6.0 + n as real * 0.9 + 0.1
  {
    CovarianceOfAffine(n);
    var position := (n - 1) as real * 0.9;
    var lower := position.Floor;
    assert FROM_ONE(lower + 1) - FROM_ONE(lower) == 1;
  }
}
