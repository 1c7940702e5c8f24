/** What the two performance gates compute, by counting: which samples are drawn, and where the reported values lie among them. */
module GateRanks {
  import opened OrderStatistics
  import opened RandomDraws
  import opened SampleRanks
  import opened CodeUnits
  import MedianBound
  import PairedBootstrap
  import Mulberry32

  // ----- Draws

  /** The value at the place where a draw's fraction of 2^32 falls on the list. */
  ghost predicate FallsOn(source: seq<real>, bits: Word, x: real)
  {
    exists k: nat ::
      k < |source| && source[k] == x && k * 0x1_0000_0000 <= bits as nat * |source| < (k + 1) * 0x1_0000_0000
  }

  lemma PickMeans(bits: Word, n: nat, k: nat)
    requires n > 0 && k * 0x1_0000_0000 <= bits as nat * n < (k + 1) * 0x1_0000_0000
    ensures Pick(bits, n) == k
  {
    var total := bits as nat * n;
    assert total == k * 0x1_0000_0000 + (total - k * 0x1_0000_0000);
  }

  /** The fresh samples of a difference are drawn first, then the baseline samples, one draw for each. */
  lemma DeltaDraws(baseline: seq<real>, recent: seq<real>, draws: Draws, start: nat, freshDrawn: seq<real>, baselineDrawn: seq<real>)
    requires baseline != [] && recent != [] && |freshDrawn| == |recent| && |baselineDrawn| == |baseline|
    requires forall i | 0 <= i < |recent| :: FallsOn(recent, draws(start + i), freshDrawn[i])
    requires forall i | 0 <= i < |baseline| :: FallsOn(baseline, draws(start + |recent| + i), baselineDrawn[i])
    ensures MedianBound.DeltaAt(baseline, recent, draws, start) == MedianBound.MedianOf(freshDrawn) - MedianBound.MedianOf(baselineDrawn)
  {
    DrawnAll(recent, draws, start, freshDrawn);
    DrawnAll(baseline, draws, start + |recent|, baselineDrawn);
  }

  lemma DrawnAll(source: seq<real>, draws: Draws, start: nat, drawn: seq<real>)
    requires source != [] && |drawn| == |source| && forall i | 0 <= i < |source| :: FallsOn(source, draws(start + i), drawn[i])
    ensures MedianBound.Resample(source, draws, start) == drawn
  {
    forall i | 0 <= i < |source|
      ensures MedianBound.Drawn(source, draws, start + i) == drawn[i]
    {
      var bits := draws(start + i);
      var k: nat :| k < |source| && source[k] == drawn[i] && k * 0x1_0000_0000 <= bits as nat * |source| < (k + 1) * 0x1_0000_0000;
      PickMeans(bits, |source|, k);
    }
  }

  /** A median is the mean of the two samples in the middle, which are the same one for an odd number. */
  lemma MedianIsMiddle(s: seq<real>) returns (a: real, b: real)
    requires s != []
    ensures Ranked(s, a, (|s| - 1) / 2) && Ranked(s, b, |s| / 2) && MedianBound.MedianOf(s) == (a + b) / 2.0
  {
    SortRanks(s, (|s| - 1) / 2);
    SortRanks(s, |s| / 2);
    a, b := Sort(s)[(|s| - 1) / 2], Sort(s)[|s| / 2];
  }

  // ----- The bound of a family

  /** The least number of resamples that is at least one percent of 20 000, divided among the family. */
  ghost predicate LeastShare(familySize: int, n: nat)
  {
    n >= 1 && Enough(familySize, n) && forall k: nat | 1 <= k < n :: !Enough(familySize, k)
  }

  predicate Enough(familySize: int, n: nat)
  {
    n * familySize >= 200
  }

  lemma ShareOfTail(familySize: int)
    requires familySize > 0
    ensures MedianBound.TAIL / familySize as real * MedianBound.RESAMPLES as real == 200.0 / familySize as real
  {
    Regroup(0.01, familySize as real, 20_000.0);
    assert 0.01 * 20_000.0 == 200.0;
  }

  lemma Regroup(x: real, m: real, y: real)
    requires m > 0.0
    ensures x / m * y == (x * y) / m
  {
    var q := x / m;
    assert q * m == x;
    assert (q * y) * m == x * y;
  }

  lemma CeilMeans(x: real)
    ensures var n := MedianBound.Ceil(x); n as real >= x > n as real - 1.0
  {
  }

  lemma ScaleRises(x: real, y: real, d: real)
    requires d > 0.0 && x <= y
    ensures x * d <= y * d && (x < y ==> x * d < y * d)
  {
    assert (y - x) * d >= 0.0;
    assert y * d == x * d + (y - x) * d;
  }

  lemma Quotient(m: int, n: int)
    requires m > 0 && n as real >= 200.0 / m as real > n as real - 1.0
    ensures n * m >= 200 > (n - 1) * m
  {
    var q, d := 200.0 / m as real, m as real;
    ScaleRises(q, n as real, d);
    ScaleRises((n - 1) as real, q, d);
    assert q * d == 200.0;
    assert (n * m) as real == n as real * d;
    assert ((n - 1) * m) as real == (n - 1) as real * d;
  }

  lemma SmallerShare(m: int, n: nat)
    requires m > 0 && n >= 1 && (n - 1) * m < 200
    ensures n <= 200 && forall k: nat | 1 <= k < n :: !Enough(m, k)
  {
    assert (n - 1) * (m - 1) >= 0;
    forall k: nat | 1 <= k < n ensures !Enough(m, k) { assert (n - 1 - k) * m >= 0; }
  }

  lemma LowerIndexMeans(familySize: int)
    requires familySize > 0
    ensures LeastShare(familySize, MedianBound.LowerIndex(familySize) + 1)
  {
    var x := 200.0 / familySize as real;
    var n := MedianBound.Ceil(x);
    ShareOfTail(familySize);
    CeilMeans(x);
    Quotient(familySize, n);
    assert x > 0.0;
    SmallerShare(familySize, n);
    assert MedianBound.LowerIndex(familySize) == n - 1;
  }

  /**
   The bound of a cell in a family is one of the 20 000 resampled differences: at least that share of them does not exceed
   it, and fewer lie strictly below.
   */
  lemma BoundIsRanked(baseline: seq<real>, recent: seq<real>, draws: Draws, familySize: int, share: nat)
    requires |baseline| >= 2 && |recent| >= 2 && familySize > 0 && LeastShare(familySize, share)
    ensures var deltas := MedianBound.Deltas(baseline, recent, draws, 20_000);
            var bound := MedianBound.LowerBound(baseline, recent, draws, familySize);
            bound.Ok? && bound.value in deltas && |Under(deltas, bound.value)| < share <= |UpTo(deltas, bound.value)|
  {
    var deltas := MedianBound.Deltas(baseline, recent, draws, 20_000);
    MedianBound.ShortcutAgrees(baseline, recent, draws, familySize);
    LowerIndexMeans(familySize);
    OneShare(familySize, share, MedianBound.LowerIndex(familySize) + 1);
    SortRanks(deltas, MedianBound.LowerIndex(familySize));
  }

  lemma OneShare(familySize: int, m: nat, n: nat)
    requires LeastShare(familySize, m) && LeastShare(familySize, n)
    ensures m == n
  {
  }

  // ----- Percentiles

  /** A percentile lies between the samples of two neighbouring ranks, as far from the lower one as its position says. */
  lemma PercentileIsBetween(values: seq<real>, p: real, position: real, k: nat) returns (a: real, b: real)
    requires values != [] && 0.0 <= p <= 1.0 && position == (|values| - 1) as real * p && k as real <= position < k as real + 1.0
    ensures k < |values| && Ranked(values, a, k) && Ranked(values, b, if k + 1 < |values| then k + 1 else k)
    ensures PairedBootstrap.Percentile(values, p) == a + (b - a) * (position - k as real)
  {
    var n := |values|;
    PositionMeans(n, p, position);
    assert PairedBootstrap.LowerPlace(n, p) == k;
    var upper := PairedBootstrap.UpperPlace(n, p);
    SortRanks(values, k);
    SortRanks(values, upper);
    a, b := Sort(values)[k], Sort(values)[upper];
  }

  function Counting(n: nat): (s: seq<real>)
    ensures |s| == n && forall i | 0 <= i < n :: s[i] == i as real
  {
    seq(n, i requires 0 <= i < n => i as real)
  }

  lemma NumbersSorted(values: seq<real>)
    requires multiset(values) == multiset(Counting(|values|))
    ensures Sort(values) == Counting(|values|)
  {
    SortSorts(values);
    SortedUnique(Sort(values), Counting(|values|));
  }

  lemma NumbersBetween(n: nat, p: real, x: real)
    requires n > 0 && 0.0 <= p <= 1.0 && x == PairedBootstrap.Position(n, p)
    ensures PairedBootstrap.Interpolated(Counting(n), p) == x
  {
    var k, upper := PairedBootstrap.LowerPlace(n, p), PairedBootstrap.UpperPlace(n, p);
    PairedBootstrap.PositionInRange(n, p);
    OneFurther(k as real, upper as real, PairedBootstrap.Position(n, p) - k as real);
  }

  lemma OneFurther(a: real, b: real, part: real)
    requires b == a + 1.0 || (b == a && part == 0.0)
    ensures PairedBootstrap.Between(a, b, part) == a + part
  {
    assert b - a == 1.0 || part == 0.0;
  }

  /** Of the numbers from 0 to n - 1, in any order, the percentile at p is (n - 1) * p. */
  lemma PercentileOfNumbers(values: seq<real>, n: nat, p: real, x: real)
    requires n > 0 && |values| == n && multiset(values) == multiset(Counting(n)) && 0.0 <= p <= 1.0 && x == (n - 1) as real * p
    ensures PairedBootstrap.Percentile(values, p) == x
  {
    NumbersSorted(values);
    assert x == PairedBootstrap.Position(n, p) by { PositionMeans(n, p, x); }
    NumbersPercentile(values, p, x);
  }

  lemma NumbersPercentile(values: seq<real>, p: real, x: real)
    requires values != [] && Sort(values) == Counting(|values|) && 0.0 <= p <= 1.0 && x == PairedBootstrap.Position(|values|, p)
    ensures PairedBootstrap.Percentile(values, p) == x
  {
    NumbersBetween(|values|, p, x);
    SortedPercentile(values, p, x);
  }

  lemma PositionMeans(n: nat, p: real, x: real)
    requires n > 0 && x == (n - 1) as real * p
    ensures x == PairedBootstrap.Position(n, p)
  {
  }

  lemma SortedPercentile(values: seq<real>, p: real, x: real)
    requires values != [] && Sort(values) == Counting(|values|) && 0.0 <= p <= 1.0
    requires PairedBootstrap.Interpolated(Counting(|values|), p) == x
    ensures PairedBootstrap.Percentile(values, p) == x
  {
  }

  /** Both sides take the samples of the rounds that the draws name, as remainders of the number of rounds. */
  lemma EstimateDraws(before: seq<real>, after: seq<real>, draws: Draws, start: nat, p: real, rounds: seq<nat>)
    requires before != [] && |after| == |before| == |rounds| && 0.0 <= p <= 1.0
    requires PairedBootstrap.DivisorAt(before, draws, start, p) != 0.0
    requires forall i | 0 <= i < |rounds| :: rounds[i] < |before| && exists q: nat :: draws(start + i) as nat == q * |before| + rounds[i]
    ensures var x := seq(|rounds|, i requires 0 <= i < |rounds| => before[rounds[i]]);
            var y := seq(|rounds|, i requires 0 <= i < |rounds| => after[rounds[i]]);
            PairedBootstrap.Percentile(x, p) != 0.0 &&
            PairedBootstrap.EstimateAt(before, after, draws, start, p) ==
              (PairedBootstrap.Percentile(y, p) / PairedBootstrap.Percentile(x, p) - 1.0) * 100.0
  {
    var n := |before|;
    forall i | 0 <= i < n
      ensures draws(start + i) as nat % n == rounds[i]
    {
      var q: nat :| draws(start + i) as nat == q * n + rounds[i];
      Remainder(draws(start + i) as nat, q, n, rounds[i]);
    }
    assert PairedBootstrap.Resample(before, draws, start) == seq(n, i requires 0 <= i < n => before[rounds[i]]);
    assert PairedBootstrap.Resample(after, draws, start) == seq(n, i requires 0 <= i < n => after[rounds[i]]);
  }

  lemma AtLeast(d: int, n: int)
    requires d >= 1 && n >= 0
    ensures d * n >= n
  {
    assert (d - 1) * n >= 0;
  }

  lemma NoMultiple(d: int, n: int, e: int)
    requires d * n == e && -n < e < n
    ensures d == 0
  {
    if d >= 1 { AtLeast(d, n); } else if d <= -1 { AtLeast(-d, n); }
  }

  lemma Remainder(x: int, q: int, n: int, r: int)
    requires 0 <= r < n && x == q * n + r
    ensures x % n == r
  {
    assert (x / n - q) * n == r - x % n;
    NoMultiple(x / n - q, n, r - x % n);
  }

  /** A value between the samples of two neighbouring ranks, some fortieths of the way. */
  ghost predicate Lies(s: seq<real>, v: real, k: nat, fortieths: int)
  {
    exists a, b :: Around(s, a, b, k) && a <= v <= b && 40.0 * (v - a) == (b - a) * fortieths as real
  }

  ghost predicate Around(s: seq<real>, a: real, b: real, k: nat)
  {
    Ranked(s, a, k) && Ranked(s, b, if k + 1 < |s| then k + 1 else k)
  }

  lemma LiesBetween(s: seq<real>, a: real, b: real, v: real, k: nat, fortieths: int)
    requires Around(s, a, b, k) && a <= v <= b && 40.0 * (v - a) == (b - a) * fortieths as real
    ensures Lies(s, v, k, fortieths)
  {
  }

  lemma PercentileLies(values: seq<real>, p: real, position: real, k: nat, fortieths: int)
    requires values != [] && 0.0 <= p <= 1.0 && 0 <= fortieths < 40
    requires position == (|values| - 1) as real * p && 40.0 * position == (40 * k + fortieths) as real
    ensures Lies(values, PairedBootstrap.Percentile(values, p), k, fortieths)
  {
    var a, b := PercentileIsBetween(values, p, position, k);
    RankRises(values, a, k, b, if k + 1 < |values| then k + 1 else k);
    PartOfWay(values, a, b, position - k as real, PairedBootstrap.Percentile(values, p), k, fortieths);
  }

  lemma PartOfWay(s: seq<real>, a: real, b: real, part: real, v: real, k: nat, fortieths: int)
    requires Around(s, a, b, k) && a <= b && 0.0 <= part < 1.0 && 40.0 * part == fortieths as real && v == a + (b - a) * part
    ensures Lies(s, v, k, fortieths)
  {
    PartLies(a, b, part, fortieths, v);
    LiesBetween(s, a, b, v, k, fortieths);
  }

  lemma PartLies(a: real, b: real, part: real, fortieths: int, v: real)
    requires a <= b && 0.0 <= part < 1.0 && 40.0 * part == fortieths as real && v == a + (b - a) * part
    ensures a <= v <= b && 40.0 * (v - a) == (b - a) * fortieths as real
  {
    var d := b - a;
    PartWay(a, b, part);
    FortyTimes(d, part, fortieths as real);
    assert v - a == d * part;
  }

  lemma FortyTimes(d: real, part: real, x: real)
    requires 40.0 * part == x
    ensures 40.0 * (d * part) == d * x
  {
    assert 40.0 * (d * part) == d * (40.0 * part);
  }

  lemma LowEnd(estimates: seq<real>, low: nat)
    requires estimates != [] && 40 * low <= |estimates| - 1 < 40 * (low + 1)
    ensures Lies(estimates, PairedBootstrap.Percentile(estimates, 0.025), low, |estimates| - 1 - 40 * low)
  {
    PercentileLies(estimates, 0.025, (|estimates| - 1) as real * 0.025, low, |estimates| - 1 - 40 * low);
  }

  lemma HighEnd(estimates: seq<real>, high: nat)
    requires estimates != [] && 40 * high <= 39 * (|estimates| - 1) < 40 * (high + 1)
    ensures Lies(estimates, PairedBootstrap.Percentile(estimates, 0.975), high, 39 * (|estimates| - 1) - 40 * high)
  {
    PercentileLies(estimates, 0.975, (|estimates| - 1) as real * 0.975, high, 39 * (|estimates| - 1) - 40 * high);
  }

  lemma EndsArePercentiles(before: seq<real>, after: seq<real>, draws: Draws, resamples: nat, p: real)
    requires before != [] && |after| == |before| && resamples > 0 && 0.0 <= p <= 1.0
    requires PairedBootstrap.Divides(before, draws, resamples, p)
    ensures var e := PairedBootstrap.Bootstrap(before, after, draws, resamples, p);
            var estimates := PairedBootstrap.Estimates(before, after, draws, resamples, p);
            e.low == PairedBootstrap.Percentile(estimates, 0.025) && e.high == PairedBootstrap.Percentile(estimates, 0.975)
  {
  }

  /**
   The interval's ends lie at one fortieth of the way through the estimates, and one fortieth from their end: between the
   ranks next to these positions.
   */
  lemma IntervalEnds(before: seq<real>, after: seq<real>, draws: Draws, resamples: nat, p: real, estimates: seq<real>, low: nat, high: nat)
    requires before != [] && |after| == |before| && resamples > 0 && 0.0 <= p <= 1.0
    requires PairedBootstrap.Divides(before, draws, resamples, p)
    requires estimates == PairedBootstrap.Estimates(before, after, draws, resamples, p)
    requires 40 * low <= |estimates| - 1 < 40 * (low + 1) && 40 * high <= 39 * (|estimates| - 1) < 40 * (high + 1)
    ensures var e := PairedBootstrap.Bootstrap(before, after, draws, resamples, p);
            && |estimates| == resamples
            && Lies(estimates, e.low, low, |estimates| - 1 - 40 * low)
            && Lies(estimates, e.high, high, 39 * (|estimates| - 1) - 40 * high)
  {
    EndsArePercentiles(before, after, draws, resamples, p);
    LowEnd(estimates, low);
    HighEnd(estimates, high);
  }

  lemma RankRises(s: seq<real>, a: real, k: nat, b: real, m: nat)
    requires Ranked(s, a, k) && Ranked(s, b, m) && k <= m
    ensures a <= b
  {
    if b < a { Smaller(s, b, a); }
  }

  lemma PartWay(a: real, b: real, part: real)
    requires a <= b && 0.0 <= part < 1.0
    ensures a <= a + (b - a) * part <= b
  {
    PairedBootstrap.BetweenEnds(a, b, part);
  }

  // ----- The generators and the seed, at well-known values

  lemma SeedSamples()
    ensures MedianBound.HashOf([]) == 0x811c_9dc5 && MedianBound.HashOf(['a' as Unit]) == 0xe40c_292c
  {
    assert ['a' as Unit][..0] == [];
  }

  lemma GeneratorSamples()
    ensures Mulberry32.Stream(0)(0) == 0x4434_b462 && Mulberry32.Stream(0)(1) == 0x0015_9c37 && Mulberry32.Stream(0)(2) == 0x3928_5b08
    ensures PairedBootstrap.Stream(1)(0) == 270_369 && PairedBootstrap.Stream(1)(1) == 67_634_689
    ensures PairedBootstrap.Start(0) == 1 && PairedBootstrap.Start(1) == 1
  {
    assert Mulberry32.After(0, 1) == 0x6d2b_79f5;
    assert Mulberry32.After(0, 2) == 0xda56_f3ea;
    assert Mulberry32.After(0, 3) == 0x4782_6ddf;
    assert PairedBootstrap.After(1, 1) == 0x0004_2021;
    assert PairedBootstrap.After(1, 2) == 0x0408_0601;
  }
}
