/** The matched comparison: percentiles of paired samples, and a bootstrap that resamples whole pairs. */
module PairedBootstrap {
  import opened OrderStatistics
  import opened RandomDraws

  // ----- The generator

  function Left(value: bv32, places: nat): bv32
    requires places < 32
  {
    value ^ (value << places)
  }

  function Right(value: bv32, places: nat): bv32
    requires places < 32
  {
    value ^ (value >> places)
  }

  function Step(value: bv32): bv32
  {
    Left(Right(Left(value, 13), 17), 5)
  }

  function After(seed: bv32, draws: nat): bv32
  {
    if draws == 0 then seed else Step(After(seed, draws - 1))
  }

  lemma LeftKeeps(x: bv32)
    requires x != 0
    ensures Left(x, 13) != 0 && Left(x, 5) != 0
  {
    assert x ^ (x << 13) != 0;
    assert x ^ (x << 5) != 0;
  }

  lemma RightKeeps(x: bv32)
    requires x != 0
    ensures Right(x, 17) != 0
  {
    assert x ^ (x >> 17) != 0;
  }

  lemma StepKeeps(value: bv32)
    requires value != 0
    ensures Step(value) != 0
  {
    LeftKeeps(value);
    RightKeeps(Left(value, 13));
    LeftKeeps(Right(Left(value, 13), 17));
  }

  /** The seed that the source uses for a given one: zero is replaced. */
  function Start(seed: bv32): (start: bv32)
    ensures start != 0
  {
    if seed == 0 then 1 else seed
  }

  /** The generator never gets stuck: its state is never zero. */
  lemma {:induction false} NeverZero(seed: bv32, draws: nat)
    ensures After(Start(seed), draws) != 0
  {
    if draws > 0 {
      NeverZero(seed, draws - 1);
      StepKeeps(After(Start(seed), draws - 1));
    }
  }

  lemma {:induction false} AfterStep(value: bv32, n: nat)
    ensures After(Step(value), n) == After(value, n + 1)
  {
    if n > 0 { AfterStep(value, n - 1); }
  }

  function DrawAt(value: bv32, i: nat): Word
  {
    ToWord(After(value, i + 1))
  }

  function Stream(seed: bv32): Draws
  {
    (i: nat) => DrawAt(seed, i)
  }

  ghost predicate Matches(value: bv32, draws: Draws, drawn: nat, i: nat)
  {
    draws(drawn + i) == DrawAt(value, i)
  }

  ghost predicate Follows(value: bv32, draws: Draws, drawn: nat)
  {
    forall i: nat :: Matches(value, draws, drawn, i)
  }

  lemma FollowsStep(value: bv32, draws: Draws, drawn: nat)
    requires Follows(value, draws, drawn)
    ensures draws(drawn) == ToWord(Step(value)) && Follows(Step(value), draws, drawn + 1)
  {
    AfterStep(value, 0);
    assert Matches(value, draws, drawn, 0);
    var next, used := Step(value), drawn + 1;
    forall i: nat
      ensures Matches(next, draws, used, i)
    {
      AfterStep(value, i + 1);
      assert Matches(value, draws, drawn, i + 1);
    }
  }

  class RandomState {
    var value: bv32
    ghost const draws: Draws
    ghost var drawn: nat

    ghost predicate Valid()
      reads this
    {
      Follows(value, draws, drawn)
    }

    constructor (seed: bv32)
      ensures Valid() && draws == Stream(Start(seed)) && drawn == 0
    {
      value, draws, drawn := Start(seed), Stream(Start(seed)), 0;
    }

    method NextRandom() returns (bits: Word)
      requires Valid()
      modifies this
      ensures Valid() && drawn == old(drawn) + 1 && bits == draws(old(drawn))
    {
      FollowsStep(value, draws, drawn);
      ghost var next := Step(value);
      value := Left(value, 13);
      value := Right(value, 17);
      value := Left(value, 5);
      assert value == next;
      drawn := drawn + 1;
      bits := ToWord(value);
    }
  }

  // ----- Percentiles

  /** The value a part of the way from one to the other. */
  function Between(a: real, b: real, part: real): real
  {
    a + (b - a) * part
  }

  function Position(n: nat, p: real): real
  {
    (n as real - 1.0) * p
  }

  function LowerPlace(n: nat, p: real): (k: nat)
    requires n > 0 && 0.0 <= p <= 1.0
    ensures k < n && 0.0 <= Position(n, p) - k as real < 1.0
  {
    PositionInRange(n, p);
    Position(n, p).Floor
  }

  lemma Product(x: real, y: real)
    requires x >= 0.0 && y >= 0.0
    ensures x * y >= 0.0
  {
  }

  lemma PositionInRange(n: nat, p: real)
    requires n > 0 && 0.0 <= p <= 1.0
    ensures 0.0 <= Position(n, p) <= n as real - 1.0
  {
    var m := n as real - 1.0;
    Product(m, p);
    Product(m, 1.0 - p);
    assert m * (1.0 - p) == m - m * p;
  }

  function UpperPlace(n: nat, p: real): (k: nat)
    requires n > 0 && 0.0 <= p <= 1.0
    ensures LowerPlace(n, p) <= k < n
  {
    if LowerPlace(n, p) + 1 < n - 1 then LowerPlace(n, p) + 1 else n - 1
  }

  function Interpolated(sorted: seq<real>, p: real): real
    requires sorted != [] && 0.0 <= p <= 1.0
  {
    var n := |sorted|;
    Between(sorted[LowerPlace(n, p)], sorted[UpperPlace(n, p)], Position(n, p) - LowerPlace(n, p) as real)
  }

  function Percentile(values: seq<real>, p: real): real
    requires values != [] && 0.0 <= p <= 1.0
  {
    Interpolated(Sort(values), p)
  }

  /** The order of the samples does not matter. */
  lemma PercentilePermuted(a: seq<real>, b: seq<real>, p: real)
    requires a != [] && multiset(a) == multiset(b) && 0.0 <= p <= 1.0
    ensures b != [] && Percentile(a, p) == Percentile(b, p)
  {
    assert |a| == |multiset(a)| == |b|;
    SortPermuted(a, b);
  }

  lemma BetweenEnds(a: real, b: real, part: real)
    requires a <= b && 0.0 <= part <= 1.0
    ensures a <= Between(a, b, part) <= b
  {
    Product(b - a, part);
    Product(b - a, 1.0 - part);
    assert (b - a) * (1.0 - part) == (b - a) - (b - a) * part;
  }

  lemma InterpolatedEnds(sorted: seq<real>, p: real)
    requires sorted != [] && Sorted(sorted) && 0.0 <= p <= 1.0
    ensures sorted[LowerPlace(|sorted|, p)] <= Interpolated(sorted, p) <= sorted[UpperPlace(|sorted|, p)]
  {
    var n := |sorted|;
    BetweenEnds(sorted[LowerPlace(n, p)], sorted[UpperPlace(n, p)], Position(n, p) - LowerPlace(n, p) as real);
  }

  /** A percentile lies between the least and the greatest sample. */
  lemma PercentileWithin(values: seq<real>, p: real, low: real, high: real)
    requires values != [] && Within(values, low, high) && 0.0 <= p <= 1.0
    ensures low <= Percentile(values, p) <= high
  {
    var n := |values|;
    SortSorts(values);
    InterpolatedEnds(Sort(values), p);
    SortMember(values, LowerPlace(n, p));
    SortMember(values, UpperPlace(n, p));
  }

  lemma BetweenMonotone(a: real, b: real, c: real, d: real, part: real)
    requires a <= c && b <= d && 0.0 <= part <= 1.0
    ensures Between(a, b, part) <= Between(c, d, part)
  {
    Product(c - a, 1.0 - part);
    Product(d - b, part);
    assert Between(c, d, part) - Between(a, b, part) == (c - a) * (1.0 - part) + (d - b) * part;
  }

  /** Raising samples never lowers a percentile. */
  lemma PercentileMonotone(a: seq<real>, b: seq<real>, p: real)
    requires a != [] && Below(a, b) && 0.0 <= p <= 1.0
    ensures Percentile(a, p) <= Percentile(b, p)
  {
    var n := |a|;
    SortMonotone(a, b, LowerPlace(n, p));
    SortMonotone(a, b, UpperPlace(n, p));
    BetweenMonotone(Sort(a)[LowerPlace(n, p)], Sort(a)[UpperPlace(n, p)], Sort(b)[LowerPlace(n, p)], Sort(b)[UpperPlace(n, p)],
                    Position(n, p) - LowerPlace(n, p) as real);
  }

  lemma BetweenFurther(a: real, b: real, part: real, more: real)
    requires a <= b && part <= more
    ensures Between(a, b, part) <= Between(a, b, more)
  {
    Product(b - a, more - part);
    assert (b - a) * (more - part) == (b - a) * more - (b - a) * part;
  }

  lemma PositionRises(n: nat, p: real, q: real)
    requires n > 0 && p <= q
    ensures Position(n, p) <= Position(n, q)
  {
    Product(n as real - 1.0, q - p);
    assert (n as real - 1.0) * (q - p) == Position(n, q) - Position(n, p);
  }

  /** A higher percentile is not below a lower one. */
  lemma PercentileRises(values: seq<real>, p: real, q: real)
    requires values != [] && 0.0 <= p <= q <= 1.0
    ensures Percentile(values, p) <= Percentile(values, q)
  {
    SortSorts(values);
    PositionRises(|values|, p, q);
    if LowerPlace(|values|, p) == LowerPlace(|values|, q) {
      RisesWithin(Sort(values), p, q);
    } else {
      RisesBetween(Sort(values), p, q);
    }
  }

  /** Both percentiles lie between the same two samples. */
  lemma RisesWithin(sorted: seq<real>, p: real, q: real)
    requires sorted != [] && Sorted(sorted) && 0.0 <= p <= q <= 1.0
    requires Position(|sorted|, p) <= Position(|sorted|, q) && LowerPlace(|sorted|, p) == LowerPlace(|sorted|, q)
    ensures Interpolated(sorted, p) <= Interpolated(sorted, q)
  {
    var n := |sorted|;
    BetweenFurther(sorted[LowerPlace(n, p)], sorted[UpperPlace(n, p)],
                   Position(n, p) - LowerPlace(n, p) as real, Position(n, q) - LowerPlace(n, q) as real);
  }

  lemma RisesBetween(sorted: seq<real>, p: real, q: real)
    requires sorted != [] && Sorted(sorted) && 0.0 <= p <= q <= 1.0
    requires Position(|sorted|, p) <= Position(|sorted|, q) && LowerPlace(|sorted|, p) != LowerPlace(|sorted|, q)
    ensures Interpolated(sorted, p) <= Interpolated(sorted, q)
  {
    var n := |sorted|;
    assert LowerPlace(n, p) < LowerPlace(n, q);
    InterpolatedEnds(sorted, p);
    InterpolatedEnds(sorted, q);
    assert sorted[UpperPlace(n, p)] <= sorted[LowerPlace(n, q)];
  }

  lemma BetweenScaled(a: real, b: real, part: real, c: real)
    ensures Between(Times(c, a), Times(c, b), part) == Times(c, Between(a, b, part))
  {
    assert (c * b - c * a) * part == c * ((b - a) * part);
  }

  lemma InterpolatedScaled(sorted: seq<real>, p: real, c: real)
    requires sorted != [] && 0.0 <= p <= 1.0
    ensures Interpolated(Scaled(sorted, c), p) == Times(c, Interpolated(sorted, p))
  {
    var n := |sorted|;
    var part := Position(n, p) - LowerPlace(n, p) as real;
    BetweenScaled(sorted[LowerPlace(n, p)], sorted[UpperPlace(n, p)], part, c);
  }

  lemma PercentileScaled(values: seq<real>, p: real, c: real)
    requires values != [] && 0.0 <= p <= 1.0 && c > 0.0
    ensures Percentile(Scaled(values, c), p) == Times(c, Percentile(values, p))
  {
    SortScaled(values, c);
    InterpolatedScaled(Sort(values), p, c);
  }

  // ----- The change between two lists of samples, in percent

  ghost predicate Positive(s: seq<real>)
  {
    forall x | x in s :: x > 0.0
  }

  lemma PositivePercentile(values: seq<real>, p: real)
    requires values != [] && Positive(values) && 0.0 <= p <= 1.0
    ensures Percentile(values, p) > 0.0
  {
    var n := |values|;
    SortSorts(values);
    InterpolatedEnds(Sort(values), p);
    SortMember(values, LowerPlace(n, p));
  }

  function Change(before: real, after: real): real
    requires before != 0.0
  {
    (after / before - 1.0) * 100.0
  }

  function Delta(before: seq<real>, after: seq<real>, p: real): real
    requires before != [] && after != [] && 0.0 <= p <= 1.0 && Percentile(before, p) != 0.0
  {
    Change(Percentile(before, p), Percentile(after, p))
  }

  lemma ChangeScaled(x: real, c: real)
    requires x != 0.0
    ensures Change(x, Times(c, x)) == (c - 1.0) * 100.0
  {
    assert c * x / x == c;
  }

  lemma ChangeMonotone(x: real, y: real, z: real)
    requires x > 0.0 && y <= z
    ensures Change(x, y) <= Change(x, z)
  {
    assert y / x <= z / x;
  }

  /** Multiplying every sample by c changes every percentile by exactly (c - 1) * 100 percent. */
  lemma DeltaScaled(before: seq<real>, p: real, c: real)
    requires before != [] && 0.0 <= p <= 1.0 && Percentile(before, p) != 0.0 && c > 0.0
    ensures Delta(before, Scaled(before, c), p) == (c - 1.0) * 100.0
  {
    PercentileScaled(before, p, c);
    ChangeScaled(Percentile(before, p), c);
  }

  lemma DeltaMonotone(before: seq<real>, after: seq<real>, slower: seq<real>, p: real)
    requires before != [] && after != [] && 0.0 <= p <= 1.0 && Percentile(before, p) > 0.0 && Below(after, slower)
    ensures Delta(before, after, p) <= Delta(before, slower, p)
  {
    PercentileMonotone(after, slower, p);
    ChangeMonotone(Percentile(before, p), Percentile(after, p), Percentile(slower, p));
  }

  // ----- Resampling pairs

  function Drawn(source: seq<real>, draws: Draws, i: nat): (x: real)
    requires source != []
    ensures x in source
  {
    source[draws(i) as nat % |source|]
  }

  function Resample(source: seq<real>, draws: Draws, start: nat): (r: seq<real>)
    requires source != []
    ensures |r| == |source| && forall i | 0 <= i < |r| :: r[i] == Drawn(source, draws, start + i)
  {
    seq(|source|, i requires 0 <= i < |source| => Drawn(source, draws, start + i))
  }

  lemma ResamplePositive(source: seq<real>, draws: Draws, start: nat)
    requires source != [] && Positive(source)
    ensures Positive(Resample(source, draws, start))
  {
  }

  /** The baseline percentile by which the change in one resample is divided. */
  function DivisorAt(before: seq<real>, draws: Draws, start: nat, p: real): real
    requires before != [] && 0.0 <= p <= 1.0
  {
    Percentile(Resample(before, draws, start), p)
  }

  /** No change is divided by zero, which would make it infinite. */
  predicate Divides(before: seq<real>, draws: Draws, n: nat, p: real)
    requires before != [] && 0.0 <= p <= 1.0
  {
    Percentile(before, p) != 0.0 && forall i | 0 <= i < n :: DivisorAt(before, draws, i * |before|, p) != 0.0
  }

  lemma PositiveDivides(before: seq<real>, draws: Draws, n: nat, p: real)
    requires before != [] && Positive(before) && 0.0 <= p <= 1.0
    ensures Divides(before, draws, n, p)
    ensures Percentile(before, p) > 0.0 && forall i | 0 <= i < n :: DivisorAt(before, draws, i * |before|, p) > 0.0
  {
    PositivePercentile(before, p);
    forall i | 0 <= i < n
      ensures DivisorAt(before, draws, i * |before|, p) > 0.0
    {
      ResamplePositive(before, draws, i * |before|);
      PositivePercentile(Resample(before, draws, i * |before|), p);
    }
  }

  /** The change seen in one resample: both sides take the samples of the same rounds. */
  function EstimateAt(before: seq<real>, after: seq<real>, draws: Draws, start: nat, p: real): real
    requires before != [] && |after| == |before| && 0.0 <= p <= 1.0 && DivisorAt(before, draws, start, p) != 0.0
  {
    Delta(Resample(before, draws, start), Resample(after, draws, start), p)
  }

  function Estimates(before: seq<real>, after: seq<real>, draws: Draws, n: nat, p: real): (r: seq<real>)
    requires before != [] && |after| == |before| && 0.0 <= p <= 1.0 && Divides(before, draws, n, p)
    ensures |r| == n && forall i | 0 <= i < n :: r[i] == EstimateAt(before, after, draws, i * |before|, p)
  {
    seq(n, i requires 0 <= i < n => EstimateAt(before, after, draws, i * |before|, p))
  }

  datatype Evidence = Evidence(value: real, low: real, high: real)

  function Bootstrap(before: seq<real>, after: seq<real>, draws: Draws, resamples: nat, p: real): Evidence
    requires before != [] && |after| == |before| && resamples > 0 && 0.0 <= p <= 1.0 && Divides(before, draws, resamples, p)
  {
    var estimates := Estimates(before, after, draws, resamples, p);
    Evidence(Delta(before, after, p), Percentile(estimates, 0.025), Percentile(estimates, 0.975))
  }

  method FillPairs(before: seq<real>, after: seq<real>, state: RandomState, sampledBefore: array<real>, sampledAfter: array<real>)
    requires before != [] && |after| == |before| && state.Valid()
    requires sampledBefore.Length == |before| && sampledAfter.Length == |before| && sampledBefore != sampledAfter
    modifies state, sampledBefore, sampledAfter
    ensures state.Valid() && state.drawn == old(state.drawn) + |before|
    ensures sampledBefore[..] == Resample(before, state.draws, old(state.drawn))
    ensures sampledAfter[..] == Resample(after, state.draws, old(state.drawn))
  {
    for index := 0 to |before|
      invariant state.Valid() && state.drawn == old(state.drawn) + index
      invariant forall i | 0 <= i < index :: sampledBefore[i] == Drawn(before, state.draws, old(state.drawn) + i)
      invariant forall i | 0 <= i < index :: sampledAfter[i] == Drawn(after, state.draws, old(state.drawn) + i)
    {
      var bits := state.NextRandom();
      var picked := bits as nat % |before|;
      sampledBefore[index] := before[picked];
      sampledAfter[index] := after[picked];
    }
  }

  method SampleEstimate(before: seq<real>, after: seq<real>, state: RandomState, sampledBefore: array<real>, sampledAfter: array<real>,
                        p: real) returns (estimate: real)
    requires before != [] && |after| == |before| && 0.0 <= p <= 1.0
    requires state.Valid() && DivisorAt(before, state.draws, state.drawn, p) != 0.0
    requires sampledBefore.Length == |before| && sampledAfter.Length == |before| && sampledBefore != sampledAfter
    modifies state, sampledBefore, sampledAfter
    ensures state.Valid() && state.drawn == old(state.drawn) + |before|
    ensures estimate == EstimateAt(before, after, state.draws, old(state.drawn), p)
  {
    FillPairs(before, after, state, sampledBefore, sampledAfter);
    estimate := Delta(sampledBefore[..], sampledAfter[..], p);
  }

  lemma DividesAt(before: seq<real>, draws: Draws, n: nat, p: real, i: nat)
    requires before != [] && 0.0 <= p <= 1.0 && Divides(before, draws, n, p) && i < n
    ensures DivisorAt(before, draws, i * |before|, p) != 0.0
  {
  }

  method FillEstimates(before: seq<real>, after: seq<real>, state: RandomState, sampledBefore: array<real>, sampledAfter: array<real>,
                       estimates: array<real>, p: real)
    requires before != [] && |after| == |before| && 0.0 <= p <= 1.0
    requires state.Valid() && state.drawn == 0 && Divides(before, state.draws, estimates.Length, p)
    requires sampledBefore.Length == |before| && sampledAfter.Length == |before|
    requires sampledBefore != sampledAfter && sampledBefore != estimates && sampledAfter != estimates
    modifies state, sampledBefore, sampledAfter, estimates
    ensures estimates[..] == Estimates(before, after, state.draws, estimates.Length, p)
  {
    ghost var all := Estimates(before, after, state.draws, estimates.Length, p);
    for sample := 0 to estimates.Length
      invariant state.Valid() && state.drawn == sample * |before|
      invariant forall i | 0 <= i < sample :: estimates[i] == all[i]
    {
      DividesAt(before, state.draws, estimates.Length, p, sample);
      NextStart(sample, |before|);
      var estimate := SampleEstimate(before, after, state, sampledBefore, sampledAfter, p);
      assert estimate == all[sample];
      estimates[sample] := estimate;
    }
  }

  method RunBootstrap(before: seq<real>, after: seq<real>, resamples: nat, seed: bv32, p: real) returns (evidence: Evidence)
    requires before != [] && |after| == |before| && resamples > 0 && 0.0 <= p <= 1.0
    requires Divides(before, Stream(Start(seed)), resamples, p)
    ensures evidence == Bootstrap(before, after, Stream(Start(seed)), resamples, p)
  {
    var estimates := new real[resamples];
    var sampledBefore := new real[|before|];
    var sampledAfter := new real[|before|];
    var state := new RandomState(seed);
    FillEstimates(before, after, state, sampledBefore, sampledAfter, estimates, p);
    evidence := Evidence(Delta(before, after, p), Percentile(estimates[..], 0.025), Percentile(estimates[..], 0.975));
  }

  // ----- What the evidence says, whatever is drawn

  /** The interval has its ends in order. */
  lemma IntervalOrdered(before: seq<real>, after: seq<real>, draws: Draws, resamples: nat, p: real)
    requires before != [] && |after| == |before| && resamples > 0 && 0.0 <= p <= 1.0 && Divides(before, draws, resamples, p)
    ensures var e := Bootstrap(before, after, draws, resamples, p); e.low <= e.high
  {
    PercentileRises(Estimates(before, after, draws, resamples, p), 0.025, 0.975);
  }

  lemma ResampleScaled(source: seq<real>, draws: Draws, start: nat, c: real)
    requires source != []
    ensures Resample(Scaled(source, c), draws, start) == Scaled(Resample(source, draws, start), c)
  {
  }

  lemma EstimateScaled(before: seq<real>, draws: Draws, start: nat, p: real, c: real)
    requires before != [] && 0.0 <= p <= 1.0 && DivisorAt(before, draws, start, p) != 0.0 && c > 0.0
    ensures EstimateAt(before, Scaled(before, c), draws, start, p) == (c - 1.0) * 100.0
  {
    ResampleScaled(before, draws, start, c);
    DeltaScaled(Resample(before, draws, start), p, c);
  }

  lemma ConstantPercentile(values: seq<real>, p: real, x: real)
    requires values != [] && (forall v | v in values :: v == x) && 0.0 <= p <= 1.0
    ensures Percentile(values, p) == x
  {
    PercentileWithin(values, p, x, x);
  }

  /** When every candidate time is c times the baseline time it is paired with, the interval is that one change. */
  lemma ScaledPairsAreExact(before: seq<real>, draws: Draws, resamples: nat, p: real, c: real)
    requires before != [] && resamples > 0 && 0.0 <= p <= 1.0 && Divides(before, draws, resamples, p) && c > 0.0
    ensures var change := (c - 1.0) * 100.0;
            Bootstrap(before, Scaled(before, c), draws, resamples, p) == Evidence(change, change, change)
  {
    var change := (c - 1.0) * 100.0;
    var estimates := Estimates(before, Scaled(before, c), draws, resamples, p);
    DeltaScaled(before, p, c);
    forall i | 0 <= i < resamples
      ensures estimates[i] == change
    {
      EstimateScaled(before, draws, i * |before|, p, c);
    }
    ConstantPercentile(estimates, 0.025, change);
    ConstantPercentile(estimates, 0.975, change);
  }

  lemma EstimateMonotone(before: seq<real>, after: seq<real>, slower: seq<real>, draws: Draws, start: nat, p: real)
    requires before != [] && |after| == |before| && 0.0 <= p <= 1.0 && DivisorAt(before, draws, start, p) > 0.0
    requires Below(after, slower)
    ensures EstimateAt(before, after, draws, start, p) <= EstimateAt(before, slower, draws, start, p)
  {
    DeltaMonotone(Resample(before, draws, start), Resample(after, draws, start), Resample(slower, draws, start), p);
  }

  /** Slower candidate times never lower the reported change or either end of its interval. */
  lemma EvidenceMonotone(before: seq<real>, after: seq<real>, slower: seq<real>, draws: Draws, resamples: nat, p: real)
    requires before != [] && |after| == |before| && Positive(before) && resamples > 0 && 0.0 <= p <= 1.0 && Below(after, slower)
    ensures Divides(before, draws, resamples, p)
    ensures var e, f := Bootstrap(before, after, draws, resamples, p), Bootstrap(before, slower, draws, resamples, p);
            e.value <= f.value && e.low <= f.low && e.high <= f.high
  {
    PositiveDivides(before, draws, resamples, p);
    DeltaMonotone(before, after, slower, p);
    var e, f := Estimates(before, after, draws, resamples, p), Estimates(before, slower, draws, resamples, p);
    forall i | 0 <= i < resamples
      ensures e[i] <= f[i]
    {
      EstimateMonotone(before, after, slower, draws, i * |before|, p);
    }
    PercentileMonotone(e, f, 0.025);
    PercentileMonotone(e, f, 0.975);
  }

  /** The gate fails a workload when the lower end of the interval is above zero. */
  predicate Regression(evidence: Evidence)
  {
    evidence.low > 0.0
  }

  lemma ScaledByOne(s: seq<real>)
    ensures Scaled(s, 1.0) == s
  {
    assert forall i | 0 <= i < |s| :: Scaled(s, 1.0)[i] == s[i];
  }

  /** A candidate that is never slower than its pair passes. */
  lemma NeverSlowerPasses(before: seq<real>, after: seq<real>, draws: Draws, resamples: nat, p: real)
    requires before != [] && Positive(before) && resamples > 0 && 0.0 <= p <= 1.0 && Below(after, before)
    ensures Divides(before, draws, resamples, p)
    ensures !Regression(Bootstrap(before, after, draws, resamples, p))
  {
    ScaledByOne(before);
    PositiveDivides(before, draws, resamples, p);
    ScaledPairsAreExact(before, draws, resamples, p, 1.0);
    EvidenceMonotone(before, after, before, draws, resamples, p);
  }

  /** A candidate that is slower by at least some factor in every pair fails. */
  lemma AlwaysSlowerFails(before: seq<real>, after: seq<real>, draws: Draws, resamples: nat, p: real, c: real)
    requires before != [] && Positive(before) && resamples > 0 && 0.0 <= p <= 1.0 && c > 1.0 && Below(Scaled(before, c), after)
    ensures Divides(before, draws, resamples, p)
    ensures Regression(Bootstrap(before, after, draws, resamples, p))
  {
    PositiveDivides(before, draws, resamples, p);
    ScaledPairsAreExact(before, draws, resamples, p, c);
    EvidenceMonotone(before, Scaled(before, c), after, draws, resamples, p);
  }
}
