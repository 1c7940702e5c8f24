/** The lower confidence bound of the controlled comparison gate: a bootstrap over two independent samples. */
module MedianBound {
  import opened OrderStatistics
  import opened RandomDraws
  import opened Mulberry32
  import opened CodeUnits
  import opened Wrappers
  import opened Fnv

  const RESAMPLES: nat := 20_000

  /** One minus the familywise confidence level. */
  const TAIL: real := 0.01

  // ----- The seed of a comparison

  function HashUnit(hash: bv32, unit: Unit): bv32
  {
    HashBits(hash, unit as bv32)
  }

  function HashOf(key: Text): bv32
  {
    if key == [] then FNV_OFFSET else HashUnit(HashOf(key[..|key| - 1]), key[|key| - 1])
  }

  method SeedForKey(key: Text) returns (hash: bv32)
    ensures hash == HashOf(key)
  {
    hash := FNV_OFFSET;
    for index := 0 to |key|
      invariant hash == HashOf(key[..index])
    {
      assert key[..index + 1][..index] == key[..index];
      hash := HashUnit(hash, key[index]);
    }
    assert key[..|key|] == key;
  }

  // ----- Medians of resamples

  function MedianOf(s: seq<real>): real
    requires s != []
  {
    var sorted, middle := Sort(s), |s| / 2;
    if |s| % 2 == 0 then (sorted[middle - 1] + sorted[middle]) / 2.0 else sorted[middle]
  }

  function Drawn(source: seq<real>, draws: Draws, i: nat): (x: real)
    requires source != []
    ensures x in source
  {
    source[Pick(draws(i), |source|)]
  }

  /** The samples drawn from some position of the stream on. */
  function Resample(source: seq<real>, draws: Draws, start: nat): (r: seq<real>)
    requires source != []
    ensures |r| == |source| && forall i | 0 <= i < |r| :: r[i] == Drawn(source, draws, start + i)
  {
    seq(|source|, i requires 0 <= i < |source| => Drawn(source, draws, start + i))
  }

  method FillResample(source: seq<real>, random: SeededRandom, scratch: array<real>)
    requires source != [] && scratch.Length == |source| && random.Valid()
    modifies random, scratch
    ensures random.Valid() && random.drawn == old(random.drawn) + |source|
    ensures scratch[..] == Resample(source, random.draws, old(random.drawn))
  {
    for index := 0 to |source|
      invariant random.Valid() && random.drawn == old(random.drawn) + index
      invariant forall i | 0 <= i < index :: scratch[i] == Drawn(source, random.draws, old(random.drawn) + i)
    {
      var bits := random.Next();
      scratch[index] := source[Pick(bits, |source|)];
    }
  }

  method SampleMedian(source: seq<real>, random: SeededRandom, scratch: array<real>) returns (median: real)
    requires source != [] && scratch.Length == |source| && random.Valid()
    modifies random, scratch
    ensures random.Valid() && random.drawn == old(random.drawn) + |source|
    ensures median == MedianAt(source, random.draws, old(random.drawn))
  {
    FillResample(source, random, scratch);
    SortInPlace(scratch);
    var middle := scratch.Length / 2;
    median := if scratch.Length % 2 == 0 then (scratch[middle - 1] + scratch[middle]) / 2.0 else scratch[middle];
  }

  function MedianAt(source: seq<real>, draws: Draws, start: nat): real
    requires source != []
  {
    MedianOf(Resample(source, draws, start))
  }

  /** One resampled difference of medians. */
  function DeltaAt(baseline: seq<real>, recent: seq<real>, draws: Draws, start: nat): real
    requires baseline != [] && recent != []
  {
    MedianAt(recent, draws, start) - MedianAt(baseline, draws, start + |recent|)
  }

  function Deltas(baseline: seq<real>, recent: seq<real>, draws: Draws, n: nat): (r: seq<real>)
    requires baseline != [] && recent != []
    ensures |r| == n && forall i | 0 <= i < n :: r[i] == DeltaAt(baseline, recent, draws, i * (|recent| + |baseline|))
  {
    seq(n, i requires 0 <= i < n => DeltaAt(baseline, recent, draws, i * (|recent| + |baseline|)))
  }

  // ----- The bound

  function Ceil(x: real): int
  {
    -((-x).Floor)
  }

  /** The order statistic that bounds from below, for one cell of a family. */
  function LowerIndex(familySize: int): (k: nat)
    requires familySize > 0
    ensures k < RESAMPLES
  {
    var index := Ceil(TAIL / familySize as real * RESAMPLES as real) - 1;
    var low := if index < RESAMPLES - 1 then index else RESAMPLES - 1;
    if low < 0 then 0 else low
  }

  predicate Constant(s: seq<real>)
  {
    forall i | 0 <= i < |s| :: s[i] == s[0]
  }

  /** The bound from all resamples, without the shortcut for constant samples. */
  function FullBound(baseline: seq<real>, recent: seq<real>, draws: Draws, familySize: int): real
    requires baseline != [] && recent != [] && familySize > 0
  {
    Sort(Deltas(baseline, recent, draws, RESAMPLES))[LowerIndex(familySize)]
  }

  function LowerBound(baseline: seq<real>, recent: seq<real>, draws: Draws, familySize: int): Result<real>
  {
    if |baseline| < 2 || |recent| < 2 then Err("requires repeated baseline and fresh raw samples")
    else if familySize <= 0 then Err("controlled comparison family size must be a positive integer")
    else if Constant(baseline) && Constant(recent) then Ok(recent[0] - baseline[0])
    else Ok(FullBound(baseline, recent, draws, familySize))
  }

  method SampleDelta(baseline: seq<real>, recent: seq<real>, random: SeededRandom,
                     baselineScratch: array<real>, recentScratch: array<real>, ghost index: nat) returns (delta: real)
    requires baseline != [] && recent != [] && random.Valid()
    requires baselineScratch.Length == |baseline| && recentScratch.Length == |recent|
    requires random.drawn == index * (|recent| + |baseline|)
    modifies random, baselineScratch, recentScratch
    ensures random.Valid() && random.drawn == (index + 1) * (|recent| + |baseline|)
    ensures delta == DeltaAt(baseline, recent, random.draws, index * (|recent| + |baseline|))
  {
    var recentMedian := SampleMedian(recent, random, recentScratch);
    var baselineMedian := SampleMedian(baseline, random, baselineScratch);
    delta := recentMedian - baselineMedian;
    NextStart(index, |recent| + |baseline|);
  }

  method FillDeltas(baseline: seq<real>, recent: seq<real>, random: SeededRandom,
                    baselineScratch: array<real>, recentScratch: array<real>, deltas: array<real>)
    requires baseline != [] && recent != [] && random.Valid() && random.drawn == 0
    requires baselineScratch.Length == |baseline| && recentScratch.Length == |recent|
    requires deltas != baselineScratch && deltas != recentScratch
    modifies random, baselineScratch, recentScratch, deltas
    ensures deltas[..] == Deltas(baseline, recent, random.draws, deltas.Length)
  {
    ghost var all := Deltas(baseline, recent, random.draws, deltas.Length);
    for index := 0 to deltas.Length
      invariant random.Valid() && random.drawn == index * (|recent| + |baseline|)
      invariant forall i | 0 <= i < index :: deltas[i] == all[i]
    {
      var delta := SampleDelta(baseline, recent, random, baselineScratch, recentScratch, index);
      deltas[index] := delta;
    }
  }

  /** All resampled differences, sorted. */
  method SortedDeltas(baseline: seq<real>, recent: seq<real>, random: SeededRandom) returns (deltas: array<real>)
    requires baseline != [] && recent != [] && random.Valid() && random.drawn == 0
    modifies random
    ensures deltas[..] == Sort(Deltas(baseline, recent, random.draws, RESAMPLES))
  {
    deltas := new real[RESAMPLES];
    var baselineScratch, recentScratch := new real[|baseline|], new real[|recent|];
    FillDeltas(baseline, recent, random, baselineScratch, recentScratch, deltas);
    SortInPlace(deltas);
  }

  method IndependentMedianDeltaLowerBound(baseline: seq<real>, recent: seq<real>, key: Text, familySize: int)
    returns (bound: Result<real>)
    ensures bound == LowerBound(baseline, recent, Stream(HashOf(key)), familySize)
    ensures bound.Err? <==> |baseline| < 2 || |recent| < 2 || familySize <= 0
  {
    if |baseline| < 2 || |recent| < 2 { return Err("requires repeated baseline and fresh raw samples"); }
    if familySize <= 0 { return Err("controlled comparison family size must be a positive integer"); }
    if Constant(baseline) && Constant(recent) { return Ok(recent[0] - baseline[0]); }
    var seed := SeedForKey(key);
    var random := new SeededRandom(seed);
    var deltas := SortedDeltas(baseline, recent, random);
    bound := Ok(deltas[LowerIndex(familySize)]);
  }

  // ----- What the bound depends on, whatever is drawn

  lemma MedianMonotone(a: seq<real>, b: seq<real>)
    requires a != [] && Below(a, b)
    ensures MedianOf(a) <= MedianOf(b)
  {
    var middle := |a| / 2;
    SortMonotone(a, b, middle);
    if |a| % 2 == 0 { SortMonotone(a, b, middle - 1); }
  }

  lemma ResampleBelow(a: seq<real>, b: seq<real>, draws: Draws, start: nat)
    requires a != [] && Below(a, b)
    ensures Below(Resample(a, draws, start), Resample(b, draws, start))
  {
  }

  lemma MedianAtMonotone(a: seq<real>, b: seq<real>, draws: Draws, start: nat)
    requires a != [] && Below(a, b)
    ensures MedianAt(a, draws, start) <= MedianAt(b, draws, start)
  {
    ResampleBelow(a, b, draws, start);
    MedianMonotone(Resample(a, draws, start), Resample(b, draws, start));
  }

  lemma DeltaMonotone(b: seq<real>, r: seq<real>, lower: seq<real>, higher: seq<real>, draws: Draws, start: nat)
    requires b != [] && r != [] && Below(lower, b) && Below(r, higher)
    ensures DeltaAt(b, r, draws, start) <= DeltaAt(lower, higher, draws, start)
  {
    MedianAtMonotone(r, higher, draws, start);
    MedianAtMonotone(lower, b, draws, start + |r|);
  }

  lemma FullMonotone(b: seq<real>, r: seq<real>, lower: seq<real>, higher: seq<real>, draws: Draws, familySize: int)
    requires b != [] && r != [] && familySize > 0 && Below(lower, b) && Below(r, higher)
    ensures FullBound(b, r, draws, familySize) <= FullBound(lower, higher, draws, familySize)
  {
    forall i | 0 <= i < RESAMPLES
      ensures Deltas(b, r, draws, RESAMPLES)[i] <= Deltas(lower, higher, draws, RESAMPLES)[i]
    {
      DeltaMonotone(b, r, lower, higher, draws, i * (|r| + |b|));
    }
    SortMonotone(Deltas(b, r, draws, RESAMPLES), Deltas(lower, higher, draws, RESAMPLES), LowerIndex(familySize));
  }

  lemma MedianWithin(s: seq<real>, low: real, high: real)
    requires s != [] && Within(s, low, high)
    ensures low <= MedianOf(s) <= high
  {
    StatisticWithin(s, |s| / 2, low, high);
    if |s| % 2 == 0 { StatisticWithin(s, |s| / 2 - 1, low, high); }
  }

  lemma ResampleWithin(s: seq<real>, draws: Draws, start: nat, low: real, high: real)
    requires s != [] && Within(s, low, high)
    ensures Within(Resample(s, draws, start), low, high)
  {
  }

  lemma MedianAtWithin(s: seq<real>, draws: Draws, start: nat, low: real, high: real)
    requires s != [] && Within(s, low, high)
    ensures low <= MedianAt(s, draws, start) <= high
  {
    ResampleWithin(s, draws, start, low, high);
    MedianWithin(Resample(s, draws, start), low, high);
  }

  lemma DeltaWithin(b: seq<real>, r: seq<real>, draws: Draws, start: nat, lowB: real, highB: real, lowR: real, highR: real)
    requires b != [] && r != [] && Within(b, lowB, highB) && Within(r, lowR, highR)
    ensures lowR - highB <= DeltaAt(b, r, draws, start) <= highR - lowB
  {
    MedianAtWithin(r, draws, start, lowR, highR);
    MedianAtWithin(b, draws, start + |r|, lowB, highB);
  }

  lemma PlacesWithin(s: seq<real>, low: real, high: real)
    requires forall i | 0 <= i < |s| :: low <= s[i] <= high
    ensures Within(s, low, high)
  {
  }

  lemma DeltasWithin(b: seq<real>, r: seq<real>, draws: Draws, n: nat, lowB: real, highB: real, lowR: real, highR: real)
    requires b != [] && r != [] && Within(b, lowB, highB) && Within(r, lowR, highR)
    ensures Within(Deltas(b, r, draws, n), lowR - highB, highR - lowB)
  {
    var deltas := Deltas(b, r, draws, n);
    forall i | 0 <= i < n
      ensures lowR - highB <= deltas[i] <= highR - lowB
    {
      DeltaWithin(b, r, draws, i * (|r| + |b|), lowB, highB, lowR, highR);
    }
    PlacesWithin(deltas, lowR - highB, highR - lowB);
  }

  lemma FullWithin(b: seq<real>, r: seq<real>, draws: Draws, familySize: int, lowB: real, highB: real, lowR: real, highR: real)
    requires b != [] && r != [] && familySize > 0 && Within(b, lowB, highB) && Within(r, lowR, highR)
    ensures lowR - highB <= FullBound(b, r, draws, familySize) <= highR - lowB
  {
    DeltasWithin(b, r, draws, RESAMPLES, lowB, highB, lowR, highR);
    StatisticWithin(Deltas(b, r, draws, RESAMPLES), LowerIndex(familySize), lowR - highB, highR - lowB);
  }

  /** The shortcut for constant samples returns what all the resamples would. */
  lemma ShortcutAgrees(b: seq<real>, r: seq<real>, draws: Draws, familySize: int)
    requires |b| >= 2 && |r| >= 2 && familySize > 0
    ensures LowerBound(b, r, draws, familySize) == Ok(FullBound(b, r, draws, familySize))
  {
    if Constant(b) && Constant(r) { FullWithin(b, r, draws, familySize, b[0], b[0], r[0], r[0]); }
  }

  /** Slower fresh samples or faster baseline samples never lower the bound. */
  lemma BoundMonotone(b: seq<real>, r: seq<real>, lower: seq<real>, higher: seq<real>, draws: Draws, familySize: int)
    requires |b| >= 2 && |r| >= 2 && familySize > 0 && Below(lower, b) && Below(r, higher)
    ensures LowerBound(b, r, draws, familySize).value <= LowerBound(lower, higher, draws, familySize).value
  {
    ShortcutAgrees(b, r, draws, familySize);
    ShortcutAgrees(lower, higher, draws, familySize);
    FullMonotone(b, r, lower, higher, draws, familySize);
  }

  /** The bound lies between the least and the greatest possible difference. */
  lemma BoundWithin(b: seq<real>, r: seq<real>, draws: Draws, familySize: int, lowB: real, highB: real, lowR: real, highR: real)
    requires |b| >= 2 && |r| >= 2 && familySize > 0 && Within(b, lowB, highB) && Within(r, lowR, highR)
    ensures lowR - highB <= LowerBound(b, r, draws, familySize).value <= highR - lowB
  {
    ShortcutAgrees(b, r, draws, familySize);
    FullWithin(b, r, draws, familySize, lowB, highB, lowR, highR);
  }

  lemma ShareFalls(x: real, y: real)
    requires 0.0 < x <= y
    ensures TAIL / y * RESAMPLES as real <= TAIL / x * RESAMPLES as real
  {
    assert TAIL / y <= TAIL / x;
  }

  lemma LowerIndexFalls(small: int, large: int)
    requires 0 < small <= large
    ensures LowerIndex(large) <= LowerIndex(small)
  {
    ShareFalls(small as real, large as real);
  }

  /** A larger family asks for more evidence: the bound of a cell never rises. */
  lemma LargerFamilyLowersBound(b: seq<real>, r: seq<real>, draws: Draws, small: int, large: int)
    requires |b| >= 2 && |r| >= 2 && 0 < small <= large
    ensures LowerBound(b, r, draws, large).value <= LowerBound(b, r, draws, small).value
  {
    LowerIndexFalls(small, large);
    SortSorts(Deltas(b, r, draws, RESAMPLES));
  }
}
