/** Ranks of samples, told by counting and not by sorting, and the gates' statistics in these terms. */
module SampleRanks {
  import opened OrderStatistics

  type Test = real -> bool

  /** How many samples pass a test. */
  function CountIf(s: seq<real>, test: Test): (n: nat)
    ensures n <= |s|
  {
    if s == [] then 0 else CountIf(s[..|s| - 1], test) + (if test(s[|s| - 1]) then 1 else 0)
  }

  lemma {:induction false} CountIfInsert(x: real, s: seq<real>, test: Test)
    ensures CountIf(Insert(x, s), test) == CountIf(s, test) + (if test(x) then 1 else 0)
  {
    if s == [] || s[|s| - 1] <= x {
      assert (s + [x])[..|s|] == s;
    } else {
      var r := Insert(x, s[..|s| - 1]);
      CountIfInsert(x, s[..|s| - 1], test);
      assert (r + [s[|s| - 1]])[..|r|] == r;
    }
  }

  lemma {:induction false} CountIfSort(s: seq<real>, test: Test)
    ensures CountIf(Sort(s), test) == CountIf(s, test)
  {
    if s != [] {
      CountIfSort(s[..|s| - 1], test);
      CountIfInsert(s[|s| - 1], Sort(s[..|s| - 1]), test);
    }
  }

  /** What passes for a sample passes for every smaller one. */
  ghost predicate Downward(test: Test)
  {
    forall x, y | x <= y && test(y) :: test(x)
  }

  lemma {:induction false} AllPass(s: seq<real>, test: Test)
    requires forall i | 0 <= i < |s| :: test(s[i])
    ensures CountIf(s, test) == |s|
  {
    if s != [] { AllPass(s[..|s| - 1], test); }
  }

  lemma {:induction false} SortedPass(s: seq<real>, test: Test, k: nat)
    requires Sorted(s) && Downward(test) && k < |s|
    ensures test(s[k]) <==> k < CountIf(s, test)
  {
    var init := s[..|s| - 1];
    if k < |s| - 1 {
      SortedPass(init, test, k);
      if test(s[|s| - 1]) { assert s[k] <= s[|s| - 1] && test(s[k]); }
    } else if test(s[k]) {
      assert forall i | 0 <= i < |s| :: s[i] <= s[k] && test(s[i]);
      AllPass(s, test);
    } else {
      assert CountIf(init, test) <= |init|;
    }
  }

  /** The places of the samples that do not exceed a value, and of those that lie strictly below it. */
  function UpTo(s: seq<real>, v: real): set<nat>
  {
    set i: nat | i < |s| && s[i] <= v
  }

  function Under(s: seq<real>, v: real): set<nat>
  {
    set i: nat | i < |s| && s[i] < v
  }

  lemma {:induction false} UpToCount(s: seq<real>, v: real)
    ensures |UpTo(s, v)| == CountIf(s, x => x <= v)
  {
    if s == [] {
      assert UpTo(s, v) == {};
    } else {
      var n := |s| - 1;
      UpToCount(s[..n], v);
      assert UpTo(s, v) == UpTo(s[..n], v) + if s[n] <= v then {n} else {};
    }
  }

  lemma {:induction false} UnderCount(s: seq<real>, v: real)
    ensures |Under(s, v)| == CountIf(s, x => x < v)
  {
    if s == [] {
      assert Under(s, v) == {};
    } else {
      var n := |s| - 1;
      UnderCount(s[..n], v);
      assert Under(s, v) == Under(s[..n], v) + if s[n] < v then {n} else {};
    }
  }

  /** A sample of rank k: no more than k samples are smaller, and more than k do not exceed it. */
  ghost predicate Ranked(s: seq<real>, v: real, k: nat)
  {
    v in s && |Under(s, v)| <= k < |UpTo(s, v)|
  }

  /** Sorting puts a sample of each rank at its place. */
  lemma SortRanks(s: seq<real>, k: nat)
    requires k < |s|
    ensures Ranked(s, Sort(s)[k], k)
  {
    var v := Sort(s)[k];
    SortSorts(s);
    SortMember(s, k);
    UpToCount(s, v);
    UnderCount(s, v);
    CountIfSort(s, x => x <= v);
    CountIfSort(s, x => x < v);
    SortedPass(Sort(s), x => x <= v, k);
    SortedPass(Sort(s), x => x < v, k);
  }

  /** There is only one value of each rank. */
  lemma RankIsUnique(s: seq<real>, v: real, w: real, k: nat)
    requires Ranked(s, v, k) && Ranked(s, w, k)
    ensures v == w
  {
    if v < w { Smaller(s, v, w); }
    if w < v { Smaller(s, w, v); }
  }

  lemma Smaller(s: seq<real>, v: real, w: real)
    requires v < w
    ensures |UpTo(s, v)| <= |Under(s, w)|
  {
    UpToCount(s, v);
    UnderCount(s, w);
    CountMore(s, x => x <= v, x => x < w);
  }

  lemma {:induction false} CountMore(s: seq<real>, test: Test, weaker: Test)
    requires forall x | test(x) :: weaker(x)
    ensures CountIf(s, test) <= CountIf(s, weaker)
  {
    if s != [] { CountMore(s[..|s| - 1], test, weaker); }
  }
}
