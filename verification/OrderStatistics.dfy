/** Sorting of samples, and how order statistics follow the samples. */
module OrderStatistics {
  ghost predicate Sorted(s: seq<real>)
  {
    forall i, j | 0 <= i < j < |s| :: s[i] <= s[j]
  }

  /** Each sample of the first list is at most the sample at the same place in the second. */
  ghost predicate Below(a: seq<real>, b: seq<real>)
  {
    |a| == |b| && forall i | 0 <= i < |a| :: a[i] <= b[i]
  }

  function Insert(x: real, s: seq<real>): (r: seq<real>)
    ensures |r| == |s| + 1
  {
    if s == [] || s[|s| - 1] <= x then s + [x] else Insert(x, s[..|s| - 1]) + [s[|s| - 1]]
  }

  function Sort(s: seq<real>): (r: seq<real>)
    ensures |r| == |s|
  {
    if s == [] then [] else Insert(s[|s| - 1], Sort(s[..|s| - 1]))
  }

  lemma {:induction false} InsertMembers(x: real, s: seq<real>)
    ensures multiset(Insert(x, s)) == multiset(s) + multiset{x}
  {
    if !(s == [] || s[|s| - 1] <= x) {
      InsertMembers(x, s[..|s| - 1]);
      assert s == s[..|s| - 1] + [s[|s| - 1]];
    }
  }

  lemma {:induction false} InsertSorted(x: real, s: seq<real>)
    requires Sorted(s)
    ensures Sorted(Insert(x, s))
  {
    if !(s == [] || s[|s| - 1] <= x) {
      var init, last := s[..|s| - 1], s[|s| - 1];
      InsertSorted(x, init);
      InsertMembers(x, init);
      var r := Insert(x, init);
      forall i | 0 <= i < |r|
        ensures r[i] <= last
      {
        assert r[i] in multiset(r);
      }
    }
  }

  /** Sorting gives the same samples in ascending order. */
  lemma {:induction false} SortSorts(s: seq<real>)
    ensures Sorted(Sort(s)) && multiset(Sort(s)) == multiset(s)
  {
    if s != [] {
      SortSorts(s[..|s| - 1]);
      InsertSorted(s[|s| - 1], Sort(s[..|s| - 1]));
      InsertMembers(s[|s| - 1], Sort(s[..|s| - 1]));
      assert s == s[..|s| - 1] + [s[|s| - 1]];
    }
  }

  lemma SortMember(s: seq<real>, k: nat)
    requires k < |s|
    ensures Sort(s)[k] in s
  {
    SortSorts(s);
    assert Sort(s)[k] in multiset(Sort(s));
  }

  ghost predicate Within(s: seq<real>, low: real, high: real)
  {
    forall x | x in s :: low <= x <= high
  }

  lemma StatisticWithin(s: seq<real>, k: nat, low: real, high: real)
    requires k < |s| && Within(s, low, high)
    ensures low <= Sort(s)[k] <= high
  {
    SortMember(s, k);
  }

  // ----- Counting

  /** How many samples do not exceed v. */
  function CountUpTo(s: seq<real>, v: real): (n: nat)
    ensures n <= |s|
  {
    if s == [] then 0 else CountUpTo(s[..|s| - 1], v) + (if s[|s| - 1] <= v then 1 else 0)
  }

  lemma {:induction false} CountInsert(x: real, s: seq<real>, v: real)
    ensures CountUpTo(Insert(x, s), v) == CountUpTo(s, v) + (if x <= v then 1 else 0)
  {
    if s == [] || s[|s| - 1] <= x {
      assert (s + [x])[..|s|] == s;
    } else {
      var r := Insert(x, s[..|s| - 1]);
      CountInsert(x, s[..|s| - 1], v);
      assert (r + [s[|s| - 1]])[..|r|] == r;
    }
  }

  lemma {:induction false} CountSort(s: seq<real>, v: real)
    ensures CountUpTo(Sort(s), v) == CountUpTo(s, v)
  {
    if s != [] {
      CountSort(s[..|s| - 1], v);
      CountInsert(s[|s| - 1], Sort(s[..|s| - 1]), v);
    }
  }

  lemma {:induction false} CountBelow(a: seq<real>, b: seq<real>, v: real)
    requires Below(a, b)
    ensures CountUpTo(b, v) <= CountUpTo(a, v)
  {
    if a != [] { CountBelow(a[..|a| - 1], b[..|b| - 1], v); }
  }

  /** In a sorted list, the k-th sample is at most v exactly when more than k samples are. */
  lemma {:induction false} SortedCount(s: seq<real>, v: real, k: nat)
    requires Sorted(s) && k < |s|
    ensures s[k] <= v <==> k < CountUpTo(s, v)
  {
    var init := s[..|s| - 1];
    if k < |s| - 1 {
      SortedCount(init, v, k);
      if s[|s| - 1] <= v { assert s[k] <= s[|s| - 1]; }
    } else if s[k] <= v {
      AllCounted(s, v);
    } else {
      assert CountUpTo(init, v) <= |init|;
    }
  }

  lemma {:induction false} AllCounted(s: seq<real>, v: real)
    requires forall i | 0 <= i < |s| :: s[i] <= v
    ensures CountUpTo(s, v) == |s|
  {
    if s != [] { AllCounted(s[..|s| - 1], v); }
  }

  /** Raising samples never lowers an order statistic. */
  lemma SortMonotone(a: seq<real>, b: seq<real>, k: nat)
    requires Below(a, b) && k < |a|
    ensures Sort(a)[k] <= Sort(b)[k]
  {
    var v := Sort(b)[k];
    SortSorts(a);
    SortSorts(b);
    SortedCount(Sort(b), v, k);
    CountSort(b, v);
    CountBelow(a, b, v);
    CountSort(a, v);
    SortedCount(Sort(a), v, k);
  }

  lemma GreatestLast(a: seq<real>, b: seq<real>)
    requires a != [] && b != [] && Sorted(b) && multiset(a) == multiset(b)
    ensures a[|a| - 1] <= b[|b| - 1]
  {
    assert a[|a| - 1] in multiset(b);
    var i :| 0 <= i < |b| && b[i] == a[|a| - 1];
  }

  lemma WithoutLast(a: seq<real>)
    requires a != []
    ensures multiset(a[..|a| - 1]) == multiset(a) - multiset{a[|a| - 1]}
  {
    assert a == a[..|a| - 1] + [a[|a| - 1]];
  }

  /** There is one ascending arrangement of given samples. */
  lemma {:induction false} SortedUnique(a: seq<real>, b: seq<real>)
    requires Sorted(a) && Sorted(b) && multiset(a) == multiset(b)
    ensures a == b
    decreases |a|
  {
    assert |a| == |multiset(a)| == |b|;
    if a != [] {
      var n := |a| - 1;
      GreatestLast(a, b);
      GreatestLast(b, a);
      WithoutLast(a);
      WithoutLast(b);
      SortedUnique(a[..n], b[..n]);
    }
  }

  /** The order of the samples does not matter. */
  lemma SortPermuted(a: seq<real>, b: seq<real>)
    requires multiset(a) == multiset(b)
    ensures Sort(a) == Sort(b)
  {
    SortSorts(a);
    SortSorts(b);
    SortedUnique(Sort(a), Sort(b));
  }

  // ----- Transformations of all samples

  function Times(c: real, x: real): real
  {
    c * x
  }

  function Scaled(s: seq<real>, c: real): (r: seq<real>)
    ensures |r| == |s| && forall i | 0 <= i < |s| :: r[i] == Times(c, s[i])
  {
    if s == [] then [] else Scaled(s[..|s| - 1], c) + [Times(c, s[|s| - 1])]
  }

  lemma ScaleOrder(a: real, b: real, c: real)
    requires c > 0.0
    ensures a <= b <==> Times(c, a) <= Times(c, b)
  {
    assert c * (b - a) == c * b - c * a;
    if a < b {
      assert c * (b - a) > 0.0;
    } else if b < a {
      assert c * (a - b) > 0.0;
    }
  }

  lemma {:induction false} InsertScaled(x: real, s: seq<real>, c: real)
    requires c > 0.0
    ensures Insert(Times(c, x), Scaled(s, c)) == Scaled(Insert(x, s), c)
  {
    if s != [] {
      var init, last := s[..|s| - 1], s[|s| - 1];
      ScaleOrder(last, x, c);
      assert Scaled(s, c)[..|s| - 1] == Scaled(init, c);
      if last <= x {
        assert (s + [x])[..|s|] == s;
      } else {
        InsertScaled(x, init, c);
        assert (Insert(x, init) + [last])[..|s|] == Insert(x, init);
      }
    }
  }

  /** Scaling commutes with sorting. */
  lemma {:induction false} SortScaled(s: seq<real>, c: real)
    requires c > 0.0
    ensures Sort(Scaled(s, c)) == Scaled(Sort(s), c)
  {
    if s != [] {
      var init := s[..|s| - 1];
      SortScaled(init, c);
      InsertScaled(s[|s| - 1], Sort(init), c);
      assert Scaled(s, c)[..|s| - 1] == Scaled(init, c);
    }
  }

  lemma InsertStep(x: real, s: seq<real>, j: nat)
    requires 0 < j <= |s| && s[j - 1] > x
    ensures Insert(x, s[..j]) + s[j..] == Insert(x, s[..j - 1]) + s[j - 1..]
  {
    assert s[..j][..j - 1] == s[..j - 1];
    assert s[j - 1..] == [s[j - 1]] + s[j..];
  }

  /** Sample i is moved down to its place among the sorted ones before it. */
  method MoveDown(a: array<real>, i: nat, ghost sorted: seq<real>)
    requires i < a.Length && a[..i] == sorted
    modifies a
    ensures a[..i + 1] == Insert(old(a[i]), sorted) && a[i + 1..] == old(a[i + 1..])
  {
    var x, j := a[i], i;
    assert sorted[..i] + sorted[i..] == sorted && sorted[..i] == sorted && sorted[i..] == [];
    while j > 0 && a[j - 1] > x
      invariant j <= i && a[..j] == sorted[..j] && a[j + 1..i + 1] == sorted[j..]
      invariant Insert(x, sorted[..j]) + sorted[j..] == Insert(x, sorted)
      invariant a[i + 1..] == old(a[i + 1..])
    {
      assert sorted[..j][j - 1] == a[..j][j - 1];
      InsertStep(x, sorted, j);
      a[j] := a[j - 1];
      j := j - 1;
      assert a[j + 1..i + 1] == sorted[j..];
    }
    if j > 0 { assert sorted[..j][j - 1] == a[..j][j - 1]; }
    assert Insert(x, sorted[..j]) == sorted[..j] + [x];
    a[j] := x;
    assert a[..i + 1] == a[..j] + [a[j]] + a[j + 1..i + 1];
  }

  /** Sorting in place, by insertion. */
  method SortInPlace(a: array<real>)
    modifies a
    ensures a[..] == Sort(old(a[..]))
  {
    ghost var was := a[..];
    for i := 0 to a.Length
      invariant a[..i] == Sort(was[..i]) && a[i..] == was[i..]
    {
      assert was[..i + 1][..i] == was[..i];
      assert a[i] == a[i..][0] && a[i + 1..] == a[i..][1..] && was[i + 1..] == was[i..][1..];
      MoveDown(a, i, Sort(was[..i]));
    }
    assert a[..a.Length] == a[..] && was[..a.Length] == was;
  }
}
