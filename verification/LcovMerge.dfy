/** Merging the coverage records of several reports. */
module LcovMerge {
  import opened Sequences
  import opened Wrappers
  import opened LcovPaths
  import opened LcovFormat
  import opened LcovRoundTrip

  // ----- What a merge is

  /** Executions recorded for a line in one record. */
  function CountAt(counts: seq<LineCount>, line: nat): nat
  {
    if counts == [] then 0
    else
      var last := counts[|counts| - 1];
      CountAt(counts[..|counts| - 1], line) + (if last.line == line then last.count else 0)
  }

  /** Executions recorded for a line of a file, over all records. */
  function TotalAt(records: seq<Record>, path: string, line: nat): nat
  {
    if records == [] then 0
    else
      var last := records[|records| - 1];
      TotalAt(records[..|records| - 1], path, line) + (if last.path == path then CountAt(last.lineCounts, line) else 0)
  }

  ghost predicate LineKnown(records: seq<Record>, path: string, line: nat)
  {
    exists r | r in records :: r.path == path && HasLine(r.lineCounts, line)
  }

  ghost predicate MaxCovered(records: seq<Record>, path: string, n: nat)
  {
    && (exists r | r in records :: r.path == path && r.functions.covered == n)
    && (forall r | r in records && r.path == path :: r.functions.covered <= n)
  }

  ghost predicate MaxTotal(records: seq<Record>, path: string, n: nat)
  {
    && (exists r | r in records :: r.path == path && r.functions.total == n)
    && (forall r | r in records && r.path == path :: r.functions.total <= n)
  }

  /** The merged record of a file: each known line once, in order, with the sum of its counts. */
  ghost predicate MergedRecord(records: seq<Record>, r: Record)
  {
    && Ascending(r.lineCounts)
    && (forall line :: HasLine(r.lineCounts, line) <==> LineKnown(records, r.path, line))
    && (forall c | c in r.lineCounts :: c.count == TotalAt(records, r.path, c.line))
    && r.lines == Counts(Positive(r.lineCounts), |r.lineCounts|)
    && r.uncovered == ZeroLines(r.lineCounts)
    && MaxCovered(records, r.path, r.functions.covered)
    && MaxTotal(records, r.path, r.functions.total)
  }

  /** The comparison of paths, as "not after". Different paths can be equal to it; the sort keeps these as they come. */
  type Collation = f: (string, string) -> bool | Preorder(f) witness (a: string, b: string) => true

  ghost predicate Preorder(notAfter: (string, string) -> bool)
  {
    && (forall a, b :: notAfter(a, b) || notAfter(b, a))
    && (forall a, b, c :: notAfter(a, b) && notAfter(b, c) ==> notAfter(a, c))
  }

  predicate Tie(notAfter: Collation, p: string, q: string)
  {
    notAfter(p, q) && notAfter(q, p)
  }

  /** The first record of one file comes before any record of the other. */
  ghost predicate Leads(records: seq<Record>, p: string, q: string)
  {
    exists i | 0 <= i < |records| && records[i].path == p :: forall k | 0 <= k <= i :: records[k].path != q
  }

  ghost predicate Prior(notAfter: Collation, records: seq<Record>, p: string, q: string)
  {
    notAfter(p, q) && (notAfter(q, p) ==> Leads(records, p, q))
  }

  ghost predicate Sorted(notAfter: Collation, records: seq<Record>, paths: seq<string>)
  {
    forall i, j | 0 <= i < j < |paths| :: Prior(notAfter, records, paths[i], paths[j])
  }

  function Paths(records: seq<Record>): seq<string>
  {
    seq(|records|, i requires 0 <= i < |records| => records[i].path)
  }

  ghost predicate SamePaths(a: seq<Record>, b: seq<Record>)
  {
    forall p :: HasPath(a, p) <==> HasPath(b, p)
  }

  /** One merged record for each file that has records, in path order, and in order of appearance where paths tie. */
  ghost predicate Merged(notAfter: Collation, records: seq<Record>, result: seq<Record>)
  {
    && Sorted(notAfter, records, Paths(result))
    && SamePaths(result, records)
    && forall r | r in result :: MergedRecord(records, r)
  }

  // ----- The merge is determined by the records

  lemma {:induction false} CountPresent(counts: seq<LineCount>, line: nat)
    ensures CountAt(counts, line) > 0 ==> HasLine(counts, line)
    ensures CountAt(counts, line) > 0 <==> exists c | c in counts :: c.line == line && c.count > 0
  {
    if counts != [] {
      var init, last := counts[..|counts| - 1], counts[|counts| - 1];
      CountPresent(init, line);
      assert counts == init + [last];
      if HasLine(init, line) {
        var i :| 0 <= i < |init| && init[i].line == line;
        assert counts[i].line == line;
      }
    }
  }

  lemma {:induction false} CountInAscending(counts: seq<LineCount>, c: LineCount)
    requires Ascending(counts) && c in counts
    ensures CountAt(counts, c.line) == c.count
  {
    var init, last := counts[..|counts| - 1], counts[|counts| - 1];
    if c in init {
      CountInAscending(init, c);
      var i :| 0 <= i < |init| && init[i] == c;
      assert counts[i].line < counts[|counts| - 1].line;
    } else {
      assert counts == init + [last];
      CountPresent(init, c.line);
      if HasLine(init, c.line) {
        var i :| 0 <= i < |init| && init[i].line == c.line;
        assert counts[i].line < counts[|counts| - 1].line;
      }
    }
  }

  /** Two ascending lists with the same lines and the same counts are the same list. */
  lemma {:induction false} AscendingUnique(a: seq<LineCount>, b: seq<LineCount>)
    requires Ascending(a) && Ascending(b)
    requires forall c :: c in a <==> c in b
    ensures a == b
  {
    if a != [] { assert a[0] in b; }
    if b != [] { assert b[0] in a; }
    if a != [] {
      var i :| 0 <= i < |b| && b[i] == a[0];
      var j :| 0 <= j < |a| && a[j] == b[0];
      assert forall k | 0 <= k < |b| :: b[0].line <= b[k].line;
      assert forall k | 0 <= k < |a| :: a[0].line <= a[k].line;
      assert a[0].line == b[0].line && a[0] == b[0];
      forall c
        ensures c in a[1..] <==> c in b[1..]
      {
        RestMembers(a, c);
        RestMembers(b, c);
      }
      AscendingUnique(a[1..], b[1..]);
    }
  }

  lemma RestMembers(a: seq<LineCount>, c: LineCount)
    requires a != [] && Ascending(a)
    ensures c in a[1..] <==> c in a && c != a[0]
  {
    assert a == [a[0]] + a[1..];
    if c in a[1..] {
      var k :| 1 <= k < |a| && a[k] == c;
      assert a[0].line < a[k].line;
    }
  }

  lemma PriorOneWay(notAfter: Collation, records: seq<Record>, p: string, q: string)
    ensures !(Prior(notAfter, records, p, q) && Prior(notAfter, records, q, p))
    ensures !Prior(notAfter, records, p, p)
  {
    assert notAfter(p, p);
  }

  /** Files that tie appear in the same order. */
  ghost predicate SameLeads(notAfter: Collation, a: seq<Record>, b: seq<Record>)
  {
    forall p, q | Tie(notAfter, p, q) :: Leads(a, p, q) <==> Leads(b, p, q)
  }

  lemma SameLeadsSorted(notAfter: Collation, x: seq<Record>, y: seq<Record>, paths: seq<string>)
    requires SameLeads(notAfter, x, y) && Sorted(notAfter, x, paths)
    ensures Sorted(notAfter, y, paths)
  {
    forall i, j | 0 <= i < j < |paths|
      ensures Prior(notAfter, y, paths[i], paths[j])
    {
      assert Prior(notAfter, x, paths[i], paths[j]);
      if notAfter(paths[j], paths[i]) { assert Tie(notAfter, paths[i], paths[j]); }
    }
  }

  lemma {:induction false} SortedPathsUnique(notAfter: Collation, x: seq<Record>, a: seq<string>, b: seq<string>)
    requires Sorted(notAfter, x, a) && Sorted(notAfter, x, b)
    requires forall p :: p in a <==> p in b
    ensures a == b
  {
    if a != [] { assert a[0] in b; }
    if b != [] { assert b[0] in a; }
    if a != [] {
      FirstPath(notAfter, x, a, b[0]);
      FirstPath(notAfter, x, b, a[0]);
      PriorOneWay(notAfter, x, a[0], b[0]);
      forall p
        ensures p in a[1..] <==> p in b[1..]
      {
        RestPaths(notAfter, x, a, p);
        RestPaths(notAfter, x, b, p);
      }
      SortedPathsUnique(notAfter, x, a[1..], b[1..]);
    }
  }

  lemma FirstPath(notAfter: Collation, x: seq<Record>, a: seq<string>, p: string)
    requires Sorted(notAfter, x, a) && p in a
    ensures p == a[0] || Prior(notAfter, x, a[0], p)
  {
    var k :| 0 <= k < |a| && a[k] == p;
  }

  lemma RestPaths(notAfter: Collation, x: seq<Record>, a: seq<string>, p: string)
    requires a != [] && Sorted(notAfter, x, a)
    ensures p in a[1..] <==> p in a && p != a[0]
  {
    assert a == [a[0]] + a[1..];
    if p in a[1..] {
      var k :| 1 <= k < |a| && a[k] == p;
      assert Prior(notAfter, x, a[0], a[k]);
      PriorOneWay(notAfter, x, a[0], a[k]);
    }
  }

  /** What a merge depends on: which files and lines are known, the sums, and the function counts that occur. */
  ghost predicate SameInput(a: seq<Record>, b: seq<Record>)
  {
    && SamePaths(a, b)
    && (forall p, line :: LineKnown(a, p, line) <==> LineKnown(b, p, line))
    && (forall p, line :: TotalAt(a, p, line) == TotalAt(b, p, line))
    && (forall p, n :: MaxCovered(a, p, n) <==> MaxCovered(b, p, n))
    && (forall p, n :: MaxTotal(a, p, n) <==> MaxTotal(b, p, n))
  }

  lemma MergedRecordUnique(a: seq<Record>, b: seq<Record>, r: Record, s: Record)
    requires SameInput(a, b) && MergedRecord(a, r) && MergedRecord(b, s) && r.path == s.path
    ensures r == s
  {
    forall c
      ensures c in r.lineCounts <==> c in s.lineCounts
    {
      MemberByLine(r.lineCounts, c);
      MemberByLine(s.lineCounts, c);
      assert HasLine(r.lineCounts, c.line) <==> LineKnown(a, r.path, c.line);
      assert HasLine(s.lineCounts, c.line) <==> LineKnown(b, s.path, c.line);
      if HasLine(r.lineCounts, c.line) && HasLine(s.lineCounts, c.line) {
        var i :| 0 <= i < |r.lineCounts| && r.lineCounts[i].line == c.line;
        var j :| 0 <= j < |s.lineCounts| && s.lineCounts[j].line == c.line;
        assert r.lineCounts[i] in r.lineCounts && s.lineCounts[j] in s.lineCounts;
        assert r.lineCounts[i].count == s.lineCounts[j].count;
      }
    }
    AscendingUnique(r.lineCounts, s.lineCounts);
    assert MaxCovered(b, s.path, r.functions.covered) && MaxTotal(b, s.path, r.functions.total);
  }

  /** In an ascending list an entry is found by its line. */
  lemma MemberByLine(counts: seq<LineCount>, c: LineCount)
    requires Ascending(counts)
    ensures c in counts ==> HasLine(counts, c.line)
    ensures HasLine(counts, c.line) ==> exists i | 0 <= i < |counts| :: counts[i].line == c.line && (c in counts <==> counts[i] == c)
  {
    if HasLine(counts, c.line) {
      var i :| 0 <= i < |counts| && counts[i].line == c.line;
      if c in counts {
        var j :| 0 <= j < |counts| && counts[j] == c;
        assert i == j;
      }
    }
  }

  /** Merges of inputs that agree, also in the order in which files that tie appear, are equal record by record. */
  lemma MergeUnique(notAfter: Collation, a: seq<Record>, b: seq<Record>, r: seq<Record>, s: seq<Record>)
    requires SameInput(a, b) && SameLeads(notAfter, a, b) && Merged(notAfter, a, r) && Merged(notAfter, b, s)
    ensures r == s
  {
    forall p
      ensures p in Paths(r) <==> p in Paths(s)
    {
      assert HasPath(r, p) <==> HasPath(s, p);
      PathMember(r, p);
      PathMember(s, p);
    }
    SameLeadsSorted(notAfter, a, b, Paths(r));
    SortedPathsUnique(notAfter, b, Paths(r), Paths(s));
    forall i | 0 <= i < |r|
      ensures r[i] == s[i]
    {
      assert Paths(r)[i] == r[i].path && Paths(s)[i] == s[i].path;
      MergedRecordUnique(a, b, r[i], s[i]);
    }
    assert |Paths(r)| == |r| && |Paths(s)| == |s|;
  }

  lemma PathMember(records: seq<Record>, p: string)
    ensures p in Paths(records) <==> HasPath(records, p)
  {
    if HasPath(records, p) {
      var i :| 0 <= i < |records| && records[i].path == p;
      assert Paths(records)[i] == p;
    }
  }

  // ----- Report order and grouping do not matter

  lemma {:induction false} TotalAtAppend(a: seq<Record>, b: seq<Record>, path: string, line: nat)
    ensures TotalAt(a + b, path, line) == TotalAt(a, path, line) + TotalAt(b, path, line)
  {
    if b == [] {
      assert a + b == a;
    } else {
      TotalAtAppend(a, b[..|b| - 1], path, line);
      assert (a + b)[..|a + b| - 1] == a + b[..|b| - 1];
    }
  }

  lemma TotalAtWithout(records: seq<Record>, k: nat, path: string, line: nat)
    requires k < |records|
    ensures TotalAt(records, path, line) ==
            TotalAt(records[..k] + records[k + 1..], path, line) + TotalAt([records[k]], path, line)
  {
    assert records == records[..k] + ([records[k]] + records[k + 1..]);
    TotalAtAppend(records[..k], [records[k]] + records[k + 1..], path, line);
    TotalAtAppend([records[k]], records[k + 1..], path, line);
    TotalAtAppend(records[..k], records[k + 1..], path, line);
  }

  lemma WithoutOne(records: seq<Record>, k: nat)
    requires k < |records|
    ensures multiset(records[..k] + records[k + 1..]) == multiset(records) - multiset{records[k]}
  {
    assert records == records[..k] + ([records[k]] + records[k + 1..]);
  }

  lemma WithoutFirst(records: seq<Record>)
    requires records != []
    ensures multiset(records[1..]) == multiset(records) - multiset{records[0]}
  {
    assert records == [records[0]] + records[1..];
  }

  /** A record of a permuted list, and what is left of both lists without it. */
  lemma Matching(a: seq<Record>, b: seq<Record>) returns (k: nat)
    requires a != [] && multiset(a) == multiset(b)
    ensures k < |b| && b[k] == a[0] && multiset(a[1..]) == multiset(b[..k] + b[k + 1..])
  {
    k := PlaceOf(a[0], a, b);
    WithoutOne(b, k);
    WithoutFirst(a);
  }

  lemma PlaceOf(r: Record, a: seq<Record>, b: seq<Record>) returns (k: nat)
    requires r in a && multiset(a) == multiset(b)
    ensures k < |b| && b[k] == r
  {
    assert r in multiset(a) && r in multiset(b);
    k :| 0 <= k < |b| && b[k] == r;
  }

  lemma {:induction false} TotalAtPermuted(a: seq<Record>, b: seq<Record>, path: string, line: nat)
    requires multiset(a) == multiset(b)
    ensures TotalAt(a, path, line) == TotalAt(b, path, line)
    decreases |a|
  {
    if a == [] {
      assert |multiset(b)| == 0;
      assert b == [];
    } else {
      var k := Matching(a, b);
      TotalAtWithout(a, 0, path, line);
      TotalAtWithout(b, k, path, line);
      assert a[..0] + a[1..] == a[1..];
      TotalAtPermuted(a[1..], b[..k] + b[k + 1..], path, line);
    }
  }

  lemma PathOfMember(records: seq<Record>, p: string)
    ensures HasPath(records, p) <==> exists r | r in records :: r.path == p
  {
    if HasPath(records, p) {
      var i :| 0 <= i < |records| && records[i].path == p;
      assert records[i] in records;
    }
  }

  lemma PermutedInput(a: seq<Record>, b: seq<Record>)
    requires multiset(a) == multiset(b)
    ensures SameInput(a, b)
  {
    assert forall r :: r in a <==> r in multiset(a);
    assert forall r :: r in b <==> r in multiset(b);
    forall p ensures HasPath(a, p) <==> HasPath(b, p) {
      PathOfMember(a, p);
      PathOfMember(b, p);
    }
    forall p, line ensures TotalAt(a, p, line) == TotalAt(b, p, line) { TotalAtPermuted(a, b, p, line); }
  }

  ghost predicate CoveredAtMost(records: seq<Record>, p: string, n: nat)
  {
    forall r | r in records && r.path == p :: r.functions.covered <= n
  }

  ghost predicate TotalAtMost(records: seq<Record>, p: string, n: nat)
  {
    forall r | r in records && r.path == p :: r.functions.total <= n
  }

  ghost predicate SameBounds(a: seq<Record>, b: seq<Record>)
  {
    && (forall p, n :: CoveredAtMost(a, p, n) <==> CoveredAtMost(b, p, n))
    && (forall p, n :: TotalAtMost(a, p, n) <==> TotalAtMost(b, p, n))
  }

  lemma MergedRecordOf(notAfter: Collation, records: seq<Record>, result: seq<Record>, p: string) returns (r: Record)
    requires Merged(notAfter, records, result) && HasPath(records, p)
    ensures r in result && r.path == p && MergedRecord(records, r)
    ensures forall s | s in result && s.path == p :: s == r
    ensures forall line :: TotalAt(result, p, line) == CountAt(r.lineCounts, line)
  {
    assert HasPath(result, p);
    var i :| 0 <= i < |result| && result[i].path == p;
    r := result[i];
    forall j | 0 <= j < |result| && result[j].path == p
      ensures j == i
    {
      assert Paths(result)[j] == p && Paths(result)[i] == p;
      PriorOneWay(notAfter, records, p, p);
    }
    forall line ensures TotalAt(result, p, line) == CountAt(r.lineCounts, line) {
      SinglePathTotal(result, i, p, line);
    }
  }

  lemma {:induction false} NoPathTotal(records: seq<Record>, p: string, line: nat)
    requires forall r | r in records :: r.path != p
    ensures TotalAt(records, p, line) == 0
  {
    if records != [] {
      assert records[|records| - 1] in records;
      NoPathTotal(records[..|records| - 1], p, line);
    }
  }

  lemma SinglePathTotal(records: seq<Record>, i: nat, p: string, line: nat)
    requires i < |records| && forall j | 0 <= j < |records| :: records[j].path == p <==> j == i
    ensures TotalAt(records, p, line) == CountAt(records[i].lineCounts, line)
  {
    var others := records[..i] + records[i + 1..];
    TotalAtWithout(records, i, p, line);
    forall r | r in others
      ensures r.path != p
    {
      var k :| 0 <= k < |others| && others[k] == r;
      assert r == records[if k < i then k else k + 1];
    }
    NoPathTotal(others, p, line);
    assert [records[i]][..0] == [];
  }

  lemma {:induction false} UnknownLineTotal(records: seq<Record>, p: string, line: nat)
    requires !LineKnown(records, p, line)
    ensures TotalAt(records, p, line) == 0
  {
    if records != [] {
      var init, last := records[..|records| - 1], records[|records| - 1];
      assert last in records;
      UnknownLineTotal(init, p, line);
      CountPresent(last.lineCounts, line);
    }
  }

  lemma MergedTotals(notAfter: Collation, records: seq<Record>, result: seq<Record>, p: string, line: nat)
    requires Merged(notAfter, records, result)
    ensures TotalAt(result, p, line) == TotalAt(records, p, line)
    ensures LineKnown(result, p, line) <==> LineKnown(records, p, line)
  {
    PathOfMember(records, p);
    PathOfMember(result, p);
    assert HasPath(result, p) <==> HasPath(records, p);
    if HasPath(records, p) {
      var r := MergedRecordOf(notAfter, records, result, p);
      assert HasLine(r.lineCounts, line) <==> LineKnown(records, p, line);
      if HasLine(r.lineCounts, line) {
        var i :| 0 <= i < |r.lineCounts| && r.lineCounts[i].line == line;
        assert r.lineCounts[i] in r.lineCounts;
        CountInAscending(r.lineCounts, r.lineCounts[i]);
      } else {
        UnknownLineTotal(records, p, line);
        CountPresent(r.lineCounts, line);
      }
    } else {
      NoPathTotal(records, p, line);
      NoPathTotal(result, p, line);
    }
  }

  lemma MergedFunctions(notAfter: Collation, records: seq<Record>, result: seq<Record>, p: string, n: nat)
    requires Merged(notAfter, records, result)
    ensures MaxCovered(result, p, n) <==> MaxCovered(records, p, n)
    ensures MaxTotal(result, p, n) <==> MaxTotal(records, p, n)
    ensures CoveredAtMost(result, p, n) <==> CoveredAtMost(records, p, n)
    ensures TotalAtMost(result, p, n) <==> TotalAtMost(records, p, n)
  {
    PathOfMember(records, p);
    PathOfMember(result, p);
    assert HasPath(result, p) <==> HasPath(records, p);
    if HasPath(records, p) {
      var r := MergedRecordOf(notAfter, records, result, p);
    }
  }

  /** A merge carries everything a later merge depends on. */
  lemma MergedInput(notAfter: Collation, records: seq<Record>, result: seq<Record>)
    requires Merged(notAfter, records, result)
    ensures SameInput(result, records) && SameBounds(result, records)
  {
    forall p, line
      ensures TotalAt(result, p, line) == TotalAt(records, p, line)
      ensures LineKnown(result, p, line) <==> LineKnown(records, p, line)
    {
      MergedTotals(notAfter, records, result, p, line);
    }
    forall p, n
      ensures MaxCovered(result, p, n) <==> MaxCovered(records, p, n)
      ensures MaxTotal(result, p, n) <==> MaxTotal(records, p, n)
      ensures CoveredAtMost(result, p, n) <==> CoveredAtMost(records, p, n)
      ensures TotalAtMost(result, p, n) <==> TotalAtMost(records, p, n)
    {
      MergedFunctions(notAfter, records, result, p, n);
    }
  }

  lemma MaxAppend(a: seq<Record>, b: seq<Record>, p: string, n: nat)
    ensures MaxCovered(a + b, p, n) <==>
            (MaxCovered(a, p, n) && CoveredAtMost(b, p, n)) || (MaxCovered(b, p, n) && CoveredAtMost(a, p, n))
    ensures MaxTotal(a + b, p, n) <==>
            (MaxTotal(a, p, n) && TotalAtMost(b, p, n)) || (MaxTotal(b, p, n) && TotalAtMost(a, p, n))
  {
    assert forall r :: r in a + b <==> r in a || r in b;
  }

  lemma KnownAppend(a: seq<Record>, b: seq<Record>, p: string, line: nat)
    ensures LineKnown(a + b, p, line) <==> LineKnown(a, p, line) || LineKnown(b, p, line)
    ensures HasPath(a + b, p) <==> HasPath(a, p) || HasPath(b, p)
  {
    assert forall r :: r in a + b <==> r in a || r in b;
    PathOfMember(a, p);
    PathOfMember(b, p);
    PathOfMember(a + b, p);
  }

  lemma InputAppend(a: seq<Record>, b: seq<Record>, x: seq<Record>, y: seq<Record>)
    requires SameInput(a, x) && SameBounds(a, x) && SameInput(b, y) && SameBounds(b, y)
    ensures SameInput(a + b, x + y)
  {
    forall p, line
      ensures TotalAt(a + b, p, line) == TotalAt(x + y, p, line)
      ensures LineKnown(a + b, p, line) <==> LineKnown(x + y, p, line)
    {
      TotalAtAppend(a, b, p, line);
      TotalAtAppend(x, y, p, line);
      KnownAppend(a, b, p, line);
      KnownAppend(x, y, p, line);
    }
    forall p ensures HasPath(a + b, p) <==> HasPath(x + y, p) {
      KnownAppend(a, b, p, 0);
      KnownAppend(x, y, p, 0);
    }
    forall p, n
      ensures MaxCovered(a + b, p, n) <==> MaxCovered(x + y, p, n)
      ensures MaxTotal(a + b, p, n) <==> MaxTotal(x + y, p, n)
    {
      MaxAppend(a, b, p, n);
      MaxAppend(x, y, p, n);
    }
  }
}
