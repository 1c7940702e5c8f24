/** When the order in which coverage is collected shows in the merge, and when it does not. */
module LcovOrder {
  import opened Sequences
  import opened LcovFormat
  import opened LcovMerge
  import opened LcovMergeLoop

  // ----- Which of two files appears first

  lemma FirstOfTwo(records: seq<Record>, p: string, q: string) returns (i: nat)
    requires HasPath(records, p) || HasPath(records, q)
    ensures i < |records| && (records[i].path == p || records[i].path == q)
    ensures forall k | 0 <= k < i :: records[k].path != p && records[k].path != q
  {
    i := 0;
    while i < |records| && records[i].path != p && records[i].path != q
      invariant i <= |records| && forall k | 0 <= k < i :: records[k].path != p && records[k].path != q
    {
      i := i + 1;
    }
  }

  lemma OneLeads(records: seq<Record>, p: string, q: string)
    requires p != q && (HasPath(records, p) || HasPath(records, q))
    ensures Leads(records, p, q) || Leads(records, q, p)
  {
    var i := FirstOfTwo(records, p, q);
    assert forall k | 0 <= k <= i :: records[k].path != if records[i].path == p then q else p;
  }

  lemma NotBothLead(records: seq<Record>, p: string, q: string)
    ensures !(Leads(records, p, q) && Leads(records, q, p)) && !Leads(records, p, p)
    ensures Leads(records, p, q) ==> HasPath(records, p)
  {
  }

  /** With different files, one that is there leads one that is not. */
  lemma LeadsAbsent(records: seq<Record>, p: string, q: string)
    requires p != q && !HasPath(records, q)
    ensures Leads(records, p, q) <==> HasPath(records, p)
    ensures !Leads(records, q, p)
  {
    if HasPath(records, p) { OneLeads(records, p, q); }
  }

  lemma LeadsAppend(a: seq<Record>, b: seq<Record>, p: string, q: string)
    requires p != q
    ensures Leads(a + b, p, q) <==> Leads(a, p, q) || (!HasPath(a, p) && !HasPath(a, q) && Leads(b, p, q))
  {
    if Leads(a, p, q) {
      var i :| 0 <= i < |a| && a[i].path == p && forall k | 0 <= k <= i :: a[k].path != q;
      assert forall k | 0 <= k <= i :: (a + b)[k] == a[k];
    } else if HasPath(a, p) || HasPath(a, q) {
      OneLeads(a, p, q);
      var i :| 0 <= i < |a| && a[i].path == q && forall k | 0 <= k <= i :: a[k].path != p;
      assert forall k | 0 <= k <= i :: (a + b)[k] == a[k];
    } else {
      LeadsLater(a, b, p, q);
    }
  }

  lemma LeadsLater(a: seq<Record>, b: seq<Record>, p: string, q: string)
    requires !HasPath(a, p) && !HasPath(a, q)
    ensures Leads(a + b, p, q) <==> Leads(b, p, q)
  {
    if Leads(a + b, p, q) {
      var i :| 0 <= i < |a + b| && (a + b)[i].path == p && forall k | 0 <= k <= i :: (a + b)[k].path != q;
      assert forall k | 0 <= k < |a| :: (a + b)[k] == a[k] && a[k].path != p;
      assert b[i - |a|].path == p && forall k | 0 <= k <= i - |a| :: (a + b)[k + |a|] == b[k];
    }
    if Leads(b, p, q) {
      var i :| 0 <= i < |b| && b[i].path == p && forall k | 0 <= k <= i :: b[k].path != q;
      forall k | 0 <= k <= i + |a|
        ensures (a + b)[k].path != q
      {
        if k < |a| { assert (a + b)[k] == a[k]; } else { assert (a + b)[k] == b[k - |a|]; }
      }
      assert (a + b)[i + |a|] == b[i];
    }
  }

  // ----- The merge shows the order of files that tie, and nothing else of the order

  /** In a merge, of two files that tie, the one comes first that came first in the input. */
  lemma MergeKeepsLeads(notAfter: Collation, records: seq<Record>, result: seq<Record>, p: string, q: string)
    requires Merged(notAfter, records, result) && Tie(notAfter, p, q)
    ensures Leads(result, p, q) <==> Leads(records, p, q)
  {
    NotBothLead(records, p, q);
    NotBothLead(result, p, q);
    assert HasPath(result, p) <==> HasPath(records, p);
    assert HasPath(result, q) <==> HasPath(records, q);
    if p != q {
      if !HasPath(records, q) {
        LeadsAbsent(records, p, q);
        LeadsAbsent(result, p, q);
      } else if !HasPath(records, p) {
        LeadsAbsent(records, q, p);
        LeadsAbsent(result, q, p);
      } else {
        OneLeads(records, p, q);
        OneLeads(result, p, q);
        if Leads(result, p, q) { LeadsInMerge(notAfter, records, result, p, q); }
        if Leads(result, q, p) { LeadsInMerge(notAfter, records, result, q, p); }
      }
    }
  }

  lemma LeadsInMerge(notAfter: Collation, records: seq<Record>, result: seq<Record>, p: string, q: string)
    requires Merged(notAfter, records, result) && Tie(notAfter, p, q)
    requires Leads(result, p, q) && HasPath(result, q)
    ensures Leads(records, p, q)
  {
    var i :| 0 <= i < |result| && result[i].path == p && forall k | 0 <= k <= i :: result[k].path != q;
    var j :| 0 <= j < |result| && result[j].path == q;
    assert i < j && Paths(result)[i] == p && Paths(result)[j] == q;
    assert Prior(notAfter, records, Paths(result)[i], Paths(result)[j]);
  }

  /** Merges of inputs with the same numbers are equal exactly when files that tie appear in the same order. */
  lemma MergesAgreeIff(notAfter: Collation, a: seq<Record>, b: seq<Record>, r: seq<Record>, s: seq<Record>)
    requires SameInput(a, b) && Merged(notAfter, a, r) && Merged(notAfter, b, s)
    ensures r == s <==> SameLeads(notAfter, a, b)
  {
    if SameLeads(notAfter, a, b) { MergeUnique(notAfter, a, b, r, s); }
    if r == s {
      forall p, q | Tie(notAfter, p, q)
        ensures Leads(a, p, q) <==> Leads(b, p, q)
      {
        MergeKeepsLeads(notAfter, a, r, p, q);
        MergeKeepsLeads(notAfter, b, s, p, q);
      }
    }
  }

  // ----- Every input can be merged, and a merge rearranged for another order of its input

  function FilesOf(records: seq<Record>): seq<string>
  {
    if records == [] then [] else WithFile(FilesOf(records[..|records| - 1]), records[|records| - 1].path)
  }

  lemma {:induction false} FilesAppear(records: seq<Record>)
    ensures Lists(records, FilesOf(records))
  {
    if records != [] {
      var init, last := records[..|records| - 1], records[|records| - 1];
      FilesAppear(init);
      ListsNext(init, FilesOf(init), last);
      assert records == init + [last];
    }
  }

  function Pick(records: seq<Record>, p: string): Record
    requires HasPath(records, p)
  {
    if records[0].path == p then records[0]
    else assert exists i | 1 <= i < |records| :: records[i].path == p;
         assert HasPath(records[1..], p) by {
           var i :| 1 <= i < |records| && records[i].path == p;
           assert records[1..][i - 1] == records[i];
         }
         Pick(records[1..], p)
  }

  lemma {:induction false} PickIs(records: seq<Record>, p: string)
    requires HasPath(records, p)
    ensures Pick(records, p) in records && Pick(records, p).path == p
  {
    if records[0].path != p {
      assert HasPath(records[1..], p) by {
        var i :| 0 <= i < |records| && records[i].path == p;
        assert records[1..][i - 1] == records[i];
      }
      PickIs(records[1..], p);
    }
  }

  lemma SameMerged(a: seq<Record>, b: seq<Record>, r: Record)
    requires SameInput(a, b) && MergedRecord(a, r)
    ensures MergedRecord(b, r)
  {
  }

  /** The merge of an input with the same numbers. */
  lemma Rearranged(notAfter: Collation, a: seq<Record>, r: seq<Record>, b: seq<Record>) returns (s: seq<Record>)
    requires Merged(notAfter, a, r) && SameInput(a, b)
    ensures Merged(notAfter, b, s)
  {
    var paths := SortPaths(notAfter, FilesOf(b));
    FilesAppear(b);
    SortPathsSorted(notAfter, b, FilesOf(b));
    SortPathsMembers(notAfter, FilesOf(b));
    forall i | 0 <= i < |paths|
      ensures HasPath(r, paths[i])
    {
      assert paths[i] in paths && HasPath(b, paths[i]) && HasPath(a, paths[i]);
    }
    s := seq(|paths|, i requires 0 <= i < |paths| => Pick(r, paths[i]));
    forall i | 0 <= i < |paths|
      ensures s[i].path == paths[i] && MergedRecord(b, s[i])
    {
      PickIs(r, paths[i]);
      SameMerged(a, b, s[i]);
    }
    assert Paths(s) == paths;
    forall p ensures HasPath(s, p) <==> HasPath(b, p) { PathMember(s, p); }
  }

  // ----- The order of records

  /** No two files are equal to the comparison of paths. */
  ghost predicate NoTies(notAfter: Collation, records: seq<Record>)
  {
    forall p, q | HasPath(records, p) && HasPath(records, q) && Tie(notAfter, p, q) :: p == q
  }

  lemma NoTiesSameLeads(notAfter: Collation, a: seq<Record>, b: seq<Record>)
    requires NoTies(notAfter, a) && SamePaths(a, b)
    ensures SameLeads(notAfter, a, b)
  {
    forall p, q | Tie(notAfter, p, q)
      ensures Leads(a, p, q) <==> Leads(b, p, q)
    {
      NotBothLead(a, p, q);
      NotBothLead(b, p, q);
      assert (HasPath(a, p) <==> HasPath(b, p)) && (HasPath(a, q) <==> HasPath(b, q));
      if p != q && !HasPath(a, q) {
        LeadsAbsent(a, p, q);
        LeadsAbsent(b, p, q);
      }
    }
  }

  /** The same records, with one of a given file in front. */
  lemma MovedToFront(records: seq<Record>, p: string, q: string) returns (moved: seq<Record>)
    requires HasPath(records, p) && p != q
    ensures multiset(moved) == multiset(records) && Leads(moved, p, q)
  {
    var i :| 0 <= i < |records| && records[i].path == p;
    moved := [records[i]] + (records[..i] + records[i + 1..]);
    WithoutOne(records, i);
    assert moved[0].path == p;
  }

  ghost predicate MergesAlike(notAfter: Collation, a: seq<Record>, r: seq<Record>)
  {
    forall b, s | multiset(b) == multiset(a) && Merged(notAfter, b, s) :: s == r
  }

  /** All orders of the records merge alike exactly when no two different files tie. */
  lemma OrderIsIrrelevantIff(notAfter: Collation, a: seq<Record>, r: seq<Record>)
    requires Merged(notAfter, a, r)
    ensures MergesAlike(notAfter, a, r) <==> NoTies(notAfter, a)
  {
    if NoTies(notAfter, a) {
      forall b, s | multiset(b) == multiset(a) && Merged(notAfter, b, s)
        ensures s == r
      {
        PermutedInput(a, b);
        NoTiesSameLeads(notAfter, a, b);
        MergeUnique(notAfter, a, b, r, s);
      }
    }
    if MergesAlike(notAfter, a, r) {
      forall p, q | HasPath(a, p) && HasPath(a, q) && Tie(notAfter, p, q)
        ensures p == q
      {
        if p != q {
          var b := MovedToFront(a, p, q);
          var c := MovedToFront(a, q, p);
          AlikeLeads(notAfter, a, r, b, p, q);
          AlikeLeads(notAfter, a, r, c, q, p);
          NotBothLead(a, p, q);
        }
      }
    }
  }

  lemma AlikeLeads(notAfter: Collation, a: seq<Record>, r: seq<Record>, b: seq<Record>, p: string, q: string)
    requires Merged(notAfter, a, r) && MergesAlike(notAfter, a, r) && multiset(b) == multiset(a)
    requires Tie(notAfter, p, q) && Leads(b, p, q)
    ensures Leads(a, p, q)
  {
    PermutedInput(a, b);
    var s := Rearranged(notAfter, a, r, b);
    MergesAgreeIff(notAfter, a, b, r, s);
  }

  // ----- The order of reports

  /** Reports that hold one of two files that tie agree on which of them comes first. */
  ghost predicate ReportsAgree(notAfter: Collation, reports: seq<seq<Record>>)
  {
    forall x, y, p, q | x in reports && y in reports && Tie(notAfter, p, q) && Leads(x, p, q) :: !Leads(y, q, p)
  }

  lemma {:induction false} FlattenFirst(x: seq<Record>, rest: seq<seq<Record>>)
    ensures Flatten([x] + rest) == x + Flatten(rest)
  {
    var all := [x] + rest;
    if rest == [] {
      assert all[..0] == [];
      assert Flatten(all) == [] + x;
    } else {
      var init, last := rest[..|rest| - 1], rest[|rest| - 1];
      assert all[..|all| - 1] == [x] + init && all[|all| - 1] == last;
      FlattenFirst(x, init);
      Assoc(x, Flatten(init), last);
    }
  }

  /** A file that leads in all the reports together leads in one of them. */
  lemma {:induction false} LeadsSomewhere(reports: seq<seq<Record>>, p: string, q: string)
    requires p != q && Leads(Flatten(reports), p, q)
    ensures exists x | x in reports :: Leads(x, p, q)
  {
    if reports != [] {
      var init, last := reports[..|reports| - 1], reports[|reports| - 1];
      LeadsAppend(Flatten(init), last, p, q);
      if Leads(Flatten(init), p, q) {
        LeadsSomewhere(init, p, q);
        var x :| x in init && Leads(x, p, q);
        assert x in reports;
      } else {
        assert last in reports;
      }
    }
  }

  lemma {:induction false} PathSomewhere(reports: seq<seq<Record>>, x: seq<Record>, p: string)
    requires x in reports && HasPath(x, p)
    ensures HasPath(Flatten(reports), p)
  {
    var init, last := reports[..|reports| - 1], reports[|reports| - 1];
    KnownAppend(Flatten(init), last, p, 0);
    assert reports == init + [last];
    if x in init { PathSomewhere(init, x, p); }
  }

  lemma AgreedLeads(notAfter: Collation, reports: seq<seq<Record>>, p: string, q: string)
    requires ReportsAgree(notAfter, reports) && Tie(notAfter, p, q) && p != q
    ensures Leads(Flatten(reports), p, q) <==> exists x | x in reports :: Leads(x, p, q)
  {
    if Leads(Flatten(reports), p, q) { LeadsSomewhere(reports, p, q); }
    if exists x | x in reports :: Leads(x, p, q) {
      var x :| x in reports && Leads(x, p, q);
      NotBothLead(x, p, q);
      PathSomewhere(reports, x, p);
      OneLeads(Flatten(reports), p, q);
      if Leads(Flatten(reports), q, p) {
        LeadsSomewhere(reports, q, p);
      }
    }
  }

  lemma WithoutReport(reports: seq<seq<Record>>, k: nat) returns (rest: seq<seq<Record>>)
    requires k < |reports|
    ensures rest == reports[..k] + reports[k + 1..] && multiset(rest) == multiset(reports) - multiset{reports[k]}
    ensures multiset(Flatten(reports)) == multiset(Flatten(rest)) + multiset(reports[k])
  {
    rest := reports[..k] + reports[k + 1..];
    assert reports == reports[..k] + ([reports[k]] + reports[k + 1..]);
    FlattenAppend(reports[..k], [reports[k]] + reports[k + 1..]);
    FlattenFirst(reports[k], reports[k + 1..]);
    FlattenAppend(reports[..k], reports[k + 1..]);
  }

  lemma {:induction false} FlattenAppend(a: seq<seq<Record>>, b: seq<seq<Record>>)
    ensures Flatten(a + b) == Flatten(a) + Flatten(b)
  {
    if b == [] {
      assert a + b == a;
    } else {
      var init, last := b[..|b| - 1], b[|b| - 1];
      assert (a + b)[..|a + b| - 1] == a + init && (a + b)[|a + b| - 1] == last;
      FlattenAppend(a, init);
      Assoc(Flatten(a), Flatten(init), last);
    }
  }

  lemma {:induction false} PermutedReports(a: seq<seq<Record>>, b: seq<seq<Record>>)
    requires multiset(a) == multiset(b)
    ensures multiset(Flatten(a)) == multiset(Flatten(b))
    decreases |a|
  {
    if a == [] {
      assert |multiset(b)| == 0;
      assert b == [];
    } else {
      assert a[0] in multiset(b);
      var k :| 0 <= k < |b| && b[k] == a[0];
      var restA := WithoutReport(a, 0);
      var restB := WithoutReport(b, k);
      PermutedReports(restA, restB);
    }
  }

  ghost predicate ReportsMergeAlike(notAfter: Collation, reports: seq<seq<Record>>, r: seq<Record>)
  {
    forall other, s | multiset(other) == multiset(reports) && Merged(notAfter, Flatten(other), s) :: s == r
  }

  lemma AgreedSameLeads(notAfter: Collation, reports: seq<seq<Record>>, other: seq<seq<Record>>)
    requires ReportsAgree(notAfter, reports) && multiset(other) == multiset(reports)
    ensures SameLeads(notAfter, Flatten(reports), Flatten(other))
  {
    assert forall x :: x in other <==> x in multiset(other);
    assert forall x :: x in reports <==> x in multiset(reports);
    assert ReportsAgree(notAfter, other);
    forall p, q | Tie(notAfter, p, q)
      ensures Leads(Flatten(reports), p, q) <==> Leads(Flatten(other), p, q)
    {
      if p == q {
        NotBothLead(Flatten(reports), p, q);
        NotBothLead(Flatten(other), p, q);
      } else {
        AgreedLeads(notAfter, reports, p, q);
        AgreedLeads(notAfter, other, p, q);
      }
    }
  }

  /** The same reports, with one of them in front. */
  lemma ReportFirst(reports: seq<seq<Record>>, x: seq<Record>, p: string, q: string) returns (other: seq<seq<Record>>)
    requires x in reports && p != q && Leads(x, p, q)
    ensures multiset(other) == multiset(reports) && Leads(Flatten(other), p, q)
  {
    var k :| 0 <= k < |reports| && reports[k] == x;
    var rest := WithoutReport(reports, k);
    other := [x] + rest;
    FlattenFirst(x, rest);
    LeadsAppend(x, Flatten(rest), p, q);
  }

  /**
   All orders of the reports merge alike exactly when no two reports disagree about which of two tying files comes
   first.
   */
  lemma ReportOrderIsIrrelevantIff(notAfter: Collation, reports: seq<seq<Record>>, r: seq<Record>)
    requires Merged(notAfter, Flatten(reports), r)
    ensures ReportsMergeAlike(notAfter, reports, r) <==> ReportsAgree(notAfter, reports)
  {
    if ReportsAgree(notAfter, reports) {
      forall other, s | multiset(other) == multiset(reports) && Merged(notAfter, Flatten(other), s)
        ensures s == r
      {
        PermutedReports(reports, other);
        PermutedInput(Flatten(reports), Flatten(other));
        AgreedSameLeads(notAfter, reports, other);
        MergeUnique(notAfter, Flatten(reports), Flatten(other), r, s);
      }
    }
    if ReportsMergeAlike(notAfter, reports, r) {
      forall x, y, p, q | x in reports && y in reports && Tie(notAfter, p, q) && Leads(x, p, q)
        ensures !Leads(y, q, p)
      {
        NotBothLead(x, p, q);
        if Leads(y, q, p) {
          var first := ReportFirst(reports, x, p, q);
          var second := ReportFirst(reports, y, q, p);
          ReportsAlikeLeads(notAfter, reports, r, first, p, q);
          ReportsAlikeLeads(notAfter, reports, r, second, q, p);
          NotBothLead(Flatten(reports), p, q);
        }
      }
    }
  }

  lemma ReportsAlikeLeads(notAfter: Collation, reports: seq<seq<Record>>, r: seq<Record>, other: seq<seq<Record>>,
                          p: string, q: string)
    requires Merged(notAfter, Flatten(reports), r) && ReportsMergeAlike(notAfter, reports, r)
    requires multiset(other) == multiset(reports) && Tie(notAfter, p, q) && Leads(Flatten(other), p, q)
    ensures Leads(Flatten(reports), p, q)
  {
    PermutedReports(reports, other);
    PermutedInput(Flatten(reports), Flatten(other));
    var s := Rearranged(notAfter, Flatten(reports), r, Flatten(other));
    MergesAgreeIff(notAfter, Flatten(reports), Flatten(other), r, s);
  }

  // ----- Merging in stages

  lemma LeadsAppendSame(notAfter: Collation, a: seq<Record>, b: seq<Record>, x: seq<Record>, y: seq<Record>)
    requires SameLeads(notAfter, a, x) && SameLeads(notAfter, b, y) && SamePaths(a, x) && SamePaths(b, y)
    ensures SameLeads(notAfter, a + b, x + y)
  {
    forall p, q | Tie(notAfter, p, q)
      ensures Leads(a + b, p, q) <==> Leads(x + y, p, q)
    {
      if p == q {
        NotBothLead(a + b, p, q);
        NotBothLead(x + y, p, q);
      } else {
        LeadsAppend(a, b, p, q);
        LeadsAppend(x, y, p, q);
        assert (HasPath(a, p) <==> HasPath(x, p)) && (HasPath(a, q) <==> HasPath(x, q));
      }
    }
  }

  lemma MergeSameLeads(notAfter: Collation, records: seq<Record>, result: seq<Record>)
    requires Merged(notAfter, records, result)
    ensures SameLeads(notAfter, result, records)
  {
    forall p, q | Tie(notAfter, p, q)
      ensures Leads(result, p, q) <==> Leads(records, p, q)
    {
      MergeKeepsLeads(notAfter, records, result, p, q);
    }
  }

  /** Merging two merges gives the merge of everything, also where files tie: shards can be merged in stages. */
  lemma MergeInStages(notAfter: Collation, x: seq<Record>, y: seq<Record>,
                      a: seq<Record>, b: seq<Record>, r: seq<Record>, s: seq<Record>)
    requires Merged(notAfter, x, a) && Merged(notAfter, y, b)
    requires Merged(notAfter, a + b, r) && Merged(notAfter, x + y, s)
    ensures r == s
  {
    MergedInput(notAfter, x, a);
    MergedInput(notAfter, y, b);
    InputAppend(a, b, x, y);
    MergeSameLeads(notAfter, x, a);
    MergeSameLeads(notAfter, y, b);
    LeadsAppendSame(notAfter, a, b, x, y);
    MergeUnique(notAfter, a + b, x + y, r, s);
  }

  // ----- An input for which report order shows

  /** Two names of the same letters, one with a composed and one with a decomposed accent: they compare equal. */
  const COMPOSED: string := "caf\U{e9}.ts"
  const DECOMPOSED: string := "cafe\U{301}.ts"

  function ReportOf(path: string): seq<Record>
  {
    [Record(path, Counts(0, 0), Counts(0, 0), [], [])]
  }

  lemma TwoReports(x: seq<Record>, y: seq<Record>)
    ensures Flatten([x, y]) == x + y
  {
    assert [x, y] == [x] + [y];
    FlattenFirst(x, [y]);
    assert [y][..0] == [] && Flatten([y]) == y;
  }

  lemma FirstLeads(p: string, q: string)
    requires p != q
    ensures Leads(ReportOf(p) + ReportOf(q), p, q)
  {
    assert (ReportOf(p) + ReportOf(q))[0].path == p;
  }

  lemma AccentsDiffer()
    ensures COMPOSED != DECOMPOSED
  {
    assert COMPOSED[3] != DECOMPOSED[3];
  }

  /** Two reports with one such file each merge differently in the two orders. */
  lemma AccentsDependOnOrder(notAfter: Collation, r: seq<Record>, s: seq<Record>)
    requires Tie(notAfter, COMPOSED, DECOMPOSED)
    requires Merged(notAfter, Flatten([ReportOf(COMPOSED), ReportOf(DECOMPOSED)]), r)
    requires Merged(notAfter, Flatten([ReportOf(DECOMPOSED), ReportOf(COMPOSED)]), s)
    ensures r != s
  {
    AccentsDiffer();
    TwoDependOnOrder(notAfter, COMPOSED, DECOMPOSED, r, s);
  }

  lemma TwoDependOnOrder(notAfter: Collation, p: string, q: string, r: seq<Record>, s: seq<Record>)
    requires p != q && Tie(notAfter, p, q)
    requires Merged(notAfter, Flatten([ReportOf(p), ReportOf(q)]), r)
    requires Merged(notAfter, Flatten([ReportOf(q), ReportOf(p)]), s)
    ensures r != s
  {
    var a, b := ReportOf(p) + ReportOf(q), ReportOf(q) + ReportOf(p);
    TwoReports(ReportOf(p), ReportOf(q));
    TwoReports(ReportOf(q), ReportOf(p));
    assert multiset(a) == multiset(b);
    PermutedInput(a, b);
    FirstLeads(p, q);
    FirstLeads(q, p);
    NotBothLead(b, p, q);
    MergesAgreeIff(notAfter, a, b, r, s);
  }
}
