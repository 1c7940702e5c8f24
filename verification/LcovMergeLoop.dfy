/** The loops of mergeLcovRecords, and what a merged report reads back as. */
module LcovMergeLoop {
  import opened Sequences
  import opened Wrappers
  import opened LcovPaths
  import opened LcovFormat
  import opened LcovRoundTrip
  import opened LcovMerge

  ghost predicate DistinctLines(counts: seq<LineCount>)
  {
    forall i, j | 0 <= i < j < |counts| :: counts[i].line != counts[j].line
  }

  /** The map update of the source: a line's count is added where the line is, or at the end. */
  function AddCount(counts: seq<LineCount>, line: nat, n: nat): seq<LineCount>
  {
    if counts == [] then [LineCount(line, n)]
    else
      var init, last := counts[..|counts| - 1], counts[|counts| - 1];
      if last.line == line then init + [LineCount(line, last.count + n)] else AddCount(init, line, n) + [last]
  }

  lemma HasLineInit(counts: seq<LineCount>, line: nat)
    requires counts != []
    ensures HasLine(counts, line) <==> HasLine(counts[..|counts| - 1], line) || counts[|counts| - 1].line == line
  {
    var init := counts[..|counts| - 1];
    if HasLine(init, line) {
      var i :| 0 <= i < |init| && init[i].line == line;
      assert counts[i].line == line;
    }
  }

  lemma HasLineAppend(counts: seq<LineCount>, c: LineCount, line: nat)
    ensures HasLine(counts + [c], line) <==> HasLine(counts, line) || c.line == line
    ensures CountAt(counts + [c], line) == CountAt(counts, line) + (if c.line == line then c.count else 0)
  {
    HasLineInit(counts + [c], line);
    assert (counts + [c])[..|counts|] == counts;
  }

  lemma {:induction false} AddCountLine(counts: seq<LineCount>, line: nat, n: nat, x: nat)
    requires DistinctLines(counts)
    ensures HasLine(AddCount(counts, line, n), x) <==> HasLine(counts, x) || x == line
    ensures CountAt(AddCount(counts, line, n), x) == CountAt(counts, x) + (if x == line then n else 0)
  {
    if counts == [] {
      HasLineAppend([], LineCount(line, n), x);
      assert [] + [LineCount(line, n)] == [LineCount(line, n)];
    } else {
      var init, last := counts[..|counts| - 1], counts[|counts| - 1];
      HasLineInit(counts, x);
      if last.line == line {
        HasLineAppend(init, LineCount(line, last.count + n), x);
      } else {
        AddCountLine(init, line, n, x);
        HasLineAppend(AddCount(init, line, n), last, x);
      }
    }
  }

  lemma {:induction false} AddCountDistinct(counts: seq<LineCount>, line: nat, n: nat)
    requires DistinctLines(counts)
    ensures DistinctLines(AddCount(counts, line, n))
  {
    if counts != [] {
      var init, last := counts[..|counts| - 1], counts[|counts| - 1];
      if last.line != line {
        AddCountDistinct(init, line, n);
        AddCountLine(init, line, n, last.line);
        var added := AddCount(init, line, n);
        assert !HasLine(init, last.line);
        forall i | 0 <= i < |added|
          ensures added[i].line != last.line
        {
        }
      }
    }
  }

  lemma {:induction false} InsertCountLine(c: LineCount, counts: seq<LineCount>, x: nat)
    ensures HasLine(InsertCount(c, counts), x) <==> HasLine(counts, x) || c.line == x
    ensures CountAt(InsertCount(c, counts), x) == CountAt(counts, x) + (if c.line == x then c.count else 0)
  {
    if counts == [] || counts[|counts| - 1].line <= c.line {
      HasLineAppend(counts, c, x);
    } else {
      var init, last := counts[..|counts| - 1], counts[|counts| - 1];
      InsertCountLine(c, init, x);
      HasLineAppend(InsertCount(c, init), last, x);
      HasLineInit(counts, x);
    }
  }

  lemma {:induction false} SortCountsLine(counts: seq<LineCount>, x: nat)
    ensures HasLine(SortCounts(counts), x) <==> HasLine(counts, x)
    ensures CountAt(SortCounts(counts), x) == CountAt(counts, x)
  {
    if counts != [] {
      var init, last := counts[..|counts| - 1], counts[|counts| - 1];
      SortCountsLine(init, x);
      InsertCountLine(last, SortCounts(init), x);
      HasLineInit(counts, x);
    }
  }

  lemma {:induction false} InsertCountAscending(c: LineCount, counts: seq<LineCount>)
    requires Ascending(counts) && !HasLine(counts, c.line)
    ensures Ascending(InsertCount(c, counts))
  {
    if counts == [] || counts[|counts| - 1].line <= c.line {
      assert counts != [] ==> counts[|counts| - 1].line != c.line;
    } else {
      var init, last := counts[..|counts| - 1], counts[|counts| - 1];
      HasLineInit(counts, c.line);
      InsertCountAscending(c, init);
      var inserted := InsertCount(c, init);
      forall i | 0 <= i < |inserted|
        ensures inserted[i].line < last.line
      {
        InsertCountLine(c, init, inserted[i].line);
        assert HasLine(inserted, inserted[i].line);
        if HasLine(init, inserted[i].line) {
          var k :| 0 <= k < |init| && init[k].line == inserted[i].line;
          assert counts[k].line < counts[|counts| - 1].line;
        }
      }
    }
  }

  lemma {:induction false} SortCountsAscending(counts: seq<LineCount>)
    requires DistinctLines(counts)
    ensures Ascending(SortCounts(counts))
  {
    if counts != [] {
      var init, last := counts[..|counts| - 1], counts[|counts| - 1];
      SortCountsAscending(init);
      SortCountsLine(init, last.line);
      assert !HasLine(init, last.line);
      InsertCountAscending(last, SortCounts(init));
    }
  }

  /** The counts gathered from the first n records and the first m lines of the next. */
  ghost predicate Gathered(records: seq<Record>, path: string, n: nat, m: nat, counts: seq<LineCount>)
    requires n <= |records| && (m > 0 ==> n < |records| && m <= |records[n].lineCounts|)
  {
    var next := if m > 0 then records[n].lineCounts[..m] else [];
    && DistinctLines(counts)
    && (forall x :: CountAt(counts, x) == TotalAt(records[..n], path, x) + CountAt(next, x))
    && (forall x :: HasLine(counts, x) <==> LineKnown(records[..n], path, x) || HasLine(next, x))
  }

  lemma GatherLine(records: seq<Record>, path: string, n: nat, m: nat, counts: seq<LineCount>)
    requires n < |records| && m < |records[n].lineCounts| && Gathered(records, path, n, m, counts)
    ensures var c := records[n].lineCounts[m];
            Gathered(records, path, n, m + 1, AddCount(counts, c.line, c.count))
  {
    var lines, c := records[n].lineCounts, records[n].lineCounts[m];
    AddCountDistinct(counts, c.line, c.count);
    assert lines[..m + 1] == lines[..m] + [c];
    assert m == 0 ==> lines[..m] == [];
    forall x
      ensures CountAt(AddCount(counts, c.line, c.count), x) == TotalAt(records[..n], path, x) + CountAt(lines[..m + 1], x)
      ensures HasLine(AddCount(counts, c.line, c.count), x) <==> LineKnown(records[..n], path, x) || HasLine(lines[..m + 1], x)
    {
      AddCountLine(counts, c.line, c.count, x);
      HasLineAppend(lines[..m], c, x);
    }
  }

  lemma GatherRecord(records: seq<Record>, path: string, n: nat, counts: seq<LineCount>)
    requires n < |records| && records[n].path == path && Gathered(records, path, n, |records[n].lineCounts|, counts)
    ensures Gathered(records, path, n + 1, 0, counts)
  {
    var lines := records[n].lineCounts;
    assert lines[..|lines|] == lines;
    assert records[..n + 1] == records[..n] + [records[n]];
    assert [records[n]][..0] == [];
    forall x
      ensures TotalAt(records[..n + 1], path, x) == TotalAt(records[..n], path, x) + CountAt(lines, x)
      ensures LineKnown(records[..n + 1], path, x) <==> LineKnown(records[..n], path, x) || HasLine(lines, x)
    {
      TotalAtAppend(records[..n], [records[n]], path, x);
      KnownAppend(records[..n], [records[n]], path, x);
    }
  }

  /** The merged record of one file from its records. */
  method MergePath(path: string, records: seq<Record>) returns (r: Record)
    requires records != [] && forall i | 0 <= i < |records| :: records[i].path == path
    ensures r.path == path && MergedRecord(records, r)
  {
    var counts: seq<LineCount> := [];
    var covered, total := records[0].functions.covered, records[0].functions.total;
    assert records[..0] == [];
    for n := 0 to |records|
      invariant Gathered(records, path, n, 0, counts)
      invariant forall i | 0 <= i < n :: records[i].functions.covered <= covered && records[i].functions.total <= total
      invariant exists i | 0 <= i < |records| :: records[i].functions.covered == covered
      invariant exists i | 0 <= i < |records| :: records[i].functions.total == total
    {
      var lines := records[n].lineCounts;
      for m := 0 to |lines|
        invariant Gathered(records, path, n, m, counts)
      {
        GatherLine(records, path, n, m, counts);
        counts := AddCount(counts, lines[m].line, lines[m].count);
      }
      GatherRecord(records, path, n, counts);
      if records[n].functions.covered > covered { covered := records[n].functions.covered; }
      if records[n].functions.total > total { total := records[n].functions.total; }
    }
    assert records[..|records|] == records;
    var ordered := SortCounts(counts);
    r := Record(path, Counts(Positive(ordered), |ordered|), Counts(covered, total), ZeroLines(ordered), ordered);
    SortedGathered(records, path, counts);
    assert forall i | 0 <= i < |records| :: records[i] in records;
  }

  lemma SortedGathered(records: seq<Record>, path: string, counts: seq<LineCount>)
    requires DistinctLines(counts)
    requires forall x :: CountAt(counts, x) == TotalAt(records, path, x)
    requires forall x :: HasLine(counts, x) <==> LineKnown(records, path, x)
    ensures Ascending(SortCounts(counts))
    ensures forall x :: HasLine(SortCounts(counts), x) <==> LineKnown(records, path, x)
    ensures forall c | c in SortCounts(counts) :: c.count == TotalAt(records, path, c.line)
  {
    SortCountsAscending(counts);
    forall x
      ensures HasLine(SortCounts(counts), x) <==> LineKnown(records, path, x)
    {
      SortCountsLine(counts, x);
    }
    forall c | c in SortCounts(counts)
      ensures c.count == TotalAt(records, path, c.line)
    {
      SortCountsLine(counts, c.line);
      CountInAscending(SortCounts(counts), c);
    }
  }

  // ----- Grouping by file

  function Of(records: seq<Record>, path: string): seq<Record>
  {
    if records == [] then []
    else
      var last := records[|records| - 1];
      Of(records[..|records| - 1], path) + (if last.path == path then [last] else [])
  }

  lemma {:induction false} OfMembers(records: seq<Record>, path: string)
    ensures forall r :: r in Of(records, path) <==> r in records && r.path == path
  {
    if records != [] {
      OfMembers(records[..|records| - 1], path);
      assert records == records[..|records| - 1] + [records[|records| - 1]];
    }
  }

  lemma {:induction false} OfTotals(records: seq<Record>, path: string, x: nat)
    ensures TotalAt(Of(records, path), path, x) == TotalAt(records, path, x)
  {
    if records != [] {
      var init, last := records[..|records| - 1], records[|records| - 1];
      OfTotals(init, path, x);
      TotalAtAppend(Of(init, path), if last.path == path then [last] else [], path, x);
      assert [last][..0] == [];
    }
  }

  /** A file's merged record depends on that file's records only. */
  lemma MergedOf(records: seq<Record>, r: Record)
    requires MergedRecord(Of(records, r.path), r)
    ensures MergedRecord(records, r)
  {
    OfMembers(records, r.path);
    forall x ensures LineKnown(Of(records, r.path), r.path, x) <==> LineKnown(records, r.path, x) { }
    forall c | c in r.lineCounts ensures c.count == TotalAt(records, r.path, c.line) { OfTotals(records, r.path, c.line); }
  }

  function Flatten(reports: seq<seq<Record>>): seq<Record>
  {
    if reports == [] then [] else Flatten(reports[..|reports| - 1]) + reports[|reports| - 1]
  }

  /** The stable sort: a path goes before the first later one that it is not after. */
  function InsertPath(notAfter: Collation, p: string, paths: seq<string>): seq<string>
  {
    if paths == [] || notAfter(p, paths[0]) then [p] + paths else [paths[0]] + InsertPath(notAfter, p, paths[1..])
  }

  function SortPaths(notAfter: Collation, paths: seq<string>): seq<string>
  {
    if paths == [] then [] else InsertPath(notAfter, paths[0], SortPaths(notAfter, paths[1..]))
  }

  lemma {:induction false} InsertPathMembers(notAfter: Collation, p: string, paths: seq<string>)
    ensures forall q :: q in InsertPath(notAfter, p, paths) <==> q == p || q in paths
  {
    if !(paths == [] || notAfter(p, paths[0])) {
      InsertPathMembers(notAfter, p, paths[1..]);
      assert paths == [paths[0]] + paths[1..];
    }
  }

  lemma {:induction false} SortPathsMembers(notAfter: Collation, paths: seq<string>)
    ensures forall q :: q in SortPaths(notAfter, paths) <==> q in paths
  {
    if paths != [] {
      SortPathsMembers(notAfter, paths[1..]);
      InsertPathMembers(notAfter, paths[0], SortPaths(notAfter, paths[1..]));
      assert paths == [paths[0]] + paths[1..];
    }
  }

  /** Files in the order in which they first appear. */
  ghost predicate Appearing(records: seq<Record>, paths: seq<string>)
  {
    forall i, j | 0 <= i < j < |paths| :: Leads(records, paths[i], paths[j])
  }

  lemma {:induction false} InsertPathSorted(notAfter: Collation, records: seq<Record>, p: string, paths: seq<string>)
    requires Sorted(notAfter, records, paths) && forall q | q in paths :: Leads(records, p, q)
    ensures Sorted(notAfter, records, InsertPath(notAfter, p, paths))
  {
    if paths != [] {
      assert paths[0] in paths;
      if notAfter(p, paths[0]) {
        forall j | 0 <= j < |paths|
          ensures Prior(notAfter, records, p, paths[j])
        {
          assert j > 0 ==> Prior(notAfter, records, paths[0], paths[j]);
          assert paths[j] in paths;
        }
      } else {
        InsertPathSorted(notAfter, records, p, paths[1..]);
        InsertPathMembers(notAfter, p, paths[1..]);
        var rest := InsertPath(notAfter, p, paths[1..]);
        forall j | 0 <= j < |rest|
          ensures Prior(notAfter, records, paths[0], rest[j])
        {
          assert rest[j] in rest;
          if rest[j] != p {
            assert rest[j] in paths[1..];
            var k :| 1 <= k < |paths| && paths[k] == rest[j];
          }
        }
      }
    }
  }

  lemma {:induction false} SortPathsSorted(notAfter: Collation, records: seq<Record>, paths: seq<string>)
    requires Appearing(records, paths)
    ensures Sorted(notAfter, records, SortPaths(notAfter, paths))
  {
    if paths != [] {
      assert Appearing(records, paths[1..]);
      SortPathsSorted(notAfter, records, paths[1..]);
      SortPathsMembers(notAfter, paths[1..]);
      forall q | q in paths[1..] ensures Leads(records, paths[0], q) {
        var k :| 1 <= k < |paths| && paths[k] == q;
      }
      InsertPathSorted(notAfter, records, paths[0], SortPaths(notAfter, paths[1..]));
    }
  }

  /** The first loop's map: the records of each file, with its files listed once. */
  ghost predicate Grouped(records: seq<Record>, byPath: map<string, seq<Record>>, order: seq<string>)
  {
    && Lists(records, order)
    && GroupsOf(records, byPath)
  }

  ghost predicate GroupsOf(records: seq<Record>, byPath: map<string, seq<Record>>)
  {
    && (forall p :: p in byPath <==> HasPath(records, p))
    && (forall p | p in byPath :: byPath[p] == Of(records, p))
  }

  /** The list of files after one more record. */
  function WithFile(order: seq<string>, p: string): seq<string>
  {
    if p in order then order else order + [p]
  }

  /** The files of the records, listed once each in order of appearance. */
  ghost predicate Lists(records: seq<Record>, order: seq<string>)
  {
    Appearing(records, order) && forall p :: p in order <==> HasPath(records, p)
  }

  lemma ListsNext(records: seq<Record>, order: seq<string>, r: Record)
    requires Lists(records, order)
    ensures Lists(records + [r], WithFile(order, r.path))
  {
    AddPath(records, r);
    AppearingNext(records, order, r);
  }

  lemma AppearingNext(records: seq<Record>, order: seq<string>, r: Record)
    requires Lists(records, order)
    ensures Appearing(records + [r], WithFile(order, r.path))
  {
    var files := WithFile(order, r.path);
    forall i, j | 0 <= i < j < |files|
      ensures Leads(records + [r], files[i], files[j])
    {
      if j < |order| {
        assert Leads(records, order[i], order[j]);
        LeadsLonger(records, r, order[i], order[j]);
      } else {
        assert order[i] in order;
        LeadsNew(records, r, order[i]);
      }
    }
  }

  lemma LeadsLonger(records: seq<Record>, r: Record, p: string, q: string)
    requires Leads(records, p, q)
    ensures Leads(records + [r], p, q)
  {
    var i :| 0 <= i < |records| && records[i].path == p && forall k | 0 <= k <= i :: records[k].path != q;
    assert (records + [r])[i] == records[i];
  }

  lemma LeadsNew(records: seq<Record>, r: Record, p: string)
    requires HasPath(records, p) && !HasPath(records, r.path)
    ensures Leads(records + [r], p, r.path)
  {
    var i :| 0 <= i < |records| && records[i].path == p;
    assert (records + [r])[i] == records[i];
  }

  lemma OfAppend(records: seq<Record>, r: Record, p: string)
    ensures Of(records + [r], p) == Of(records, p) + (if r.path == p then [r] else [])
  {
    assert (records + [r])[..|records|] == records;
  }

  lemma NoneOf(records: seq<Record>, p: string)
    requires !HasPath(records, p)
    ensures Of(records, p) == []
  {
    OfMembers(records, p);
    if Of(records, p) != [] {
      PathOfMember(records, p);
      assert Of(records, p)[0] in Of(records, p);
    }
  }

  /** The map after one more record. */
  function WithRecord(byPath: map<string, seq<Record>>, r: Record): map<string, seq<Record>>
  {
    byPath[r.path := (if r.path in byPath then byPath[r.path] else []) + [r]]
  }

  lemma GroupsNext(records: seq<Record>, byPath: map<string, seq<Record>>, r: Record)
    requires GroupsOf(records, byPath)
    ensures GroupsOf(records + [r], WithRecord(byPath, r))
  {
    AddPath(records, r);
    var next := WithRecord(byPath, r);
    forall p | p in next
      ensures next[p] == Of(records + [r], p)
    {
      OfAppend(records, r, p);
      if p !in byPath { NoneOf(records, p); }
    }
  }

  lemma GroupOne(records: seq<Record>, byPath: map<string, seq<Record>>, order: seq<string>, r: Record)
    requires Grouped(records, byPath, order)
    ensures Grouped(records + [r], WithRecord(byPath, r), WithFile(order, r.path))
  {
    ListsNext(records, order, r);
    GroupsNext(records, byPath, r);
  }

  /** The first loops: every report's records, file by file, in the order they come. */
  method GroupRecords(reports: seq<seq<Record>>) returns (byPath: map<string, seq<Record>>, order: seq<string>)
    ensures Grouped(Flatten(reports), byPath, order)
  {
    byPath, order := map[], [];
    for i := 0 to |reports|
      invariant Grouped(Flatten(reports[..i]), byPath, order)
    {
      byPath, order := GroupReport(Flatten(reports[..i]), reports[i], byPath, order);
      assert reports[..i + 1][..i] == reports[..i];
    }
    assert reports[..|reports|] == reports;
  }

  lemma NextInReport(done: seq<Record>, report: seq<Record>, j: nat)
    requires j < |report|
    ensures done + report[..j + 1] == (done + report[..j]) + [report[j]]
  {
    assert report[..j + 1] == report[..j] + [report[j]];
    Assoc(done, report[..j], [report[j]]);
  }

  method GroupReport(ghost done: seq<Record>, report: seq<Record>, before: map<string, seq<Record>>, known: seq<string>)
    returns (byPath: map<string, seq<Record>>, order: seq<string>)
    requires Grouped(done, before, known)
    ensures Grouped(done + report, byPath, order)
  {
    byPath, order := before, known;
    assert done + report[..0] == done;
    for j := 0 to |report|
      invariant Grouped(done + report[..j], byPath, order)
    {
      var record := report[j];
      GroupOne(done + report[..j], byPath, order, record);
      NextInReport(done, report, j);
      var records := if record.path in byPath then byPath[record.path] else [];
      order := if record.path in byPath then order else order + [record.path];
      byPath := byPath[record.path := records + [record]];
    }
    assert report[..|report|] == report;
  }

  lemma GroupMembers(all: seq<Record>, p: string)
    requires HasPath(all, p)
    ensures Of(all, p) != [] && forall i | 0 <= i < |Of(all, p)| :: Of(all, p)[i].path == p
  {
    OfMembers(all, p);
    PathOfMember(all, p);
    assert forall i | 0 <= i < |Of(all, p)| :: Of(all, p)[i] in Of(all, p);
  }

  /** The second loop: one merged record for each file, in the order of the sorted files. */
  method MergeGroups(ghost all: seq<Record>, byPath: map<string, seq<Record>>, paths: seq<string>) returns (merged: seq<Record>)
    requires forall p | p in paths :: HasPath(all, p) && p in byPath && byPath[p] == Of(all, p)
    ensures Paths(merged) == paths && forall r | r in merged :: MergedRecord(all, r)
  {
    merged := [];
    for k := 0 to |paths|
      invariant Paths(merged) == paths[..k]
      invariant forall r | r in merged :: MergedRecord(all, r)
    {
      var p := paths[k];
      assert p in paths;
      GroupMembers(all, p);
      var r := MergePath(p, byPath[p]);
      MergedOf(all, r);
      merged := merged + [r];
    }
    assert paths[..|paths|] == paths;
  }

  method MergeLcovRecords(notAfter: Collation, reports: seq<seq<Record>>) returns (result: Result<seq<Record>>)
    ensures result.Err? <==> reports == []
    ensures result.Ok? ==> Merged(notAfter, Flatten(reports), result.value)
  {
    if |reports| == 0 { return Err("no LCOV reports to merge"); }
    var byPath, order := GroupRecords(reports);
    var sorted := SortPaths(notAfter, order);
    SortPathsSorted(notAfter, Flatten(reports), order);
    SortPathsMembers(notAfter, order);
    var merged := MergeGroups(Flatten(reports), byPath, sorted);
    forall p ensures HasPath(merged, p) <==> HasPath(Flatten(reports), p) { PathMember(merged, p); }
    result := Ok(merged);
  }
}
