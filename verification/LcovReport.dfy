/** From the texts of several reports to the text of their merge, and what the merged numbers mean. */
module LcovReport {
  import opened Sequences
  import opened Strings
  import opened Wrappers
  import opened Sets
  import opened LcovPaths
  import opened LcovFormat
  import opened LcovRoundTrip
  import opened LcovMerge
  import opened LcovMergeLoop

  // ----- What reading a report establishes

  ghost predicate ComesFromPath(path: string, root: seq<string>)
  {
    exists raw :: '\n' !in raw && NormalizeSourcePath(raw, root) == Ok(path)
  }

  ghost predicate PositiveLines(counts: seq<LineCount>)
  {
    forall c | c in counts :: c.line > 0
  }

  /** A record as the reader delivers it. */
  ghost predicate Parsed(r: Record, root: seq<string>)
  {
    && DistinctLines(r.lineCounts)
    && PositiveLines(r.lineCounts)
    && r.functions.covered <= r.functions.total
    && r.lines == Counts(Positive(r.lineCounts), |r.lineCounts|)
    && r.uncovered == SortNumbers(ZeroLines(r.lineCounts))
    && ComesFromPath(r.path, root)
  }

  ghost predicate GoodCurrent(current: Current)
  {
    current.Active? ==> '\n' !in current.path && DistinctLines(current.counts) && PositiveLines(current.counts)
  }

  ghost predicate GoodState(state: State, root: seq<string>)
  {
    && (forall r | r in state.records :: Parsed(r, root))
    && DistinctPaths(state.records)
    && GoodCurrent(state.current)
  }

  lemma {:induction false} LinesAreSingle(s: string)
    ensures forall i | 0 <= i < |SplitLines(s)| :: '\n' !in SplitLines(s)[i]
  {
    if s != "" {
      LinesAreSingle(s[1..]);
      if |s| > 1 { LinesAreSingle(s[2..]); }
    }
  }

  lemma ReadDataKeeps(rest: string, counts: seq<LineCount>)
    requires DistinctLines(counts) && PositiveLines(counts) && ReadData(rest, counts).Ok?
    ensures DistinctLines(ReadData(rest, counts).value) && PositiveLines(ReadData(rest, counts).value)
  {
    var line := ReadInteger(Split(rest, ',')[0]).value;
    assert !HasLine(counts, line);
    assert forall i | 0 <= i < |counts| :: counts[i].line != line;
  }

  lemma FinaliseGives(path: string, root: seq<string>, counts: seq<LineCount>, fields: map<string, nat>)
    requires '\n' !in path && DistinctLines(counts) && PositiveLines(counts)
    requires FinaliseRecord(path, root, counts, fields).Ok?
    ensures Parsed(FinaliseRecord(path, root, counts, fields).value, root)
  {
  }

  lemma EndKeeps(state: State, record: Record, root: seq<string>)
    requires GoodState(state, root) && Parsed(record, root) && !HasPath(state.records, record.path)
    ensures GoodState(State(state.records + [record], Idle), root)
  {
    assert forall i | 0 <= i < |state.records| :: state.records[i].path != record.path;
  }

  lemma StepKeeps(state: State, line: string, root: seq<string>, recompute: bool)
    requires GoodState(state, root) && '\n' !in line && Step(state, line, root, recompute).Ok?
    ensures GoodState(Step(state, line, root, recompute).value, root)
  {
    var kind := Classify(line);
    if kind.Data? && state.current.Active? {
      ReadDataKeeps(kind.rest, state.current.counts);
    } else if kind.EndOfRecord? && state.current.Active? {
      var Active(path, counts, fields) := state.current;
      var kept := if recompute then fields - {"LF", "LH"} else fields;
      FinaliseGives(path, root, counts, kept);
      EndKeeps(state, FinaliseRecord(path, root, counts, kept).value, root);
    }
  }

  lemma {:induction false} StepsKeep(state: State, lines: seq<string>, root: seq<string>, recompute: bool)
    requires GoodState(state, root) && forall i | 0 <= i < |lines| :: '\n' !in lines[i]
    requires Steps(state, lines, root, recompute).Ok?
    ensures GoodState(Steps(state, lines, root, recompute).value, root)
    decreases lines
  {
    if lines != [] {
      StepKeeps(state, lines[0], root, recompute);
      StepsKeep(Step(state, lines[0], root, recompute).value, lines[1..], root, recompute);
    }
  }

  /** Every report that is read has records, each of a file of its own, with sensible counts. */
  lemma ParsedReport(text: string, root: seq<string>, recompute: bool)
    requires Parse(text, root, recompute).Ok?
    ensures var records := Parse(text, root, recompute).value;
            records != [] && DistinctPaths(records) && forall r | r in records :: Parsed(r, root)
  {
    LinesAreSingle(text);
    StepsKeep(State([], Idle), SplitLines(text), root, recompute);
  }

  // ----- The merged report reads back

  ghost predicate ReadFrom(report: seq<Record>, root: seq<string>)
  {
    exists text, recompute :: Parse(text, root, recompute) == Ok(report)
  }

  lemma {:induction false} FlattenedParsed(reports: seq<seq<Record>>, root: seq<string>)
    requires forall i | 0 <= i < |reports| :: ReadFrom(reports[i], root)
    ensures forall r | r in Flatten(reports) :: Parsed(r, root)
    ensures reports != [] ==> Flatten(reports) != []
  {
    if reports != [] {
      var init, last := reports[..|reports| - 1], reports[|reports| - 1];
      FlattenedParsed(init, root);
      assert ReadFrom(last, root);
      var text, recompute :| Parse(text, root, recompute) == Ok(last);
      ParsedReport(text, root, recompute);
    }
  }

  lemma MergedWellFormed(records: seq<Record>, r: Record, root: seq<string>)
    requires MergedRecord(records, r) && forall s | s in records :: Parsed(s, root)
    ensures WellFormed(r) && ComesFromPath(r.path, root)
  {
    forall c | c in r.lineCounts
      ensures c.line > 0
    {
      var i :| 0 <= i < |r.lineCounts| && r.lineCounts[i] == c;
      assert HasLine(r.lineCounts, c.line);
      assert LineKnown(records, r.path, c.line);
      var s :| s in records && s.path == r.path && HasLine(s.lineCounts, c.line);
      var j :| 0 <= j < |s.lineCounts| && s.lineCounts[j].line == c.line;
      assert s.lineCounts[j] in s.lineCounts;
    }
    var s :| s in records && s.path == r.path && s.functions.covered == r.functions.covered;
    assert s.functions.total <= r.functions.total;
  }

  lemma SortedDistinct(notAfter: Collation, records: seq<Record>, result: seq<Record>)
    requires Sorted(notAfter, records, Paths(result))
    ensures DistinctPaths(result)
  {
    forall i, j | 0 <= i < j < |result|
      ensures result[i].path != result[j].path
    {
      assert Prior(notAfter, records, Paths(result)[i], Paths(result)[j]);
      PriorOneWay(notAfter, records, Paths(result)[i], Paths(result)[j]);
    }
  }

  lemma MergedNotEmpty(records: seq<Record>, result: seq<Record>)
    requires records != [] && SamePaths(result, records)
    ensures result != []
  {
    assert records[0].path == records[0].path && HasPath(records, records[0].path);
    assert HasPath(result, records[0].path);
  }

  lemma StableWhenPlain(r: Record, root: seq<string>)
    requires Segments(root) && ComesFromPath(r.path, root)
    ensures Stable(r.path, root) <==> !Blank(r.path) && Strip(r.path) == r.path
    ensures '\n' !in r.path
  {
    var raw :| '\n' !in raw && NormalizeSourcePath(raw, root) == Ok(r.path);
    NormalizedPathStable(raw, root);
    NormalizedKeeps(raw, root, '\n');
  }

  /**
   The merge of any reports, written as text, reads back as exactly the merged records, unless one of the
   files has a name of spaces only, or one that ends in a carriage return: then it does not.
   */
  lemma MergedReportRoundTrip(notAfter: Collation, reports: seq<seq<Record>>, result: seq<Record>,
                              root: seq<string>, recompute: bool)
    requires Segments(root) && reports != []
    requires forall i | 0 <= i < |reports| :: ReadFrom(reports[i], root)
    requires Merged(notAfter, Flatten(reports), result)
    ensures Parse(Serialise(result), root, recompute) == Ok(result) <==>
            forall r | r in result :: !Blank(r.path) && Strip(r.path) == r.path
  {
    var all := Flatten(reports);
    FlattenedParsed(reports, root);
    MergedNotEmpty(all, result);
    SortedDistinct(notAfter, all, result);
    forall r | r in result
      ensures WellFormed(r) && '\n' !in r.path
      ensures Stable(r.path, root) <==> !Blank(r.path) && Strip(r.path) == r.path
    {
      MergedWellFormed(all, r, root);
      StableWhenPlain(r, root);
    }
    ParseSerialised(result, root, recompute);
  }

  lemma OnePartPath(path: string, directory: string)
    requires Segment(path) && Segment(directory) && '/' !in path && '\\' !in path && !Blank(path)
    ensures NormalizeSourcePath(path, [directory]) == Ok(path)
  {
    var root := [directory];
    SlashesPlain(path);
    SplitLast(path, '/');
    ResolvePlain(root, [path]);
    assert (root + [path])[..1] == root && (root + [path])[1..] == [path];
  }

  lemma CarriageReturnPath()
    ensures NormalizeSourcePath("a\r", ["repo"]) == Ok("a\r")
  {
    var path := "a\r";
    assert path[0] == 'a' && 'a' in path && "repo"[0] == 'r';
    OnePartPath(path, "repo");
  }

  lemma SlashesPlain(s: string)
    requires '\\' !in s
    ensures Slashes(s) == s
  {
  }

  /** A file whose name ends in a carriage return is a legal source path, but its report does not read back. */
  lemma CarriageReturnIsLost(recompute: bool)
    ensures NormalizeSourcePath("a\r", ["repo"]) == Ok("a\r")
    ensures var records := [Record("a\r", Counts(0, 0), Counts(0, 0), [], [])];
            Parse(Serialise(records), ["repo"], recompute) != Ok(records)
  {
    var path, root := "a\r", ["repo"];
    var r := Record(path, Counts(0, 0), Counts(0, 0), [], []);
    CarriageReturnPath();
    assert Segment(root[0]);
    NormalizedPathStable(path, root);
    assert |Strip(path)| == 1 && Strip(path) != path;
    assert r in [r];
    ParseSerialised([r], root, recompute);
  }

  // ----- What the merged numbers count

  function CoveredIn(counts: seq<LineCount>): set<nat>
  {
    set c | c in counts && c.count > 0 :: c.line
  }

  function KnownIn(counts: seq<LineCount>): set<nat>
  {
    set c | c in counts :: c.line
  }

  /** The lines of a file that some report saw executed. */
  function CoveredLines(records: seq<Record>, path: string): set<nat>
  {
    set r, c | r in records && r.path == path && c in r.lineCounts && c.count > 0 :: c.line
  }

  function KnownLines(records: seq<Record>, path: string): set<nat>
  {
    set r, c | r in records && r.path == path && c in r.lineCounts :: c.line
  }

  lemma LastLine(counts: seq<LineCount>)
    requires counts != [] && Ascending(counts)
    ensures var init, last := counts[..|counts| - 1], counts[|counts| - 1];
            && last.line !in KnownIn(init)
            && KnownIn(counts) == KnownIn(init) + {last.line}
            && CoveredIn(counts) == CoveredIn(init) + (if last.count > 0 then {last.line} else {})
  {
    var init, last := counts[..|counts| - 1], counts[|counts| - 1];
    assert counts == init + [last];
    forall c | c in init
      ensures c.line != last.line
    {
      var i :| 0 <= i < |init| && init[i] == c;
      assert counts[i].line < counts[|counts| - 1].line;
    }
  }

  lemma {:induction false} CountsAreCardinalities(counts: seq<LineCount>)
    requires Ascending(counts)
    ensures Positive(counts) == |CoveredIn(counts)| && |counts| == |KnownIn(counts)|
  {
    if counts == [] {
      assert CoveredIn(counts) == {} && KnownIn(counts) == {};
    } else {
      var init := counts[..|counts| - 1];
      CountsAreCardinalities(init);
      LastLine(counts);
      assert CoveredIn(init) <= KnownIn(init);
    }
  }

  lemma {:induction false} TotalPresent(records: seq<Record>, path: string, line: nat)
    ensures TotalAt(records, path, line) > 0 <==> line in CoveredLines(records, path)
  {
    if records != [] {
      var init, last := records[..|records| - 1], records[|records| - 1];
      TotalPresent(init, path, line);
      CountPresent(last.lineCounts, line);
      assert records == init + [last];
    }
  }

  /** A merged record counts a line as covered exactly when some report covers it, and once. */
  lemma MergedCoverage(records: seq<Record>, r: Record)
    requires MergedRecord(records, r)
    ensures CoveredIn(r.lineCounts) == CoveredLines(records, r.path)
    ensures r.lines == Counts(|CoveredLines(records, r.path)|, |KnownLines(records, r.path)|)
    ensures forall line :: line in r.uncovered <==> line in KnownLines(records, r.path) - CoveredLines(records, r.path)
  {
    MergedLines(records, r);
    CountsAreCardinalities(r.lineCounts);
    forall line
      ensures line in CoveredIn(r.lineCounts) <==> line in CoveredLines(records, r.path)
    {
      TotalPresent(records, r.path, line);
      if line in CoveredLines(records, r.path) {
        assert line in KnownLines(records, r.path);
        var c :| c in r.lineCounts && c.line == line;
      }
    }
    forall line
      ensures line in r.uncovered <==> line in KnownLines(records, r.path) - CoveredLines(records, r.path)
    {
      ZeroMembers(r.lineCounts, line);
      if line in KnownLines(records, r.path) {
        var c :| c in r.lineCounts && c.line == line;
        TotalPresent(records, r.path, line);
      }
      if line in r.uncovered {
        var c :| c in r.lineCounts && c.line == line && c.count == 0;
        TotalPresent(records, r.path, line);
      }
    }
  }

  lemma MergedLines(records: seq<Record>, r: Record)
    requires MergedRecord(records, r)
    ensures KnownIn(r.lineCounts) == KnownLines(records, r.path)
  {
    forall line
      ensures line in KnownIn(r.lineCounts) <==> line in KnownLines(records, r.path)
    {
      HasLineMember(r.lineCounts, line);
      assert HasLine(r.lineCounts, line) <==> LineKnown(records, r.path, line);
      if LineKnown(records, r.path, line) {
        var s :| s in records && s.path == r.path && HasLine(s.lineCounts, line);
        HasLineMember(s.lineCounts, line);
      }
      if line in KnownLines(records, r.path) {
        var s, c :| s in records && s.path == r.path && c in s.lineCounts && c.line == line;
        HasLineMember(s.lineCounts, line);
      }
    }
  }

  lemma HasLineMember(counts: seq<LineCount>, line: nat)
    ensures HasLine(counts, line) <==> line in KnownIn(counts)
  {
    if HasLine(counts, line) {
      var i :| 0 <= i < |counts| && counts[i].line == line;
      assert counts[i] in counts;
    }
  }

  lemma {:induction false} ZeroMembers(counts: seq<LineCount>, line: nat)
    ensures line in ZeroLines(counts) <==> exists c | c in counts :: c.line == line && c.count == 0
  {
    if counts != [] {
      ZeroMembers(counts[..|counts| - 1], line);
      assert counts == counts[..|counts| - 1] + [counts[|counts| - 1]];
    }
  }

  // ----- Floors on merged function counts

  predicate MeetsFloor(counts: Counts, floor: real)
  {
    if counts.total == 0 then floor == 100.0
    else counts.covered as real * 100.0 >= floor * counts.total as real
  }

  /** A floor is met when the covered part, in percent, reaches it; with nothing to cover, only the floor of 100 is met. */
  lemma FloorMeans(counts: Counts, floor: real)
    ensures counts.total > 0 ==> (MeetsFloor(counts, floor) <==> floor <= 100.0 * (counts.covered as real / counts.total as real))
    ensures counts.total == 0 ==> (MeetsFloor(counts, floor) <==> floor == 100.0)
  {
    if counts.total > 0 { Percent(counts.covered as real, counts.total as real, floor); }
  }

  lemma Percent(covered: real, total: real, floor: real)
    requires total > 0.0
    ensures covered * 100.0 >= floor * total <==> floor <= 100.0 * (covered / total)
  {
    var part := covered / total;
    assert part * total == covered;
    assert covered * 100.0 - floor * total == (100.0 * part - floor) * total;
    SignOfProduct(100.0 * part - floor, total);
  }

  lemma SignOfProduct(x: real, y: real)
    requires y > 0.0
    ensures x * y >= 0.0 <==> x >= 0.0
  {
    if x < 0.0 { assert (-x) * y > 0.0; }
  }

  /** The functions one report knows of a file, and those it saw called. The report itself shows only how many. */
  datatype Shard<F> = Shard(hit: set<F>, defined: set<F>)

  ghost predicate Shows<F>(records: seq<Record>, path: string, shards: seq<Shard<F>>)
  {
    && |records| == |shards|
    && forall i | 0 <= i < |shards| ::
         && shards[i].hit <= shards[i].defined
         && records[i].path == path
         && records[i].functions == Counts(|shards[i].hit|, |shards[i].defined|)
  }

  function Hit<F>(shards: seq<Shard<F>>): set<F>
  {
    set s, f | s in shards && f in s.hit :: f
  }

  function Defined<F>(shards: seq<Shard<F>>): set<F>
  {
    set s, f | s in shards && f in s.defined :: f
  }

  /** Some report saw every definition. */
  ghost predicate SeesAll<F>(shards: seq<Shard<F>>)
  {
    exists s | s in shards :: s.defined == Defined(shards)
  }

  /** The merged function counts never overstate what was covered, and never understate what some report saw. */
  lemma MergedFunctionBounds<F>(records: seq<Record>, r: Record, shards: seq<Shard<F>>)
    requires MergedRecord(records, r) && Shows(records, r.path, shards)
    ensures r.functions.covered <= r.functions.total
    ensures r.functions.covered <= |Hit(shards)| && r.functions.total <= |Defined(shards)|
    ensures SeesAll(shards) ==> r.functions.total == |Defined(shards)|
  {
    var c :| c in records && c.path == r.path && c.functions.covered == r.functions.covered;
    var i :| 0 <= i < |records| && records[i] == c;
    assert shards[i] in shards && shards[i].hit <= Hit(shards);
    SubsetSize(shards[i].hit, Hit(shards));
    SubsetSize(shards[i].hit, shards[i].defined);
    var t :| t in records && t.path == r.path && t.functions.total == r.functions.total;
    var j :| 0 <= j < |records| && records[j] == t;
    assert shards[j] in shards && shards[j].defined <= Defined(shards);
    SubsetSize(shards[j].defined, Defined(shards));
    if SeesAll(shards) {
      var k :| 0 <= k < |shards| && shards[k].defined == Defined(shards);
      assert records[k] in records;
    }
  }

  /** A floor met by the merged counts is met by the functions really covered, if some report saw every definition. */
  lemma FloorHoldsOnUnion<F>(records: seq<Record>, r: Record, shards: seq<Shard<F>>, floor: real)
    requires MergedRecord(records, r) && Shows(records, r.path, shards)
    requires SeesAll(shards)
    requires MeetsFloor(r.functions, floor)
    ensures MeetsFloor(Counts(|Hit(shards)|, |Defined(shards)|), floor)
  {
    MergedFunctionBounds(records, r, shards);
    MoreMeets(r.functions.covered, |Hit(shards)|, |Defined(shards)|, floor);
  }

  lemma MoreMeets(few: nat, many: nat, total: nat, floor: real)
    requires few <= many && MeetsFloor(Counts(few, total), floor)
    ensures MeetsFloor(Counts(many, total), floor)
  {
  }

  /** The shards have the given definitions; which of them they call is open. */
  ghost predicate Defines<F>(shards: seq<Shard<F>>, definitions: seq<set<F>>)
  {
    |shards| == |definitions| && forall i | 0 <= i < |shards| :: shards[i].defined == definitions[i]
  }

  function AllOf<F>(definitions: seq<set<F>>): set<F>
  {
    set d, f | d in definitions && f in d :: f
  }

  ghost predicate FloorCarriesOver<F>(records: seq<Record>, r: Record, shards: seq<Shard<F>>, floor: real)
  {
    MergedRecord(records, r) && Shows(records, r.path, shards) && MeetsFloor(r.functions, floor) ==>
      MeetsFloor(Counts(|Hit(shards)|, |Defined(shards)|), floor)
  }

  /** Whatever is called, and whatever the floor, meeting it on the merged counts means meeting it on the union. */
  ghost predicate FloorsTransfer<F(!new)>(definitions: seq<set<F>>)
  {
    forall records, r, shards: seq<Shard<F>>, floor | Defines(shards, definitions) :: FloorCarriesOver(records, r, shards, floor)
  }

  lemma SameUnion<F>(shards: seq<Shard<F>>, definitions: seq<set<F>>)
    requires Defines(shards, definitions)
    ensures Defined(shards) == AllOf(definitions)
    ensures SeesAll(shards) <==> AllOf(definitions) in definitions
  {
    assert forall i | 0 <= i < |shards| :: shards[i] in shards && definitions[i] in definitions;
    forall f ensures f in Defined(shards) <==> f in AllOf(definitions) {
      if f in AllOf(definitions) {
        var i :| 0 <= i < |definitions| && f in definitions[i];
        assert f in shards[i].defined;
      }
    }
  }

  lemma {:induction false} LargestSet<F>(definitions: seq<set<F>>) returns (k: nat)
    requires definitions != []
    ensures k < |definitions| && forall i | 0 <= i < |definitions| :: |definitions[i]| <= |definitions[k]|
  {
    if |definitions| == 1 {
      k := 0;
    } else {
      var last := |definitions| - 1;
      k := LargestSet(definitions[..last]);
      if |definitions[k]| < |definitions[last]| { k := last; }
    }
  }

  function OnlyHit<F>(definitions: seq<set<F>>, k: nat): seq<Shard<F>>
  {
    seq(|definitions|, i requires 0 <= i < |definitions| => Shard(if i == k then definitions[i] else {}, definitions[i]))
  }

  function CountRecord<F>(shard: Shard<F>): Record
  {
    Record("a", Counts(0, 0), Counts(|shard.hit|, |shard.defined|), [], [])
  }

  lemma LargestIsMerged<F>(definitions: seq<set<F>>, k: nat, records: seq<Record>)
    requires k < |definitions| && forall i | 0 <= i < |definitions| :: |definitions[i]| <= |definitions[k]|
    requires |records| == |definitions| && forall i | 0 <= i < |records| :: records[i] == CountRecord(OnlyHit(definitions, k)[i])
    ensures MergedRecord(records, records[k]) && Shows(records, "a", OnlyHit(definitions, k))
  {
    assert records[k] in records;
    assert forall line :: !LineKnown(records, "a", line);
  }

  lemma HitIsLargest<F>(definitions: seq<set<F>>, k: nat)
    requires k < |definitions|
    ensures Hit(OnlyHit(definitions, k)) == definitions[k]
  {
    var shards := OnlyHit(definitions, k);
    assert shards[k] in shards;
  }

  lemma OnlyHitUnion<F>(definitions: seq<set<F>>, k: nat)
    requires k < |definitions|
    ensures Defines(OnlyHit(definitions, k), definitions)
    ensures Defined(OnlyHit(definitions, k)) == AllOf(definitions)
  {
    SameUnion(OnlyHit(definitions, k), definitions);
  }

  lemma SmallerThanUnion<F>(definitions: seq<set<F>>, k: nat)
    requires k < |definitions| && forall i | 0 <= i < |definitions| :: |definitions[i]| <= |definitions[k]|
    requires AllOf(definitions) !in definitions
    ensures 0 < |definitions[k]| < |AllOf(definitions)|
  {
    assert definitions[k] in definitions;
    assert definitions[k] <= AllOf(definitions);
    assert definitions[k] != AllOf(definitions);
    ProperSubsetSize(definitions[k], AllOf(definitions));
    var f :| f in AllOf(definitions) && f !in definitions[k];
    var i :| 0 <= i < |definitions| && f in definitions[i];
    SubsetSize({f}, definitions[i]);
  }

  lemma HundredNeedsAll(n: nat, m: nat)
    requires 0 < n < m
    ensures MeetsFloor(Counts(n, n), 100.0) && !MeetsFloor(Counts(n, m), 100.0)
  {
  }

  /** When no shard saw every definition, the largest shard with all its functions called meets floor 100; the union does not. */
  lemma FloorFails<F(!new)>(definitions: seq<set<F>>)
    requires definitions != [] && AllOf(definitions) !in definitions
    ensures !FloorsTransfer(definitions)
  {
    var k := LargestSet(definitions);
    var shards := OnlyHit(definitions, k);
    var records := seq(|shards|, i requires 0 <= i < |shards| => CountRecord(shards[i]));
    LargestIsMerged(definitions, k, records);
    HitIsLargest(definitions, k);
    OnlyHitUnion(definitions, k);
    SmallerThanUnion(definitions, k);
    HundredNeedsAll(|definitions[k]|, |AllOf(definitions)|);
    assert !FloorCarriesOver(records, records[k], shards, 100.0);
  }

  /** For given definitions, floors carry over from merged counts to the union exactly when some shard saw them all. */
  lemma FloorsTransferIff<F(!new)>(definitions: seq<set<F>>)
    requires definitions != []
    ensures FloorsTransfer(definitions) <==> AllOf(definitions) in definitions
  {
    if AllOf(definitions) in definitions {
      forall records, r, shards: seq<Shard<F>>, floor | Defines(shards, definitions)
        ensures FloorCarriesOver(records, r, shards, floor)
      {
        SameUnion(shards, definitions);
        if MergedRecord(records, r) && Shows(records, r.path, shards) && MeetsFloor(r.functions, floor) {
          FloorHoldsOnUnion(records, r, shards, floor);
        }
      }
    } else {
      FloorFails(definitions);
    }
  }
}
