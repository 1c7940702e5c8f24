/** Merging neither loses nor invents executions: they add up to the same number before and after. */
module LcovConservation {
  import opened LcovFormat
  import opened LcovRoundTrip
  import opened LcovMerge
  import opened LcovMergeLoop
  import opened LcovReport

  /** All executions in a list of line counts. */
  function Executions(counts: seq<LineCount>): nat
  {
    if counts == [] then 0 else Executions(counts[..|counts| - 1]) + counts[|counts| - 1].count
  }

  /** All executions of a file that the records tell of. */
  function ExecutionsOf(records: seq<Record>, path: string): nat
  {
    if records == [] then 0
    else
      var last := records[|records| - 1];
      ExecutionsOf(records[..|records| - 1], path) + (if last.path == path then Executions(last.lineCounts) else 0)
  }

  /** What the records tell of some lines of a file, line by line. */
  function TotalOver(lines: seq<LineCount>, records: seq<Record>, path: string): nat
  {
    if lines == [] then 0
    else TotalOver(lines[..|lines| - 1], records, path) + TotalAt(records, path, lines[|lines| - 1].line)
  }

  function CountOver(lines: seq<LineCount>, counts: seq<LineCount>): nat
  {
    if lines == [] then 0 else CountOver(lines[..|lines| - 1], counts) + CountAt(counts, lines[|lines| - 1].line)
  }

  lemma {:induction false} NoneOver(lines: seq<LineCount>, path: string)
    ensures TotalOver(lines, [], path) == 0 && CountOver(lines, []) == 0
  {
    if lines != [] { NoneOver(lines[..|lines| - 1], path); }
  }

  lemma {:induction false} TotalOverLast(lines: seq<LineCount>, records: seq<Record>, path: string)
    requires records != []
    ensures var last := records[|records| - 1];
            TotalOver(lines, records, path) ==
            TotalOver(lines, records[..|records| - 1], path) + if last.path == path then CountOver(lines, last.lineCounts) else 0
  {
    if lines != [] { TotalOverLast(lines[..|lines| - 1], records, path); }
  }

  lemma {:induction false} CountOverLast(lines: seq<LineCount>, counts: seq<LineCount>)
    requires counts != [] && Ascending(lines)
    ensures var last := counts[|counts| - 1];
            CountOver(lines, counts) == CountOver(lines, counts[..|counts| - 1]) + if HasLine(lines, last.line) then last.count else 0
  {
    if lines != [] {
      var init := lines[..|lines| - 1];
      CountOverLast(init, counts);
      HasLineInit(lines, counts[|counts| - 1].line);
      assert forall i | 0 <= i < |init| :: init[i].line < lines[|lines| - 1].line;
    }
  }

  /** Over lines that include all of a record's, its counts are found once each. */
  lemma {:induction false} CountOverAll(lines: seq<LineCount>, counts: seq<LineCount>)
    requires Ascending(lines) && forall c | c in counts :: HasLine(lines, c.line)
    ensures CountOver(lines, counts) == Executions(counts)
  {
    if counts == [] {
      NoneOver(lines, "");
    } else {
      assert counts[|counts| - 1] in counts;
      CountOverLast(lines, counts);
      CountOverAll(lines, counts[..|counts| - 1]);
    }
  }

  lemma {:induction false} TotalOverAll(lines: seq<LineCount>, records: seq<Record>, path: string)
    requires Ascending(lines)
    requires forall r, c | r in records && r.path == path && c in r.lineCounts :: HasLine(lines, c.line)
    ensures TotalOver(lines, records, path) == ExecutionsOf(records, path)
  {
    if records == [] {
      NoneOver(lines, path);
    } else {
      var last := records[|records| - 1];
      assert last in records;
      TotalOverLast(lines, records, path);
      TotalOverAll(lines, records[..|records| - 1], path);
      if last.path == path { CountOverAll(lines, last.lineCounts); }
    }
  }

  lemma {:induction false} ExecutionsOver(lines: seq<LineCount>, records: seq<Record>, path: string)
    requires forall c | c in lines :: c.count == TotalAt(records, path, c.line)
    ensures Executions(lines) == TotalOver(lines, records, path)
  {
    if lines != [] {
      assert lines[|lines| - 1] in lines;
      ExecutionsOver(lines[..|lines| - 1], records, path);
    }
  }

  /** A merged file has exactly the executions that its records have together. */
  lemma ExecutionsAreConserved(records: seq<Record>, r: Record)
    requires MergedRecord(records, r)
    ensures Executions(r.lineCounts) == ExecutionsOf(records, r.path)
  {
    forall s, c | s in records && s.path == r.path && c in s.lineCounts
      ensures HasLine(r.lineCounts, c.line)
    {
      HasLineMember(s.lineCounts, c.line);
      assert LineKnown(records, r.path, c.line);
    }
    ExecutionsOver(r.lineCounts, records, r.path);
    TotalOverAll(r.lineCounts, records, r.path);
  }
}
