/** Coverage records, the reader of LCOV reports and the writer of normalized ones. */
module LcovFormat {
  import opened Sequences
  import opened Strings
  import opened Wrappers
  import opened LcovPaths

  datatype Counts = Counts(covered: nat, total: nat)

  datatype LineCount = LineCount(line: nat, count: nat)

  /** Line counts are listed in the order in which the source's map holds them. */
  datatype Record = Record(path: string, lines: Counts, functions: Counts, uncovered: seq<nat>, lineCounts: seq<LineCount>)

  // ----- Line counts

  predicate HasLine(counts: seq<LineCount>, line: nat)
  {
    exists i | 0 <= i < |counts| :: counts[i].line == line
  }

  function Positive(counts: seq<LineCount>): (n: nat)
    ensures n <= |counts|
  {
    if counts == [] then 0 else Positive(counts[..|counts| - 1]) + (if counts[|counts| - 1].count > 0 then 1 else 0)
  }

  function ZeroLines(counts: seq<LineCount>): seq<nat>
  {
    if counts == [] then []
    else ZeroLines(counts[..|counts| - 1]) + (if counts[|counts| - 1].count == 0 then [counts[|counts| - 1].line] else [])
  }

  /** Insertion from the back, so that an ascending list is passed over. */
  function InsertNumber(x: nat, xs: seq<nat>): seq<nat>
  {
    if xs == [] || xs[|xs| - 1] <= x then xs + [x] else InsertNumber(x, xs[..|xs| - 1]) + [xs[|xs| - 1]]
  }

  function SortNumbers(xs: seq<nat>): seq<nat>
  {
    if xs == [] then [] else InsertNumber(xs[|xs| - 1], SortNumbers(xs[..|xs| - 1]))
  }

  function InsertCount(x: LineCount, xs: seq<LineCount>): seq<LineCount>
  {
    if xs == [] || xs[|xs| - 1].line <= x.line then xs + [x] else InsertCount(x, xs[..|xs| - 1]) + [xs[|xs| - 1]]
  }

  function SortCounts(xs: seq<LineCount>): seq<LineCount>
  {
    if xs == [] then [] else InsertCount(xs[|xs| - 1], SortCounts(xs[..|xs| - 1]))
  }

  ghost predicate Ascending(counts: seq<LineCount>)
  {
    forall i, j | 0 <= i < j < |counts| :: counts[i].line < counts[j].line
  }

  lemma {:induction false} SortedCountsStay(counts: seq<LineCount>)
    requires Ascending(counts)
    ensures SortCounts(counts) == counts
  {
    if counts != [] {
      SortedCountsStay(counts[..|counts| - 1]);
    }
  }

  lemma {:induction false} ZeroLinesSorted(counts: seq<LineCount>)
    requires Ascending(counts)
    ensures SortNumbers(ZeroLines(counts)) == ZeroLines(counts)
    ensures forall x | x in ZeroLines(counts) :: exists i | 0 <= i < |counts| :: counts[i].line == x
  {
    if counts != [] {
      var init, last := counts[..|counts| - 1], counts[|counts| - 1];
      ZeroLinesSorted(init);
      if last.count == 0 {
        var zeros := ZeroLines(counts);
        assert zeros[..|zeros| - 1] == ZeroLines(init);
        if ZeroLines(init) != [] {
          var x := ZeroLines(init)[|ZeroLines(init)| - 1];
          assert x in ZeroLines(init);
        }
      } else {
        assert ZeroLines(counts) == ZeroLines(init);
      }
      forall x | x in ZeroLines(counts)
        ensures exists i | 0 <= i < |counts| :: counts[i].line == x
      {
        if x in ZeroLines(init) {
          var i :| 0 <= i < |init| && init[i].line == x;
          assert counts[i].line == x;
        }
      }
    }
  }

  // ----- Reading

  /** What a report line is, by its prefix. */
  datatype Kind =
    | Empty
    | TestName
    | Source(path: string)
    | Data(rest: string)
    | Summary(key: string, rest: string)
    | Ignored
    | EndOfRecord
    | Unknown

  predicate HasTerminator(s: string)
  {
    '\n' in s || '\r' in s || '\U{2028}' in s || '\U{2029}' in s
  }

  function Classify(line: string): Kind
  {
    if line == "" then Empty
    else if StartsWith(line, "TN:") then TestName
    else if StartsWith(line, "SF:") then Source(line[3..])
    else if StartsWith(line, "DA:") then Data(line[3..])
    else if StartsWith(line, "FNF:") && !HasTerminator(line[4..]) then Summary("FNF", line[4..])
    else if StartsWith(line, "FNH:") && !HasTerminator(line[4..]) then Summary("FNH", line[4..])
    else if StartsWith(line, "LF:") && !HasTerminator(line[3..]) then Summary("LF", line[3..])
    else if StartsWith(line, "LH:") && !HasTerminator(line[3..]) then Summary("LH", line[3..])
    else if StartsWith(line, "FN:") || StartsWith(line, "FNDA:") || StartsWith(line, "BR") then Ignored
    else if line == "end_of_record" then EndOfRecord
    else Unknown
  }

  /** The record being read, if any. */
  datatype Current = Idle | Active(path: string, counts: seq<LineCount>, fields: map<string, nat>)

  datatype State = State(records: seq<Record>, current: Current)

  function ReadInteger(s: string): Result<nat>
  {
    if s != "" && AllDigits(s) then Ok(NumValue(s)) else Err("must be a finite non-negative integer")
  }

  function Field(fields: map<string, nat>, key: string): nat
  {
    if key in fields then fields[key] else 0
  }

  function FinaliseRecord(path: string, root: seq<string>, counts: seq<LineCount>, fields: map<string, nat>): Result<Record>
  {
    if path == "" then Err("LCOV record is missing SF")
    else
      match NormalizeSourcePath(path, root)
      case Err(e) => Err(e)
      case Ok(p) =>
        var lines := Counts(Positive(counts), |counts|);
        var functions := Counts(Field(fields, "FNH"), Field(fields, "FNF"));
        if functions.covered > functions.total then Err("LCOV FNH exceeds FNF")
        else if "LF" in fields && fields["LF"] != lines.total then Err("LCOV LF does not match DA records")
        else if "LH" in fields && fields["LH"] != lines.covered then Err("LCOV LH does not match DA records")
        else Ok(Record(p, lines, functions, SortNumbers(ZeroLines(counts)), counts))
  }

  predicate HasPath(records: seq<Record>, path: string)
  {
    exists i | 0 <= i < |records| :: records[i].path == path
  }

  /** A DA line: a positive line number that is new in the record, and an execution count. */
  function ReadData(rest: string, counts: seq<LineCount>): Result<seq<LineCount>>
  {
    var parts := Split(rest, ',');
    if |parts| < 2 then Err("malformed LCOV DA")
    else
      match (ReadInteger(parts[0]), ReadInteger(parts[1]))
      case (Err(e), _) => Err(e)
      case (Ok(line), count) =>
        if line == 0 then Err("LCOV DA source line must be positive")
        else if count.Err? then Err(count.reason)
        else if HasLine(counts, line) then Err("duplicate LCOV DA source line")
        else Ok(counts + [LineCount(line, count.value)])
  }

  /** One line of the report. With `recompute` the LF and LH fields are not compared with the counts. */
  function Step(state: State, line: string, root: seq<string>, recompute: bool): Result<State>
  {
    var kind := Classify(line);
    if kind.Empty? then Ok(state)
    else if kind.TestName? then
      if state.current.Active? then Err("unexpected TN inside LCOV record") else Ok(state)
    else if kind.Source? then
      if state.current.Active? then Err("nested SF") else Ok(State(state.records, Active(kind.path, [], map[])))
    else if state.current.Idle? then Err("LCOV data outside a source record")
    else
      var Active(path, counts, fields) := state.current;
      match kind
      case Data(rest) =>
        (match ReadData(rest, counts)
         case Err(e) => Err(e)
         case Ok(more) => Ok(State(state.records, Active(path, more, fields))))
      case Summary(key, rest) =>
        if key in fields then Err("duplicate LCOV field")
        else
          (match ReadInteger(rest)
           case Err(e) => Err(e)
           case Ok(n) => Ok(State(state.records, Active(path, counts, fields[key := n]))))
      case Ignored => Ok(state)
      case EndOfRecord =>
        (match FinaliseRecord(path, root, counts, if recompute then fields - {"LF", "LH"} else fields)
         case Err(e) => Err(e)
         case Ok(record) =>
           if HasPath(state.records, record.path) then Err("duplicate LCOV source record")
           else Ok(State(state.records + [record], Idle)))
      case _ => Err("unknown LCOV field")
  }

  function Steps(state: State, lines: seq<string>, root: seq<string>, recompute: bool): Result<State>
    decreases lines
  {
    if lines == [] then Ok(state)
    else
      match Step(state, lines[0], root, recompute)
      case Err(e) => Err(e)
      case Ok(next) => Steps(next, lines[1..], root, recompute)
  }

  /** Lines end in "\n" or "\r\n". */
  function SplitLines(s: string): (lines: seq<string>)
    ensures lines != []
  {
    if s == "" then [""]
    else if s[0] == '\n' then [""] + SplitLines(s[1..])
    else if |s| > 1 && s[0] == '\r' && s[1] == '\n' then [""] + SplitLines(s[2..])
    else
      var lines := SplitLines(s[1..]);
      [[s[0]] + lines[0]] + lines[1..]
  }

  function Parse(text: string, root: seq<string>, recompute: bool): Result<seq<Record>>
  {
    if Blank(text) then Err("LCOV report is empty")
    else
      match Steps(State([], Idle), SplitLines(text), root, recompute)
      case Err(e) => Err(e)
      case Ok(state) =>
        if state.current.Active? then Err("LCOV report ended before end_of_record")
        else if state.records == [] then Err("LCOV report contains no source records")
        else Ok(state.records)
  }

  lemma AddPath(records: seq<Record>, record: Record)
    ensures forall p :: HasPath(records + [record], p) <==> HasPath(records, p) || p == record.path
  {
    var longer := records + [record];
    assert longer[|records|] == record;
    assert forall k | 0 <= k < |records| :: longer[k] == records[k];
  }

  /** The reading loop of the source: the record in progress is kept in variables that each line updates. */
  method ParseLcov(text: string, root: seq<string>, recompute: bool) returns (result: Result<seq<Record>>)
    ensures result == Parse(text, root, recompute)
  {
    if Blank(text) { return Err("LCOV report is empty"); }
    var records: seq<Record> := [];
    var paths: set<string> := {};
    var rawPath: string := "";
    var lineCounts: seq<LineCount> := [];
    var fields: map<string, nat> := map[];
    var active := false;
    var lines := SplitLines(text);
    ghost var start := State([], Idle);
    for i := 0 to |lines|
      invariant Steps(start, lines, root, recompute) ==
                Steps(State(records, if active then Active(rawPath, lineCounts, fields) else Idle), lines[i..], root, recompute)
      invariant forall p :: p in paths <==> HasPath(records, p)
    {
      var kind := Classify(lines[i]);
      if kind.Empty? {
      } else if kind.TestName? {
        if active { return Err("unexpected TN inside LCOV record"); }
      } else if kind.Source? {
        if active { return Err("nested SF"); }
        active, rawPath, lineCounts, fields := true, kind.path, [], map[];
      } else if !active {
        return Err("LCOV data outside a source record");
      } else if kind.Data? {
        var more := ReadData(kind.rest, lineCounts);
        if more.Err? { return Err(more.reason); }
        lineCounts := more.value;
      } else if kind.Summary? {
        if kind.key in fields { return Err("duplicate LCOV field"); }
        var n := ReadInteger(kind.rest);
        if n.Err? { return Err(n.reason); }
        fields := fields[kind.key := n.value];
      } else if kind.EndOfRecord? {
        var kept := if recompute then fields - {"LF", "LH"} else fields;
        var record := FinaliseRecord(rawPath, root, lineCounts, kept);
        if record.Err? { return Err(record.reason); }
        if record.value.path in paths { return Err("duplicate LCOV source record"); }
        AddPath(records, record.value);
        paths := paths + {record.value.path};
        records := records + [record.value];
        active, rawPath := false, "";
      } else if kind.Unknown? {
        return Err("unknown LCOV field");
      }
    }
    if active { return Err("LCOV report ended before end_of_record"); }
    if |records| == 0 { return Err("LCOV report contains no source records"); }
    result := Ok(records);
  }
}
