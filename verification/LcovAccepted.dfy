/** Which reports are accepted: exactly those that are records, each saying something consistent, with nothing else between. */
module LcovAccepted {
  import opened Sequences
  import opened Strings
  import opened Wrappers
  import opened LcovPaths
  import opened LcovFormat
  import opened LcovRoundTrip
  import opened LcovReading

  /** An empty line or the start of a test, or a whole record with what its lines say. */
  datatype Part = Gap(line: string) | Whole(path: string, body: seq<string>, items: seq<Item>, record: Record)

  ghost predicate GoodPart(part: Part, root: seq<string>, recompute: bool)
  {
    match part
    case Gap(line) => line == "" || StartsWith(line, "TN:")
    case Whole(path, body, items, r) =>
      && (forall i | 0 <= i < |body| :: Inner(body[i]))
      && AllSay(body, items) && Unrepeated(items) && Describes(items, path, root, recompute, r)
  }

  function LinesOf(parts: seq<Part>): seq<string>
  {
    if parts == [] then []
    else (if parts[0].Gap? then [parts[0].line] else Block(parts[0].path, parts[0].body)) + LinesOf(parts[1..])
  }

  function RecordsOf(parts: seq<Part>): seq<Record>
  {
    if parts == [] then [] else (if parts[0].Gap? then [] else [parts[0].record]) + RecordsOf(parts[1..])
  }

  ghost predicate GoodParts(parts: seq<Part>, root: seq<string>, recompute: bool)
  {
    forall i | 0 <= i < |parts| :: GoodPart(parts[i], root, recompute)
  }

  // ----- One line out of place

  lemma GapStep(state: State, line: string, root: seq<string>, recompute: bool)
    requires state.current.Idle? && (line == "" || StartsWith(line, "TN:"))
    ensures Step(state, line, root, recompute) == Ok(state)
  {
  }

  /** Outside a record there can be nothing but gaps and the start of a record. */
  lemma OutsideSays(state: State, line: string, root: seq<string>, recompute: bool)
    requires state.current.Idle? && Step(state, line, root, recompute).Ok?
    ensures line == "" || StartsWith(line, "TN:") || (StartsWith(line, "SF:") && line == "SF:" + line[3..])
  {
    if StartsWith(line, "SF:") { assert line == line[..3] + line[3..]; }
  }

  /** Inside a record there can be neither the start of a test nor that of another record. */
  lemma InsideSays(state: State, line: string, root: seq<string>, recompute: bool)
    requires state.current.Active? && Step(state, line, root, recompute).Ok?
    ensures Inner(line) || line == "end_of_record"
    ensures Inner(line) ==> Step(state, line, root, recompute).value.current.Active?
  {
    StartKinds(line);
    if Inner(line) { var item := ReadLineSays(state, line, root, recompute); }
  }

  lemma StartKinds(line: string)
    ensures StartsWith(line, "TN:") ==> Classify(line).TestName?
    ensures StartsWith(line, "SF:") ==> Classify(line).Source?
  {
    if StartsWith(line, "SF:") {
      assert line[0] == "SF:"[0];
      OtherStart(line, "TN:");
    }
  }

  /** A record that is closed has an end; all lines before the first one belong to it. */
  lemma {:induction false} FirstEnd(state: State, lines: seq<string>, root: seq<string>, recompute: bool) returns (k: nat)
    requires state.current.Active? && Steps(state, lines, root, recompute).Ok?
    requires Steps(state, lines, root, recompute).value.current.Idle?
    ensures k < |lines| && lines[k] == "end_of_record" && forall i | 0 <= i < k :: Inner(lines[i])
    decreases |lines|
  {
    InsideSays(state, lines[0], root, recompute);
    if lines[0] == "end_of_record" {
      k := 0;
    } else {
      var later := FirstEnd(Step(state, lines[0], root, recompute).value, lines[1..], root, recompute);
      k := later + 1;
      assert lines[1..][later] == lines[k];
      forall i | 0 <= i < k ensures Inner(lines[i]) { if i > 0 { assert lines[i] == lines[1..][i - 1]; } }
    }
  }

  // ----- Every good report is read

  lemma {:induction false} PartsAreRead(done: seq<Record>, parts: seq<Part>, root: seq<string>, recompute: bool)
    requires GoodParts(parts, root, recompute) && DistinctPaths(done + RecordsOf(parts))
    ensures Steps(State(done, Idle), LinesOf(parts), root, recompute) == Ok(State(done + RecordsOf(parts), Idle))
    decreases parts
  {
    if parts == [] {
      assert done + [] == done;
    } else {
      var first, rest := parts[0], parts[1..];
      assert GoodPart(first, root, recompute) && GoodParts(rest, root, recompute);
      if first.Gap? {
        assert RecordsOf(parts) == RecordsOf(rest);
        GapStep(State(done, Idle), first.line, root, recompute);
        StepsCons(State(done, Idle), first.line, State(done, Idle), LinesOf(rest), root, recompute);
        PartsAreRead(done, rest, root, recompute);
      } else {
        var more := done + [first.record];
        Assoc(done, [first.record], RecordsOf(rest));
        FirstIsNew(done, first.record, RecordsOf(rest));
        RecordIsReadIff(done, first.path, first.body, root, recompute, first.record);
        StepsAppend(State(done, Idle), Block(first.path, first.body), LinesOf(rest), root, recompute);
        PartsAreRead(more, rest, root, recompute);
      }
    }
  }

  lemma FirstIsNew(done: seq<Record>, r: Record, later: seq<Record>)
    requires DistinctPaths(done + [r] + later)
    ensures !HasPath(done, r.path)
  {
    var all := done + [r] + later;
    assert all[|done|] == r;
    assert forall i | 0 <= i < |done| :: all[i] == done[i];
  }

  // ----- Every report that is read is good

  lemma ReadBlock(done: seq<Record>, lines: seq<string>, root: seq<string>, recompute: bool) returns (part: Part, rest: seq<string>)
    requires lines != [] && StartsWith(lines[0], "SF:") && lines[0] == "SF:" + lines[0][3..]
    requires Steps(State(done, Idle), lines, root, recompute).Ok? && Steps(State(done, Idle), lines, root, recompute).value.current.Idle?
    ensures part.Whole? && GoodPart(part, root, recompute)
    ensures lines == Block(part.path, part.body) + rest && !HasPath(done, part.record.path)
    ensures Steps(State(done, Idle), lines, root, recompute) == Steps(State(done + [part.record], Idle), rest, root, recompute)
  {
    var path, tail := lines[0][3..], lines[1..];
    SourceStep(done, path, root, recompute);
    var k := FirstEnd(Begun(done, path), tail, root, recompute);
    var body := tail[..k];
    rest := tail[k + 1..];
    CutBlock(lines, path, k);
    StepsAppend(State(done, Idle), Block(path, body), rest, root, recompute);
    var items, r := ReadRecord(done, path, body, root, recompute);
    part := Whole(path, body, items, r);
  }

  lemma CutBlock(lines: seq<string>, path: string, k: nat)
    requires lines != [] && lines[0] == "SF:" + path && k < |lines| - 1 && lines[1..][k] == "end_of_record"
    ensures lines == Block(path, lines[1..][..k]) + lines[1..][k + 1..]
    ensures forall i | 0 <= i < k :: lines[1..][..k][i] == lines[1..][i]
  {
    var tail := lines[1..];
    assert lines == [lines[0]] + tail;
    assert tail == tail[..k] + [tail[k]] + tail[k + 1..];
    Assoc([lines[0]], tail[..k] + [tail[k]], tail[k + 1..]);
  }

  lemma ReadRecord(done: seq<Record>, path: string, body: seq<string>, root: seq<string>, recompute: bool)
    returns (items: seq<Item>, r: Record)
    requires forall i | 0 <= i < |body| :: Inner(body[i])
    requires Steps(State(done, Idle), Block(path, body), root, recompute).Ok?
    ensures AllSay(body, items) && Unrepeated(items) && Describes(items, path, root, recompute, r) && !HasPath(done, r.path)
    ensures Steps(State(done, Idle), Block(path, body), root, recompute) == Ok(State(done + [r], Idle))
  {
    BlockSteps(done, path, body, root, recompute);
    items := ReadBodySays(done, path, body, root, recompute);
    OneStep(After(done, path, items), "end_of_record", root, recompute);
    r := EndReads(done, path, items, root, recompute);
    EndStep(done, path, items, root, recompute, r);
  }

  lemma EndReads(done: seq<Record>, path: string, items: seq<Item>, root: seq<string>, recompute: bool) returns (r: Record)
    requires Step(After(done, path, items), "end_of_record", root, recompute).Ok?
    ensures Step(After(done, path, items), "end_of_record", root, recompute) == Ok(State(done + [r], Idle))
  {
    ClassifyEnd();
    r := FinaliseRecord(path, root, DataOf(items), Kept(items, recompute)).value;
  }

  lemma {:induction false} ReadReportIsGood(done: seq<Record>, lines: seq<string>, root: seq<string>, recompute: bool)
    returns (parts: seq<Part>)
    requires DistinctPaths(done)
    requires Steps(State(done, Idle), lines, root, recompute).Ok? && Steps(State(done, Idle), lines, root, recompute).value.current.Idle?
    ensures GoodParts(parts, root, recompute) && LinesOf(parts) == lines && DistinctPaths(done + RecordsOf(parts))
    ensures Steps(State(done, Idle), lines, root, recompute).value.records == done + RecordsOf(parts)
    decreases |lines|
  {
    if lines == [] {
      parts := [];
      assert done + [] == done;
    } else {
      OutsideSays(State(done, Idle), lines[0], root, recompute);
      if StartsWith(lines[0], "SF:") {
        var part, rest := ReadBlock(done, lines, root, recompute);
        AddedPath(done, part.record);
        var others := ReadReportIsGood(done + [part.record], rest, root, recompute);
        parts := [part] + others;
        Tail(part, others);
        Assoc(done, [part.record], RecordsOf(others));
      } else {
        GapStep(State(done, Idle), lines[0], root, recompute);
        var others := ReadReportIsGood(done, lines[1..], root, recompute);
        parts := [Gap(lines[0])] + others;
        Tail(Gap(lines[0]), others);
        assert RecordsOf(parts) == RecordsOf(others);
        assert [lines[0]] + lines[1..] == lines;
      }
    }
  }

  lemma AddedPath(done: seq<Record>, r: Record)
    requires DistinctPaths(done) && !HasPath(done, r.path)
    ensures DistinctPaths(done + [r])
  {
  }

  /** A report that does not end within a record, in parts. */
  ghost predicate Consists(lines: seq<string>, records: seq<Record>, root: seq<string>, recompute: bool)
  {
    exists parts :: GoodParts(parts, root, recompute) && LinesOf(parts) == lines && RecordsOf(parts) == records
  }

  /**
   A report is read, as certain records, if and only if it is not blank, its lines are gaps and whole records that describe
   exactly these, there is at least one, and no two are of the same file.
   */
  lemma ParsedIff(text: string, root: seq<string>, recompute: bool, records: seq<Record>)
    ensures Parse(text, root, recompute) == Ok(records) <==>
            !Blank(text) && records != [] && DistinctPaths(records) && Consists(SplitLines(text), records, root, recompute)
  {
    var lines := SplitLines(text);
    if Parse(text, root, recompute) == Ok(records) {
      var parts := ReadReportIsGood([], lines, root, recompute);
      assert [] + RecordsOf(parts) == RecordsOf(parts);
    }
    if DistinctPaths(records) && Consists(lines, records, root, recompute) {
      var parts :| GoodParts(parts, root, recompute) && LinesOf(parts) == lines && RecordsOf(parts) == records;
      assert [] + RecordsOf(parts) == RecordsOf(parts);
      PartsAreRead([], parts, root, recompute);
    }
  }
}
