/** Normalized reports and what reading one back gives. */
module LcovRoundTrip {
  import opened Sequences
  import opened Strings
  import opened Wrappers
  import opened LcovPaths
  import opened LcovFormat

  // ----- Writing

  function DataLine(c: LineCount): string
  {
    "DA:" + (NumText(c.line) + ("," + NumText(c.count)))
  }

  function DataLines(counts: seq<LineCount>): seq<string>
  {
    if counts == [] then [] else [DataLine(counts[0])] + DataLines(counts[1..])
  }

  function Header(path: string, functions: Counts): seq<string>
  {
    ["TN:", "SF:" + path, "FNF:" + NumText(functions.total), "FNH:" + NumText(functions.covered)]
  }

  function Footer(lines: Counts): seq<string>
  {
    ["LF:" + NumText(lines.total), "LH:" + NumText(lines.covered), "end_of_record"]
  }

  function RecordLines(path: string, r: Record): (lines: seq<string>)
    ensures lines != []
  {
    Header(path, r.functions) + (DataLines(SortCounts(r.lineCounts)) + Footer(r.lines))
  }

  function RecordTexts(records: seq<Record>): seq<string>
  {
    if records == [] then []
    else [Join(RecordLines(records[0].path, records[0]), '\n')] + RecordTexts(records[1..])
  }

  function Serialise(records: seq<Record>): string
  {
    Join(RecordTexts(records), '\n')
  }

  // ----- Lines of the written text

  /** A line without the carriage return that a following newline takes with it. */
  function Strip(line: string): string
  {
    if line != "" && line[|line| - 1] == '\r' then line[..|line| - 1] else line
  }

  function StripAll(lines: seq<string>): seq<string>
  {
    if lines == [] then [] else [Strip(lines[0])] + StripAll(lines[1..])
  }

  lemma {:induction false} SplitFirstLine(line: string, rest: string)
    requires '\n' !in line
    ensures SplitLines(line + ("\n" + rest)) == [Strip(line)] + SplitLines(rest)
  {
    var s := line + ("\n" + rest);
    if line == "" {
      assert s == "\n" + rest;
      assert s[1..] == rest;
    } else if line == "\r" {
      assert s[2..] == rest;
    } else {
      assert s[1..] == line[1..] + ("\n" + rest);
      SplitFirstLine(line[1..], rest);
      assert [line[0]] + Strip(line[1..]) == Strip(line);
      Tail(Strip(line[1..]), SplitLines(rest));
    }
  }

  lemma {:induction false} SplitLastLine(line: string)
    requires '\n' !in line
    ensures SplitLines(line) == [line]
  {
    if line != "" {
      SplitLastLine(line[1..]);
      assert [line[0]] + line[1..] == line;
    }
  }

  lemma {:induction false} SplitJoinedLines(lines: seq<string>)
    requires lines != [] && forall i | 0 <= i < |lines| :: '\n' !in lines[i]
    requires Strip(lines[|lines| - 1]) == lines[|lines| - 1]
    ensures SplitLines(Join(lines, '\n')) == StripAll(lines)
  {
    if |lines| == 1 {
      SplitLastLine(lines[0]);
    } else {
      SplitJoinedLines(lines[1..]);
      SplitFirstLine(lines[0], Join(lines[1..], '\n'));
      Assoc(lines[0], "\n", Join(lines[1..], '\n'));
    }
  }

  lemma {:induction false} StripAppend(a: seq<string>, b: seq<string>)
    ensures StripAll(a + b) == StripAll(a) + StripAll(b)
  {
    if a == [] {
      assert a + b == b;
    } else {
      StripAppend(a[1..], b);
      assert (a + b)[1..] == a[1..] + b;
      Assoc([Strip(a[0])], StripAll(a[1..]), StripAll(b));
    }
  }

  lemma {:induction false} JoinAppend(a: seq<string>, b: seq<string>)
    requires a != [] && b != []
    ensures Join(a + b, '\n') == Join(a, '\n') + ("\n" + Join(b, '\n'))
  {
    if |a| == 1 {
      assert (a + b)[1..] == b;
      Assoc(a[0], "\n", Join(b, '\n'));
    } else {
      JoinAppend(a[1..], b);
      assert (a + b)[1..] == a[1..] + b;
      Assoc(a[0] + "\n", Join(a[1..], '\n'), "\n" + Join(b, '\n'));
    }
  }

  function AllLines(records: seq<Record>): seq<string>
  {
    if records == [] then [] else RecordLines(records[0].path, records[0]) + AllLines(records[1..])
  }

  lemma {:induction false} SerialiseJoinsLines(records: seq<Record>)
    requires records != []
    ensures AllLines(records) != [] && Serialise(records) == Join(AllLines(records), '\n')
  {
    var first := RecordLines(records[0].path, records[0]);
    if |records| == 1 {
      assert AllLines(records[1..]) == [] && RecordTexts(records[1..]) == [];
      assert AllLines(records) == first;
      assert RecordTexts(records) == [Join(first, '\n')];
    } else {
      var texts := RecordTexts(records);
      SerialiseJoinsLines(records[1..]);
      JoinAppend(first, AllLines(records[1..]));
      assert texts[1..] == RecordTexts(records[1..]);
      Assoc(texts[0], "\n", Join(texts[1..], '\n'));
    }
  }

  predicate PlainLine(line: string)
  {
    '\n' !in line && Strip(line) == line
  }

  ghost predicate PlainLines(lines: seq<string>)
  {
    forall i | 0 <= i < |lines| :: PlainLine(lines[i])
  }

  lemma {:induction false} StripPlain(lines: seq<string>)
    requires PlainLines(lines)
    ensures StripAll(lines) == lines
  {
    if lines != [] {
      assert PlainLine(lines[0]);
      StripPlain(lines[1..]);
      assert [lines[0]] + lines[1..] == lines;
    }
  }

  lemma NumberLinePlain(prefix: string, n: nat)
    requires '\n' !in prefix
    ensures PlainLine(prefix + NumText(n))
  {
    NumRoundTrip(n);
    var text, line := NumText(n), prefix + NumText(n);
    assert line[|line| - 1] == text[|text| - 1] && text[|text| - 1] in text;
    forall c | c in line ensures c != '\n' { }
  }

  lemma {:induction false} DataLinesPlain(counts: seq<LineCount>)
    ensures PlainLines(DataLines(counts))
  {
    if counts != [] {
      DataLinesPlain(counts[1..]);
      var c := counts[0];
      NumRoundTrip(c.line);
      Assoc("DA:", NumText(c.line), "," + NumText(c.count));
      Assoc("DA:" + NumText(c.line), ",", NumText(c.count));
      forall x | x in "DA:" + NumText(c.line) + "," ensures x != '\n' { }
      NumberLinePlain("DA:" + NumText(c.line) + ",", c.count);
    }
  }

  lemma StripSource(path: string)
    ensures Strip("SF:" + path) == "SF:" + Strip(path)
  {
  }

  function Body(r: Record): seq<string>
  {
    DataLines(SortCounts(r.lineCounts)) + Footer(r.lines)
  }

  lemma FooterPlain(lines: Counts)
    ensures PlainLines(Footer(lines))
  {
    NumberLinePlain("LF:", lines.total);
    NumberLinePlain("LH:", lines.covered);
    assert PlainLine("end_of_record");
  }

  lemma BodyPlain(r: Record)
    ensures PlainLines(Body(r)) && |Body(r)| >= 3 && Body(r)[|Body(r)| - 1] == "end_of_record"
  {
    DataLinesPlain(SortCounts(r.lineCounts));
    FooterPlain(r.lines);
    var data, footer := DataLines(SortCounts(r.lineCounts)), Footer(r.lines);
    forall i | 0 <= i < |Body(r)|
      ensures PlainLine(Body(r)[i])
    {
      if i < |data| { assert PlainLine(data[i]); } else { assert PlainLine(footer[i - |data|]); }
    }
  }

  lemma HeaderLines(path: string, functions: Counts)
    requires '\n' !in path
    ensures forall i | 0 <= i < 4 :: '\n' !in Header(path, functions)[i]
  {
    NumberLinePlain("FNF:", functions.total);
    NumberLinePlain("FNH:", functions.covered);
    assert '\n' !in "SF:" + path;
  }

  /** Written lines are single lines, and only a path can lose a carriage return at its end. */
  lemma StripRecord(r: Record)
    ensures StripAll(RecordLines(r.path, r)) == RecordLines(Strip(r.path), r)
  {
    BodyPlain(r);
    StripAppend(Header(r.path, r.functions), Body(r));
    StripPlain(Body(r));
    StripHeader(r.path, r.functions);
  }

  lemma RecordLinesSingle(r: Record)
    requires '\n' !in r.path
    ensures forall i | 0 <= i < |RecordLines(r.path, r)| :: '\n' !in RecordLines(r.path, r)[i]
    ensures RecordLines(r.path, r)[|RecordLines(r.path, r)| - 1] == "end_of_record"
  {
    BodyPlain(r);
    HeaderLines(r.path, r.functions);
    var header, body := Header(r.path, r.functions), Body(r);
    assert RecordLines(r.path, r) == header + body;
    forall i | 0 <= i < |header + body|
      ensures '\n' !in (header + body)[i]
    {
      if i >= 4 { assert PlainLine(body[i - 4]); }
    }
  }

  lemma StripHeader(path: string, functions: Counts)
    ensures StripAll(Header(path, functions)) == Header(Strip(path), functions)
  {
    var h := Header(path, functions);
    NumberLinePlain("FNF:", functions.total);
    NumberLinePlain("FNH:", functions.covered);
    StripSource(path);
    assert StripAll(h[4..]) == [];
    assert h[3..][1..] == h[4..] && h[2..][1..] == h[3..] && h[1..][1..] == h[2..];
    assert StripAll(h[3..]) == [h[3]];
    assert StripAll(h[2..]) == [h[2], h[3]];
    assert StripAll(h[1..]) == ["SF:" + Strip(path), h[2], h[3]];
  }

  function ReadLines(records: seq<Record>): seq<string>
  {
    if records == [] then [] else RecordLines(Strip(records[0].path), records[0]) + ReadLines(records[1..])
  }

  lemma {:induction false} AllLinesStripped(records: seq<Record>)
    requires forall i | 0 <= i < |records| :: '\n' !in records[i].path
    ensures StripAll(AllLines(records)) == ReadLines(records)
    ensures forall i | 0 <= i < |AllLines(records)| :: '\n' !in AllLines(records)[i]
    ensures records != [] ==> AllLines(records) != [] && AllLines(records)[|AllLines(records)| - 1] == "end_of_record"
  {
    if records != [] {
      AllLinesStripped(records[1..]);
      StripRecord(records[0]);
      RecordLinesSingle(records[0]);
      var first := RecordLines(records[0].path, records[0]);
      StripAppend(first, AllLines(records[1..]));
      if |records| == 1 { assert AllLines(records) == first; }
    }
  }

  /** Reading the written text line by line gives the written lines, each path stripped of a final carriage return. */
  lemma WrittenLines(records: seq<Record>)
    requires records != [] && forall i | 0 <= i < |records| :: '\n' !in records[i].path
    ensures SplitLines(Serialise(records)) == ReadLines(records) && !Blank(Serialise(records))
  {
    var lines, text := AllLines(records), Serialise(records);
    SplitAllLines(records, lines);
    assert text == Join(lines, '\n') by { SerialiseJoinsLines(records); }
    WrittenNotBlank(records);
  }

  lemma SplitAllLines(records: seq<Record>, lines: seq<string>)
    requires records != [] && forall i | 0 <= i < |records| :: '\n' !in records[i].path
    requires lines == AllLines(records)
    ensures SplitLines(Join(lines, '\n')) == ReadLines(records)
  {
    AllLinesStripped(records);
    StripEnd();
    SplitJoinedLines(lines);
  }

  lemma StripEnd()
    ensures Strip("end_of_record") == "end_of_record"
  {
  }

  lemma WrittenNotBlank(records: seq<Record>)
    requires records != []
    ensures !Blank(Serialise(records))
  {
    SerialiseJoinsLines(records);
    JoinStart(AllLines(records));
    assert AllLines(records)[0] == "TN:";
    StartsVisible(Serialise(records));
  }

  lemma StartsVisible(s: string)
    requires s != "" && s[0] == 'T'
    ensures !Blank(s)
  {
    assert 'T' in s;
  }

  lemma JoinStart(lines: seq<string>)
    requires lines != [] && lines[0] != ""
    ensures Join(lines, '\n') != "" && Join(lines, '\n')[0] == lines[0][0]
  {
  }

  // ----- Reading the written lines

  function Continue(read: Result<State>, lines: seq<string>, root: seq<string>, recompute: bool): Result<State>
  {
    match read
    case Err(e) => Err(e)
    case Ok(state) => Steps(state, lines, root, recompute)
  }

  lemma {:induction false} StepsAppend(state: State, a: seq<string>, b: seq<string>, root: seq<string>, recompute: bool)
    ensures Steps(state, a + b, root, recompute) ==
            Continue(Steps(state, a, root, recompute), b, root, recompute)
    decreases a
  {
    if a == [] {
      assert a + b == b;
    } else {
      assert (a + b)[1..] == a[1..] + b;
      match Step(state, a[0], root, recompute)
      case Err(e) =>
      case Ok(next) => StepsAppend(next, a[1..], b, root, recompute);
    }
  }

  lemma StepsCons(state: State, line: string, next: State, rest: seq<string>, root: seq<string>, recompute: bool)
    requires Step(state, line, root, recompute) == Ok(next)
    ensures Steps(state, [line] + rest, root, recompute) == Steps(next, rest, root, recompute)
  {
    Tail(line, rest);
  }

  lemma NumberHasNoTerminator(n: nat)
    ensures !HasTerminator(NumText(n)) && ReadInteger(NumText(n)) == Ok(n)
  {
    NumRoundTrip(n);
  }

  lemma ClassifyFnf(t: string)
    requires !HasTerminator(t)
    ensures Classify("FNF:" + t) == Summary("FNF", t)
  {
    var line := "FNF:" + t;
    PrefixOf("FNF:", t);
    assert line[0] == 'F';
  }

  lemma ClassifyFnh(t: string)
    requires !HasTerminator(t)
    ensures Classify("FNH:" + t) == Summary("FNH", t)
  {
    var line := "FNH:" + t;
    PrefixOf("FNH:", t);
    assert line[0] == 'F' && line[2] == 'H';
  }

  lemma ClassifyLf(t: string)
    requires !HasTerminator(t)
    ensures Classify("LF:" + t) == Summary("LF", t)
  {
    var line := "LF:" + t;
    PrefixOf("LF:", t);
    assert line[0] == 'L';
  }

  lemma ClassifyLh(t: string)
    requires !HasTerminator(t)
    ensures Classify("LH:" + t) == Summary("LH", t)
  {
    var line := "LH:" + t;
    PrefixOf("LH:", t);
    assert line[0] == 'L' && line[1] == 'H';
  }

  lemma ReadSummary(state: State, line: string, key: string, n: nat, root: seq<string>, recompute: bool)
    requires Classify(line) == Summary(key, NumText(n))
    requires state.current.Active? && key !in state.current.fields
    ensures Step(state, line, root, recompute) ==
            Ok(State(state.records, Active(state.current.path, state.current.counts, state.current.fields[key := n])))
  {
    NumberHasNoTerminator(n);
  }

  lemma ClassifyData(rest: string)
    ensures Classify("DA:" + rest) == Data(rest)
  {
    PrefixOf("DA:", rest);
    assert ("DA:" + rest)[0] == 'D';
  }

  lemma ReadDataOf(c: LineCount, counts: seq<LineCount>)
    requires c.line > 0 && !HasLine(counts, c.line)
    ensures ReadData(NumText(c.line) + ("," + NumText(c.count)), counts) == Ok(counts + [c])
  {
    NumRoundTrip(c.line);
    NumRoundTrip(c.count);
    SplitFirst(NumText(c.line), NumText(c.count), ',');
    SplitLast(NumText(c.count), ',');
  }

  lemma ReadDataLine(state: State, c: LineCount, root: seq<string>, recompute: bool)
    requires state.current.Active? && c.line > 0 && !HasLine(state.current.counts, c.line)
    ensures Step(state, DataLine(c), root, recompute) ==
            Ok(State(state.records, Active(state.current.path, state.current.counts + [c], state.current.fields)))
  {
    ClassifyData(NumText(c.line) + ("," + NumText(c.count)));
    ReadDataOf(c, state.current.counts);
  }

  lemma {:induction false} ReadDataLines(state: State, counts: seq<LineCount>, root: seq<string>, recompute: bool)
    requires state.current.Active? && Ascending(state.current.counts + counts)
    requires forall c | c in counts :: c.line > 0
    ensures Steps(state, DataLines(counts), root, recompute) ==
            Ok(State(state.records, Active(state.current.path, state.current.counts + counts, state.current.fields)))
    decreases counts
  {
    var Active(path, before, fields) := state.current;
    if counts == [] {
      assert before + counts == before;
    } else {
      var all := before + counts;
      assert all[|before|] == counts[0];
      forall i | 0 <= i < |before|
        ensures before[i].line != counts[0].line
      {
        assert all[i] == before[i];
      }
      ReadDataLine(state, counts[0], root, recompute);
      var next := State(state.records, Active(path, before + [counts[0]], fields));
      Assoc(before, [counts[0]], counts[1..]);
      assert [counts[0]] + counts[1..] == counts;
      ReadDataLines(next, counts[1..], root, recompute);
      Tail(DataLine(counts[0]), DataLines(counts[1..]));
    }
  }

  lemma ReadHeader(records: seq<Record>, path: string, functions: Counts, rest: seq<string>, root: seq<string>, recompute: bool)
    ensures Steps(State(records, Idle), Header(path, functions) + rest, root, recompute) ==
            Steps(State(records, Active(path, [], map["FNF" := functions.total, "FNH" := functions.covered])), rest, root, recompute)
  {
    var start := State(records, Idle);
    var begun := State(records, Active(path, [], map[]));
    var found := State(records, Active(path, [], map["FNF" := functions.total]));
    var hit := State(records, Active(path, [], map["FNF" := functions.total, "FNH" := functions.covered]));
    var total, covered := "FNF:" + NumText(functions.total), "FNH:" + NumText(functions.covered);
    NumberHasNoTerminator(functions.total);
    NumberHasNoTerminator(functions.covered);
    PrefixOf("SF:", path);
    assert ("SF:" + path)[0] == 'S';
    ClassifyFnf(NumText(functions.total));
    ReadSummary(begun, total, "FNF", functions.total, root, recompute);
    ClassifyFnh(NumText(functions.covered));
    DistinctKeys();
    ReadSummary(found, covered, "FNH", functions.covered, root, recompute);
    StepsCons(found, covered, hit, rest, root, recompute);
    StepsCons(begun, total, found, [covered] + rest, root, recompute);
    StepsCons(start, "SF:" + path, begun, [total] + ([covered] + rest), root, recompute);
    StepsCons(start, "TN:", start, ["SF:" + path] + ([total] + ([covered] + rest)), root, recompute);
    assert Header(path, functions) + rest == ["TN:"] + (["SF:" + path] + ([total] + ([covered] + rest)));
  }

  lemma DistinctKeys()
    ensures "FNF" != "FNH" && "LF" != "LH" && "FNF" != "LF" && "FNF" != "LH" && "FNH" != "LF" && "FNH" != "LH"
  {
    assert "FNF"[2] != "FNH"[2] && "LF"[1] != "LH"[1];
    assert |"FNF"| != |"LF"|;
  }

  // ----- Records that merging produces

  /** A record whose counts, uncovered lines and functions agree, listed by ascending line. */
  ghost predicate WellFormed(r: Record)
  {
    && Ascending(r.lineCounts)
    && (forall c | c in r.lineCounts :: c.line > 0)
    && r.lines == Counts(Positive(r.lineCounts), |r.lineCounts|)
    && r.uncovered == ZeroLines(r.lineCounts)
    && r.functions.covered <= r.functions.total
  }

  /** The record under the normalized form of a path. */
  function Renamed(path: string, r: Record, root: seq<string>): Result<Record>
  {
    if path == "" then Err("LCOV record is missing SF")
    else
      match NormalizeSourcePath(path, root)
      case Err(e) => Err(e)
      case Ok(p) => Ok(r.(path := p))
  }

  /** What reading one written record does: only the path can change, be refused, or be a duplicate. */
  function ReadRecord(done: seq<Record>, path: string, r: Record, root: seq<string>): Result<State>
  {
    match Renamed(path, r, root)
    case Err(e) => Err(e)
    case Ok(record) =>
      if HasPath(done, record.path) then Err("duplicate LCOV source record")
      else Ok(State(done + [record], Idle))
  }

  lemma FinaliseWritten(path: string, r: Record, root: seq<string>, recompute: bool, fields: map<string, nat>)
    requires WellFormed(r)
    requires fields == map["FNF" := r.functions.total, "FNH" := r.functions.covered, "LF" := r.lines.total, "LH" := r.lines.covered]
    ensures FinaliseRecord(path, root, r.lineCounts, if recompute then fields - {"LF", "LH"} else fields) ==
            Renamed(path, r, root)
  {
    DistinctKeys();
    ZeroLinesSorted(r.lineCounts);
  }

  function FooterFields(r: Record): map<string, nat>
  {
    map["FNF" := r.functions.total, "FNH" := r.functions.covered]["LF" := r.lines.total]["LH" := r.lines.covered]
  }

  lemma ReadSummaryThen(done: seq<Record>, path: string, counts: seq<LineCount>, fields: map<string, nat>,
                        line: string, key: string, n: nat, rest: seq<string>, root: seq<string>, recompute: bool)
    requires Classify(line) == Summary(key, NumText(n)) && key !in fields
    ensures Steps(State(done, Active(path, counts, fields)), [line] + rest, root, recompute) ==
            Steps(State(done, Active(path, counts, fields[key := n])), rest, root, recompute)
  {
    var state := State(done, Active(path, counts, fields));
    ReadSummary(state, line, key, n, root, recompute);
    StepsCons(state, line, State(done, Active(path, counts, fields[key := n])), rest, root, recompute);
  }

  lemma ReadTotals(done: seq<Record>, path: string, r: Record, rest: seq<string>, root: seq<string>, recompute: bool)
    ensures Steps(State(done, Active(path, r.lineCounts, map["FNF" := r.functions.total, "FNH" := r.functions.covered])),
                  Footer(r.lines) + rest, root, recompute) ==
            Steps(State(done, Active(path, r.lineCounts, FooterFields(r))), ["end_of_record"] + rest, root, recompute)
  {
    var found := map["FNF" := r.functions.total, "FNH" := r.functions.covered];
    var total, covered := "LF:" + NumText(r.lines.total), "LH:" + NumText(r.lines.covered);
    var end := ["end_of_record"] + rest;
    DistinctKeys();
    NumberHasNoTerminator(r.lines.total);
    NumberHasNoTerminator(r.lines.covered);
    ClassifyLf(NumText(r.lines.total));
    ClassifyLh(NumText(r.lines.covered));
    ReadSummaryThen(done, path, r.lineCounts, found, total, "LF", r.lines.total, [covered] + end, root, recompute);
    ReadSummaryThen(done, path, r.lineCounts, found["LF" := r.lines.total], covered, "LH", r.lines.covered, end, root, recompute);
    FooterThen(r.lines, rest);
  }

  lemma FooterThen(lines: Counts, rest: seq<string>)
    ensures Footer(lines) + rest ==
            ["LF:" + NumText(lines.total)] + (["LH:" + NumText(lines.covered)] + (["end_of_record"] + rest))
  {
  }

  lemma ReadFooter(done: seq<Record>, path: string, r: Record, rest: seq<string>, root: seq<string>, recompute: bool)
    requires WellFormed(r)
    ensures Steps(State(done, Active(path, r.lineCounts, map["FNF" := r.functions.total, "FNH" := r.functions.covered])),
                  Footer(r.lines) + rest, root, recompute) ==
            Continue(ReadRecord(done, path, r, root), rest, root, recompute)
  {
    ReadTotals(done, path, r, rest, root, recompute);
    FinaliseWritten(path, r, root, recompute, FooterFields(r));
    ReadEnd(done, path, r, rest, root, recompute, FooterFields(r));
  }

  lemma ReadEnd(done: seq<Record>, path: string, r: Record, rest: seq<string>, root: seq<string>, recompute: bool, fields: map<string, nat>)
    requires FinaliseRecord(path, root, r.lineCounts, if recompute then fields - {"LF", "LH"} else fields) ==
             Renamed(path, r, root)
    ensures Steps(State(done, Active(path, r.lineCounts, fields)), ["end_of_record"] + rest, root, recompute) ==
            Continue(ReadRecord(done, path, r, root), rest, root, recompute)
  {
    Tail("end_of_record", rest);
    ClassifyEnd();
  }

  lemma ClassifyEnd()
    ensures Classify("end_of_record") == EndOfRecord
  {
    var line := "end_of_record";
    OtherStart(line, "TN:");
    OtherStart(line, "SF:");
    OtherStart(line, "DA:");
    OtherStart(line, "FNF:");
    OtherStart(line, "FNH:");
    OtherStart(line, "LF:");
    OtherStart(line, "LH:");
    OtherStart(line, "FN:");
    OtherStart(line, "FNDA:");
    OtherStart(line, "BR");
  }

  lemma OtherStart(line: string, prefix: string)
    requires line != "" && prefix != "" && line[0] != prefix[0]
    ensures !StartsWith(line, prefix)
  {
  }

  /** Reading one written record. */
  lemma ReadWrittenRecord(done: seq<Record>, path: string, r: Record, rest: seq<string>, root: seq<string>, recompute: bool)
    requires WellFormed(r)
    ensures Steps(State(done, Idle), RecordLines(path, r) + rest, root, recompute) ==
            Continue(ReadRecord(done, path, r, root), rest, root, recompute)
  {
    var data, footer := DataLines(SortCounts(r.lineCounts)), Footer(r.lines);
    var found := map["FNF" := r.functions.total, "FNH" := r.functions.covered];
    var empty := State(done, Active(path, [], found));
    SortedCountsStay(r.lineCounts);
    assert [] + r.lineCounts == r.lineCounts;
    Assoc(Header(path, r.functions), data + footer, rest);
    Assoc(data, footer, rest);
    ReadHeader(done, path, r.functions, data + (footer + rest), root, recompute);
    StepsAppend(empty, data, footer + rest, root, recompute);
    ReadDataLines(empty, r.lineCounts, root, recompute);
    ReadFooter(done, path, r, rest, root, recompute);
  }

  /** The path is written and read back unchanged. */
  predicate Stable(path: string, root: seq<string>)
  {
    Strip(path) != "" && NormalizeSourcePath(Strip(path), root) == Ok(path)
  }

  ghost predicate DistinctPaths(records: seq<Record>)
  {
    forall i, j | 0 <= i < j < |records| :: records[i].path != records[j].path
  }

  lemma NewPath(done: seq<Record>, r: Record, later: seq<Record>)
    requires DistinctPaths(done + ([r] + later))
    ensures !HasPath(done, r.path)
  {
    var all := done + ([r] + later);
    assert all[|done|] == r;
    assert forall i | 0 <= i < |done| :: all[i] == done[i];
  }

  /** The records read from the lines of a written report. */
  ghost predicate ReadsBack(done: seq<Record>, records: seq<Record>, read: Result<State>, root: seq<string>)
  {
    if forall r | r in records :: Stable(r.path, root)
    then read == Ok(State(done + records, Idle))
    else read.Err? || read.value.records != done + records
  }

  lemma ReadChanged(done: seq<Record>, r: Record, later: seq<Record>, next: State, read: Result<State>, root: seq<string>)
    requires ReadRecord(done, Strip(r.path), r, root) == Ok(next) && !Stable(r.path, root)
    requires read.Ok? ==> next.records <= read.value.records
    ensures read.Err? || read.value.records != done + ([r] + later)
  {
    assert next.records[|done|].path != r.path;
    assert (done + ([r] + later))[|done|] == r;
  }

  lemma {:induction false} ReadWrittenRecords(done: seq<Record>, records: seq<Record>, root: seq<string>, recompute: bool)
    requires forall r | r in records :: WellFormed(r)
    requires DistinctPaths(done + records)
    ensures ReadsBack(done, records, Steps(State(done, Idle), ReadLines(records), root, recompute), root)
    decreases records
  {
    if records == [] {
      assert done + records == done;
    } else {
      var r, path, later := records[0], Strip(records[0].path), records[1..];
      assert records == [r] + later;
      ReadWrittenRecord(done, path, r, ReadLines(later), root, recompute);
      Assoc(done, [r], later);
      var next := ReadRecord(done, path, r, root);
      if Stable(r.path, root) {
        NewPath(done, r, later);
        ReadWrittenRecords(done + [r], later, root, recompute);
      } else if next.Ok? {
        KeepsRecords(next.value, ReadLines(later), root, recompute);
        ReadChanged(done, r, later, next.value, Steps(next.value, ReadLines(later), root, recompute), root);
      }
    }
  }

  /** Records once read are kept. */
  lemma {:induction false} KeepsRecords(state: State, lines: seq<string>, root: seq<string>, recompute: bool)
    ensures var read := Steps(state, lines, root, recompute); read.Ok? ==> state.records <= read.value.records
    decreases lines
  {
    if lines != [] {
      match Step(state, lines[0], root, recompute)
      case Err(e) =>
      case Ok(next) => KeepsRecords(next, lines[1..], root, recompute);
    }
  }

  lemma ReadFromStart(records: seq<Record>, lines: seq<string>, root: seq<string>, recompute: bool)
    requires lines == ReadLines(records)
    requires DistinctPaths(records) && forall r | r in records :: WellFormed(r)
    ensures var read := Steps(State([], Idle), lines, root, recompute);
            if forall r | r in records :: Stable(r.path, root)
            then read == Ok(State(records, Idle)) else read.Err? || read.value.records != records
  {
    assert [] + records == records;
    ReadWrittenRecords([], records, root, recompute);
  }

  lemma ParseLines(text: string, lines: seq<string>, root: seq<string>, recompute: bool)
    requires !Blank(text) && SplitLines(text) == lines
    ensures var read := Steps(State([], Idle), lines, root, recompute);
            forall records | records != [] ::
              (read == Ok(State(records, Idle)) ==> Parse(text, root, recompute) == Ok(records)) &&
              (Parse(text, root, recompute) == Ok(records) ==> read.Ok? && read.value.records == records)
  {
  }

  /** A normalized report reads back as the records written exactly when every path is stable. */
  lemma ParseSerialised(records: seq<Record>, root: seq<string>, recompute: bool)
    requires records != [] && DistinctPaths(records)
    requires forall r | r in records :: WellFormed(r) && '\n' !in r.path
    ensures Parse(Serialise(records), root, recompute) == Ok(records) <==> forall r | r in records :: Stable(r.path, root)
  {
    assert forall i | 0 <= i < |records| :: records[i] in records;
    var lines := ReadLines(records);
    WrittenLines(records);
    ReadFromStart(records, lines, root, recompute);
    ParseLines(Serialise(records), lines, root, recompute);
  }

  /** A path that came out of normalization is stable exactly when it is not blank and does not end in a carriage return. */
  lemma NormalizedPathStable(path: string, root: seq<string>)
    requires Segments(root) && NormalizeSourcePath(path, root).Ok?
    ensures var p := NormalizeSourcePath(path, root).value;
            Stable(p, root) <==> !Blank(p) && Strip(p) == p
  {
    NormalizeIdempotent(path, root);
    NormalizedIsRelative(path, root);
    var p := NormalizeSourcePath(path, root).value;
    if Strip(p) != p && Stable(p, root) {
      assert Strip(p)[0] == p[0];
      assert '\\' !in Strip(p);
      NormalizedNotLonger(Strip(p), root);
    }
  }
}
