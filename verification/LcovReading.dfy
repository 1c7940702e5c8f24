/** What a record of an LCOV report says, line by line, and that it is read if and only if it says something consistent. */
module LcovReading {
  import opened Sequences
  import opened Strings
  import opened Wrappers
  import opened LcovPaths
  import opened LcovFormat
  import opened LcovRoundTrip

  // ----- What one line says

  datatype Item = Detail | Datum(line: nat, count: nat) | Total(key: string, n: nat)

  predicate Numeral(s: string, n: nat)
  {
    s != "" && AllDigits(s) && NumValue(s) == n
  }

  /** Two numerals after "DA:"; a checksum or more can follow behind another comma. */
  ghost predicate SaysDatum(line: string, first: string, second: string, more: string)
  {
    line == "DA:" + (first + ("," + (second + more))) && (more == "" || more[0] == ',')
  }

  ghost predicate SaysTotal(line: string, key: string, value: string)
  {
    (key == "FNF" || key == "FNH" || key == "LF" || key == "LH") && line == key + ":" + value
  }

  ghost predicate Says(line: string, item: Item)
  {
    match item
    case Detail => line == "" || StartsWith(line, "FN:") || StartsWith(line, "FNDA:") || StartsWith(line, "BR")
    case Datum(n, count) =>
      n > 0 && exists a, b, more :: SaysDatum(line, a, b, more) && Numeral(a, n) && Numeral(b, count)
    case Total(key, n) => exists value :: SaysTotal(line, key, value) && Numeral(value, n)
  }

  /** A line of a record: neither the start of one nor the end, nor of a test. */
  predicate Inner(line: string)
  {
    !StartsWith(line, "SF:") && !StartsWith(line, "TN:") && line != "end_of_record"
  }

  lemma DigitsNoTerminator(s: string)
    requires AllDigits(s)
    ensures !HasTerminator(s) && ',' !in s
  {
  }

  lemma DetailIsIgnored(line: string)
    requires Says(line, Detail) && line != ""
    ensures Classify(line) == Ignored
  {
    if StartsWith(line, "BR") {
      assert line[0] == "BR"[0];
    } else if StartsWith(line, "FN:") {
      assert line[0] == "FN:"[0] && line[2] == "FN:"[2];
    } else {
      assert line[0] == "FNDA:"[0] && line[2] == "FNDA:"[2];
    }
  }

  lemma TotalIsSummary(line: string, key: string, value: string)
    requires SaysTotal(line, key, value) && !HasTerminator(value)
    ensures Classify(line) == Summary(key, value)
  {
    if key == "FNF" {
      ClassifyFnf(value);
    } else if key == "FNH" {
      ClassifyFnh(value);
    } else if key == "LF" {
      ClassifyLf(value);
    } else {
      ClassifyLh(value);
    }
  }

  /** The parts of a DA line up to the second comma. */
  lemma DatumParts(first: string, second: string, more: string)
    requires AllDigits(first) && AllDigits(second) && (more == "" || more[0] == ',')
    ensures var parts := Split(first + ("," + (second + more)), ',');
            |parts| >= 2 && parts[0] == first && parts[1] == second
  {
    DigitsNoTerminator(first);
    DigitsNoTerminator(second);
    SplitFirst(first, second + more, ',');
    if more == "" {
      assert second + more == second;
      SplitLast(second, ',');
    } else {
      assert more == "," + more[1..];
      SplitFirst(second, more[1..], ',');
    }
  }

  ghost predicate Reads(state: State, line: string, root: seq<string>, recompute: bool, counts: seq<LineCount>, fields: map<string, nat>)
    requires state.current.Active?
  {
    Step(state, line, root, recompute) == Ok(State(state.records, Active(state.current.path, counts, fields)))
  }

  lemma DatumStep(state: State, line: string, n: nat, count: nat, root: seq<string>, recompute: bool)
    requires state.current.Active? && Says(line, Datum(n, count)) && !HasLine(state.current.counts, n)
    ensures Reads(state, line, root, recompute, state.current.counts + [LineCount(n, count)], state.current.fields)
  {
    var a, b, more :| SaysDatum(line, a, b, more) && Numeral(a, n) && Numeral(b, count);
    ClassifyData(a + ("," + (b + more)));
    DatumParts(a, b, more);
  }

  lemma TotalStep(state: State, line: string, key: string, n: nat, root: seq<string>, recompute: bool)
    requires state.current.Active? && Says(line, Total(key, n)) && key !in state.current.fields
    ensures Reads(state, line, root, recompute, state.current.counts, state.current.fields[key := n])
  {
    var value :| SaysTotal(line, key, value) && Numeral(value, n);
    DigitsNoTerminator(value);
    TotalIsSummary(line, key, value);
  }

  /** Lines that only name functions or branches, and empty ones, leave the record as it is. */
  lemma DetailStep(state: State, line: string, root: seq<string>, recompute: bool)
    requires state.current.Active? && Says(line, Detail)
    ensures Step(state, line, root, recompute) == Ok(state)
  {
    if line != "" { DetailIsIgnored(line); }
  }

  // ----- Every line that is read says something

  /** A text up to its first comma, and how the rest of it splits. */
  ghost predicate Heads(s: string, parts: seq<string>)
  {
    parts != [] && ',' !in parts[0] &&
    if |parts| == 1 then s == parts[0]
    else |parts[0]| < |s| && s == parts[0] + ("," + s[|parts[0]| + 1..]) && Split(s[|parts[0]| + 1..], ',') == parts[1..]
  }

  lemma HeadsOn(c: char, s: string, parts: seq<string>)
    requires c != ',' && Heads(s, parts)
    ensures Heads([c] + s, [[c] + parts[0]] + parts[1..])
  {
    if |parts| > 1 {
      var rest := s[|parts[0]| + 1..];
      assert ([c] + s)[|parts[0]| + 2..] == rest;
      Assoc([c], parts[0], "," + rest);
    }
  }

  lemma {:induction false} SplitHead(s: string)
    ensures Heads(s, Split(s, ','))
  {
    if s != "" && s[0] != ',' {
      SplitHead(s[1..]);
      HeadsOn(s[0], s[1..], Split(s[1..], ','));
      assert [s[0]] + s[1..] == s;
    } else if s != "" {
      assert s == "" + ("," + s[1..]);
    }
  }

  /** The two parts of a DA line, and what stands behind them. */
  lemma FirstParts(rest: string) returns (more: string)
    requires |Split(rest, ',')| >= 2
    ensures var parts := Split(rest, ',');
            rest == parts[0] + ("," + (parts[1] + more)) && (more == "" || more[0] == ',')
  {
    var parts := Split(rest, ',');
    SplitHead(rest);
    var tail := rest[|parts[0]| + 1..];
    SplitHead(tail);
    var others := Split(tail, ',');
    assert others == parts[1..] && others[0] == parts[1];
    more := if |others| == 1 then "" else "," + tail[|others[0]| + 1..];
    assert tail == parts[1] + more;
  }

  lemma DataLine(line: string)
    requires Classify(line).Data?
    ensures |line| >= 3 && Classify(line).rest == line[3..] && line == "DA:" + line[3..]
  {
    assert line == line[..3] + line[3..];
  }

  lemma DataSays(line: string, counts: seq<LineCount>) returns (item: Item)
    requires Classify(line).Data? && ReadData(Classify(line).rest, counts).Ok?
    ensures item.Datum? && Says(line, item) && !HasLine(counts, item.line)
    ensures ReadData(Classify(line).rest, counts) == Ok(counts + [LineCount(item.line, item.count)])
  {
    DataLine(line);
    var rest := line[3..];
    var parts := Split(rest, ',');
    var more := FirstParts(rest);
    item := Datum(NumValue(parts[0]), NumValue(parts[1]));
    assert SaysDatum(line, parts[0], parts[1], more);
    assert Numeral(parts[0], item.line) && Numeral(parts[1], item.count);
  }

  lemma SummarySays(line: string) returns (value: string)
    requires Classify(line).Summary?
    ensures SaysTotal(line, Classify(line).key, value) && value == Classify(line).rest
  {
    value := Classify(line).rest;
    var key := Classify(line).key;
    if key == "FNF" { assert line == "FNF:" + value; }
    else if key == "FNH" { assert line == "FNH:" + value; }
    else if key == "LF" { assert line == "LF:" + value; }
    else { assert line == "LH:" + value; }
  }

  /** What an item adds to the record in progress. */
  function CountsWith(counts: seq<LineCount>, item: Item): seq<LineCount>
  {
    if item.Datum? then counts + [LineCount(item.line, item.count)] else counts
  }

  function FieldsWith(fields: map<string, nat>, item: Item): map<string, nat>
  {
    if item.Total? then fields[item.key := item.n] else fields
  }

  ghost predicate Fits(counts: seq<LineCount>, fields: map<string, nat>, item: Item)
  {
    (item.Datum? ==> !HasLine(counts, item.line)) && (item.Total? ==> item.key !in fields)
  }

  lemma LineIsRead(state: State, line: string, item: Item, root: seq<string>, recompute: bool)
    requires state.current.Active? && Says(line, item) && Fits(state.current.counts, state.current.fields, item)
    ensures Reads(state, line, root, recompute, CountsWith(state.current.counts, item), FieldsWith(state.current.fields, item))
  {
    match item
    case Detail => DetailStep(state, line, root, recompute);
    case Datum(n, count) => DatumStep(state, line, n, count, root, recompute);
    case Total(key, n) => TotalStep(state, line, key, n, root, recompute);
  }

  lemma ReadLineSays(state: State, line: string, root: seq<string>, recompute: bool) returns (item: Item)
    requires state.current.Active? && Inner(line) && Step(state, line, root, recompute).Ok?
    ensures Says(line, item) && Fits(state.current.counts, state.current.fields, item)
    ensures Reads(state, line, root, recompute, CountsWith(state.current.counts, item), FieldsWith(state.current.fields, item))
  {
    var kind := Classify(line);
    if kind.Data? {
      item := DataSays(line, state.current.counts);
    } else if kind.Summary? {
      item := TotalSays(line, state, root, recompute);
    } else {
      item := Detail;
      OtherKinds(line);
    }
  }

  lemma TotalSays(line: string, state: State, root: seq<string>, recompute: bool) returns (item: Item)
    requires state.current.Active? && Classify(line).Summary? && Step(state, line, root, recompute).Ok?
    ensures item.Total? && Says(line, item) && Fits(state.current.counts, state.current.fields, item)
    ensures Reads(state, line, root, recompute, state.current.counts, FieldsWith(state.current.fields, item))
  {
    var value := SummarySays(line);
    item := Total(Classify(line).key, NumValue(value));
    assert Numeral(value, item.n);
  }

  lemma OtherKinds(line: string)
    requires Classify(line).Empty? || Classify(line).Ignored?
    ensures Says(line, Detail)
  {
  }

  // ----- The lines of one record together

  ghost predicate AllSay(body: seq<string>, items: seq<Item>)
  {
    |items| == |body| && forall i | 0 <= i < |body| :: Says(body[i], items[i])
  }

  /** No line has two counts, and no total is given twice. */
  ghost predicate Unrepeated(items: seq<Item>)
  {
    forall i, j | 0 <= i < j < |items| ::
      && (items[i].Datum? && items[j].Datum? ==> items[i].line != items[j].line)
      && (items[i].Total? && items[j].Total? ==> items[i].key != items[j].key)
  }

  /** The line counts, in the order of the report. */
  function DataOf(items: seq<Item>): seq<LineCount>
  {
    if items == [] then [] else CountsWith(DataOf(items[..|items| - 1]), items[|items| - 1])
  }

  function TotalsOf(items: seq<Item>): map<string, nat>
  {
    if items == [] then map[] else FieldsWith(TotalsOf(items[..|items| - 1]), items[|items| - 1])
  }

  lemma {:induction false} DataMembers(items: seq<Item>)
    ensures forall n, count :: LineCount(n, count) in DataOf(items) <==> Datum(n, count) in items
  {
    if items != [] {
      DataMembers(items[..|items| - 1]);
      assert items == items[..|items| - 1] + [items[|items| - 1]];
    }
  }

  lemma {:induction false} TotalMembers(items: seq<Item>)
    requires Unrepeated(items)
    ensures forall key, n :: (key in TotalsOf(items) && TotalsOf(items)[key] == n) <==> Total(key, n) in items
  {
    if items != [] {
      var init, last := items[..|items| - 1], items[|items| - 1];
      TotalMembers(init);
      assert items == init + [last];
      assert last.Total? ==> forall n :: Total(last.key, n) !in init;
    }
  }

  lemma NoLine(items: seq<Item>, n: nat)
    ensures HasLine(DataOf(items), n) <==> exists i | 0 <= i < |items| :: items[i].Datum? && items[i].line == n
  {
    DataMembers(items);
    if HasLine(DataOf(items), n) {
      var i :| 0 <= i < |DataOf(items)| && DataOf(items)[i].line == n;
      assert LineCount(n, DataOf(items)[i].count) in DataOf(items);
      assert Datum(n, DataOf(items)[i].count) in items;
    }
    if i :| 0 <= i < |items| && items[i].Datum? && items[i].line == n {
      assert Datum(n, items[i].count) in items;
      var k :| 0 <= k < |DataOf(items)| && DataOf(items)[k] == LineCount(n, items[i].count);
    }
  }

  /** The last item fits what the earlier ones have said exactly when it repeats none of them. */
  lemma FitsLast(items: seq<Item>)
    requires items != [] && Unrepeated(items[..|items| - 1])
    ensures var init, last := items[..|items| - 1], items[|items| - 1];
            Fits(DataOf(init), TotalsOf(init), last) <==> Unrepeated(items)
  {
    var init, last := items[..|items| - 1], items[|items| - 1];
    if last.Datum? {
      NoLine(init, last.line);
    } else if last.Total? {
      TotalMembers(init);
      if last.key in TotalsOf(init) {
        var i :| 0 <= i < |init| && init[i] == Total(last.key, TotalsOf(init)[last.key]);
        assert items[i].key == items[|items| - 1].key;
      } else {
        forall i | 0 <= i < |init| && init[i].Total? ensures init[i].key != last.key {
          assert Total(init[i].key, init[i].n) in init;
        }
      }
    }
  }

  function Begun(records: seq<Record>, path: string): State
  {
    State(records, Active(path, [], map[]))
  }

  function After(records: seq<Record>, path: string, items: seq<Item>): State
  {
    State(records, Active(path, DataOf(items), TotalsOf(items)))
  }

  lemma LastStep(records: seq<Record>, path: string, body: seq<string>, root: seq<string>, recompute: bool)
    requires body != []
    ensures Steps(Begun(records, path), body, root, recompute) ==
            Continue(Steps(Begun(records, path), body[..|body| - 1], root, recompute), [body[|body| - 1]], root, recompute)
  {
    assert body == body[..|body| - 1] + [body[|body| - 1]];
    StepsAppend(Begun(records, path), body[..|body| - 1], [body[|body| - 1]], root, recompute);
  }

  lemma OneStep(state: State, line: string, root: seq<string>, recompute: bool)
    ensures Steps(state, [line], root, recompute) == Step(state, line, root, recompute)
  {
    assert [line][1..] == [];
  }

  lemma {:induction false} BodyIsRead(records: seq<Record>, path: string, body: seq<string>, items: seq<Item>,
                                      root: seq<string>, recompute: bool)
    requires AllSay(body, items) && Unrepeated(items)
    ensures Steps(Begun(records, path), body, root, recompute) == Ok(After(records, path, items))
  {
    if body != [] {
      var n := |body| - 1;
      BodyIsRead(records, path, body[..n], items[..n], root, recompute);
      LastStep(records, path, body, root, recompute);
      FitsLast(items);
      OneStep(After(records, path, items[..n]), body[n], root, recompute);
      LineIsRead(After(records, path, items[..n]), body[n], items[n], root, recompute);
    }
  }

  lemma {:induction false} ReadBodySays(records: seq<Record>, path: string, body: seq<string>, root: seq<string>, recompute: bool)
    returns (items: seq<Item>)
    requires forall i | 0 <= i < |body| :: Inner(body[i])
    requires Steps(Begun(records, path), body, root, recompute).Ok?
    ensures AllSay(body, items) && Unrepeated(items)
    ensures Steps(Begun(records, path), body, root, recompute) == Ok(After(records, path, items))
  {
    if body == [] {
      items := [];
    } else {
      var n := |body| - 1;
      LastStep(records, path, body, root, recompute);
      var before := ReadBodySays(records, path, body[..n], root, recompute);
      OneStep(After(records, path, before), body[n], root, recompute);
      var item := ReadLineSays(After(records, path, before), body[n], root, recompute);
      items := before + [item];
      assert items[..n] == before;
      FitsLast(items);
    }
  }

  // ----- What the record says

  ghost predicate Rising(xs: seq<nat>)
  {
    forall i, j | 0 <= i < j < |xs| :: xs[i] < xs[j]
  }

  /** The number given for a total, or zero if none is given. */
  ghost predicate Reported(items: seq<Item>, key: string, n: nat)
  {
    Total(key, n) in items || (n == 0 && forall m :: Total(key, m) !in items)
  }

  ghost predicate Agreed(items: seq<Item>, key: string, n: nat)
  {
    forall m | Total(key, m) in items :: m == n
  }

  function CalledLines(counts: seq<LineCount>): set<nat>
  {
    set i: nat | i < |counts| && counts[i].count > 0
  }

  /**
   What the items say of a file: its path is acceptable; its lines are counted, those with executions and all; function
   totals are as given, and no more functions are covered than there are; and totals of lines, where they count, agree.
   */
  ghost predicate Describes(items: seq<Item>, path: string, root: seq<string>, recompute: bool, r: Record)
  {
    && NormalizeSourcePath(path, root) == Ok(r.path)
    && r.lineCounts == DataOf(items)
    && r.lines == Counts(|CalledLines(r.lineCounts)|, |r.lineCounts|)
    && Reported(items, "FNF", r.functions.total) && Reported(items, "FNH", r.functions.covered)
    && r.functions.covered <= r.functions.total
    && (!recompute ==> Agreed(items, "LF", r.lines.total) && Agreed(items, "LH", r.lines.covered))
    && Rising(r.uncovered) && forall n: nat :: n in r.uncovered <==> LineCount(n, 0) in r.lineCounts
  }

  lemma {:induction false} PositiveCalled(counts: seq<LineCount>)
    ensures Positive(counts) == |CalledLines(counts)|
  {
    if counts == [] {
      assert CalledLines(counts) == {};
    } else {
      var n := |counts| - 1;
      PositiveCalled(counts[..n]);
      assert CalledLines(counts) == CalledLines(counts[..n]) + if counts[n].count > 0 then {n} else {};
    }
  }

  lemma {:induction false} InsertRising(x: nat, xs: seq<nat>)
    requires Rising(xs) && x !in xs
    ensures Rising(InsertNumber(x, xs)) && forall y :: y in InsertNumber(x, xs) <==> y == x || y in xs
  {
    if !(xs == [] || xs[|xs| - 1] <= x) {
      var init, last := xs[..|xs| - 1], xs[|xs| - 1];
      InsertRising(x, init);
      assert xs == init + [last];
      var r := InsertNumber(x, init);
      forall i | 0 <= i < |r| ensures r[i] < last { assert r[i] in r; }
    }
  }

  lemma {:induction false} SortRising(xs: seq<nat>)
    requires forall i, j | 0 <= i < j < |xs| :: xs[i] != xs[j]
    ensures Rising(SortNumbers(xs)) && forall y :: y in SortNumbers(xs) <==> y in xs
  {
    if xs != [] {
      var init, last := xs[..|xs| - 1], xs[|xs| - 1];
      SortRising(init);
      assert xs == init + [last];
      InsertRising(last, SortNumbers(init));
    }
  }

  ghost predicate NoLineTwice(counts: seq<LineCount>)
  {
    forall i, j | 0 <= i < j < |counts| :: counts[i].line != counts[j].line
  }

  lemma {:induction false} ZeroLinesAre(counts: seq<LineCount>)
    requires NoLineTwice(counts)
    ensures forall i, j | 0 <= i < j < |ZeroLines(counts)| :: ZeroLines(counts)[i] != ZeroLines(counts)[j]
    ensures forall n: nat :: n in ZeroLines(counts) <==> LineCount(n, 0) in counts
  {
    if counts != [] {
      var init, last := counts[..|counts| - 1], counts[|counts| - 1];
      ZeroLinesAre(init);
      assert counts == init + [last];
      assert forall i | 0 <= i < |init| :: init[i].line == counts[i].line != counts[|counts| - 1].line;
    }
  }

  lemma {:induction false} DataDistinct(items: seq<Item>)
    requires Unrepeated(items)
    ensures NoLineTwice(DataOf(items))
  {
    if items != [] {
      DataDistinct(items[..|items| - 1]);
      FitsLast(items);
    }
  }

  lemma LastRises(a: seq<nat>, b: seq<nat>)
    requires a != [] && Rising(a) && Rising(b) && forall n: nat :: n in a <==> n in b
    ensures b != [] && a[|a| - 1] <= b[|b| - 1]
  {
    assert a[|a| - 1] in b;
    var i :| 0 <= i < |b| && b[i] == a[|a| - 1];
  }

  lemma WithoutLast(a: seq<nat>)
    requires a != [] && Rising(a)
    ensures forall n: nat :: n in a[..|a| - 1] <==> n in a && n != a[|a| - 1]
  {
    assert a == a[..|a| - 1] + [a[|a| - 1]];
  }

  lemma {:induction false} RisingUnique(a: seq<nat>, b: seq<nat>)
    requires Rising(a) && Rising(b) && forall n: nat :: n in a <==> n in b
    ensures a == b
    decreases |a|
  {
    if a == [] {
      assert forall i | 0 <= i < |b| :: b[i] in b;
    } else {
      LastRises(a, b);
      LastRises(b, a);
      var m, k := |a| - 1, |b| - 1;
      WithoutLast(a);
      WithoutLast(b);
      assert a[m] == b[k];
      forall n: nat ensures n in a[..m] <==> n in b[..k] { assert n in a <==> n in b; }
      RisingUnique(a[..m], b[..k]);
      assert a == a[..m] + [a[m]] && b == b[..k] + [b[k]];
    }
  }

  lemma FieldReported(items: seq<Item>, key: string, n: nat)
    requires Unrepeated(items)
    ensures Reported(items, key, n) <==> Field(TotalsOf(items), key) == n
  {
    TotalMembers(items);
    if key in TotalsOf(items) { assert Total(key, TotalsOf(items)[key]) in items; }
  }

  lemma FieldAgreed(items: seq<Item>, key: string, n: nat)
    requires Unrepeated(items)
    ensures Agreed(items, key, n) <==> (key in TotalsOf(items) ==> TotalsOf(items)[key] == n)
  {
    TotalMembers(items);
    if key in TotalsOf(items) { assert Total(key, TotalsOf(items)[key]) in items; }
  }

  function Kept(items: seq<Item>, recompute: bool): map<string, nat>
  {
    if recompute then TotalsOf(items) - {"LF", "LH"} else TotalsOf(items)
  }

  lemma KeptFields(items: seq<Item>, recompute: bool)
    ensures Field(Kept(items, recompute), "FNF") == Field(TotalsOf(items), "FNF")
    ensures Field(Kept(items, recompute), "FNH") == Field(TotalsOf(items), "FNH")
    ensures recompute ==> "LF" !in Kept(items, recompute) && "LH" !in Kept(items, recompute)
  {
    DistinctKeys();
  }

  lemma TotalsDescribe(items: seq<Item>, recompute: bool, r: Record)
    requires Unrepeated(items)
    ensures Reported(items, "FNF", r.functions.total) && Reported(items, "FNH", r.functions.covered) <==>
            r.functions == Counts(Field(Kept(items, recompute), "FNH"), Field(Kept(items, recompute), "FNF"))
    ensures (!recompute ==> Agreed(items, "LF", r.lines.total) && Agreed(items, "LH", r.lines.covered)) <==>
            && ("LF" in Kept(items, recompute) ==> Kept(items, recompute)["LF"] == r.lines.total)
            && ("LH" in Kept(items, recompute) ==> Kept(items, recompute)["LH"] == r.lines.covered)
  {
    KeptFields(items, recompute);
    FieldReported(items, "FNF", r.functions.total);
    FieldReported(items, "FNH", r.functions.covered);
    FieldAgreed(items, "LF", r.lines.total);
    FieldAgreed(items, "LH", r.lines.covered);
  }

  lemma LinesDescribe(items: seq<Item>, r: Record)
    requires Unrepeated(items) && r.lineCounts == DataOf(items)
    ensures |CalledLines(r.lineCounts)| == Positive(r.lineCounts)
    ensures Rising(r.uncovered) && (forall n: nat :: n in r.uncovered <==> LineCount(n, 0) in r.lineCounts) <==>
            r.uncovered == SortNumbers(ZeroLines(r.lineCounts))
  {
    PositiveCalled(r.lineCounts);
    DataDistinct(items);
    ZeroLinesAre(r.lineCounts);
    SortRising(ZeroLines(r.lineCounts));
    if Rising(r.uncovered) && forall n: nat :: n in r.uncovered <==> LineCount(n, 0) in r.lineCounts {
      RisingUnique(r.uncovered, SortNumbers(ZeroLines(r.lineCounts)));
    }
  }

  /** The reader's own conditions, one after the other. */
  lemma FinaliseByParts(path: string, root: seq<string>, counts: seq<LineCount>, fields: map<string, nat>, r: Record)
    ensures FinaliseRecord(path, root, counts, fields) == Ok(r) <==>
            && NormalizeSourcePath(path, root) == Ok(r.path)
            && r.lineCounts == counts && r.lines == Counts(Positive(counts), |counts|) && r.uncovered == SortNumbers(ZeroLines(counts))
            && r.functions == Counts(Field(fields, "FNH"), Field(fields, "FNF")) && r.functions.covered <= r.functions.total
            && ("LF" in fields ==> fields["LF"] == r.lines.total)
            && ("LH" in fields ==> fields["LH"] == r.lines.covered)
  {
  }

  lemma FinaliseMeans(items: seq<Item>, path: string, root: seq<string>, recompute: bool, r: Record)
    requires Unrepeated(items)
    ensures FinaliseRecord(path, root, DataOf(items), Kept(items, recompute)) == Ok(r) <==> Describes(items, path, root, recompute, r)
  {
    FinaliseByParts(path, root, DataOf(items), Kept(items, recompute), r);
    TotalsDescribe(items, recompute, r);
    if r.lineCounts == DataOf(items) { LinesDescribe(items, r); }
  }

  lemma EndStep(records: seq<Record>, path: string, items: seq<Item>, root: seq<string>, recompute: bool, r: Record)
    requires Unrepeated(items)
    ensures Step(After(records, path, items), "end_of_record", root, recompute) == Ok(State(records + [r], Idle)) <==>
            !HasPath(records, r.path) && Describes(items, path, root, recompute, r)
  {
    ClassifyEnd();
    FinaliseMeans(items, path, root, recompute, r);
    var read := FinaliseRecord(path, root, DataOf(items), Kept(items, recompute));
    if read.Ok? && records + [read.value] == records + [r] { assert (records + [r])[|records|] == r; }
  }

  lemma SourceStep(records: seq<Record>, path: string, root: seq<string>, recompute: bool)
    ensures Step(State(records, Idle), "SF:" + path, root, recompute) == Ok(Begun(records, path))
  {
    var line := "SF:" + path;
    PrefixOf("SF:", path);
    assert line[0] == 'S';
    OtherStart(line, "TN:");
  }

  /** The lines of a record, from its SF line to its end. */
  function Block(path: string, body: seq<string>): seq<string>
  {
    ["SF:" + path] + (body + ["end_of_record"])
  }

  lemma BlockSteps(records: seq<Record>, path: string, body: seq<string>, root: seq<string>, recompute: bool)
    ensures Steps(State(records, Idle), Block(path, body), root, recompute) ==
            Continue(Steps(Begun(records, path), body, root, recompute), ["end_of_record"], root, recompute)
  {
    SourceStep(records, path, root, recompute);
    StepsCons(State(records, Idle), "SF:" + path, Begun(records, path), body + ["end_of_record"], root, recompute);
    StepsAppend(Begun(records, path), body, ["end_of_record"], root, recompute);
  }

  /**
   A record is read, as r, if and only if every line between its SF line and its end says a line's count, a total or a
   detail, none twice, its file is new, and r is what they describe.
   */
  lemma RecordIsReadIff(records: seq<Record>, path: string, body: seq<string>, root: seq<string>, recompute: bool, r: Record)
    requires forall i | 0 <= i < |body| :: Inner(body[i])
    ensures Steps(State(records, Idle), Block(path, body), root, recompute) == Ok(State(records + [r], Idle)) <==>
            !HasPath(records, r.path) &&
            exists items :: AllSay(body, items) && Unrepeated(items) && Describes(items, path, root, recompute, r)
  {
    BlockSteps(records, path, body, root, recompute);
    if Steps(Begun(records, path), body, root, recompute).Ok? {
      var items := ReadBodySays(records, path, body, root, recompute);
      OneStep(After(records, path, items), "end_of_record", root, recompute);
      EndStep(records, path, items, root, recompute, r);
    }
    if items :| AllSay(body, items) && Unrepeated(items) && Describes(items, path, root, recompute, r) {
      BodyIsRead(records, path, body, items, root, recompute);
      OneStep(After(records, path, items), "end_of_record", root, recompute);
      EndStep(records, path, items, root, recompute, r);
    }
  }

  // ----- Lines that no total or count comes from

  /** Lines that name functions or branches can be added to a record or taken out anywhere without changing what is read. */
  lemma DetailsDoNotCount(state: State, a: seq<string>, line: string, b: seq<string>, root: seq<string>, recompute: bool)
    requires StartsWith(line, "FN:") || StartsWith(line, "FNDA:") || StartsWith(line, "BR")
    requires Steps(state, a, root, recompute).Ok? ==> Steps(state, a, root, recompute).value.current.Active?
    ensures Steps(state, a + ([line] + b), root, recompute) == Steps(state, a + b, root, recompute)
  {
    StepsAppend(state, a, [line] + b, root, recompute);
    StepsAppend(state, a, b, root, recompute);
    var read := Steps(state, a, root, recompute);
    if read.Ok? {
      DetailStep(read.value, line, root, recompute);
      StepsCons(read.value, line, read.value, b, root, recompute);
    }
  }
}
