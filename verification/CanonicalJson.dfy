/** Canonical JSON, used to fingerprint results and captures. */
module CanonicalJson {
  import opened Sequences
  import opened CodeUnits
  import opened KeyOrder
  import opened JsonNumbers
  import opened JsonStrings

  /** A host value: the JSON values, and the two kinds of value that have no JSON text. */
  datatype Value =
    | Undefined
    | NonFinite
    | Null
    | Bool(b: bool)
    | Number(d: Decimal)
    | String(t: Text)
    | Array(items: seq<Value>)
    | Object(fields: seq<Keyed<Value>>)

  datatype Error = UndefinedValue | NonFiniteNumber
  datatype Result<T> = Ok(value: T) | Err(error: Error)

  const COMMA: Unit := ',' as Unit
  const COLON: Unit := ':' as Unit
  const OPEN_ARRAY: Unit := '[' as Unit
  const CLOSE_ARRAY: Unit := ']' as Unit
  const OPEN_OBJECT: Unit := '{' as Unit
  const CLOSE_OBJECT: Unit := '}' as Unit
  const NULL_TEXT: Text := ['n' as Unit, 'u' as Unit, 'l' as Unit, 'l' as Unit]
  const TRUE_TEXT: Text := ['t' as Unit, 'r' as Unit, 'u' as Unit, 'e' as Unit]
  const FALSE_TEXT: Text := ['f' as Unit, 'a' as Unit, 'l' as Unit, 's' as Unit, 'e' as Unit]

  /** All results, or the first error in order, as a throwing `map` gives. */
  function Collect(rs: seq<Result<Text>>): Result<seq<Text>>
  {
    if rs == [] then Ok([])
    else
      match rs[0]
      case Err(e) => Err(e)
      case Ok(t) =>
        match Collect(rs[1..])
        case Err(e) => Err(e)
        case Ok(ts) => Ok([t] + ts)
  }

  function Label(key: Text, text: Text): Text
  {
    Quote(key) + ([COLON] + text)
  }

  function LabelResult(entry: Keyed<Result<Text>>): Result<Text>
  {
    match entry.value
    case Err(e) => Err(e)
    case Ok(t) => Ok(Label(entry.key, t))
  }

  function LabelAll(entries: seq<Keyed<Result<Text>>>): seq<Result<Text>>
  {
    if entries == [] then [] else [LabelResult(entries[0])] + LabelAll(entries[1..])
  }

  function Canonical(v: Value): Result<Text>
  {
    match v
    case Undefined => Err(UndefinedValue)
    case NonFinite => Err(NonFiniteNumber)
    case Null => Ok(NULL_TEXT)
    case Bool(b) => Ok(if b then TRUE_TEXT else FALSE_TEXT)
    case Number(d) => Ok(NumberText(d))
    case String(t) => Ok(Quote(t))
    case Array(items) =>
      (match Collect(seq(|items|, i requires 0 <= i < |items| => Canonical(items[i])))
       case Err(e) => Err(e)
       case Ok(ts) => Ok([OPEN_ARRAY] + (Join(ts, COMMA) + [CLOSE_ARRAY])))
    case Object(fields) =>
      var entries := Sort(seq(|fields|, i requires 0 <= i < |fields| => Keyed(fields[i].key, Canonical(fields[i].value))));
      match Collect(LabelAll(entries))
      case Err(e) => Err(e)
      case Ok(ts) => Ok([OPEN_OBJECT] + (Join(ts, COMMA) + [CLOSE_OBJECT]))
  }

  ghost predicate Encodable(v: Value)
  {
    match v
    case Undefined => false
    case NonFinite => false
    case Array(items) => forall i | 0 <= i < |items| :: Encodable(items[i])
    case Object(fields) => forall i | 0 <= i < |fields| :: Encodable(fields[i].value)
    case _ => true
  }

  /** The text of a value whose objects are listed in the order they should be written. */
  function Print(v: Value): Text
  {
    match v
    case Undefined => []
    case NonFinite => []
    case Null => NULL_TEXT
    case Bool(b) => if b then TRUE_TEXT else FALSE_TEXT
    case Number(d) => NumberText(d)
    case String(t) => Quote(t)
    case Array(items) => [OPEN_ARRAY] + (Join(PrintItems(items), COMMA) + [CLOSE_ARRAY])
    case Object(fields) => [OPEN_OBJECT] + (Join(PrintFields(fields), COMMA) + [CLOSE_OBJECT])
  }

  function PrintItems(items: seq<Value>): (ts: seq<Text>)
    ensures |ts| == |items|
  {
    if items == [] then [] else [Print(items[0])] + PrintItems(items[1..])
  }

  function PrintFields(fields: seq<Keyed<Value>>): (ts: seq<Text>)
    ensures |ts| == |fields|
  {
    if fields == [] then []
    else [Label(fields[0].key, Print(fields[0].value))] + PrintFields(fields[1..])
  }

  /** The value with every object's fields sorted by key. */
  function Norm(v: Value): Value
  {
    match v
    case Array(items) => Array(seq(|items|, i requires 0 <= i < |items| => Norm(items[i])))
    case Object(fields) =>
      Object(Sort(seq(|fields|, i requires 0 <= i < |fields| => Keyed(fields[i].key, Norm(fields[i].value)))))
    case _ => v
  }

  ghost predicate PrintsNorm(v: Value)
  {
    if Encodable(v) then Canonical(v) == Ok(Print(Norm(v))) else Canonical(v).Err?
  }

  lemma {:induction false} CollectItems(items: seq<Value>, rs: seq<Result<Text>>, normed: seq<Value>)
    requires |rs| == |items| == |normed|
    requires forall i | 0 <= i < |items| :: rs[i] == Canonical(items[i]) && normed[i] == Norm(items[i])
    requires forall i | 0 <= i < |items| :: PrintsNorm(items[i])
    ensures if forall i | 0 <= i < |items| :: Encodable(items[i])
            then Collect(rs) == Ok(PrintItems(normed)) else Collect(rs).Err?
  {
    if items != [] {
      assert PrintsNorm(items[0]);
      CollectItems(items[1..], rs[1..], normed[1..]);
      assert forall i | 0 < i < |items| :: items[i] == items[1..][i - 1];
    }
  }

  lemma {:induction false} CollectFields(fields: seq<Keyed<Value>>, entries: seq<Keyed<Result<Text>>>, normed: seq<Keyed<Value>>)
    requires |entries| == |fields| == |normed|
    requires forall i | 0 <= i < |fields| :: entries[i] == Keyed(fields[i].key, Canonical(fields[i].value))
    requires forall i | 0 <= i < |fields| :: normed[i] == Keyed(fields[i].key, Norm(fields[i].value))
    requires forall i | 0 <= i < |fields| :: PrintsNorm(fields[i].value)
    ensures if forall i | 0 <= i < |fields| :: Encodable(fields[i].value)
            then Collect(LabelAll(entries)) == Ok(PrintFields(normed)) else Collect(LabelAll(entries)).Err?
  {
    if fields != [] {
      assert PrintsNorm(fields[0].value);
      CollectFields(fields[1..], entries[1..], normed[1..]);
      assert forall i | 0 < i < |fields| :: fields[i] == fields[1..][i - 1];
    }
  }

  lemma SortedEntries(fields: seq<Keyed<Value>>)
    ensures Sort(seq(|fields|, i requires 0 <= i < |fields| => Keyed(fields[i].key, Canonical(fields[i].value)))) ==
            MapValues(Canonical, Sort(fields))
  {
    SortMap(Canonical, fields);
    assert seq(|fields|, i requires 0 <= i < |fields| => Keyed(fields[i].key, Canonical(fields[i].value))) ==
           MapValues(Canonical, fields);
  }

  lemma NormObject(fields: seq<Keyed<Value>>)
    ensures Norm(Object(fields)) == Object(Sort(MapValues(Norm, fields)))
    ensures Norm(Object(fields)) == Object(MapValues(Norm, Sort(fields)))
  {
    SortMap(Norm, fields);
    assert seq(|fields|, i requires 0 <= i < |fields| => Keyed(fields[i].key, Norm(fields[i].value))) ==
           MapValues(Norm, fields);
  }

  lemma SortedFieldsAgree(fields: seq<Keyed<Value>>)
    requires forall i | 0 <= i < |fields| :: PrintsNorm(fields[i].value)
    ensures forall k | 0 <= k < |Sort(fields)| :: PrintsNorm(Sort(fields)[k].value)
    ensures (forall i | 0 <= i < |fields| :: Encodable(fields[i].value)) <==>
            (forall k | 0 <= k < |Sort(fields)| :: Encodable(Sort(fields)[k].value))
  {
    var sorted := Sort(fields);
    SortMembers(fields);
    assert forall f | f in fields :: PrintsNorm(f.value);
    assert forall k | 0 <= k < |sorted| :: sorted[k] in fields;
    assert forall k | 0 <= k < |fields| :: fields[k] in sorted;
  }

  lemma ObjectPrints(fields: seq<Keyed<Value>>)
    requires forall i | 0 <= i < |fields| :: PrintsNorm(fields[i].value)
    ensures PrintsNorm(Object(fields))
  {
    var sorted := Sort(fields);
    SortedFieldsAgree(fields);
    SortedEntries(fields);
    NormObject(fields);
    CollectFields(sorted, MapValues(Canonical, sorted), MapValues(Norm, sorted));
  }

  /** The canonical form exists exactly for JSON values, and is the text of the value with sorted keys. */
  lemma {:induction false} CanonicalPrints(v: Value)
    ensures if Encodable(v) then Canonical(v) == Ok(Print(Norm(v))) else Canonical(v).Err?
  {
    match v
    case Array(items) =>
      forall i | 0 <= i < |items| ensures PrintsNorm(items[i]) { CanonicalPrints(items[i]); }
      CollectItems(items, seq(|items|, i requires 0 <= i < |items| => Canonical(items[i])),
                   seq(|items|, i requires 0 <= i < |items| => Norm(items[i])));
    case Object(fields) =>
      forall i | 0 <= i < |fields| ensures PrintsNorm(fields[i].value) { CanonicalPrints(fields[i].value); }
      ObjectPrints(fields);
      assert PrintsNorm(v);
    case _ =>
  }

  /** Text that can follow any value without being read as part of it. */
  predicate EndsValue(rest: Text) { EndsNumber(rest) }

  function ReadWord(s: Text, word: Text, v: Value): (r: Parsed<Value>)
    requires word != []
    ensures r.Good? ==> |r.rest| < |s|
  {
    if |word| <= |s| && s[..|word|] == word then Good(v, s[|word|..]) else Bad
  }

  /** A reader for values as they are printed. */
  function ReadValue(s: Text): (r: Parsed<Value>)
    ensures r.Good? ==> |r.rest| < |s|
    decreases |s|, 0
  {
    if s == [] then Bad
    else if s[0] == 'n' as Unit then ReadWord(s, NULL_TEXT, Null)
    else if s[0] == 't' as Unit then ReadWord(s, TRUE_TEXT, Bool(true))
    else if s[0] == 'f' as Unit then ReadWord(s, FALSE_TEXT, Bool(false))
    else if s[0] == QUOTE then
      (match ReadContent(s[1..])
       case Bad => Bad
       case Good(t, rest) => Good(String(t), rest))
    else if s[0] == OPEN_ARRAY then
      (match ReadItems(s[1..])
       case Bad => Bad
       case Good(items, rest) => Good(Array(items), rest))
    else if s[0] == OPEN_OBJECT then
      (match ReadFields(s[1..])
       case Bad => Bad
       case Good(fields, rest) => Good(Object(fields), rest))
    else
      match ReadNumber(s)
      case Bad => Bad
      case Good(d, rest) => Good(Number(d), rest)
  }

  /** Items up to and including the closing bracket. */
  function ReadItems(s: Text): (r: Parsed<seq<Value>>)
    ensures r.Good? ==> |r.rest| < |s|
    decreases |s|, 1
  {
    if s == [] then Bad
    else if s[0] == CLOSE_ARRAY then Good([], s[1..])
    else
      match ReadValue(s)
      case Bad => Bad
      case Good(v, rest) =>
        if rest == [] then Bad
        else if rest[0] == CLOSE_ARRAY then Good([v], rest[1..])
        else if rest[0] != COMMA then Bad
        else
          match ReadItems(rest[1..])
          case Bad => Bad
          case Good(vs, rest') => Good([v] + vs, rest')
  }

  /** One quoted key, a colon and a value. */
  function ReadField(s: Text): (r: Parsed<Keyed<Value>>)
    ensures r.Good? ==> |r.rest| < |s|
    decreases |s|, 1
  {
    if s == [] || s[0] != QUOTE then Bad
    else
      match ReadContent(s[1..])
      case Bad => Bad
      case Good(key, rest) =>
        if rest == [] || rest[0] != COLON then Bad
        else
          match ReadValue(rest[1..])
          case Bad => Bad
          case Good(v, rest') => Good(Keyed(key, v), rest')
  }

  function ReadFields(s: Text): (r: Parsed<seq<Keyed<Value>>>)
    ensures r.Good? ==> |r.rest| < |s|
    decreases |s|, 2
  {
    if s == [] then Bad
    else if s[0] == CLOSE_OBJECT then Good([], s[1..])
    else
      match ReadField(s)
      case Bad => Bad
      case Good(f, rest) =>
        if rest == [] then Bad
        else if rest[0] == CLOSE_OBJECT then Good([f], rest[1..])
        else if rest[0] != COMMA then Bad
        else
          match ReadFields(rest[1..])
          case Bad => Bad
          case Good(fs, rest') => Good([f] + fs, rest')
  }

  /** Numbers are valid decimals and no object has a key twice. */
  ghost predicate WellFormed(v: Value)
  {
    match v
    case Number(d) => d.Valid()
    case Array(items) => forall i | 0 <= i < |items| :: WellFormed(items[i])
    case Object(fields) => UniqueKeys(fields) && forall i | 0 <= i < |fields| :: WellFormed(fields[i].value)
    case _ => true
  }

  /** What the reader needs of the first unit of a printed value. */
  predicate StartsValue(s: Text)
  {
    s != [] && s[0] != CLOSE_ARRAY && s[0] != CLOSE_OBJECT
  }

  lemma NumberStart(d: Decimal, rest: Text)
    requires d.Valid()
    ensures var s := NumberText(d) + rest; s != [] && (IsDigit(s[0]) || s[0] == MINUS)
  {
    LayoutKeepsValue(d);
  }

  lemma PrintStarts(v: Value, rest: Text)
    requires Encodable(v) && WellFormed(v)
    ensures StartsValue(Print(v) + rest)
  {
    if v.Number? { NumberStart(v.d, rest); }
  }

  lemma ReadWordOf(word: Text, v: Value, rest: Text)
    requires word != []
    ensures ReadWord(word + rest, word, v) == Good(v, rest)
  {
    assert (word + rest)[..|word|] == word && (word + rest)[|word|..] == rest;
  }

  lemma ReadNumberStart(s: Text, d: Decimal, rest: Text)
    requires s != [] && (IsDigit(s[0]) || s[0] == MINUS) && ReadNumber(s) == Good(d, rest)
    ensures ReadValue(s) == Good(Number(d), rest)
  {
  }

  lemma ReadNumberValue(d: Decimal, rest: Text)
    requires d.Valid() && EndsNumber(rest)
    ensures ReadValue(NumberText(d) + rest) == Good(Number(d), rest)
  {
    NumberStart(d, rest);
    NumberRoundTrip(d, rest);
    ReadNumberStart(NumberText(d) + rest, d, rest);
  }

  lemma QuoteThen(t: Text, rest: Text)
    ensures Quote(t) + rest == [QUOTE] + (Escape(t) + ([QUOTE] + rest))
  {
    Assoc([QUOTE], Escape(t) + [QUOTE], rest);
    Assoc(Escape(t), [QUOTE], rest);
  }

  lemma ReadStringValue(t: Text, rest: Text)
    ensures ReadValue(Quote(t) + rest) == Good(String(t), rest)
  {
    QuoteThen(t, rest);
    Tail(QUOTE, Escape(t) + ([QUOTE] + rest));
    ReadContentOf(t, rest);
  }

  lemma ReadArrayValue(s: Text, items: seq<Value>, rest: Text)
    requires ReadItems(s) == Good(items, rest)
    ensures ReadValue([OPEN_ARRAY] + s) == Good(Array(items), rest)
  {
    Tail(OPEN_ARRAY, s);
  }

  lemma ReadObjectValue(s: Text, fields: seq<Keyed<Value>>, rest: Text)
    requires ReadFields(s) == Good(fields, rest)
    ensures ReadValue([OPEN_OBJECT] + s) == Good(Object(fields), rest)
  {
    Tail(OPEN_OBJECT, s);
  }

  lemma Bracketed(open: Unit, body: Text, close: Unit, rest: Text)
    ensures [open] + (body + [close]) + rest == [open] + (body + ([close] + rest))
  {
    Assoc([open], body + [close], rest);
    Assoc(body, [close], rest);
  }

  /** Every JSON value is read back from its text, whatever text ends it. */
  lemma {:induction false} ReadPrinted(v: Value, rest: Text)
    requires Encodable(v) && WellFormed(v) && EndsValue(rest)
    ensures ReadValue(Print(v) + rest) == Good(v, rest)
    decreases v, 2
  {
    match v
    case Null => ReadWordOf(NULL_TEXT, Null, rest);
    case Bool(b) => if b { ReadWordOf(TRUE_TEXT, v, rest); } else { ReadWordOf(FALSE_TEXT, v, rest); }
    case Number(d) => ReadNumberValue(d, rest);
    case String(t) => ReadStringValue(t, rest);
    case Array(items) =>
      var body := Join(PrintItems(items), COMMA);
      ReadPrintedItems(items, rest);
      Bracketed(OPEN_ARRAY, body, CLOSE_ARRAY, rest);
      ReadArrayValue(body + ([CLOSE_ARRAY] + rest), items, rest);
    case Object(fields) =>
      var body := Join(PrintFields(fields), COMMA);
      ReadPrintedFields(fields, rest);
      Bracketed(OPEN_OBJECT, body, CLOSE_OBJECT, rest);
      ReadObjectValue(body + ([CLOSE_OBJECT] + rest), fields, rest);
  }

  lemma JoinStep(first: Text, others: seq<Text>, tail: Text)
    ensures Join([first] + others, COMMA) + tail ==
            first + (if others == [] then tail else [COMMA] + (Join(others, COMMA) + tail))
  {
    var texts := [first] + others;
    if others != [] {
      assert texts[1..] == others;
      Assoc(first + [COMMA], Join(others, COMMA), tail);
      Assoc(first, [COMMA], Join(others, COMMA) + tail);
    }
  }

  lemma ReadItemsStep(s: Text, v: Value, after: Text, vs: seq<Value>, rest: Text)
    requires StartsValue(s) && ReadValue(s) == Good(v, [COMMA] + after)
    requires ReadItems(after) == Good(vs, rest)
    ensures ReadItems(s) == Good([v] + vs, rest)
  {
    Tail(COMMA, after);
  }

  lemma {:induction false} ReadPrintedItems(items: seq<Value>, rest: Text)
    requires forall i | 0 <= i < |items| :: Encodable(items[i]) && WellFormed(items[i])
    ensures ReadItems(Join(PrintItems(items), COMMA) + ([CLOSE_ARRAY] + rest)) == Good(items, rest)
    decreases items, 1
  {
    var end := [CLOSE_ARRAY] + rest;
    Tail(CLOSE_ARRAY, rest);
    if items == [] {
      assert Join(PrintItems(items), COMMA) + end == end;
    } else {
      var others := items[1..];
      var after := Join(PrintItems(others), COMMA) + end;
      JoinStep(Print(items[0]), PrintItems(others), end);
      var tail := if others == [] then end else [COMMA] + after;
      PrintStarts(items[0], tail);
      ReadPrinted(items[0], tail);
      assert items == [items[0]] + others;
      if others != [] {
        ReadPrintedItems(others, rest);
        ReadItemsStep(Print(items[0]) + tail, items[0], after, others, rest);
      } else {
        assert items == [items[0]];
      }
    }
  }

  lemma ReadFieldStep(key: Text, v: Value, text: Text, rest: Text)
    requires ReadValue(text) == Good(v, rest)
    ensures ReadField([QUOTE] + (Escape(key) + ([QUOTE] + ([COLON] + text)))) == Good(Keyed(key, v), rest)
  {
    Tail(QUOTE, Escape(key) + ([QUOTE] + ([COLON] + text)));
    ReadContentOf(key, [COLON] + text);
    Tail(COLON, text);
  }

  lemma ReadPrintedField(f: Keyed<Value>, rest: Text)
    requires Encodable(f.value) && WellFormed(f.value) && EndsValue(rest)
    ensures ReadField(Label(f.key, Print(f.value)) + rest) == Good(f, rest)
    ensures StartsValue(Label(f.key, Print(f.value)) + rest)
    decreases f, 3
  {
    var text := Print(f.value) + rest;
    Assoc(Quote(f.key), [COLON] + Print(f.value), rest);
    Assoc([COLON], Print(f.value), rest);
    QuoteThen(f.key, [COLON] + text);
    ReadPrinted(f.value, rest);
    ReadFieldStep(f.key, f.value, text, rest);
  }

  lemma ReadFieldsStep(s: Text, f: Keyed<Value>, after: Text, fs: seq<Keyed<Value>>, rest: Text)
    requires StartsValue(s) && ReadField(s) == Good(f, [COMMA] + after)
    requires ReadFields(after) == Good(fs, rest)
    ensures ReadFields(s) == Good([f] + fs, rest)
  {
    Tail(COMMA, after);
  }

  lemma {:induction false} ReadPrintedFields(fields: seq<Keyed<Value>>, rest: Text)
    requires forall i | 0 <= i < |fields| :: Encodable(fields[i].value) && WellFormed(fields[i].value)
    ensures ReadFields(Join(PrintFields(fields), COMMA) + ([CLOSE_OBJECT] + rest)) == Good(fields, rest)
    decreases fields, 1
  {
    var end := [CLOSE_OBJECT] + rest;
    Tail(CLOSE_OBJECT, rest);
    if fields == [] {
      assert Join(PrintFields(fields), COMMA) + end == end;
    } else {
      var others := fields[1..];
      var after := Join(PrintFields(others), COMMA) + end;
      var text := Label(fields[0].key, Print(fields[0].value));
      JoinStep(text, PrintFields(others), end);
      var tail := if others == [] then end else [COMMA] + after;
      ReadPrintedField(fields[0], tail);
      assert fields == [fields[0]] + others;
      if others != [] {
        ReadPrintedFields(others, rest);
        ReadFieldsStep(text + tail, fields[0], after, others, rest);
      } else {
        assert fields == [fields[0]];
      }
    }
  }

  /** Equality of values up to the order in which objects list their fields. */
  ghost predicate Same(v: Value, w: Value)
    decreases v
  {
    match (v, w)
    case (Array(a), Array(b)) => |a| == |b| && forall i | 0 <= i < |a| :: Same(a[i], b[i])
    case (Object(f), Object(g)) =>
      && (forall i | 0 <= i < |f| :: HasField(f[i], g))
      && (forall j | 0 <= j < |g| :: FieldOf(f, g[j]))
    case _ => v == w
  }

  ghost predicate HasField(x: Keyed<Value>, g: seq<Keyed<Value>>)
    decreases x
  {
    exists j | 0 <= j < |g| :: x.key == g[j].key && Same(x.value, g[j].value)
  }

  ghost predicate FieldOf(f: seq<Keyed<Value>>, y: Keyed<Value>)
    decreases f
  {
    exists i | 0 <= i < |f| :: f[i].key == y.key && Same(f[i].value, y.value)
  }

  /** Sorting the keys keeps a value encodable and well formed. */
  lemma {:induction false} NormKeeps(v: Value)
    requires WellFormed(v)
    ensures WellFormed(Norm(v)) && (Encodable(v) ==> Encodable(Norm(v)))
  {
    match v
    case Array(items) =>
      forall i | 0 <= i < |items| { NormKeeps(items[i]); }
    case Object(fields) =>
      forall i | 0 <= i < |fields| { NormKeeps(fields[i].value); }
      NormObject(fields);
      var normed := MapValues(Norm, fields);
      SortMembers(normed);
      SortAscending(normed);
      AscendingUniqueKeys(Sort(normed));
      forall k | 0 <= k < |normed|
        ensures WellFormed(Sort(normed)[k].value) && (Encodable(v) ==> Encodable(Sort(normed)[k].value))
      {
        assert Sort(normed)[k] in normed;
        var i :| 0 <= i < |normed| && normed[i] == Sort(normed)[k];
      }
    case _ =>
  }

  lemma AscendingUniqueKeys<T>(xs: seq<Keyed<T>>)
    requires Ascending(xs)
    ensures UniqueKeys(xs)
  {
    forall i, j | 0 <= i < j < |xs|
      ensures xs[i].key != xs[j].key
    {
      LessTrichotomy(xs[i].key, xs[j].key);
    }
  }

  /** A field with the same key and the same sorted value. */
  ghost predicate Counterpart(x: Keyed<Value>, g: seq<Keyed<Value>>)
  {
    exists j | 0 <= j < |g| :: x.key == g[j].key && Norm(x.value) == Norm(g[j].value)
  }

  ghost predicate Counterparts(f: seq<Keyed<Value>>, g: seq<Keyed<Value>>)
  {
    forall i | 0 <= i < |f| :: Counterpart(f[i], g)
  }

  lemma CounterpartIsMember(x: Keyed<Value>, g: seq<Keyed<Value>>)
    ensures Counterpart(x, g) <==> Keyed(x.key, Norm(x.value)) in MapValues(Norm, g)
  {
    var ys := MapValues(Norm, g);
    var y := Keyed(x.key, Norm(x.value));
    if y in ys {
      var j :| 0 <= j < |ys| && ys[j] == y;
      assert x.key == g[j].key && Norm(x.value) == Norm(g[j].value);
    }
    if Counterpart(x, g) {
      var j :| 0 <= j < |g| && x.key == g[j].key && Norm(x.value) == Norm(g[j].value);
      assert ys[j] == y;
    }
  }

  lemma CounterpartsAreMembers(f: seq<Keyed<Value>>, g: seq<Keyed<Value>>)
    ensures Counterparts(f, g) <==> forall y | y in MapValues(Norm, f) :: y in MapValues(Norm, g)
  {
    var xs := MapValues(Norm, f);
    forall i | 0 <= i < |f|
      ensures Counterpart(f[i], g) <==> xs[i] in MapValues(Norm, g)
    {
      CounterpartIsMember(f[i], g);
    }
    assert forall i | 0 <= i < |f| :: xs[i] in xs;
    if Counterparts(f, g) {
      forall y | y in xs
        ensures y in MapValues(Norm, g)
      {
        var i :| 0 <= i < |xs| && xs[i] == y;
        assert Counterpart(f[i], g);
      }
    } else {
      var i :| 0 <= i < |f| && !Counterpart(f[i], g);
      assert xs[i] !in MapValues(Norm, g);
    }
  }

  lemma NormObjectsAgree(f: seq<Keyed<Value>>, g: seq<Keyed<Value>>)
    requires UniqueKeys(f) && UniqueKeys(g)
    ensures Norm(Object(f)) == Norm(Object(g)) <==> Counterparts(f, g) && Counterparts(g, f)
  {
    var xs, ys := MapValues(Norm, f), MapValues(Norm, g);
    NormObject(f);
    NormObject(g);
    CounterpartsAreMembers(f, g);
    CounterpartsAreMembers(g, f);
    SortMembers(xs);
    SortMembers(ys);
    if Counterparts(f, g) && Counterparts(g, f) { SortCanonical(xs, ys); }
  }

  lemma SameObjects(f: seq<Keyed<Value>>, g: seq<Keyed<Value>>)
    requires forall i, j | 0 <= i < |f| && 0 <= j < |g| ::
               Same(f[i].value, g[j].value) <==> Norm(f[i].value) == Norm(g[j].value)
    ensures Same(Object(f), Object(g)) <==> Counterparts(f, g) && Counterparts(g, f)
  {
    forall i | 0 <= i < |f|
      ensures HasField(f[i], g) <==> Counterpart(f[i], g)
    {
    }
    forall j | 0 <= j < |g|
      ensures FieldOf(f, g[j]) <==> Counterpart(g[j], f)
    {
    }
  }

  lemma {:induction false} SameIffNorm(v: Value, w: Value)
    requires WellFormed(v) && WellFormed(w)
    ensures Same(v, w) <==> Norm(v) == Norm(w)
    decreases v
  {
    match (v, w)
    case (Array(a), Array(b)) =>
      forall i | 0 <= i < |a| && i < |b| { SameIffNorm(a[i], b[i]); }
      if Norm(v) == Norm(w) {
        assert |Norm(v).items| == |a| && |Norm(w).items| == |b|;
        assert forall i | 0 <= i < |a| :: Norm(v).items[i] == Norm(a[i]) && Norm(w).items[i] == Norm(b[i]);
      }
    case (Object(f), Object(g)) =>
      forall i, j | 0 <= i < |f| && 0 <= j < |g|
        ensures Same(f[i].value, g[j].value) <==> Norm(f[i].value) == Norm(g[j].value)
      {
        SameIffNorm(f[i].value, g[j].value);
      }
      SameObjects(f, g);
      NormObjectsAgree(f, g);
    case _ =>
  }

  /** A value and its normal form are the same up to key order. */
  lemma NormIsSame(v: Value)
    requires WellFormed(v)
    ensures WellFormed(Norm(v)) && Same(v, Norm(v))
  {
    NormKeeps(v);
    NormIdempotent(v);
    SameIffNorm(v, Norm(v));
  }

  /** The canonical text gives back the normal form of the value, whatever text follows it. */
  lemma CanonicalRoundTrip(v: Value, rest: Text)
    requires WellFormed(v) && Canonical(v).Ok? && EndsValue(rest)
    ensures ReadValue(Canonical(v).value + rest) == Good(Norm(v), rest)
  {
    CanonicalPrints(v);
    NormKeeps(v);
    ReadPrinted(Norm(v), rest);
  }

  /** Sorting by different keys a second time changes nothing. */
  lemma SortTwice<T(!new)>(xs: seq<Keyed<T>>)
    requires UniqueKeys(xs)
    ensures Sort(Sort(xs)) == Sort(xs)
  {
    SortAscending(xs);
    AscendingUniqueKeys(Sort(xs));
    SortMembers(Sort(xs));
    SortAscending(Sort(xs));
    AscendingUnique(Sort(Sort(xs)), Sort(xs));
  }

  lemma NormedStay(normed: seq<Keyed<Value>>)
    requires forall i | 0 <= i < |normed| :: Norm(normed[i].value) == normed[i].value
    ensures MapValues(Norm, Sort(normed)) == Sort(normed)
  {
    SortMembers(normed);
    var again := MapValues(Norm, Sort(normed));
    forall k | 0 <= k < |again|
      ensures again[k] == Sort(normed)[k]
    {
      assert Sort(normed)[k] in normed;
      var i :| 0 <= i < |normed| && normed[i] == Sort(normed)[k];
    }
  }

  lemma {:induction false} NormIdempotent(v: Value)
    requires WellFormed(v)
    ensures Norm(Norm(v)) == Norm(v)
  {
    match v
    case Array(items) =>
      forall i | 0 <= i < |items| { NormIdempotent(items[i]); }
    case Object(fields) =>
      forall i | 0 <= i < |fields| { NormIdempotent(fields[i].value); }
      var normed := MapValues(Norm, fields);
      NormObject(fields);
      NormObject(Sort(normed));
      NormedStay(normed);
      SortTwice(normed);
    case _ =>
  }

  /** Two values have the same canonical JSON exactly when they are equal up to the order of object keys. */
  lemma CanonicalIffSame(v: Value, w: Value)
    requires WellFormed(v) && WellFormed(w) && Encodable(v) && Encodable(w)
    ensures Canonical(v).Ok? && Canonical(w).Ok?
    ensures Canonical(v) == Canonical(w) <==> Same(v, w)
  {
    CanonicalPrints(v);
    CanonicalPrints(w);
    SameIffNorm(v, w);
    if Canonical(v) == Canonical(w) {
      CanonicalRoundTrip(v, []);
      CanonicalRoundTrip(w, []);
    }
  }
}
