/** The byte stream behind the dataset checksum, and what the 32-bit hash of it can tell apart. */
module ChecksumBytes {
  import opened Sequences
  import opened CodeUnits

  newtype Byte = x: int | 0 <= x < 256

  /** A cell of the benchmark dataset. Undefined and null are one value here, as they are hashed alike. */
  datatype Value = Number(amount: real) | Str(text: Text) | Boolean(truth: bool) | Null

  const WORD: int := 0x1_0000_0000

  // ----- Bytes

  /** A number as 32 bits, least significant byte first; wider numbers lose their upper bits. */
  function Int32Bytes(n: int): (bytes: seq<Byte>)
    ensures |bytes| == 4
  {
    var u := n % WORD;
    var v := u / 256;
    var w := v / 256;
    [(u % 256) as Byte, (v % 256) as Byte, (w % 256) as Byte, (w / 256) as Byte]
  }

  function ReadInt32(b0: Byte, b1: Byte, b2: Byte, b3: Byte): int
  {
    b0 as int + 0x100 * b1 as int + 0x1_0000 * b2 as int + 0x100_0000 * b3 as int
  }

  function UnitBytes(unit: Unit): seq<Byte>
  {
    [(unit as int % 256) as Byte, (unit as int / 256) as Byte]
  }

  function UnitsBytes(text: Text): (bytes: seq<Byte>)
    ensures |bytes| == 2 * |text|
  {
    if text == [] then [] else UnitBytes(text[0]) + UnitsBytes(text[1..])
  }

  function Round(x: real): int
  {
    (x + 0.5).Floor
  }

  function Cents(x: real): int
  {
    Round(x * 100.0)
  }

  /** What is hashed for a value: a tag, and for texts the length and every code unit. */
  function ValueBytes(v: Value): (bytes: seq<Byte>)
    ensures bytes != []
  {
    match v
    case Number(x) => [0x6e] + Int32Bytes(Cents(x))
    case Str(t) => [0x73] + (Int32Bytes(|t|) + UnitsBytes(t))
    case Boolean(b) => [0x62, if b then 1 else 0]
    case Null => [0]
  }

  function CellsBytes(values: seq<Value>): seq<Byte>
  {
    if values == [] then [] else ([0xff] + ValueBytes(values[0])) + CellsBytes(values[1..])
  }

  function StreamBytes(count: int, values: seq<Value>): seq<Byte>
  {
    Int32Bytes(count) + CellsBytes(values)
  }

  // ----- Reading the stream back

  /** What the stream keeps of a value: of a number, its cents modulo 2^32. */
  datatype Kept = Money(cents: int) | Letters(letters: Text) | Truth(truth: bool) | Nothing

  function Keep(v: Value): Kept
  {
    match v
    case Number(x) => Money(Cents(x) % WORD)
    case Str(t) => Letters(t)
    case Boolean(b) => Truth(b)
    case Null => Nothing
  }

  function KeepAll(values: seq<Value>): (r: seq<Kept>)
    ensures |r| == |values|
  {
    if values == [] then [] else [Keep(values[0])] + KeepAll(values[1..])
  }

  datatype Read<T> = Bad | Got(value: T, rest: seq<Byte>)

  function ReadInt(bytes: seq<Byte>): Read<int>
  {
    if |bytes| < 4 then Bad else Got(ReadInt32(bytes[0], bytes[1], bytes[2], bytes[3]), bytes[4..])
  }

  function ToUnit(low: Byte, high: Byte): Unit
  {
    (low as int + 256 * high as int) as Unit
  }

  function ReadUnits(n: nat, bytes: seq<Byte>): Read<Text>
    decreases n
  {
    if n == 0 then Got([], bytes)
    else if |bytes| < 2 then Bad
    else
      match ReadUnits(n - 1, bytes[2..])
      case Bad => Bad
      case Got(t, rest) => Got([ToUnit(bytes[0], bytes[1])] + t, rest)
  }

  function ReadText(bytes: seq<Byte>): Read<Kept>
  {
    match ReadInt(bytes)
    case Bad => Bad
    case Got(n, rest) =>
      if n < 0 then Bad
      else
        match ReadUnits(n, rest)
        case Bad => Bad
        case Got(t, more) => Got(Letters(t), more)
  }

  function ReadValue(bytes: seq<Byte>): Read<Kept>
  {
    if bytes == [] then Bad
    else if bytes[0] == 0x6e then
      (match ReadInt(bytes[1..])
       case Bad => Bad
       case Got(n, rest) => Got(Money(n), rest))
    else if bytes[0] == 0x73 then ReadText(bytes[1..])
    else if bytes[0] == 0x62 && |bytes| > 1 then Got(Truth(bytes[1] == 1), bytes[2..])
    else if bytes[0] == 0 then Got(Nothing, bytes[1..])
    else Bad
  }

  function ReadCells(n: nat, bytes: seq<Byte>): Read<seq<Kept>>
    decreases n
  {
    if n == 0 then Got([], bytes)
    else if bytes == [] || bytes[0] != 0xff then Bad
    else
      match ReadValue(bytes[1..])
      case Bad => Bad
      case Got(v, rest) =>
        match ReadCells(n - 1, rest)
        case Bad => Bad
        case Got(vs, more) => Got([v] + vs, more)
  }

  lemma Int32Value(n: int)
    ensures var b := Int32Bytes(n); ReadInt32(b[0], b[1], b[2], b[3]) == n % WORD
  {
    var u := n % WORD;
    var v := u / 256;
    var w := v / 256;
  }

  lemma ReadFour(four: seq<Byte>, m: int, rest: seq<Byte>)
    requires |four| == 4 && ReadInt32(four[0], four[1], four[2], four[3]) == m
    ensures ReadInt(four + rest) == Got(m, rest)
  {
    assert (four + rest)[4..] == rest;
  }

  lemma Int32RoundTrip(n: int, m: int, rest: seq<Byte>)
    requires m == n % WORD
    ensures ReadInt(Int32Bytes(n) + rest) == Got(m, rest)
  {
    Int32Value(n);
    ReadFour(Int32Bytes(n), m, rest);
  }

  lemma UnitRoundTrip(unit: Unit)
    ensures ToUnit(UnitBytes(unit)[0], UnitBytes(unit)[1]) == unit
  {
  }

  lemma {:induction false} UnitsRoundTrip(text: Text, rest: seq<Byte>)
    ensures ReadUnits(|text|, UnitsBytes(text) + rest) == Got(text, rest)
  {
    if text == [] {
      assert UnitsBytes(text) + rest == rest;
    } else {
      var first, later := UnitBytes(text[0]), UnitsBytes(text[1..]);
      UnitsRoundTrip(text[1..], rest);
      UnitRoundTrip(text[0]);
      Assoc(first, later, rest);
      assert (first + (later + rest))[2..] == later + rest;
      assert [text[0]] + text[1..] == text;
    }
  }

  /** Lengths and row counts that the source can have. */
  predicate Short(v: Value)
  {
    v.Str? ==> |v.text| < WORD
  }

  lemma NumberRoundTrip(x: real, rest: seq<Byte>)
    ensures ReadValue(ValueBytes(Number(x)) + rest) == Got(Keep(Number(x)), rest)
  {
    Assoc([0x6e], Int32Bytes(Cents(x)), rest);
    Tail(0x6e, Int32Bytes(Cents(x)) + rest);
    Int32RoundTrip(Cents(x), Cents(x) % WORD, rest);
  }

  lemma ReadTagged(body: seq<Byte>)
    ensures ReadValue([0x73] + body) == ReadText(body)
  {
    Tail(0x73, body);
  }

  lemma ReadTextAfter(bytes: seq<Byte>, units: seq<Byte>, t: Text, rest: seq<Byte>)
    requires ReadInt(bytes) == Got(|t|, units) && ReadUnits(|t|, units) == Got(t, rest)
    ensures ReadText(bytes) == Got(Letters(t), rest)
  {
  }

  lemma TextBytes(t: Text, length: seq<Byte>, rest: seq<Byte>)
    requires length == Int32Bytes(|t|)
    ensures ValueBytes(Str(t)) + rest == [0x73] + (length + (UnitsBytes(t) + rest))
  {
    Assoc([0x73], length + UnitsBytes(t), rest);
    Assoc(length, UnitsBytes(t), rest);
  }

  lemma LengthRead(t: Text, units: seq<Byte>)
    requires |t| < WORD
    ensures ReadInt(Int32Bytes(|t|) + units) == Got(|t|, units)
  {
    Int32RoundTrip(|t|, |t|, units);
  }

  lemma TaggedText(t: Text, rest: seq<Byte>, length: seq<Byte>, units: seq<Byte>)
    requires length == Int32Bytes(|t|) && units == UnitsBytes(t) + rest
    ensures ReadValue(ValueBytes(Str(t)) + rest) == ReadText(length + units)
  {
    TextBytes(t, length, rest);
    ReadTagged(length + units);
  }

  lemma TextRoundTrip(t: Text, rest: seq<Byte>)
    requires |t| < WORD
    ensures ReadValue(ValueBytes(Str(t)) + rest) == Got(Letters(t), rest)
  {
    var length, units := Int32Bytes(|t|), UnitsBytes(t) + rest;
    TaggedText(t, rest, length, units);
    LengthRead(t, units);
    UnitsRoundTrip(t, rest);
    ReadTextAfter(length + units, units, t, rest);
  }

  /** A value is read back from its bytes, whatever follows. */
  lemma ValueRoundTrip(v: Value, rest: seq<Byte>)
    requires Short(v)
    ensures ReadValue(ValueBytes(v) + rest) == Got(Keep(v), rest)
  {
    match v
    case Number(x) => NumberRoundTrip(x, rest);
    case Str(t) => TextRoundTrip(t, rest);
    case Boolean(b) => assert (ValueBytes(v) + rest)[2..] == rest;
    case Null => assert (ValueBytes(v) + rest)[1..] == rest;
  }

  lemma {:induction false} CellsRoundTrip(values: seq<Value>, rest: seq<Byte>)
    requires forall v | v in values :: Short(v)
    ensures ReadCells(|values|, CellsBytes(values) + rest) == Got(KeepAll(values), rest)
  {
    if values == [] {
      assert CellsBytes(values) + rest == rest;
    } else {
      var first, later := ValueBytes(values[0]), CellsBytes(values[1..]);
      CellsRoundTrip(values[1..], rest);
      ValueRoundTrip(values[0], later + rest);
      Assoc([0xff] + first, later, rest);
      Assoc([0xff], first, later + rest);
      Tail(0xff, first + (later + rest));
    }
  }

  /** Integers give the same bytes exactly when they are equal modulo 2^32. */
  lemma WrappedBytes(m: int, n: int)
    ensures Int32Bytes(m) == Int32Bytes(n) <==> m % WORD == n % WORD
  {
    Int32Value(m);
    Int32Value(n);
  }

  lemma {:induction false} KeptDetermines(a: seq<Value>, b: seq<Value>)
    requires KeepAll(a) == KeepAll(b)
    ensures CellsBytes(a) == CellsBytes(b)
  {
    if a != [] {
      assert Keep(a[0]) == KeepAll(a)[0] && Keep(b[0]) == KeepAll(b)[0];
      assert KeepAll(a)[1..] == KeepAll(a[1..]) && KeepAll(b)[1..] == KeepAll(b[1..]);
      KeptDetermines(a[1..], b[1..]);
      if a[0].Number? { WrappedBytes(Cents(a[0].amount), Cents(b[0].amount)); }
    }
  }

  function ReadStream(bytes: seq<Byte>): Read<seq<Kept>>
  {
    match ReadInt(bytes)
    case Bad => Bad
    case Got(n, rest) => if n < 0 then Bad else ReadCells(n, rest)
  }

  lemma ReadStreamAfter(bytes: seq<Byte>, n: nat, cells: seq<Byte>, kept: seq<Kept>)
    requires ReadInt(bytes) == Got(n, cells) && ReadCells(n, cells) == Got(kept, [])
    ensures ReadStream(bytes) == Got(kept, [])
  {
  }

  lemma CountRead(n: nat, cells: seq<Byte>)
    requires n < WORD
    ensures ReadInt(Int32Bytes(n) + cells) == Got(n, cells)
  {
    Int32RoundTrip(n, n, cells);
  }

  lemma CellsRead(values: seq<Value>, cells: seq<Byte>)
    requires (forall v | v in values :: Short(v)) && cells == CellsBytes(values)
    ensures ReadCells(|values|, cells) == Got(KeepAll(values), [])
  {
    CellsRoundTrip(values, []);
    assert cells + [] == cells;
  }

  /** The whole stream is read back: the count, then that many values, and nothing is left. */
  lemma StreamRoundTrip(values: seq<Value>)
    requires (forall v | v in values :: Short(v)) && |values| < WORD
    ensures ReadStream(StreamBytes(|values|, values)) == Got(KeepAll(values), [])
  {
    var n, cells := |values|, CellsBytes(values);
    CountRead(n, cells);
    CellsRead(values, cells);
    ReadStreamAfter(Int32Bytes(n) + cells, n, cells, KeepAll(values));
  }

  lemma {:induction false} CellsInjective(a: seq<Value>, b: seq<Value>)
    requires (forall v | v in a :: Short(v)) && (forall v | v in b :: Short(v)) && CellsBytes(a) == CellsBytes(b)
    ensures KeepAll(a) == KeepAll(b)
  {
    if a != [] && b != [] {
      FirstCell(a);
      FirstCell(b);
      CellsInjective(a[1..], b[1..]);
    }
  }

  lemma FirstCell(values: seq<Value>)
    requires values != [] && Short(values[0])
    ensures CellsBytes(values) != [] && ReadValue(CellsBytes(values)[1..]) == Got(Keep(values[0]), CellsBytes(values[1..]))
  {
    var first, later := ValueBytes(values[0]), CellsBytes(values[1..]);
    ValueRoundTrip(values[0], later);
    Assoc([0xff], first, later);
    Tail(0xff, first + later);
  }

  /** Two streams are equal exactly when the values agree in what the stream keeps of them. */
  lemma StreamsEqualIffKeptEqual(a: seq<Value>, b: seq<Value>)
    requires (forall v | v in a :: Short(v)) && (forall v | v in b :: Short(v))
    ensures StreamBytes(|a|, a) == StreamBytes(|b|, b) <==> KeepAll(a) == KeepAll(b)
  {
    if StreamBytes(|a|, a) == StreamBytes(|b|, b) { SameCells(|a|, a, |b|, b); }
    if KeepAll(a) == KeepAll(b) { KeptDetermines(a, b); }
  }

  /** The count at the front is four bytes, whatever it is. */
  lemma SameCells(m: int, a: seq<Value>, n: int, b: seq<Value>)
    requires (forall v | v in a :: Short(v)) && (forall v | v in b :: Short(v)) && StreamBytes(m, a) == StreamBytes(n, b)
    ensures KeepAll(a) == KeepAll(b)
  {
    assert StreamBytes(m, a)[4..] == CellsBytes(a) && StreamBytes(n, b)[4..] == CellsBytes(b);
    CellsInjective(a, b);
  }
}
