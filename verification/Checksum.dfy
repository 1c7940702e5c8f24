/** The FNV-1a hash of byte streams, and the checksums built on it. */
module Checksum {
  import opened Sequences
  import opened CodeUnits
  import opened ChecksumBytes
  import opened Fnv

  function HashByte(hash: bv32, b: Byte): bv32
  {
    HashBits(hash, (b as int) as bv32)
  }

  function HashBytes(hash: bv32, bytes: seq<Byte>): bv32
  {
    if bytes == [] then hash else HashByte(HashBytes(hash, bytes[..|bytes| - 1]), bytes[|bytes| - 1])
  }

  lemma HashOne(hash: bv32, b: Byte)
    ensures HashBytes(hash, [b]) == HashByte(hash, b)
  {
    assert [b][..0] == [];
  }

  lemma {:induction false} HashAppend(hash: bv32, a: seq<Byte>, b: seq<Byte>)
    ensures HashBytes(hash, a + b) == HashBytes(HashBytes(hash, a), b)
  {
    if b == [] {
      assert a + b == a;
    } else {
      HashAppend(hash, a, b[..|b| - 1]);
      assert (a + b)[..|a + b| - 1] == a + b[..|b| - 1];
    }
  }

  // ----- What the hash tells apart

  lemma SameByteInjective(g: bv32, h: bv32, b: Byte)
    requires HashByte(g, b) == HashByte(h, b)
    ensures g == h
  {
    SameStepInjective(g, h, (b as int) as bv32);
  }

  lemma SameHashInjective(h: bv32, a: Byte, b: Byte)
    requires HashByte(h, a) == HashByte(h, b)
    ensures a == b
  {
    StepInjective(h, (a as int) as bv32, (b as int) as bv32);
    SameWord(a as int, b as int);
  }

  /** Different hashes stay different when the same bytes follow. */
  lemma {:induction false} SuffixInjective(g: bv32, h: bv32, bytes: seq<Byte>)
    requires HashBytes(g, bytes) == HashBytes(h, bytes)
    ensures g == h
  {
    if bytes != [] {
      var init, last := bytes[..|bytes| - 1], bytes[|bytes| - 1];
      SameByteInjective(HashBytes(g, init), HashBytes(h, init), last);
      SuffixInjective(g, h, init);
    }
  }

  /** Streams that differ in exactly one byte never have the same hash. */
  lemma OneByteChangeDetected(hash: bv32, before: seq<Byte>, a: Byte, b: Byte, after: seq<Byte>)
    requires a != b
    ensures HashBytes(hash, before + ([a] + after)) != HashBytes(hash, before + ([b] + after))
  {
    var h := HashBytes(hash, before);
    HashAppend(hash, before, [a] + after);
    HashAppend(hash, before, [b] + after);
    HashAppend(h, [a], after);
    HashAppend(h, [b], after);
    HashOne(h, a);
    HashOne(h, b);
    if HashBytes(h, [a] + after) == HashBytes(h, [b] + after) {
      SuffixInjective(HashByte(h, a), HashByte(h, b), after);
      SameHashInjective(h, a, b);
    }
  }

  // ----- The hashing functions of the source

  method HashInteger(hash: bv32, value: int) returns (next: bv32)
    ensures next == HashBytes(hash, Int32Bytes(value))
  {
    next := HashFour(hash, Int32Bytes(value));
  }

  method HashFour(hash: bv32, bytes: seq<Byte>) returns (next: bv32)
    requires |bytes| == 4
    ensures next == HashBytes(hash, bytes)
  {
    next := hash;
    for i := 0 to 4
      invariant next == HashBytes(hash, bytes[..i])
    {
      assert bytes[..i + 1][..i] == bytes[..i];
      next := HashByte(next, bytes[i]);
    }
    assert bytes[..4] == bytes;
  }

  lemma UnitsBytesAppend(text: Text, unit: Unit)
    ensures UnitsBytes(text + [unit]) == UnitsBytes(text) + UnitBytes(unit)
  {
    if text == [] {
      assert [unit][1..] == [];
      assert UnitsBytes([unit]) == UnitBytes(unit) + [];
    } else {
      UnitsBytesAppend(text[1..], unit);
      assert (text + [unit])[1..] == text[1..] + [unit];
      Assoc(UnitBytes(text[0]), UnitsBytes(text[1..]), UnitBytes(unit));
    }
  }

  lemma HashTwo(hash: bv32, a: Byte, b: Byte)
    ensures HashBytes(hash, [a, b]) == HashByte(HashByte(hash, a), b)
  {
    assert [a, b][..1] == [a];
    HashOne(hash, a);
  }

  /** A code unit, low byte first. */
  method HashUnit(hash: bv32, code: Unit) returns (next: bv32)
    ensures next == HashBytes(hash, UnitBytes(code))
  {
    var low, high := (code as int % 256) as Byte, (code as int / 256) as Byte;
    next := HashByte(hash, low);
    next := HashByte(next, high);
    HashTwo(hash, low, high);
  }

  method HashUnits(hash: bv32, value: Text) returns (next: bv32)
    ensures next == HashBytes(hash, UnitsBytes(value))
  {
    next := hash;
    for index := 0 to |value|
      invariant next == HashBytes(hash, UnitsBytes(value[..index]))
    {
      next := HashUnit(next, value[index]);
      UnitsBytesAppend(value[..index], value[index]);
      assert value[..index + 1] == value[..index] + [value[index]];
      HashAppend(hash, UnitsBytes(value[..index]), UnitBytes(value[index]));
    }
    assert value[..|value|] == value;
  }

  lemma HashThree(hash: bv32, a: seq<Byte>, b: seq<Byte>, c: seq<Byte>)
    ensures HashBytes(hash, a + (b + c)) == HashBytes(HashBytes(HashBytes(hash, a), b), c)
  {
    HashAppend(hash, a, b + c);
    HashAppend(HashBytes(hash, a), b, c);
  }

  method HashString(hash: bv32, value: Text) returns (next: bv32)
    ensures next == HashBytes(hash, [0x73] + (Int32Bytes(|value|) + UnitsBytes(value)))
  {
    next := HashByte(hash, 0x73);
    HashOne(hash, 0x73);
    next := HashInteger(next, |value|);
    next := HashUnits(next, value);
    HashThree(hash, [0x73], Int32Bytes(|value|), UnitsBytes(value));
  }

  method HashLogicalValue(hash: bv32, value: Value) returns (next: bv32)
    ensures next == HashBytes(hash, ValueBytes(value))
  {
    if value.Number? {
      next := HashByte(hash, 0x6e);
      next := HashInteger(next, Cents(value.amount));
      HashAppend(hash, [0x6e], Int32Bytes(Cents(value.amount)));
      HashOne(hash, 0x6e);
    } else if value.Str? {
      next := HashString(hash, value.text);
    } else if value.Boolean? {
      next := HashByte(HashByte(hash, 0x62), if value.truth then 1 else 0);
      HashTwo(hash, 0x62, if value.truth then 1 else 0);
    } else {
      next := HashByte(hash, 0);
      HashOne(hash, 0);
    }
  }

  lemma OneCell(value: Value)
    ensures CellsBytes([value]) == [0xff] + ValueBytes(value)
  {
    assert [value][1..] == [];
    assert CellsBytes([]) == [];
    assert ([0xff] + ValueBytes(value)) + [] == [0xff] + ValueBytes(value);
  }

  /** One cell of a checksum: a separator and the value. */
  method HashCell(hash: bv32, value: Value) returns (next: bv32)
    ensures next == HashBytes(hash, CellsBytes([value]))
  {
    next := HashByte(hash, 0xff);
    next := HashLogicalValue(next, value);
    HashAppend(hash, [0xff], ValueBytes(value));
    HashOne(hash, 0xff);
    OneCell(value);
  }

  lemma CellsFirst(v: Value, values: seq<Value>)
    ensures CellsBytes([v] + values) == ([0xff] + ValueBytes(v)) + CellsBytes(values)
  {
    Tail(v, values);
  }

  lemma {:induction false} CellsAppend(a: seq<Value>, b: seq<Value>)
    ensures CellsBytes(a + b) == CellsBytes(a) + CellsBytes(b)
  {
    if a == [] {
      assert a + b == b;
    } else {
      CellsAppend(a[1..], b);
      Assoc([a[0]], a[1..], b);
      assert [a[0]] + a[1..] == a;
      CellsFirst(a[0], a[1..] + b);
      Assoc([0xff] + ValueBytes(a[0]), CellsBytes(a[1..]), CellsBytes(b));
    }
  }

  lemma HashMoreCells(hash: bv32, a: seq<Value>, b: seq<Value>)
    ensures HashBytes(hash, CellsBytes(a + b)) == HashBytes(HashBytes(hash, CellsBytes(a)), CellsBytes(b))
  {
    CellsAppend(a, b);
    HashAppend(hash, CellsBytes(a), CellsBytes(b));
  }

  // ----- The printed form

  lemma HashNextCell(hash: bv32, values: seq<Value>, i: nat)
    requires i < |values|
    ensures HashBytes(hash, CellsBytes(values[..i + 1])) == HashBytes(HashBytes(hash, CellsBytes(values[..i])), CellsBytes([values[i]]))
  {
    assert values[..i + 1] == values[..i] + [values[i]];
    HashMoreCells(hash, values[..i], [values[i]]);
  }

  function HexDigit(d: nat): char
    requires d < 16
  {
    "0123456789abcdef"[d]
  }

  function HexText(n: nat): string
  {
    if n < 16 then [HexDigit(n)] else HexText(n / 16) + [HexDigit(n % 16)]
  }

  function PadStart(s: string, length: nat): string
    decreases if |s| < length then length - |s| else 0
  {
    if |s| < length then PadStart("0" + s, length) else s
  }

  function FormatHash(hash: bv32): string
  {
    "fnv1a32:" + PadStart(HexText(hash as nat), 8)
  }

  function DigitValue(c: char): nat
  {
    if '0' <= c <= '9' then c as nat - '0' as nat else if 'a' <= c <= 'f' then c as nat - 'a' as nat + 10 else 0
  }

  function HexValue(s: string): nat
  {
    if s == "" then 0 else HexValue(s[..|s| - 1]) * 16 + DigitValue(s[|s| - 1])
  }

  lemma DigitRoundTrip(d: nat)
    requires d < 16
    ensures DigitValue(HexDigit(d)) == d
  {
  }

  lemma {:induction false} HexRoundTrip(n: nat)
    ensures HexValue(HexText(n)) == n
  {
    DigitRoundTrip(n % 16);
    if n < 16 {
      assert [HexDigit(n)][..0] == "";
    } else {
      HexRoundTrip(n / 16);
      assert (HexText(n / 16) + [HexDigit(n % 16)])[..|HexText(n / 16)|] == HexText(n / 16);
    }
  }

  lemma {:induction false} LeadingZero(s: string)
    ensures HexValue("0" + s) == HexValue(s)
  {
    if s == "" {
      assert "0" + s == "0" && "0"[..0] == "";
    } else {
      LeadingZero(s[..|s| - 1]);
      assert ("0" + s)[..|s|] == "0" + s[..|s| - 1];
    }
  }

  lemma {:induction false} PadKeepsValue(s: string, length: nat)
    ensures HexValue(PadStart(s, length)) == HexValue(s)
    decreases if |s| < length then length - |s| else 0
  {
    if |s| < length {
      PadKeepsValue("0" + s, length);
      LeadingZero(s);
    }
  }

  lemma FormatValue(h: bv32)
    ensures |FormatHash(h)| >= 8 && HexValue(FormatHash(h)[8..]) == h as nat
  {
    HexRoundTrip(h as nat);
    PadKeepsValue(HexText(h as nat), 8);
    assert FormatHash(h)[8..] == PadStart(HexText(h as nat), 8);
  }

  lemma SameNumber(g: bv32, h: bv32)
    requires g as nat == h as nat
    ensures g == h
  {
    assert (g as nat) as bv32 == g && (h as nat) as bv32 == h;
  }

  /** Checksums print alike only when the hashes are equal. */
  lemma FormatInjective(g: bv32, h: bv32)
    ensures FormatHash(g) == FormatHash(h) <==> g == h
  {
    FormatValue(g);
    FormatValue(h);
    if FormatHash(g) == FormatHash(h) { SameNumber(g, h); }
  }

  // ----- Checkpoints

  function LogicalChecksum(values: seq<Value>): string
  {
    FormatHash(HashBytes(FNV_OFFSET, StreamBytes(|values|, values)))
  }

  /** The hash of a stream: first the count, then the cells. */
  lemma HashStream(count: int, values: seq<Value>)
    ensures HashBytes(FNV_OFFSET, StreamBytes(count, values)) ==
            HashBytes(HashBytes(FNV_OFFSET, Int32Bytes(count)), CellsBytes(values))
  {
    HashAppend(FNV_OFFSET, Int32Bytes(count), CellsBytes(values));
  }

  method LogicalValueChecksum(values: seq<Value>) returns (checksum: string)
    ensures checksum == LogicalChecksum(values)
  {
    var hash := HashInteger(FNV_OFFSET, |values|);
    ghost var start := hash;
    for i := 0 to |values|
      invariant hash == HashBytes(start, CellsBytes(values[..i]))
    {
      hash := HashCell(hash, values[i]);
      HashNextCell(start, values, i);
    }
    assert values[..|values|] == values;
    HashStream(|values|, values);
    checksum := FormatHash(hash);
  }
}
