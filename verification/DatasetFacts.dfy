/** What the generated cells and the hashed bytes look like, told without the functions that make them. */
module DatasetFacts {
  import opened CodeUnits
  import opened Digits
  import opened RandomDraws
  import opened ChecksumBytes
  import opened Checksum
  import opened Dataset

  /** Rounding goes to the nearest whole number, and up from the middle. */
  lemma RoundMeans(x: real, n: int)
    ensures Round(x) == n <==> n as real - 0.5 <= x < n as real + 0.5
  {
  }

  /** An amount is a whole number of cents from 0 to 10 000, the nearest to the draw's part of 2^32. */
  lemma AmountMeans(draws: Draws, r: nat) returns (cents: nat)
    ensures cents <= 1_000_000 && AmountAt(draws, r) == cents as real / 100.0
    ensures -0x8000_0000 <= 1_000_000 * draws(3 * r) as int - cents * 0x1_0000_0000 < 0x8000_0000
  {
    var w := draws(3 * r) as int;
    var x := Fraction(draws(3 * r)) * 1_000_000.0;
    assert x * 4_294_967_296.0 == (1_000_000 * w) as real;
    RoundMeans(x, Round(x));
    cents := Round(x);
  }

  /** The place in a pool that a draw falls on: as far into it as the draw is into 2^32. */
  ghost predicate FallsOn(pool: seq<Text>, bits: Word, t: Text)
  {
    exists k: nat :: k < |pool| && pool[k] == t && Covers(k, |pool|, bits)
  }

  predicate Covers(k: nat, n: nat, bits: Word)
  {
    k * 0x1_0000_0000 <= bits as nat * n < (k + 1) * 0x1_0000_0000
  }

  lemma PickCovers(bits: Word, n: nat)
    requires n > 0
    ensures Covers(Pick(bits, n), n, bits)
  {
  }

  /** City and day of a row are picked by its second and third draw. */
  lemma PoolsMean(cities: seq<Text>, days: seq<Text>, draws: Draws, r: nat)
    requires cities != [] && days != []
    ensures FallsOn(cities, draws(3 * r + 1), CityAt(cities, draws, r)) && FallsOn(days, draws(3 * r + 2), DateAt(days, draws, r))
  {
    PickCovers(draws(3 * r + 1), |cities|);
    PickCovers(draws(3 * r + 2), |days|);
  }

  // ----- Customers

  lemma {:induction false} PadLength(ds: seq<Digit>, length: nat)
    ensures |PadZeros(ds, length)| == if |ds| < length then length else |ds|
    decreases if |ds| < length then length - |ds| else 0
  {
    if |ds| < length { PadLength([0] + ds, length); }
  }

  predicate Ascii(s: string)
  {
    forall i | 0 <= i < |s| :: s[i] as int < 128
  }

  function Units(s: string): (t: Text)
    requires Ascii(s)
    ensures |t| == |s| && forall i | 0 <= i < |s| :: t[i] as int == s[i] as int
  {
    seq(|s|, i requires 0 <= i < |s| => s[i] as int as Unit)
  }

  /** A customer's name is "Customer " and the decimal digits of its number, at least six of them. */
  lemma CustomerMeans(number: nat) returns (ds: seq<Digit>)
    ensures CustomerName(number) == Units("Customer ") + seq(|ds|, i requires 0 <= i < |ds| => (48 + ds[i] as int) as Unit)
    ensures FromDigits(ds) == number && |ds| >= 6 && (|ds| > 6 ==> ds[0] != 0)
  {
    ds := PadZeros(ToDigits(number), 6);
    PadKeepsNumber(ToDigits(number), 6);
    DigitsRoundTrip(number);
    PadLength(ToDigits(number), 6);
    assert CUSTOMER == Units("Customer ");
    assert DigitUnits(ds) == seq(|ds|, i requires 0 <= i < |ds| => (48 + ds[i] as int) as Unit);
  }

  // ----- Bytes

  /** A stream of four values of all kinds, byte by byte. */
  lemma StreamSample()
    ensures StreamBytes(4, [Number(1.25), Str([97]), Boolean(true), Null]) ==
            [4, 0, 0, 0] + [0xff, 0x6e, 125, 0, 0, 0] + [0xff, 0x73, 1, 0, 0, 0, 97, 0] + [0xff, 0x62, 1] + [0xff, 0]
  {
    var values := [Number(1.25), Str([97]), Boolean(true), Null];
    CentsOf125();
    OneLetter();
    assert values[1..] == [Str([97]), Boolean(true), Null] && values[1..][1..] == [Boolean(true), Null];
    assert values[1..][1..][1..] == [Null] && values[1..][1..][1..][1..] == [];
    LastCells();
    assert Int32Bytes(4) == [4, 0, 0, 0];
  }

  lemma LastCells()
    ensures CellsBytes([Boolean(true), Null]) == [0xff, 0x62, 1] + [0xff, 0]
  {
    assert [Null][1..] == [] && [Boolean(true), Null][1..] == [Null];
    assert CellsBytes([Null]) == [0xff, 0];
  }

  lemma CentsOf125()
    ensures ValueBytes(Number(1.25)) == [0x6e, 125, 0, 0, 0]
  {
    RoundMeans(1.25 * 100.0, 125);
    assert Int32Bytes(125) == [125, 0, 0, 0];
  }

  lemma OneLetter()
    ensures ValueBytes(Str([97])) == [0x73, 1, 0, 0, 0, 97, 0]
  {
    assert [97 as Unit][1..] == [];
    assert UnitsBytes([97]) == UnitBytes(97) + [];
    assert Int32Bytes(1) == [1, 0, 0, 0];
  }

  // ----- How a hash is printed

  predicate Hex(s: string)
  {
    forall i | 0 <= i < |s| :: '0' <= s[i] <= '9' || 'a' <= s[i] <= 'f'
  }

  lemma {:induction false} HexTextFits(n: nat, width: nat, bound: nat)
    requires width > 0 && n < bound && bound == Sixteens(width)
    ensures |HexText(n)| <= width && Hex(HexText(n))
    decreases n
  {
    if n >= 16 { HexTextFits(n / 16, width - 1, Sixteens(width - 1)); }
  }

  function Sixteens(n: nat): nat
  {
    if n == 0 then 1 else 16 * Sixteens(n - 1)
  }

  lemma {:induction false} PadIsHex(s: string, length: nat)
    requires Hex(s)
    ensures Hex(PadStart(s, length)) && |PadStart(s, length)| == if |s| < length then length else |s|
    decreases if |s| < length then length - |s| else 0
  {
    if |s| < length { PadIsHex("0" + s, length); }
  }

  lemma WordBound(h: bv32)
    ensures h as nat < Sixteens(8)
  {
    assert Sixteens(4) == 0x1_0000;
    assert Sixteens(8) == 16 * (16 * (16 * (16 * Sixteens(4))));
  }

  /** A checksum is printed as its name and eight hexadecimal digits, whose value is the hash. */
  lemma FormatMeans(h: bv32) returns (digits: string)
    ensures FormatHash(h) == "fnv1a32:" + digits && |digits| == 8 && Hex(digits) && HexValue(digits) == h as nat
  {
    digits := PadStart(HexText(h as nat), 8);
    WordBound(h);
    HexTextFits(h as nat, 8, Sixteens(8));
    PadIsHex(HexText(h as nat), 8);
    FormatValue(h);
    assert FormatHash(h)[8..] == digits;
  }
}
