/** The generated benchmark dataset in its two shapes, and the checksum that both share. */
module Dataset {
  import opened Sequences
  import opened CodeUnits
  import opened Digits
  import opened RandomDraws
  import opened Mulberry32
  import opened ChecksumBytes
  import opened Checksum
  import opened Fnv

  /** Column by column, the shape that one engine ingests. */
  datatype Columnar = Columnar(id: seq<real>, date: seq<Text>, customer: seq<Text>, city: seq<Text>, amount: seq<real>)

  predicate Shaped(ds: Columnar, rowCount: nat)
  {
    |ds.id| == |ds.date| == |ds.customer| == |ds.city| == |ds.amount| == rowCount
  }

  /** Row by row, the shape that the other engine ingests. */
  function Row(ds: Columnar, rowCount: nat, r: nat): (row: seq<Value>)
    requires Shaped(ds, rowCount) && r < rowCount
    ensures |row| == 5
  {
    [Number(ds.id[r]), Str(ds.date[r]), Str(ds.customer[r]), Str(ds.city[r]), Number(ds.amount[r])]
  }

  function Rows(ds: Columnar, rowCount: nat): (rows: seq<seq<Value>>)
    requires Shaped(ds, rowCount)
    ensures |rows| == rowCount
  {
    seq(rowCount, r requires 0 <= r < rowCount => Row(ds, rowCount, r))
  }

  method ToAoA(ds: Columnar, rowCount: nat) returns (rows: array<seq<Value>>)
    requires Shaped(ds, rowCount)
    ensures rows[..] == Rows(ds, rowCount)
  {
    rows := new seq<Value>[rowCount];
    for r := 0 to rowCount
      invariant rows[..r] == Rows(ds, rowCount)[..r]
    {
      rows[r] := [Number(ds.id[r]), Str(ds.date[r]), Str(ds.customer[r]), Str(ds.city[r]), Number(ds.amount[r])];
    }
    assert rows[..rowCount] == rows[..];
  }

  function Flatten(rows: seq<seq<Value>>): seq<Value>
  {
    if rows == [] then [] else Flatten(rows[..|rows| - 1]) + rows[|rows| - 1]
  }

  lemma FlattenNext(rows: seq<seq<Value>>, r: nat)
    requires r < |rows|
    ensures Flatten(rows[..r + 1]) == Flatten(rows[..r]) + rows[r]
  {
    assert rows[..r + 1][..r] == rows[..r];
  }

  /** The bytes behind the checksum of a dataset given by rows. */
  function RowBytes(rows: seq<seq<Value>>): seq<Byte>
  {
    StreamBytes(|rows|, Flatten(rows))
  }

  function RowsChecksum(rows: seq<seq<Value>>): string
  {
    FormatHash(HashBytes(FNV_OFFSET, RowBytes(rows)))
  }

  /** The five cells of a row, hashed one after the other. */
  method HashRow(hash: bv32, row: seq<Value>) returns (next: bv32)
    requires |row| == 5
    ensures next == HashBytes(hash, CellsBytes(row))
  {
    next := hash;
    for i := 0 to 5
      invariant next == HashBytes(hash, CellsBytes(row[..i]))
    {
      next := HashCell(next, row[i]);
      HashNextCell(hash, row, i);
    }
    assert row[..5] == row;
  }

  /** Hashing straight from the columns gives the checksum of the rows, which are never built. */
  method DatasetChecksum(ds: Columnar, rowCount: nat) returns (checksum: string)
    requires Shaped(ds, rowCount)
    ensures checksum == RowsChecksum(Rows(ds, rowCount))
  {
    var hash := HashInteger(FNV_OFFSET, rowCount);
    ghost var start, rows := hash, Rows(ds, rowCount);
    for r := 0 to rowCount
      invariant hash == HashBytes(start, CellsBytes(Flatten(rows[..r])))
    {
      hash := HashRow(hash, [Number(ds.id[r]), Str(ds.date[r]), Str(ds.customer[r]), Str(ds.city[r]), Number(ds.amount[r])]);
      FlattenNext(rows, r);
      HashMoreCells(start, Flatten(rows[..r]), rows[r]);
    }
    assert rows[..rowCount] == rows;
    HashStream(rowCount, Flatten(rows));
    checksum := FormatHash(hash);
  }

  // ----- When the stream determines the dataset

  /** A whole number of cents that fits in 32 bits. */
  predicate CentExact(x: real)
  {
    0 <= Cents(x) < WORD && x * 100.0 == Cents(x) as real
  }

  predicate RecoverableCells(date: Text, customer: Text, city: Text, amount: real)
  {
    CentExact(amount) && |date| < WORD && |customer| < WORD && |city| < WORD
  }

  /** Of every row, all cells but the identifier can be read back. */
  ghost predicate CellsRecoverable(ds: Columnar, rowCount: nat)
  {
    && Shaped(ds, rowCount)
    && forall r | 0 <= r < rowCount :: RecoverableCells(ds.date[r], ds.customer[r], ds.city[r], ds.amount[r])
  }

  ghost predicate Recoverable(ds: Columnar, rowCount: nat)
  {
    CellsRecoverable(ds, rowCount) && forall r | 0 <= r < rowCount :: CentExact(ds.id[r])
  }

  lemma {:induction false} FlattenAt(rows: seq<seq<Value>>, r: nat, j: nat)
    requires (forall i | 0 <= i < |rows| :: |rows[i]| == 5) && r < |rows| && j < 5
    ensures |Flatten(rows)| == 5 * |rows| && Flatten(rows)[5 * r + j] == rows[r][j]
  {
    var init, last := rows[..|rows| - 1], rows[|rows| - 1];
    if |rows| == 1 {
      assert init == [];
    } else {
      FlattenAt(init, if r < |init| then r else 0, j);
    }
  }

  lemma {:induction false} FlattenMembers(rows: seq<seq<Value>>, v: Value)
    ensures v in Flatten(rows) ==> exists r | 0 <= r < |rows| :: v in rows[r]
  {
    if rows != [] {
      var init := rows[..|rows| - 1];
      FlattenMembers(init, v);
      if v in Flatten(init) {
        var r :| 0 <= r < |init| && v in init[r];
        assert v in rows[r];
      }
    }
  }

  lemma {:induction false} KeepAt(values: seq<Value>, i: nat)
    requires i < |values|
    ensures KeepAll(values)[i] == Keep(values[i])
  {
    if i > 0 { KeepAt(values[1..], i - 1); }
  }

  lemma SameNumber(x: real, y: real)
    requires CentExact(x) && CentExact(y) && Keep(Number(x)) == Keep(Number(y))
    ensures x == y
  {
  }

  lemma RowsShort(ds: Columnar, n: nat)
    requires CellsRecoverable(ds, n)
    ensures forall v | v in Flatten(Rows(ds, n)) :: Short(v)
  {
    forall v | v in Flatten(Rows(ds, n))
      ensures Short(v)
    {
      FlattenMembers(Rows(ds, n), v);
      var r :| 0 <= r < n && v in Rows(ds, n)[r];
    }
  }

  /** Equal streams have as many rows, and the same is kept of them. */
  lemma SameStream(a: Columnar, m: nat, b: Columnar, n: nat)
    requires CellsRecoverable(a, m) && CellsRecoverable(b, n) && RowBytes(Rows(a, m)) == RowBytes(Rows(b, n))
    ensures m == n && KeepAll(Flatten(Rows(a, m))) == KeepAll(Flatten(Rows(b, n)))
  {
    RowsShort(a, m);
    RowsShort(b, n);
    SameCells(m, Flatten(Rows(a, m)), n, Flatten(Rows(b, n)));
    FlattenLength(Rows(a, m));
    FlattenLength(Rows(b, n));
  }

  lemma FlattenLength(rows: seq<seq<Value>>)
    requires forall i | 0 <= i < |rows| :: |rows[i]| == 5
    ensures |Flatten(rows)| == 5 * |rows|
  {
    if rows != [] { FlattenAt(rows, 0, 0); }
  }

  lemma SameKept(a: Columnar, b: Columnar, n: nat, r: nat, j: nat)
    requires Shaped(a, n) && Shaped(b, n) && r < n && j < 5
    requires KeepAll(Flatten(Rows(a, n))) == KeepAll(Flatten(Rows(b, n)))
    ensures Keep(Row(a, n, r)[j]) == Keep(Row(b, n, r)[j])
  {
    FlattenAt(Rows(a, n), r, j);
    FlattenAt(Rows(b, n), r, j);
    KeepAt(Flatten(Rows(a, n)), 5 * r + j);
    KeepAt(Flatten(Rows(b, n)), 5 * r + j);
  }

  lemma SameRow(a: Columnar, b: Columnar, n: nat, r: nat)
    requires CellsRecoverable(a, n) && CellsRecoverable(b, n) && r < n
    requires KeepAll(Flatten(Rows(a, n))) == KeepAll(Flatten(Rows(b, n)))
    ensures a.date[r] == b.date[r] && a.customer[r] == b.customer[r] && a.city[r] == b.city[r] && a.amount[r] == b.amount[r]
    ensures CentExact(a.id[r]) && CentExact(b.id[r]) ==> a.id[r] == b.id[r]
  {
    SameKept(a, b, n, r, 0);
    SameKept(a, b, n, r, 1);
    SameKept(a, b, n, r, 2);
    SameKept(a, b, n, r, 3);
    SameKept(a, b, n, r, 4);
    if CentExact(a.id[r]) && CentExact(b.id[r]) { SameNumber(a.id[r], b.id[r]); }
    SameNumber(a.amount[r], b.amount[r]);
  }

  lemma SameColumns(a: Columnar, b: Columnar, n: nat)
    requires Shaped(a, n) && Shaped(b, n)
    requires forall r | 0 <= r < n :: a.id[r] == b.id[r]
    requires forall r | 0 <= r < n ::
               a.date[r] == b.date[r] && a.customer[r] == b.customer[r] && a.city[r] == b.city[r] && a.amount[r] == b.amount[r]
    ensures a == b
  {
    assert a.id == b.id && a.date == b.date && a.customer == b.customer && a.city == b.city && a.amount == b.amount;
  }

  /** The hashed bytes of a dataset determine its size and every cell. */
  lemma BytesDetermineDataset(a: Columnar, m: nat, b: Columnar, n: nat)
    requires Recoverable(a, m) && Recoverable(b, n) && RowBytes(Rows(a, m)) == RowBytes(Rows(b, n))
    ensures m == n && a == b
  {
    SameStream(a, m, b, n);
    forall r: nat | r < n
      ensures a.id[r] == b.id[r] && a.date[r] == b.date[r] && a.customer[r] == b.customer[r]
      ensures a.city[r] == b.city[r] && a.amount[r] == b.amount[r]
    {
      SameRow(a, b, n, r);
    }
    SameColumns(a, b, n);
  }

  // ----- The generator of the dataset

  const CUSTOMER: Text := [0x43, 0x75, 0x73, 0x74, 0x6f, 0x6d, 0x65, 0x72, 0x20]

  function PadZeros(ds: seq<Digit>, length: nat): (r: seq<Digit>)
    ensures |r| <= length || r == ds
    decreases if |ds| < length then length - |ds| else 0
  {
    if |ds| < length then PadZeros([0] + ds, length) else ds
  }

  function DigitUnits(ds: seq<Digit>): (t: Text)
    ensures |t| == |ds| && forall i | 0 <= i < |ds| :: t[i] as int == 0x30 + ds[i] as int
  {
    seq(|ds|, i requires 0 <= i < |ds| => (0x30 + ds[i] as int) as Unit)
  }

  function CustomerName(number: nat): Text
  {
    CUSTOMER + DigitUnits(PadZeros(ToDigits(number), 6))
  }

  function Fraction(w: Word): real
  {
    w as real / 4_294_967_296.0
  }

  /** The draws of row r: first for the amount, then for the city, then for the day. */
  function AmountAt(draws: Draws, r: nat): real
  {
    Round(Fraction(draws(3 * r)) * 1_000_000.0) as real / 100.0
  }

  function CityAt(cities: seq<Text>, draws: Draws, r: nat): (city: Text)
    requires cities != []
    ensures city in cities
  {
    cities[Pick(draws(3 * r + 1), |cities|)]
  }

  function DateAt(days: seq<Text>, draws: Draws, r: nat): (date: Text)
    requires days != []
    ensures date in days
  {
    days[Pick(draws(3 * r + 2), |days|)]
  }

  function Generated(n: nat, draws: Draws, cities: seq<Text>, days: seq<Text>): (ds: Columnar)
    requires cities != [] && days != []
    ensures Shaped(ds, n)
  {
    Columnar(seq(n, r requires 0 <= r < n => (r + 1) as real),
             seq(n, r requires 0 <= r < n => DateAt(days, draws, r)),
             seq(n, r requires 0 <= r < n => CustomerName(r + 1)),
             seq(n, r requires 0 <= r < n => CityAt(cities, draws, r)),
             seq(n, r requires 0 <= r < n => AmountAt(draws, r)))
  }

  /** The three draws of one row. */
  method DrawRow(random: SeededRandom, cities: seq<Text>, days: seq<Text>, ghost r: nat)
    returns (amount: real, city: Text, date: Text)
    requires random.Valid() && random.drawn == 3 * r && cities != [] && days != []
    modifies random
    ensures random.Valid() && random.drawn == 3 * (r + 1)
    ensures amount == AmountAt(random.draws, r) && city == CityAt(cities, random.draws, r) && date == DateAt(days, random.draws, r)
  {
    var first := random.Next();
    amount := Round(Fraction(first) * 1_000_000.0) as real / 100.0;
    var second := random.Next();
    city := cities[Pick(second, |cities|)];
    var third := random.Next();
    date := days[Pick(third, |days|)];
  }

  /** Writing the cells of one row. */
  method FillRow(random: SeededRandom, cities: seq<Text>, days: seq<Text>, r: nat, id: array<real>, date: array<Text>,
                 customer: array<Text>, city: array<Text>, amount: array<real>)
    requires random.Valid() && random.drawn == 3 * r && cities != [] && days != []
    requires r < id.Length == date.Length == customer.Length == city.Length == amount.Length
    requires id != amount && date != customer && date != city && customer != city
    modifies random, id, date, customer, city, amount
    ensures random.Valid() && random.drawn == 3 * (r + 1)
    ensures id[..] == old(id[..])[r := (r + 1) as real]
    ensures date[..] == old(date[..])[r := DateAt(days, random.draws, r)]
    ensures customer[..] == old(customer[..])[r := CustomerName(r + 1)]
    ensures city[..] == old(city[..])[r := CityAt(cities, random.draws, r)]
    ensures amount[..] == old(amount[..])[r := AmountAt(random.draws, r)]
  {
    id[r] := (r + 1) as real;
    amount[r], city[r], date[r] := DrawRow(random, cities, days, r);
    customer[r] := CustomerName(r + 1);
  }

  /** The rows written so far. */
  ghost predicate Filled(ds: Columnar, rowCount: nat, r: nat, draws: Draws, cities: seq<Text>, days: seq<Text>)
    requires cities != [] && days != []
  {
    && Shaped(ds, rowCount) && r <= rowCount
    && forall i: nat | i < r :: FilledRow(ds, rowCount, i, draws, cities, days)
  }

  ghost predicate FilledRow(ds: Columnar, rowCount: nat, i: nat, draws: Draws, cities: seq<Text>, days: seq<Text>)
    requires cities != [] && days != [] && Shaped(ds, rowCount) && i < rowCount
  {
    && ds.id[i] == (i + 1) as real && ds.date[i] == DateAt(days, draws, i) && ds.customer[i] == CustomerName(i + 1)
    && ds.city[i] == CityAt(cities, draws, i) && ds.amount[i] == AmountAt(draws, i)
  }

  lemma FilledNext(ds: Columnar, rowCount: nat, r: nat, draws: Draws, cities: seq<Text>, days: seq<Text>, next: Columnar)
    requires cities != [] && days != [] && r < rowCount && Filled(ds, rowCount, r, draws, cities, days)
    requires next == Columnar(ds.id[r := (r + 1) as real], ds.date[r := DateAt(days, draws, r)], ds.customer[r := CustomerName(r + 1)],
                              ds.city[r := CityAt(cities, draws, r)], ds.amount[r := AmountAt(draws, r)])
    ensures Filled(next, rowCount, r + 1, draws, cities, days)
  {
    forall i: nat | i < r + 1
      ensures FilledRow(next, rowCount, i, draws, cities, days)
    {
      if i < r { assert FilledRow(ds, rowCount, i, draws, cities, days); }
    }
  }

  lemma FilledIsGenerated(ds: Columnar, rowCount: nat, draws: Draws, cities: seq<Text>, days: seq<Text>)
    requires cities != [] && days != [] && Filled(ds, rowCount, rowCount, draws, cities, days)
    ensures ds == Generated(rowCount, draws, cities, days)
  {
    var g := Generated(rowCount, draws, cities, days);
    forall i: nat | i < rowCount
      ensures ds.id[i] == g.id[i] && ds.date[i] == g.date[i] && ds.customer[i] == g.customer[i]
      ensures ds.city[i] == g.city[i] && ds.amount[i] == g.amount[i]
    {
      assert FilledRow(ds, rowCount, i, draws, cities, days);
    }
    assert ds.id == g.id && ds.date == g.date && ds.customer == g.customer && ds.city == g.city && ds.amount == g.amount;
  }

  method FillRows(rowCount: nat, random: SeededRandom, cities: seq<Text>, days: seq<Text>, id: array<real>, date: array<Text>,
                  customer: array<Text>, city: array<Text>, amount: array<real>)
    requires random.Valid() && random.drawn == 0 && cities != [] && days != []
    requires rowCount == id.Length == date.Length == customer.Length == city.Length == amount.Length
    requires id != amount && date != customer && date != city && customer != city
    modifies random, id, date, customer, city, amount
    ensures Columnar(id[..], date[..], customer[..], city[..], amount[..]) == Generated(rowCount, random.draws, cities, days)
  {
    ghost var now := Columnar(id[..], date[..], customer[..], city[..], amount[..]);
    for r := 0 to rowCount
      invariant random.Valid() && random.drawn == 3 * r
      invariant now == Columnar(id[..], date[..], customer[..], city[..], amount[..])
      invariant Filled(now, rowCount, r, random.draws, cities, days)
    {
      ghost var before := now;
      FillRow(random, cities, days, r, id, date, customer, city, amount);
      now := Columnar(id[..], date[..], customer[..], city[..], amount[..]);
      FilledNext(before, rowCount, r, random.draws, cities, days, now);
    }
    FilledIsGenerated(now, rowCount, random.draws, cities, days);
  }

  method MakeColumnar(rowCount: nat, seed: bv32, cities: seq<Text>, days: seq<Text>) returns (ds: Columnar)
    requires cities != [] && days != []
    ensures ds == Generated(rowCount, Stream(seed), cities, days)
  {
    var id, amount := new real[rowCount], new real[rowCount];
    var date, customer, city := new Text[rowCount], new Text[rowCount], new Text[rowCount];
    var random := new SeededRandom(seed);
    FillRows(rowCount, random, cities, days, id, date, customer, city, amount);
    ds := Columnar(id[..], date[..], customer[..], city[..], amount[..]);
  }

  // ----- Generated datasets are recoverable

  lemma WholeCents(k: nat)
    requires k < WORD
    ensures CentExact(k as real / 100.0)
  {
    assert k as real / 100.0 * 100.0 == k as real;
    assert (k as real + 0.5).Floor == k;
  }

  lemma FractionRange(w: Word)
    ensures 0.0 <= Fraction(w) < 1.0
  {
  }

  lemma AmountExact(draws: Draws, r: nat)
    ensures CentExact(AmountAt(draws, r))
  {
    FractionRange(draws(3 * r));
    var x := Fraction(draws(3 * r)) * 1_000_000.0;
    assert 0.0 <= x <= 1_000_000.0;
    assert 0 <= Round(x) <= 1_000_000;
    WholeCents(Round(x));
  }

  /** An identifier is a whole number of cents in 32 bits up to 42 949 672. */
  lemma IdExact(n: nat)
    ensures CentExact(n as real) <==> n <= 42_949_672
  {
    assert n as real * 100.0 == (100 * n) as real;
    assert ((100 * n) as real + 0.5).Floor == 100 * n;
  }

  lemma {:induction false} DigitCount(n: nat)
    ensures |ToDigits(n)| <= n / 10 + 2
  {
    if n >= 10 { DigitCount(n / 10); }
  }

  lemma NameShort(n: nat)
    requires n <= WORD
    ensures |CustomerName(n)| < WORD
  {
    DigitCount(n);
  }

  /** Everything but the identifiers is recoverable in a generated dataset of any size that an array can have. */
  lemma GeneratedCells(n: nat, draws: Draws, cities: seq<Text>, days: seq<Text>)
    requires n < WORD && cities != [] && days != []
    requires (forall t | t in cities :: |t| < WORD) && (forall t | t in days :: |t| < WORD)
    ensures CellsRecoverable(Generated(n, draws, cities, days), n)
  {
    var ds := Generated(n, draws, cities, days);
    forall r: nat | r < n
      ensures RecoverableCells(ds.date[r], ds.customer[r], ds.city[r], ds.amount[r])
    {
      AmountExact(draws, r);
      NameShort(r + 1);
    }
  }

  /** The identifiers can be read back from the hashed bytes exactly up to 42 949 672 rows. */
  lemma GeneratedIsRecoverableIff(n: nat, draws: Draws, cities: seq<Text>, days: seq<Text>)
    requires n < WORD && cities != [] && days != []
    requires (forall t | t in cities :: |t| < WORD) && (forall t | t in days :: |t| < WORD)
    ensures Recoverable(Generated(n, draws, cities, days), n) <==> n <= 42_949_672
  {
    var ds := Generated(n, draws, cities, days);
    GeneratedCells(n, draws, cities, days);
    forall r: nat | r < n
      ensures CentExact(ds.id[r]) <==> r + 1 <= 42_949_672
    {
      IdExact(r + 1);
    }
    if n > 42_949_672 { assert !CentExact(ds.id[n - 1]); }
  }

  /** But they follow from the number of rows: the hashed bytes determine a generated dataset of any size. */
  lemma BytesDetermineGenerated(m: nat, draws: Draws, n: nat, others: Draws, cities: seq<Text>, days: seq<Text>)
    requires m < WORD && n < WORD && cities != [] && days != []
    requires (forall t | t in cities :: |t| < WORD) && (forall t | t in days :: |t| < WORD)
    requires RowBytes(Rows(Generated(m, draws, cities, days), m)) == RowBytes(Rows(Generated(n, others, cities, days), n))
    ensures m == n && Generated(m, draws, cities, days) == Generated(n, others, cities, days)
  {
    var a, b := Generated(m, draws, cities, days), Generated(n, others, cities, days);
    GeneratedCells(m, draws, cities, days);
    GeneratedCells(n, others, cities, days);
    SameStream(a, m, b, n);
    forall r: nat | r < n
      ensures a.date[r] == b.date[r] && a.customer[r] == b.customer[r] && a.city[r] == b.city[r] && a.amount[r] == b.amount[r]
    {
      SameRow(a, b, n, r);
    }
    SameColumns(a, b, n);
  }

  /** Multiples of 100 are equal modulo 2^32 exactly when the numbers are equal modulo 2^30. */
  lemma HundredsWrap(m: int, n: int)
    ensures (100 * m) % WORD == (100 * n) % WORD <==> m % 0x4000_0000 == n % 0x4000_0000
  {
    if (100 * m) % WORD == (100 * n) % WORD { HundredsBack(m, n); }
    if m % 0x4000_0000 == n % 0x4000_0000 { HundredsForth(m, n); }
  }

  lemma HundredsForth(m: int, n: int)
    requires m % 0x4000_0000 == n % 0x4000_0000
    ensures (100 * m) % WORD == (100 * n) % WORD
  {
    var k := m / 0x4000_0000 - n / 0x4000_0000;
    assert m - n == 0x4000_0000 * k;
    SameRemainderOfWord(100 * m, 100 * n, 25 * k);
  }

  lemma SameRemainderOfWord(m: int, n: int, k: int)
    requires m - n == WORD * k
    ensures m % WORD == n % WORD
  {
  }

  lemma HundredsBack(m: int, n: int)
    requires (100 * m) % WORD == (100 * n) % WORD
    ensures m % 0x4000_0000 == n % 0x4000_0000
  {
    var k := (100 * m) / WORD - (100 * n) / WORD;
    Undo25(m - n, k);
    SameRemainder(m, n, 42_949_673 * k - (m - n));
  }

  /** 25 times 42 949 673 is one more than 2^30. */
  lemma Undo25(d: int, k: int)
    requires 100 * d == WORD * k
    ensures d == 0x4000_0000 * (42_949_673 * k - d)
  {
  }

  lemma SameRemainder(m: int, n: int, k: int)
    requires m - n == 0x4000_0000 * k
    ensures m % 0x4000_0000 == n % 0x4000_0000
  {
  }

  /** Two row numbers are hashed alike exactly when they are equal modulo 2^30. */
  lemma IdentifiersClashIff(m: nat, n: nat)
    ensures ValueBytes(Number(m as real)) == ValueBytes(Number(n as real)) <==> m % 0x4000_0000 == n % 0x4000_0000
  {
    IdCents(m);
    IdCents(n);
    WrappedBytes(100 * m, 100 * n);
    HundredsWrap(m, n);
    Tail(0x6e, Int32Bytes(100 * m));
    Tail(0x6e, Int32Bytes(100 * n));
  }

  lemma IdCents(n: nat)
    ensures Cents(n as real) == 100 * n
  {
    assert n as real * 100.0 == (100 * n) as real;
  }

  lemma {:induction false} PadKeepsNumber(ds: seq<Digit>, length: nat)
    ensures FromDigits(PadZeros(ds, length)) == FromDigits(ds)
    decreases if |ds| < length then length - |ds| else 0
  {
    if |ds| < length {
      PadKeepsNumber([0] + ds, length);
      ZeroFirst(ds);
    }
  }

  lemma {:induction false} ZeroFirst(ds: seq<Digit>)
    ensures FromDigits([0] + ds) == FromDigits(ds)
  {
    if ds == [] {
      assert [0 as Digit] + ds == [0] && [0 as Digit][..0] == [];
    } else {
      ZeroFirst(ds[..|ds| - 1]);
      assert ([0] + ds)[..|ds|] == [0] + ds[..|ds| - 1];
    }
  }

  /** No two rows get the same customer, also when the number outgrows its padding. */
  lemma CustomersDiffer(m: nat, n: nat)
    requires CustomerName(m) == CustomerName(n)
    ensures m == n
  {
    var a, b := PadZeros(ToDigits(m), 6), PadZeros(ToDigits(n), 6);
    var s, t := DigitUnits(a), DigitUnits(b);
    assert s == CustomerName(m)[|CUSTOMER|..] && t == CustomerName(n)[|CUSTOMER|..];
    assert forall i | 0 <= i < |a| :: s[i] == t[i] && a[i] == b[i];
    assert a == b;
    PadKeepsNumber(ToDigits(m), 6);
    PadKeepsNumber(ToDigits(n), 6);
    DigitsRoundTrip(m);
    DigitsRoundTrip(n);
  }
}
