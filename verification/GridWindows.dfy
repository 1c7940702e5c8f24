/** Positions in a very large grid that the billion-cell benchmark visits. */
module GridWindows {
  const VISIBLE_TILE_COLUMNS: nat := 20
  const VISIBLE_TILE_ROWS: nat := 120
  const TILES: nat := 100

  /** The index-th of count positions spread evenly from 0 to the maximum. */
  function UniformStart(index: nat, count: int, maximum: int): nat
  {
    if count <= 1 || maximum <= 0 then 0 else index * maximum / (count - 1)
  }

  lemma Products(p: int, q: int, d: nat)
    requires p <= q
    ensures p * d <= q * d
  {
    assert (q - p) * d == q * d - p * d;
  }

  lemma Division(a: nat, d: nat)
    requires d > 0
    ensures a / d * d <= a < a / d * d + d
  {
  }

  lemma QuotientGrows(a: nat, b: nat, d: nat)
    requires d > 0 && a <= b
    ensures a / d <= b / d
  {
    Division(a, d);
    Division(b, d);
    if b / d < a / d { Products(b / d + 1, a / d, d); }
  }

  lemma QuotientRises(a: nat, b: nat, d: nat)
    requires d > 0 && a + d <= b
    ensures a / d < b / d
  {
    Division(a, d);
    Division(b, d);
    if b / d <= a / d { Products(b / d, a / d, d); }
  }

  lemma SharesGrow(i: nat, j: nat, maximum: nat)
    requires i < j
    ensures i * maximum + maximum <= j * maximum
  {
    Products(i + 1, j, maximum);
  }

  lemma Whole(d: nat, maximum: nat)
    requires d > 0
    ensures d * maximum / d == maximum
  {
    Division(d * maximum, d);
    var q := d * maximum / d;
    if q < maximum { Products(q + 1, maximum, d); }
    if maximum < q { Products(maximum + 1, q, d); }
  }

  lemma EndPositions(count: nat, maximum: nat)
    requires count > 1
    ensures UniformStart(0, count, maximum) == 0 && UniformStart(count - 1, count, maximum) == maximum
  {
    Whole(count - 1, maximum);
  }

  lemma PositionsAscend(i: nat, j: nat, count: nat, maximum: nat)
    requires count > 1 && i < j
    ensures UniformStart(i, count, maximum) <= UniformStart(j, count, maximum)
    ensures maximum >= count - 1 ==> UniformStart(i, count, maximum) < UniformStart(j, count, maximum)
  {
    SharesGrow(i, j, maximum);
    QuotientGrows(i * maximum, j * maximum, count - 1);
    if maximum >= count - 1 { QuotientRises(i * maximum, j * maximum, count - 1); }
  }

  /** The first position is 0 and the last the maximum; positions never go back, and differ when there is room for all. */
  lemma UniformStarts(i: nat, j: nat, count: nat, maximum: nat)
    requires count > 1 && i < j < count
    ensures UniformStart(0, count, maximum) == 0 && UniformStart(count - 1, count, maximum) == maximum
    ensures UniformStart(i, count, maximum) <= UniformStart(j, count, maximum) <= maximum
    ensures maximum >= count - 1 ==> UniformStart(i, count, maximum) < UniformStart(j, count, maximum)
  {
    EndPositions(count, maximum);
    PositionsAscend(i, j, count, maximum);
    if j < count - 1 { PositionsAscend(j, count - 1, count, maximum); }
  }

  /** A position is the index's share of the maximum, rounded down. */
  lemma StartMeans(index: nat, count: nat, maximum: nat)
    requires count > 1 && index < count
    ensures var s := UniformStart(index, count, maximum);
            s * (count - 1) <= index * maximum < (s + 1) * (count - 1)
  {
    if maximum > 0 {
      Division(index * maximum, count - 1);
    } else {
      assert index * maximum == 0;
    }
  }

  /** Positions differ for all indices only when the maximum leaves room for them. */
  lemma {:induction false} RoomNeeded(count: nat, maximum: nat, k: nat)
    requires count > 1 && k < count
    requires forall i: nat, j: nat | i < j < count :: UniformStart(i, count, maximum) != UniformStart(j, count, maximum)
    ensures UniformStart(k, count, maximum) >= k
    ensures k == count - 1 ==> maximum >= count - 1
  {
    if k > 0 {
      RoomNeeded(count, maximum, k - 1);
      UniformStarts(k - 1, k, count, maximum);
    }
    if k == count - 1 { UniformStarts(0, k, count, maximum); }
  }

  function Indices(start: nat, count: nat): (r: seq<nat>)
    ensures |r| == count && forall i | 0 <= i < count :: r[i] == start + i
  {
    seq(count, i requires 0 <= i < count => start + i)
  }

  /** Two frozen columns and a window that is kept inside the grid. */
  function FrozenWindowColumns(columnCount: int, movingStart: int): seq<nat>
  {
    var width := VISIBLE_TILE_COLUMNS - 2;
    var inside := if movingStart < columnCount - width then movingStart else columnCount - width;
    [0, 1] + Indices(if inside < 2 then 2 else inside, width)
  }

  function HorizontalColumns(columns: int, index: nat, count: nat): seq<nat>
  {
    FrozenWindowColumns(columns, 2 + UniformStart(index, count, columns - (VISIBLE_TILE_COLUMNS - 2) - 2))
  }

  /** A window has twenty different columns of the grid in ascending order, the two frozen ones among them. */
  lemma WindowInGrid(columns: int, index: nat, count: nat)
    requires columns >= VISIBLE_TILE_COLUMNS && index < count
    ensures var w := HorizontalColumns(columns, index, count);
            && |w| == VISIBLE_TILE_COLUMNS && w[0] == 0 && w[1] == 1
            && (forall i, j | 0 <= i < j < |w| :: w[i] < w[j])
            && (forall i | 0 <= i < |w| :: w[i] < columns)
  {
  }

  /**
   Behind the two frozen columns, a window has eighteen columns in a row, which start as far on as the index's share of the
   columns that are left; the first window starts at the frozen ones, and the last one ends with the grid.
   */
  lemma WindowPlace(columns: nat, index: nat, count: nat) returns (start: nat)
    requires columns >= 20 && count > 1 && index < count
    ensures var w := HorizontalColumns(columns, index, count);
            |w| == 20 && w[0] == 0 && w[1] == 1 && forall i | 2 <= i < 20 :: w[i] == start + i - 2
    ensures start >= 2 && (start - 2) * (count - 1) <= index * (columns - 20) < (start - 1) * (count - 1)
    ensures (index == 0 ==> start == 2) && (index == count - 1 ==> start + 18 == columns)
  {
    start := 2 + UniformStart(index, count, columns - 20);
    StartMeans(index, count, columns - 20);
    EndPositions(count, columns - 20);
    if index < count - 1 { PositionsAscend(index, count - 1, count, columns - 20); }
    assert start <= columns - 18;
  }

  lemma {:induction false} DistinctPositions(i: nat, j: nat, count: nat, maximum: nat)
    requires count > 1 && i < count && j < count && maximum >= count - 1
    requires UniformStart(i, count, maximum) == UniformStart(j, count, maximum)
    ensures i == j
  {
    if i < j { UniformStarts(i, j, count, maximum); }
    if j < i { UniformStarts(j, i, count, maximum); }
  }

  /** The hundred edits go to different rows, whatever the number of columns. */
  lemma EditsAreDistinct(rows: nat, i: nat, j: nat)
    requires rows >= TILES && i < TILES && j < TILES && UniformStart(i, TILES, rows - 1) == UniformStart(j, TILES, rows - 1)
    ensures i == j
  {
    DistinctPositions(i, j, TILES, rows - 1);
  }

  // ----- The order of the diagonal churn

  /** A multiplier that can be undone modulo the number of tiles. */
  predicate Undoes(multiplier: nat, inverse: nat)
  {
    multiplier * inverse % TILES == 1
  }

  lemma ModuloTimes(x: nat, k: nat)
    ensures x % TILES * k % TILES == x * k % TILES
  {
    var q, r := x / TILES, x % TILES;
    assert x * k == TILES * (q * k) + r * k;
    Multiple(q * k, r * k);
  }

  lemma Multiple(q: nat, r: nat)
    ensures (TILES * q + r) % TILES == r % TILES
  {
  }

  /** Where a shifted multiple comes from. */
  lemma Recover(index: nat, multiplier: nat, inverse: nat)
    requires index < TILES && Undoes(multiplier, inverse)
    ensures index * multiplier % TILES * inverse % TILES == index
  {
    ModuloTimes(index * multiplier, inverse);
    var product := multiplier * inverse;
    assert index * multiplier * inverse == index * product;
    ModuloTimes(product, index);
    assert product % TILES == 1;
  }

  lemma ShiftCancels(a: nat, b: nat, shift: nat)
    requires (a + shift) % TILES == (b + shift) % TILES
    ensures a % TILES == b % TILES
  {
  }

  /** Every multiplier visits each of the hundred rows once, and each of the hundred windows once. */
  lemma ChurnVisitsEachOnce(i: nat, j: nat, multiplier: nat, inverse: nat, shift: nat)
    requires i < TILES && j < TILES && Undoes(multiplier, inverse)
    requires (i * multiplier + shift) % TILES == (j * multiplier + shift) % TILES
    ensures i == j
  {
    ShiftCancels(i * multiplier, j * multiplier, shift);
    Recover(i, multiplier, inverse);
    Recover(j, multiplier, inverse);
  }

  /** And none is left out. */
  lemma ChurnVisitsAll(target: nat, multiplier: nat, inverse: nat) returns (index: nat)
    requires target < TILES && Undoes(multiplier, inverse)
    ensures index < TILES && index * multiplier % TILES == target
  {
    index := target * inverse % TILES;
    assert Undoes(inverse, multiplier);
    Recover(target, inverse, multiplier);
  }

  lemma ShiftBack(target: nat, shift: nat) returns (unshifted: nat)
    requires target < TILES
    ensures unshifted < TILES && (unshifted + shift) % TILES == target
  {
    unshifted := (target + (TILES - shift % TILES)) % TILES;
  }

  lemma ShiftModulo(x: nat, shift: nat)
    ensures (x + shift) % TILES == (x % TILES + shift) % TILES
  {
    Multiple(x / TILES, x % TILES + shift);
  }

  /** The ordinal that a churn visits with a given index. */
  function Ordinal(index: nat, multiplier: nat, shift: nat): nat
  {
    (index * multiplier + shift) % TILES
  }

  predicate Churns(multiplier: nat)
  {
    multiplier == 17 || multiplier == 73 || multiplier == 37
  }

  function InverseOf(multiplier: nat): (inverse: nat)
    requires Churns(multiplier)
    ensures Undoes(multiplier, inverse)
  {
    if multiplier == 17 then 53 else if multiplier == 73 then 37 else 73
  }

  ghost predicate Visited(target: nat, multiplier: nat, shift: nat)
  {
    exists i: nat | i < TILES :: Ordinal(i, multiplier, shift) == target
  }

  /** The three multipliers in use permute the hundred ordinals, however these are shifted. */
  lemma MultipliersPermute(multiplier: nat, shift: nat)
    requires Churns(multiplier)
    ensures forall i: nat, j: nat | i < j < TILES :: Ordinal(i, multiplier, shift) != Ordinal(j, multiplier, shift)
    ensures forall target: nat | target < TILES :: Visited(target, multiplier, shift)
  {
    forall i: nat, j: nat | i < j < TILES
      ensures Ordinal(i, multiplier, shift) != Ordinal(j, multiplier, shift)
    {
      if Ordinal(i, multiplier, shift) == Ordinal(j, multiplier, shift) {
        ChurnVisitsEachOnce(i, j, multiplier, InverseOf(multiplier), shift);
      }
    }
    forall target: nat | target < TILES
      ensures Visited(target, multiplier, shift)
    {
      var unshifted := ShiftBack(target, shift);
      var i := ChurnVisitsAll(unshifted, multiplier, InverseOf(multiplier));
      ShiftModulo(i * multiplier, shift);
      assert Ordinal(i, multiplier, shift) == target;
    }
  }

  /** The row at which the index-th tile of a churn starts. */
  function DiagonalRow(rows: int, index: nat, multiplier: nat): nat
  {
    UniformStart(index * multiplier % TILES, TILES, rows - VISIBLE_TILE_ROWS)
  }

  /** A tile lies in the grid, at its ordinal's share of the rows that a tile of 120 rows leaves. */
  lemma DiagonalPlace(rows: nat, index: nat, multiplier: nat)
    requires rows >= 120
    ensures var s, ordinal := DiagonalRow(rows, index, multiplier), index * multiplier % 100;
            s + 120 <= rows && s * 99 <= ordinal * (rows - 120) < (s + 1) * 99
  {
    var ordinal := index * multiplier % 100;
    StartMeans(ordinal, 100, rows - 120);
    EndPositions(100, rows - 120);
    if ordinal < 99 { PositionsAscend(ordinal, 99, 100, rows - 120); }
  }

  /** The tiles of a churn start at different rows when the grid has at least 219 rows. */
  lemma ChurnTilesDiffer(rows: nat, i: nat, j: nat, multiplier: nat, inverse: nat)
    requires rows >= 219 && i < 100 && j < 100 && Undoes(multiplier, inverse)
    requires DiagonalRow(rows, i, multiplier) == DiagonalRow(rows, j, multiplier)
    ensures i == j
  {
    DistinctPositions(i * multiplier % TILES, j * multiplier % TILES, TILES, rows - VISIBLE_TILE_ROWS);
    ChurnVisitsEachOnce(i, j, multiplier, inverse, 0);
  }
}
