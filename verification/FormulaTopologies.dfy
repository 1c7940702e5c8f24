/** The generated formula sheets of the benchmark, and the outputs that the benchmark expects of them. */
module FormulaTopologies {
  import opened Sheet

  datatype FormulaCell = FormulaCell(cell: Cell, expr: Expr)

  /** Entering formulas one after the other; a later one replaces an earlier one in the same cell. */
  function SetFormulas(list: seq<FormulaCell>): map<Cell, Expr>
  {
    if list == [] then map[] else SetFormulas(list[..|list| - 1])[list[|list| - 1].cell := list[|list| - 1].expr]
  }

  ghost predicate DistinctCells(list: seq<FormulaCell>)
  {
    forall i, j | 0 <= i < j < |list| :: list[i].cell != list[j].cell
  }

  lemma {:induction false} FormulaAt(list: seq<FormulaCell>, i: nat)
    requires i < |list| && DistinctCells(list)
    ensures list[i].cell in SetFormulas(list) && SetFormulas(list)[list[i].cell] == list[i].expr
  {
    if i < |list| - 1 { FormulaAt(list[..|list| - 1], i); }
  }

  lemma {:induction false} FormulaCells(list: seq<FormulaCell>, c: Cell)
    ensures c in SetFormulas(list) <==> exists i | 0 <= i < |list| :: list[i].cell == c
  {
    if list != [] {
      var init := list[..|list| - 1];
      FormulaCells(init, c);
      if c in SetFormulas(init) {
        var i :| 0 <= i < |init| && init[i].cell == c;
        assert list[i].cell == c;
      }
    }
  }

  /** The value of the i-th generated formula. */
  lemma ShownAt(list: seq<FormulaCell>, inputs: map<Cell, int>, v: Valuation, i: nat)
    requires i < |list| && DistinctCells(list) && Consistent(Book(SetFormulas(list), inputs), v)
    ensures v(list[i].cell) == Eval(list[i].expr, v)
  {
    FormulaAt(list, i);
    assert v(list[i].cell) == CellValue(Book(SetFormulas(list), inputs), v, list[i].cell);
  }

  lemma EnteredAt(list: seq<FormulaCell>, inputs: map<Cell, int>, v: Valuation, c: Cell)
    requires Consistent(Book(SetFormulas(list), inputs), v) && forall i | 0 <= i < |list| :: list[i].cell != c
    ensures v(c) == Input(inputs, c)
  {
    FormulaCells(list, c);
    assert v(c) == CellValue(Book(SetFormulas(list), inputs), v, c);
  }

  const A1: Cell := Cell(0, 0)

  function Add(c: Cell, n: int): Expr
  {
    Plus(Ref(c), Const(n))
  }

  // ----- Generators

  function IndependentFormulas(count: nat): (list: seq<FormulaCell>)
    ensures |list| == count && DistinctCells(list)
  {
    seq(count, (row: nat) => FormulaCell(Cell(row, 1), Add(Cell(row, 0), 1)))
  }

  /** A column in which each cell adds one to the cell above; the first is a number. */
  function LinearChain(depth: nat): (list: seq<FormulaCell>)
    ensures |list| == (if depth == 0 then 0 else depth - 1) && DistinctCells(list)
  {
    seq(if depth == 0 then 0 else depth - 1, (index: nat) => FormulaCell(Cell(index + 1, 0), Add(Cell(index, 0), 1)))
  }

  function FanOutFormulas(count: nat): (list: seq<FormulaCell>)
    ensures |list| == count && DistinctCells(list)
  {
    seq(count, (row: nat) => FormulaCell(Cell(row, 1), Add(A1, row + 1)))
  }

  function SharedRangeFormulas(count: nat, rangeRows: nat): (list: seq<FormulaCell>)
    requires rangeRows > 0
    ensures |list| == count && DistinctCells(list)
  {
    seq(count, (row: nat) => FormulaCell(Cell(row, 1), Sum(0, 0, rangeRows - 1)))
  }

  function DistinctRangeFormulas(count: nat): (list: seq<FormulaCell>)
    ensures |list| == count && DistinctCells(list)
  {
    seq(count, (row: nat) => FormulaCell(Cell(row, 1), Sum(0, 10 * row, 10 * row + 9)))
  }

  /** What a level of the diamond starts from: the number in A1, and after that the join of the level above. */
  function DiamondSource(row: nat): Cell
  {
    if row == 0 then A1 else Cell(row - 1, 3)
  }

  function DiamondPart(row: nat, k: nat): FormulaCell
    requires k < 3
  {
    if k == 0 then FormulaCell(Cell(row, 1), Add(DiamondSource(row), 1))
    else if k == 1 then FormulaCell(Cell(row, 2), Add(DiamondSource(row), 2))
    else FormulaCell(Cell(row, 3), Plus(Ref(Cell(row, 1)), Ref(Cell(row, 2))))
  }

  function Diamond(levels: nat): (list: seq<FormulaCell>)
    ensures |list| == 3 * levels && DistinctCells(list)
    ensures forall i | 0 <= i < |list| :: list[i] == DiamondPart(i / 3, i % 3)
  {
    seq(3 * levels, (i: nat) => DiamondPart(i / 3, i % 3))
  }

  method DiamondFormulas(levels: nat) returns (formulas: seq<FormulaCell>)
    ensures formulas == Diamond(levels)
  {
    formulas := [];
    for row := 0 to levels
      invariant formulas == Diamond(row)
    {
      var source := if row == 0 then A1 else Cell(row - 1, 3);
      formulas := formulas + [FormulaCell(Cell(row, 1), Add(source, 1)), FormulaCell(Cell(row, 2), Add(source, 2)),
                              FormulaCell(Cell(row, 3), Plus(Ref(Cell(row, 1)), Ref(Cell(row, 2))))];
    }
  }

  function ClosurePart(row: nat, k: nat): FormulaCell
  {
    if k == 0 then FormulaCell(Cell(row, 1), Add(Cell(row, 0), 1)) else FormulaCell(Cell(row, 2), Add(Cell(row, 1), 1))
  }

  function Closures(count: nat): (list: seq<FormulaCell>)
    ensures |list| == 2 * count && DistinctCells(list)
    ensures forall i | 0 <= i < |list| :: list[i] == ClosurePart(i / 2, i % 2)
  {
    seq(2 * count, (i: nat) => ClosurePart(i / 2, i % 2))
  }

  method DependencyClosureFormulas(count: nat) returns (formulas: array<FormulaCell>)
    ensures formulas[..] == Closures(count)
  {
    formulas := new FormulaCell[2 * count](_ => FormulaCell(A1, Const(0)));
    for row := 0 to count
      invariant forall i | 0 <= i < 2 * row :: formulas[i] == ClosurePart(i / 2, i % 2)
    {
      formulas[row * 2] := FormulaCell(Cell(row, 1), Add(Cell(row, 0), 1));
      formulas[row * 2 + 1] := FormulaCell(Cell(row, 2), Add(Cell(row, 1), 1));
    }
  }

  // ----- Every topology can be evaluated

  /** Row by row, and from left to right within a row. */
  function ByRow(c: Cell): nat
  {
    4 * c.row + c.col
  }

  function ByColumn(c: Cell): nat
  {
    c.col
  }

  ghost predicate ReadsBackward(list: seq<FormulaCell>, rank: Rank)
  {
    forall i, d | 0 <= i < |list| && Reads(list[i].expr, d) :: rank(d) < rank(list[i].cell)
  }

  lemma BackwardIsAcyclic(list: seq<FormulaCell>, inputs: map<Cell, int>, rank: Rank)
    requires DistinctCells(list) && ReadsBackward(list, rank)
    ensures Acyclic(Book(SetFormulas(list), inputs), rank)
  {
    forall c, d | c in SetFormulas(list) && Reads(SetFormulas(list)[c], d)
      ensures rank(d) < rank(c)
    {
      FormulaCells(list, c);
      var i :| 0 <= i < |list| && list[i].cell == c;
      FormulaAt(list, i);
    }
  }

  lemma ColumnFormulasAcyclic(inputs: map<Cell, int>, n: nat, rangeRows: nat)
    requires rangeRows > 0
    ensures Acyclic(Book(SetFormulas(IndependentFormulas(n)), inputs), ByColumn)
    ensures Acyclic(Book(SetFormulas(FanOutFormulas(n)), inputs), ByColumn)
    ensures Acyclic(Book(SetFormulas(SharedRangeFormulas(n, rangeRows)), inputs), ByColumn)
    ensures Acyclic(Book(SetFormulas(DistinctRangeFormulas(n)), inputs), ByColumn)
  {
    BackwardIsAcyclic(IndependentFormulas(n), inputs, ByColumn);
    BackwardIsAcyclic(FanOutFormulas(n), inputs, ByColumn);
    BackwardIsAcyclic(SharedRangeFormulas(n, rangeRows), inputs, ByColumn);
    BackwardIsAcyclic(DistinctRangeFormulas(n), inputs, ByColumn);
  }

  lemma ChainAcyclic(inputs: map<Cell, int>, n: nat)
    ensures Acyclic(Book(SetFormulas(LinearChain(n)), inputs), ByRow)
  {
    BackwardIsAcyclic(LinearChain(n), inputs, ByRow);
  }

  lemma DiamondAcyclic(inputs: map<Cell, int>, n: nat)
    ensures Acyclic(Book(SetFormulas(Diamond(n)), inputs), ByRow)
  {
    BackwardIsAcyclic(Diamond(n), inputs, ByRow);
  }

  lemma ClosuresAcyclic(inputs: map<Cell, int>, n: nat)
    ensures Acyclic(Book(SetFormulas(Closures(n)), inputs), ByColumn)
  {
    BackwardIsAcyclic(Closures(n), inputs, ByColumn);
  }

  // ----- What they evaluate to

  datatype Output = Number(value: int) | Pair(first: int, last: int)

  datatype Workload =
    | IndependentFirstRecompute
    | LinearChainRecompute
    | WideFanOutEdit
    | ScalarEditAffectsNothing
    | DiamondEdit
    | SharedRangeEdit
    | DistinctRangeEdit
    | ClosureEdit

  /** The column of numbers that a fixture enters. */
  function Column(n: nat, value: nat -> int): map<Cell, int>
  {
    if n == 0 then map[] else Column(n - 1, value)[Cell(n - 1, 0) := value(n - 1)]
  }

  lemma {:induction false} ColumnAt(n: nat, value: nat -> int, c: Cell)
    ensures Input(Column(n, value), c) == if c.col == 0 && c.row < n then value(c.row) else 0
  {
    if n > 0 { ColumnAt(n - 1, value, c); }
  }

  /** The level recurrence: one branch adds one, the other two, and the join adds them up. */
  function DiamondValue(start: int, levels: nat): int
  {
    if levels == 0 then start
    else
      var source := DiamondValue(start, levels - 1);
      source + 1 + (source + 2)
  }

  method DiamondOutput(levels: nat) returns (expected: int)
    ensures expected == DiamondValue(2, levels)
  {
    expected := 2;
    for level := 0 to levels
      invariant expected == DiamondValue(2, level)
    {
      expected := expected + 1 + (expected + 2);
    }
  }

  function Pow2(n: nat): nat
  {
    if n == 0 then 1 else 2 * Pow2(n - 1)
  }

  lemma {:induction false} DiamondClosedForm(start: int, levels: nat)
    ensures DiamondValue(start, levels) == (start + 3) * Pow2(levels) - 3
  {
    if levels > 0 {
      DiamondClosedForm(start, levels - 1);
      assert (start + 3) * Pow2(levels) == 2 * ((start + 3) * Pow2(levels - 1));
    }
  }

  /** The outputs that the benchmark expects. */
  function Expected(workload: Workload, size: nat): Output
  {
    match workload
    case IndependentFirstRecompute => Number(size)
    case LinearChainRecompute => Number(size)
    case WideFanOutEdit => Number(size + 10)
    case ScalarEditAffectsNothing => Number(size + 1)
    case DiamondEdit => Number(DiamondValue(2, size))
    case SharedRangeEdit => Number(101)
    case DistinctRangeEdit => Pair(11, 10)
    case ClosureEdit => Pair(12, size + 1)
  }

  /** The sheet that a workload checks: its formulas, what the fixture enters, and the edit that is timed. */
  function Checked(workload: Workload, size: nat): Book
  {
    match workload
    case IndependentFirstRecompute => Book(SetFormulas(IndependentFormulas(size)), Column(size, (row: nat) => row))
    case LinearChainRecompute => Book(SetFormulas(LinearChain(size)), map[A1 := 1])
    case WideFanOutEdit => Enter(Book(SetFormulas(FanOutFormulas(size)), map[A1 := 1]), A1, 10)
    case ScalarEditAffectsNothing => Enter(Book(SetFormulas(FanOutFormulas(size)), map[A1 := 1]), Cell(0, 2), 10)
    case DiamondEdit => Enter(Book(SetFormulas(Diamond(size)), map[A1 := 1]), A1, 2)
    case SharedRangeEdit => Enter(Book(SetFormulas(SharedRangeFormulas(size, 100)), Column(100, (row: nat) => 1)), A1, 2)
    case DistinctRangeEdit => Enter(Book(SetFormulas(DistinctRangeFormulas(size)), Column(10 * size, (row: nat) => 1)), A1, 2)
    case ClosureEdit => Enter(Book(SetFormulas(Closures(size)), Column(size, (row: nat) => row)), A1, 10)
  }

  /** What the workload reads off the sheet. */
  function Read(workload: Workload, size: nat, v: Valuation): Output
    requires size > 0
  {
    match workload
    case IndependentFirstRecompute => Number(v(Cell(size - 1, 1)))
    case LinearChainRecompute => Number(v(Cell(size - 1, 0)))
    case WideFanOutEdit => Number(v(Cell(size - 1, 1)))
    case ScalarEditAffectsNothing => Number(v(Cell(size - 1, 1)))
    case DiamondEdit => Number(v(Cell(size - 1, 3)))
    case SharedRangeEdit => Number(v(Cell(size - 1, 1)))
    case DistinctRangeEdit => Pair(v(Cell(0, 1)), v(Cell(size - 1, 1)))
    case ClosureEdit => Pair(v(Cell(0, 2)), v(Cell(size - 1, 2)))
  }

  /** Each checked sheet can be evaluated, so the oracle speaks of values that exist. */
  lemma CheckedHasValues(workload: Workload, size: nat) returns (v: Valuation)
    ensures Consistent(Checked(workload, size), v)
  {
    var rank: Rank := if workload.LinearChainRecompute? || workload.DiamondEdit? then ByRow else ByColumn;
    var inputs := Checked(workload, size).inputs;
    ColumnFormulasAcyclic(inputs, size, 100);
    ChainAcyclic(inputs, size);
    DiamondAcyclic(inputs, size);
    ClosuresAcyclic(inputs, size);
    assert Checked(workload, size) == Book(Checked(workload, size).formulas, inputs);
    v := Full(Checked(workload, size), rank);
    FullIsConsistent(Checked(workload, size), rank);
  }

  lemma {:induction false} ChainValue(depth: nat, inputs: map<Cell, int>, v: Valuation, row: nat)
    requires row < depth && Consistent(Book(SetFormulas(LinearChain(depth)), inputs), v)
    ensures v(Cell(row, 0)) == Input(inputs, A1) + row
  {
    if row == 0 {
      EnteredAt(LinearChain(depth), inputs, v, A1);
    } else {
      ChainValue(depth, inputs, v, row - 1);
      ShownAt(LinearChain(depth), inputs, v, row - 1);
    }
  }

  lemma FanOutValue(count: nat, inputs: map<Cell, int>, v: Valuation, row: nat)
    requires row < count && Consistent(Book(SetFormulas(FanOutFormulas(count)), inputs), v)
    ensures v(Cell(row, 1)) == Input(inputs, A1) + row + 1
  {
    EnteredAt(FanOutFormulas(count), inputs, v, A1);
    ShownAt(FanOutFormulas(count), inputs, v, row);
  }

  lemma IndependentValue(count: nat, inputs: map<Cell, int>, v: Valuation, row: nat)
    requires row < count && Consistent(Book(SetFormulas(IndependentFormulas(count)), inputs), v)
    ensures v(Cell(row, 1)) == Input(inputs, Cell(row, 0)) + 1
  {
    EnteredAt(IndependentFormulas(count), inputs, v, Cell(row, 0));
    ShownAt(IndependentFormulas(count), inputs, v, row);
  }

  lemma ClosureValue(count: nat, inputs: map<Cell, int>, v: Valuation, row: nat)
    requires row < count && Consistent(Book(SetFormulas(Closures(count)), inputs), v)
    ensures v(Cell(row, 2)) == Input(inputs, Cell(row, 0)) + 2
  {
    EnteredAt(Closures(count), inputs, v, Cell(row, 0));
    ShownAt(Closures(count), inputs, v, 2 * row);
    ShownAt(Closures(count), inputs, v, 2 * row + 1);
  }

  /** One level of the diamond maps its source to twice the source and three. */
  lemma DiamondStep(levels: nat, inputs: map<Cell, int>, v: Valuation, row: nat)
    requires row < levels && Consistent(Book(SetFormulas(Diamond(levels)), inputs), v)
    ensures v(Cell(row, 3)) == 2 * v(DiamondSource(row)) + 3
  {
    ShownAt(Diamond(levels), inputs, v, 3 * row);
    ShownAt(Diamond(levels), inputs, v, 3 * row + 1);
    ShownAt(Diamond(levels), inputs, v, 3 * row + 2);
  }

  lemma {:induction false} DiamondLevels(levels: nat, inputs: map<Cell, int>, v: Valuation, row: nat)
    requires row < levels && Consistent(Book(SetFormulas(Diamond(levels)), inputs), v)
    ensures v(Cell(row, 3)) == DiamondValue(Input(inputs, A1), row + 1)
  {
    DiamondStep(levels, inputs, v, row);
    if row == 0 {
      EnteredAt(Diamond(levels), inputs, v, A1);
    } else {
      DiamondLevels(levels, inputs, v, row - 1);
    }
  }

  lemma {:induction false} SumOfOnes(v: Valuation, first: nat, last: nat)
    requires first <= last + 1 && forall r: nat | first <= r <= last :: v(Cell(r, 0)) == 1
    ensures SumColumn(v, 0, first, last) == last - first + 1
    decreases last + 1 - first
  {
    if first <= last { SumOfOnes(v, first + 1, last); }
  }

  lemma RangeFromTop(v: Valuation, last: nat)
    requires v(A1) == 2 && forall r: nat | 1 <= r <= last :: v(Cell(r, 0)) == 1
    ensures SumColumn(v, 0, 0, last) == last + 2
  {
    SumOfOnes(v, 1, last);
  }

  /** Column A as entered: ones, and a two at the top. */
  lemma EditedColumn(list: seq<FormulaCell>, n: nat, v: Valuation)
    requires n > 0 && Consistent(Enter(Book(SetFormulas(list), Column(n, (row: nat) => 1)), A1, 2), v)
    requires forall i | 0 <= i < |list| :: list[i].cell.col == 1
    ensures v(A1) == 2 && forall r: nat | 1 <= r < n :: v(Cell(r, 0)) == 1
  {
    var inputs := Column(n, (row: nat) => 1)[A1 := 2];
    EnteredAt(list, inputs, v, A1);
    forall r: nat | 1 <= r < n
      ensures v(Cell(r, 0)) == 1
    {
      EnteredAt(list, inputs, v, Cell(r, 0));
      ColumnAt(n, (row: nat) => 1, Cell(r, 0));
    }
  }

  lemma SharedRangeValue(size: nat, rangeRows: nat, v: Valuation)
    requires size > 0 && rangeRows > 0
    requires Consistent(Enter(Book(SetFormulas(SharedRangeFormulas(size, rangeRows)), Column(rangeRows, (row: nat) => 1)), A1, 2), v)
    ensures v(Cell(size - 1, 1)) == rangeRows + 1
  {
    var list := SharedRangeFormulas(size, rangeRows);
    EditedColumn(list, rangeRows, v);
    ShownAt(list, Column(rangeRows, (row: nat) => 1)[A1 := 2], v, size - 1);
    RangeFromTop(v, rangeRows - 1);
  }

  lemma DistinctRangeOutput(size: nat, v: Valuation, row: nat)
    requires row < size && Consistent(Checked(DistinctRangeEdit, size), v)
    ensures v(Cell(row, 1)) == if row == 0 then 11 else 10
  {
    var list := DistinctRangeFormulas(size);
    EditedColumn(list, 10 * size, v);
    ShownAt(list, Column(10 * size, (r: nat) => 1)[A1 := 2], v, row);
    if row == 0 { RangeFromTop(v, 9); } else { SumOfOnes(v, 10 * row, 10 * row + 9); }
  }

  lemma ClosureOutput(size: nat, v: Valuation, row: nat)
    requires row < size && Consistent(Checked(ClosureEdit, size), v)
    ensures v(Cell(row, 2)) == if row == 0 then 12 else row + 2
  {
    ClosureValue(size, Column(size, (r: nat) => r)[A1 := 10], v, row);
    ColumnAt(size, (r: nat) => r, Cell(row, 0));
  }

  /** The two workloads that read the first and the last row expect them to be different rows. */
  predicate NeedsTwoRows(workload: Workload)
  {
    workload.DistinctRangeEdit? || workload.ClosureEdit?
  }

  /**
   The expected output is what the sheet evaluates to, for every size, except that the two workloads which compare the
   first row with the last have a wrong expectation for a single row.
   */
  lemma OracleHolds(workload: Workload, size: nat, v: Valuation)
    requires size > 0 && Consistent(Checked(workload, size), v)
    ensures Read(workload, size, v) == Expected(workload, size) <==> !NeedsTwoRows(workload) || size >= 2
  {
    match workload
    case IndependentFirstRecompute =>
      IndependentValue(size, Column(size, (row: nat) => row), v, size - 1);
      ColumnAt(size, (row: nat) => row, Cell(size - 1, 0));
    case LinearChainRecompute => ChainValue(size, map[A1 := 1], v, size - 1);
    case WideFanOutEdit => FanOutValue(size, map[A1 := 1][A1 := 10], v, size - 1);
    case ScalarEditAffectsNothing => FanOutValue(size, map[A1 := 1][Cell(0, 2) := 10], v, size - 1);
    case DiamondEdit => DiamondLevels(size, map[A1 := 1][A1 := 2], v, size - 1);
    case SharedRangeEdit => SharedRangeValue(size, 100, v);
    case DistinctRangeEdit =>
      DistinctRangeOutput(size, v, 0);
      DistinctRangeOutput(size, v, size - 1);
    case ClosureEdit =>
      ClosureOutput(size, v, 0);
      ClosureOutput(size, v, size - 1);
  }

  // ----- An edit of a closure stays in its row

  lemma ReadsAdd(c: Cell, n: int, d: Cell)
    ensures Reads(Add(c, n), d) <==> d == c
  {
  }

  lemma {:induction false} TrailStaysInRow(count: nat, inputs: map<Cell, int>, trail: seq<Cell>)
    requires Trail(Book(SetFormulas(Closures(count)), inputs), trail)
    ensures trail[|trail| - 1].row == trail[0].row
  {
    if |trail| > 1 {
      var book := Book(SetFormulas(Closures(count)), inputs);
      assert trail[0] in book.formulas && Reads(book.formulas[trail[0]], trail[1]);
      FormulaCells(Closures(count), trail[0]);
      var i :| 0 <= i < 2 * count && Closures(count)[i].cell == trail[0];
      FormulaAt(Closures(count), i);
      ReadsAdd(Cell(i / 2, i % 2), 1, trail[1]);
      assert trail[1].row == trail[0].row;
      assert Trail(book, trail[1..]) by {
        forall k | 0 <= k < |trail| - 2
          ensures trail[1..][k] in book.formulas && Reads(book.formulas[trail[1..][k]], trail[1..][k + 1])
        {
          assert trail[k + 1] in book.formulas && Reads(book.formulas[trail[k + 1]], trail[k + 2]);
        }
      }
      TrailStaysInRow(count, inputs, trail[1..]);
    }
  }

  /** Editing column A of one row leaves every other row as it was. */
  lemma ClosureEditIsLocal(count: nat, inputs: map<Cell, int>, row: nat, n: int, v: Valuation, w: Valuation, c: Cell)
    requires var book := Book(SetFormulas(Closures(count)), inputs);
             Consistent(book, v) && Consistent(Enter(book, Cell(row, 0), n), w)
    requires c.row != row
    ensures v(c) == w(c)
  {
    var book := Book(SetFormulas(Closures(count)), inputs);
    BackwardIsAcyclic(Closures(count), inputs, ByColumn);
    if DependsOn(book, c, Cell(row, 0)) {
      var trail :| Trail(book, trail) && trail[0] == c && trail[|trail| - 1] == Cell(row, 0);
      TrailStaysInRow(count, inputs, trail);
    }
    EditIsLocal(book, ByColumn, Cell(row, 0), n, v, w, c);
  }
}
