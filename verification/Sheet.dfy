/** Spreadsheet formulas of references, constants, sums of two terms and sums over a range, and what they evaluate to. */
module Sheet {
  /** Rows and columns count from 0. */
  datatype Cell = Cell(row: nat, col: nat)

  datatype Expr =
    | Const(value: int)
    | Ref(cell: Cell)
    | Plus(left: Expr, right: Expr)
    | Sum(col: nat, first: nat, last: nat)

  /** A sheet: formulas, and the numbers entered; a cell with neither counts as 0. */
  datatype Book = Book(formulas: map<Cell, Expr>, inputs: map<Cell, int>)

  type Valuation = Cell -> int

  function Input(inputs: map<Cell, int>, c: Cell): int
  {
    if c in inputs then inputs[c] else 0
  }

  function SumColumn(v: Valuation, col: nat, first: nat, last: nat): int
    decreases if first <= last then last - first + 1 else 0
  {
    if first > last then 0 else v(Cell(first, col)) + SumColumn(v, col, first + 1, last)
  }

  function Eval(e: Expr, v: Valuation): int
  {
    match e
    case Const(n) => n
    case Ref(c) => v(c)
    case Plus(a, b) => Eval(a, v) + Eval(b, v)
    case Sum(col, first, last) => SumColumn(v, col, first, last)
  }

  predicate Reads(e: Expr, c: Cell)
  {
    match e
    case Const(_) => false
    case Ref(d) => d == c
    case Plus(a, b) => Reads(a, c) || Reads(b, c)
    case Sum(col, first, last) => c.col == col && first <= c.row <= last
  }

  /** Every formula cell shows the value of its formula, and every other cell what was entered. */
  ghost predicate Consistent(book: Book, v: Valuation)
  {
    forall c :: v(c) == CellValue(book, v, c)
  }

  function CellValue(book: Book, v: Valuation, c: Cell): int
  {
    if c in book.formulas then Eval(book.formulas[c], v) else Input(book.inputs, c)
  }

  /** An order of evaluation: what a formula reads comes before the formula. */
  type Rank = Cell -> nat

  ghost predicate Acyclic(book: Book, rank: Rank)
  {
    forall c, d | c in book.formulas && Reads(book.formulas[c], d) :: rank(d) < rank(c)
  }

  lemma {:induction false} SumAgrees(v: Valuation, w: Valuation, col: nat, first: nat, last: nat)
    requires forall r: nat | first <= r <= last :: v(Cell(r, col)) == w(Cell(r, col))
    ensures SumColumn(v, col, first, last) == SumColumn(w, col, first, last)
    decreases if first <= last then last - first + 1 else 0
  {
    if first <= last { SumAgrees(v, w, col, first + 1, last); }
  }

  /** A formula's value depends only on the cells it reads. */
  lemma {:induction false} EvalAgrees(e: Expr, v: Valuation, w: Valuation)
    requires forall c | Reads(e, c) :: v(c) == w(c)
    ensures Eval(e, v) == Eval(e, w)
  {
    match e
    case Const(_) =>
    case Ref(c) => assert Reads(e, c);
    case Plus(a, b) =>
      EvalAgrees(a, v, w);
      EvalAgrees(b, v, w);
    case Sum(col, first, last) =>
      forall r: nat | first <= r <= last
        ensures v(Cell(r, col)) == w(Cell(r, col))
      {
        assert Reads(e, Cell(r, col));
      }
      SumAgrees(v, w, col, first, last);
  }

  // ----- Precedents

  /** A walk along references, from a formula to something it depends on. */
  ghost predicate Trail(book: Book, trail: seq<Cell>)
  {
    trail != [] && forall i | 0 <= i < |trail| - 1 :: trail[i] in book.formulas && Reads(book.formulas[trail[i]], trail[i + 1])
  }

  ghost predicate DependsOn(book: Book, c: Cell, d: Cell)
  {
    exists trail :: Trail(book, trail) && trail[0] == c && trail[|trail| - 1] == d
  }

  lemma DependsOnSelf(book: Book, c: Cell)
    ensures DependsOn(book, c, c)
  {
    assert Trail(book, [c]);
  }

  lemma DependsFurther(book: Book, c: Cell, d: Cell, e: Cell)
    requires c in book.formulas && Reads(book.formulas[c], d) && DependsOn(book, d, e)
    ensures DependsOn(book, c, e)
  {
    var trail :| Trail(book, trail) && trail[0] == d && trail[|trail| - 1] == e;
    var longer := [c] + trail;
    forall i | 0 <= i < |longer| - 1
      ensures longer[i] in book.formulas && Reads(book.formulas[longer[i]], longer[i + 1])
    {
      if i > 0 { assert trail[i - 1] in book.formulas; }
    }
    assert Trail(book, longer);
  }

  /** Sheets that agree on the precedents of a cell agree on the cell: values are determined, and edits elsewhere do not matter. */
  lemma {:induction false} PrecedentsDetermine(book: Book, rank: Rank, inputs: map<Cell, int>, v: Valuation, w: Valuation, c: Cell)
    requires Acyclic(book, rank) && Consistent(book, v) && Consistent(book.(inputs := inputs), w)
    requires forall d | DependsOn(book, c, d) && d !in book.formulas :: Input(book.inputs, d) == Input(inputs, d)
    ensures v(c) == w(c)
    decreases rank(c)
  {
    assert v(c) == CellValue(book, v, c) && w(c) == CellValue(book.(inputs := inputs), w, c);
    DependsOnSelf(book, c);
    if c in book.formulas {
      forall d | Reads(book.formulas[c], d)
        ensures v(d) == w(d)
      {
        forall e | DependsOn(book, d, e) && e !in book.formulas
          ensures Input(book.inputs, e) == Input(inputs, e)
        {
          DependsFurther(book, c, d, e);
        }
        PrecedentsDetermine(book, rank, inputs, v, w, d);
      }
      EvalAgrees(book.formulas[c], v, w);
    }
  }

  /** A sheet without circular references has at most one consistent valuation. */
  lemma ValuesUnique(book: Book, rank: Rank, v: Valuation, w: Valuation, c: Cell)
    requires Acyclic(book, rank) && Consistent(book, v) && Consistent(book, w)
    ensures v(c) == w(c)
  {
    assert book.(inputs := book.inputs) == book;
    PrecedentsDetermine(book, rank, book.inputs, v, w, c);
  }

  function Enter(book: Book, c: Cell, n: int): Book
  {
    book.(inputs := book.inputs[c := n])
  }

  /** Entering a number changes only the cell itself and the formulas that depend on it. */
  lemma EditIsLocal(book: Book, rank: Rank, edited: Cell, n: int, v: Valuation, w: Valuation, c: Cell)
    requires Acyclic(book, rank) && Consistent(book, v) && Consistent(Enter(book, edited, n), w)
    requires !DependsOn(book, c, edited)
    ensures v(c) == w(c)
  {
    PrecedentsDetermine(book, rank, book.inputs[edited := n], v, w, c);
  }

  // ----- Full and incremental evaluation

  /** The value of a cell, by evaluating what it reads first. */
  ghost function Value(book: Book, rank: Rank, c: Cell): int
    requires Acyclic(book, rank)
    decreases rank(c)
  {
    if c in book.formulas then Eval(book.formulas[c], Below(book, rank, rank(c))) else Input(book.inputs, c)
  }

  /** The valuation of all cells below a rank. */
  ghost function Below(book: Book, rank: Rank, bound: nat): Valuation
    requires Acyclic(book, rank)
    decreases bound, 0
  {
    (c: Cell) => if rank(c) < bound then Value(book, rank, c) else 0
  }

  ghost function Full(book: Book, rank: Rank): Valuation
    requires Acyclic(book, rank)
  {
    (c: Cell) => Value(book, rank, c)
  }

  /** Evaluating in order gives a consistent valuation. */
  lemma FullIsConsistent(book: Book, rank: Rank)
    requires Acyclic(book, rank)
    ensures Consistent(book, Full(book, rank))
  {
    forall c
      ensures Full(book, rank)(c) == CellValue(book, Full(book, rank), c)
    {
      if c in book.formulas {
        EvalAgrees(book.formulas[c], Below(book, rank, rank(c)), Full(book, rank));
      }
    }
  }

  /** After an edit: cells that do not depend on it keep their old value, the others are evaluated again. */
  ghost function Recomputed(book: Book, rank: Rank, edited: Cell, n: int, before: Valuation, c: Cell): int
    requires Acyclic(book, rank)
    decreases rank(c)
  {
    if !DependsOn(book, c, edited) then before(c)
    else if c in book.formulas then Eval(book.formulas[c], RecomputedBelow(book, rank, edited, n, before, rank(c)))
    else Input(book.inputs[edited := n], c)
  }

  ghost function RecomputedBelow(book: Book, rank: Rank, edited: Cell, n: int, before: Valuation, bound: nat): Valuation
    requires Acyclic(book, rank)
    decreases bound, 0
  {
    (c: Cell) => if rank(c) < bound then Recomputed(book, rank, edited, n, before, c) else 0
  }

  /** Evaluating only the dependents of an edit gives what evaluating everything would. */
  lemma {:induction false} IncrementalEqualsFull(book: Book, rank: Rank, edited: Cell, n: int, v: Valuation, w: Valuation, c: Cell)
    requires Acyclic(book, rank) && Consistent(book, v) && Consistent(Enter(book, edited, n), w)
    ensures Recomputed(book, rank, edited, n, v, c) == w(c)
    decreases rank(c)
  {
    assert w(c) == CellValue(Enter(book, edited, n), w, c);
    if !DependsOn(book, c, edited) {
      EditIsLocal(book, rank, edited, n, v, w, c);
    } else if c in book.formulas {
      var below := RecomputedBelow(book, rank, edited, n, v, rank(c));
      forall d | Reads(book.formulas[c], d)
        ensures below(d) == w(d)
      {
        IncrementalEqualsFull(book, rank, edited, n, v, w, d);
      }
      EvalAgrees(book.formulas[c], below, w);
    }
  }
}
