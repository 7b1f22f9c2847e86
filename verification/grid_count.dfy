/**
  Counting the cells of a `rows` x `cols` grid that satisfy a predicate.

  The spiral walk keeps a running count of the in-grid cells it has marked;
  relating that count to "which cells have been emitted" is done here, by
  plain recursion over rows and columns, without set cardinalities.
*/
module GridCount {

  /** A grid cell, row first, both counted from 0. */
  datatype Cell = Cell(row: int, col: int)

  predicate InGrid(c: Cell, rows: int, cols: int) {
    0 <= c.row < rows && 0 <= c.col < cols
  }

  /** Number of cells (row, 0) .. (row, cols - 1) that satisfy p. */
  function CountRow(row: int, cols: nat, p: Cell -> bool): (n: nat)
    ensures n <= cols
  {
    if cols == 0 then 0
    else CountRow(row, cols - 1, p) + (if p(Cell(row, cols - 1)) then 1 else 0)
  }

  /** Number of cells of the rows x cols grid that satisfy p. */
  function Count(rows: nat, cols: nat, p: Cell -> bool): (n: nat)
    ensures n <= rows * cols
  {
    if rows == 0 then 0
    else
      var n := Count(rows - 1, cols, p) + CountRow(rows - 1, cols, p);
      assert rows * cols == (rows - 1) * cols + cols;
      n
  }

  lemma {:induction false} CountRowSame(row: int, cols: nat, p: Cell -> bool, q: Cell -> bool)
    requires forall c: Cell | c.row == row && 0 <= c.col < cols :: p(c) == q(c)
    ensures CountRow(row, cols, p) == CountRow(row, cols, q)
  {
    if cols > 0 {
      CountRowSame(row, cols - 1, p, q);
      assert p(Cell(row, cols - 1)) == q(Cell(row, cols - 1));
    }
  }

  /** Predicates that agree on the grid have the same count. */
  lemma {:induction false} CountSame(rows: nat, cols: nat, p: Cell -> bool, q: Cell -> bool)
    requires forall c: Cell | InGrid(c, rows, cols) :: p(c) == q(c)
    ensures Count(rows, cols, p) == Count(rows, cols, q)
  {
    if rows > 0 {
      CountSame(rows - 1, cols, p, q);
      CountRowSame(rows - 1, cols, p, q);
    }
  }

  lemma {:induction false} CountRowAddOne(row: int, cols: nat, p: Cell -> bool, q: Cell -> bool, x: Cell)
    requires forall c: Cell :: q(c) == (p(c) || c == x)
    requires !p(x)
    ensures CountRow(row, cols, q) == CountRow(row, cols, p) + (if x.row == row && 0 <= x.col < cols then 1 else 0)
  {
    if cols > 0 {
      CountRowAddOne(row, cols - 1, p, q, x);
      var c := Cell(row, cols - 1);
      assert q(c) == (p(c) || c == x);
    }
  }

  /** Adding one cell x (not yet counted) to a predicate adds one to the count iff x lies in the grid. */
  lemma {:induction false} CountAddOne(rows: nat, cols: nat, p: Cell -> bool, q: Cell -> bool, x: Cell)
    requires forall c: Cell :: q(c) == (p(c) || c == x)
    requires !p(x)
    ensures Count(rows, cols, q) == Count(rows, cols, p) + (if InGrid(x, rows, cols) then 1 else 0)
  {
    if rows > 0 {
      CountAddOne(rows - 1, cols, p, q, x);
      CountRowAddOne(rows - 1, cols, p, q, x);
    }
  }

  lemma {:induction false} CountRowNone(row: int, cols: nat, p: Cell -> bool)
    requires forall c: Cell :: !p(c)
    ensures CountRow(row, cols, p) == 0
  {
    if cols > 0 {
      CountRowNone(row, cols - 1, p);
      assert !p(Cell(row, cols - 1));
    }
  }

  /** A predicate that holds nowhere counts zero cells. */
  lemma {:induction false} CountNone(rows: nat, cols: nat, p: Cell -> bool)
    requires forall c: Cell :: !p(c)
    ensures Count(rows, cols, p) == 0
  {
    if rows > 0 {
      CountNone(rows - 1, cols, p);
      CountRowNone(rows - 1, cols, p);
    }
  }

  lemma {:induction false} CountRowAll(row: int, cols: nat, p: Cell -> bool)
    requires forall c: Cell | c.row == row && 0 <= c.col < cols :: p(c)
    ensures CountRow(row, cols, p) == cols
  {
    if cols > 0 {
      CountRowAll(row, cols - 1, p);
      assert p(Cell(row, cols - 1));
    }
  }

  /** A predicate that holds on the whole grid counts every cell. */
  lemma {:induction false} CountAll(rows: nat, cols: nat, p: Cell -> bool)
    requires forall c: Cell | InGrid(c, rows, cols) :: p(c)
    ensures Count(rows, cols, p) == rows * cols
  {
    if rows > 0 {
      CountAll(rows - 1, cols, p);
      CountRowAll(rows - 1, cols, p);
      assert rows * cols == (rows - 1) * cols + cols;
    }
  }

  lemma {:induction false} CountRowMissing(row: int, cols: nat, p: Cell -> bool, x: Cell)
    requires x.row == row && 0 <= x.col < cols && !p(x)
    ensures CountRow(row, cols, p) < cols
  {
    if x.col == cols - 1 {
      assert !p(Cell(row, cols - 1));
    } else {
      CountRowMissing(row, cols - 1, p, x);
    }
  }

  /** One grid cell failing the predicate keeps the count below the grid size. */
  lemma {:induction false} CountMissing(rows: nat, cols: nat, p: Cell -> bool, x: Cell)
    requires InGrid(x, rows, cols) && !p(x)
    ensures Count(rows, cols, p) < rows * cols
  {
    assert rows * cols == (rows - 1) * cols + cols;
    if x.row == rows - 1 {
      CountRowMissing(rows - 1, cols, p, x);
    } else {
      CountMissing(rows - 1, cols, p, x);
    }
  }
}
