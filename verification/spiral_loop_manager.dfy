/**
  The spiral loop manager: visits the cells of an nbRows x nbCols grid from a
  start cell outwards, calling a listener on each visited cell until the
  listener asks to stop.

  The cells the loop reaches do not depend on the listener's answers: an answer
  can only end the loop early. So the model splits the loop in two:
  `Walk` is the sequence of cells the loop calls back with a listener that
  always continues, and `StartLoop` feeds a listener along that walk,
  ignoring the answer to the first call and stopping after the first later
  `false`.
*/
module SpiralLoopManager {
  import opened Wrappers
  import opened GridCount
  import opened SpiralGeometry

  /** A cell is valid when it lies inside the grid. */
  predicate IsValidCell(row: int, col: int, nbRows: int, nbCols: int) {
    !(row < 0 || row >= nbRows || col < 0 || col >= nbCols)
  }

  /** The arguments of one `startLoop` call. */
  datatype Grid = Grid(nbRows: int, nbCols: int, startRow: int, startCol: int) {

    function TotalNbCells(): int {
      nbCols * nbRows
    }

    function Start(): Cell {
      Cell(startRow, startCol)
    }

    predicate Valid(c: Cell) {
      IsValidCell(c.row, c.col, nbRows, nbCols)
    }

    /**
      With both dimensions negative the cell total is positive but no cell is
      valid, so the loop's exit condition is never reached: such grids are
      excluded. Every other grid makes the loop stop.
    */
    predicate Terminates() {
      !(nbRows < 0 && nbCols < 0)
    }

    /** Key of the walk step that reaches c. */
    function KeyAt(c: Cell): Key {
      KeyOf(Offset(c.row - startRow, c.col - startCol))
    }

    /** A round number past which every grid cell has been reached. */
    function Bound(): nat {
      2 * (Abs(nbRows) + Abs(nbCols) + Abs(startRow) + Abs(startCol)) + 1
    }
  }

  /** One move of a round: the first `progress` moves change the row, the next ones the column. */
  function Move(row: int, col: int, progress: nat, variation: int, step: nat): Cell {
    if step < progress then Cell(row + variation, col) else Cell(row, col + variation)
  }

  /**
    The body of the `while (nbMarkedCells < totalNbCells)` loop, one step at a
    time. `step` counts the moves already made in the current round (rows
    first, then columns); `marked` is nbMarkedCells. The loop's exit condition
    is checked at the start of every round. The extra `progress > Bound()`
    exit never changes the result: `BoundNeverCuts` shows the loop's own
    condition already holds by then.
  */
  function Rounds(g: Grid, row: int, col: int, progress: nat, variation: int, step: nat, marked: int): seq<Cell>
    requires 1 <= progress <= g.Bound() + 1 && step <= 2 * progress
    requires step > 0 ==> progress <= g.Bound()
    decreases g.Bound() + 1 - progress, 2 * progress - step
  {
    if step == 0 && (marked >= g.TotalNbCells() || progress > g.Bound()) then []
    else if step == 2 * progress then
      Rounds(g, row, col, progress + 1, -variation, 0, marked)
    else
      var x := Move(row, col, progress, variation, step);
      if g.Valid(x) then
        [x] + Rounds(g, x.row, x.col, progress, variation, step + 1, marked + 1)
      else
        Rounds(g, x.row, x.col, progress, variation, step + 1, marked)
  }

  /**
    The cells `startLoop(nbRows, nbCols, startRow, startCol)` hands to a
    listener that never stops it: first the start cell (valid or not), then
    every valid cell the spiral steps on, starting with progress 1 and
    variation +1.
  */
  function Walk(nbRows: int, nbCols: int, startRow: int, startCol: int): (cells: seq<Cell>)
    requires Grid(nbRows, nbCols, startRow, startCol).Terminates()
  {
    var g := Grid(nbRows, nbCols, startRow, startCol);
    [g.Start()] + Rounds(g, startRow, startCol, 1, 1, 0, 1)
  }

  // ---------------------------------------------------------------------------
  // Why the walk stops, and what it has emitted when it does

  /** Cells whose walk key comes before k: those emitted (or started from) before step k. */
  function EmittedBefore(g: Grid, k: Key): Cell -> bool {
    c => Before(g.KeyAt(c), k)
  }

  /** Where the loop stands: the position the geometry predicts after `step` moves of round `progress`. */
  ghost predicate PosInv(g: Grid, row: int, col: int, progress: nat, variation: int, step: nat) {
    && 1 <= progress <= g.Bound() + 1 && step <= 2 * progress
    && (step > 0 ==> progress <= g.Bound())
    && variation == Variation(progress)
    && Offset(row - g.startRow, col - g.startCol) == PositionAfter(progress, step)
  }

  /**
    The state of `Rounds` as the Java loop reaches it: the position is the one
    the geometry predicts, and `marked` is one (for the start call) plus the
    number of valid cells stepped on so far.
  */
  ghost predicate WalkInv(g: Grid, row: int, col: int, progress: nat, variation: int, step: nat, marked: int) {
    && g.Terminates()
    && PosInv(g, row, col, progress, variation, step)
    && marked >= 1
    && (g.TotalNbCells() > 0 ==>
          && g.nbRows > 0 && g.nbCols > 0
          && marked == 1 + Count(g.nbRows, g.nbCols, EmittedBefore(g, Key(progress, step)))
                         - (if g.Valid(g.Start()) then 1 else 0))
  }

  lemma MulSign(a: int, b: int)
    ensures a <= 0 && b >= 0 ==> a * b <= 0
    ensures a >= 0 && b <= 0 ==> a * b <= 0
  {
  }

  lemma PositiveGrid(g: Grid)
    requires g.Terminates() && g.TotalNbCells() > 0
    ensures g.nbRows > 0 && g.nbCols > 0
  {
    MulSign(g.nbCols, g.nbRows);
  }

  /** A cell whose key is a real step sits where that step lands. */
  lemma KeyDeterminesCell(g: Grid, y: Cell, k: Key)
    requires IsStep(k) && g.KeyAt(y) == k
    ensures Offset(y.row - g.startRow, y.col - g.startCol) == StepOffset(k)
  {
    var o := Offset(y.row - g.startRow, y.col - g.startCol);
    assert KeyOf(o) == k;
    KeyOfShape(o);
    assert o != Origin;
    StepOfKey(o);
  }

  /** The move made at step `step` lands on the one cell whose key is (progress, step). */
  lemma NextCell(g: Grid, row: int, col: int, progress: nat, variation: int, step: nat)
    requires PosInv(g, row, col, progress, variation, step) && step < 2 * progress
    requires progress <= g.Bound()
    ensures var x := Move(row, col, progress, variation, step);
            && PosInv(g, x.row, x.col, progress, variation, step + 1)
            && g.KeyAt(x) == Key(progress, step)
            && (forall y: Cell :: g.KeyAt(y) == Key(progress, step) ==> y == x)
  {
    var x := Move(row, col, progress, variation, step);
    StepMoves(progress, step);
    assert Offset(x.row - g.startRow, x.col - g.startCol) == StepOffset(Key(progress, step));
    KeyOfStep(Key(progress, step));
    forall y: Cell | g.KeyAt(y) == Key(progress, step)
      ensures y == x
    {
      KeyDeterminesCell(g, y, Key(progress, step));
    }
  }

  /** The end of a round: progress grows by one and the variation flips. */
  lemma RoundEndPos(g: Grid, row: int, col: int, progress: nat, variation: int)
    requires PosInv(g, row, col, progress, variation, 2 * progress)
    ensures PosInv(g, row, col, progress + 1, -variation, 0)
  {
    RoundsChain(progress);
  }

  /** Before the loop: only the start cell has been marked. */
  lemma {:induction false} InitialInv(g: Grid)
    requires g.Terminates()
    ensures WalkInv(g, g.startRow, g.startCol, 1, 1, 0, 1)
  {
    if g.TotalNbCells() > 0 {
      PositiveGrid(g);
      var none: Cell -> bool := c => false;
      var p := EmittedBefore(g, Key(1, 0));
      forall c: Cell
        ensures p(c) == (none(c) || c == g.Start())
      {
        KeyOfShape(Offset(c.row - g.startRow, c.col - g.startCol));
      }
      KeyOfShape(Origin);
      CountNone(g.nbRows, g.nbCols, none);
      CountAddOne(g.nbRows, g.nbCols, none, p, g.Start());
    }
  }

  /** One move of the walk keeps the invariant, adding one to `marked` iff the new cell is valid. */
  lemma {:induction false} StepInv(g: Grid, row: int, col: int, progress: nat, variation: int, step: nat, marked: int)
    requires WalkInv(g, row, col, progress, variation, step, marked)
    requires step < 2 * progress && progress <= g.Bound()
    ensures var x := Move(row, col, progress, variation, step);
            WalkInv(g, x.row, x.col, progress, variation, step + 1, if g.Valid(x) then marked + 1 else marked)
  {
    var x := Move(row, col, progress, variation, step);
    NextCell(g, row, col, progress, variation, step);
    if g.TotalNbCells() > 0 {
      var p := EmittedBefore(g, Key(progress, step));
      var q := EmittedBefore(g, Key(progress, step + 1));
      forall y: Cell
        ensures q(y) == (p(y) || y == x)
      {
      }
      CountAddOne(g.nbRows, g.nbCols, p, q, x);
    }
  }

  /** At the end of a round the invariant carries over to the next round. */
  lemma {:induction false} RoundEndInv(g: Grid, row: int, col: int, progress: nat, variation: int, marked: int)
    requires WalkInv(g, row, col, progress, variation, 2 * progress, marked)
    ensures WalkInv(g, row, col, progress + 1, -variation, 0, marked)
  {
    RoundEndPos(g, row, col, progress, variation);
    if g.TotalNbCells() > 0 {
      var p := EmittedBefore(g, Key(progress, 2 * progress));
      var q := EmittedBefore(g, Key(progress + 1, 0));
      forall y: Cell | InGrid(y, g.nbRows, g.nbCols)
        ensures p(y) == q(y)
      {
        KeyOfShape(Offset(y.row - g.startRow, y.col - g.startCol));
      }
      CountSame(g.nbRows, g.nbCols, p, q);
    }
  }

  /** Past round Bound() every grid cell has been reached, so the Java exit condition holds. */
  lemma {:induction false} BoundNeverCuts(g: Grid, row: int, col: int, progress: nat, variation: int, marked: int)
    requires WalkInv(g, row, col, progress, variation, 0, marked)
    requires progress > g.Bound()
    ensures marked >= g.TotalNbCells()
  {
    if g.TotalNbCells() > 0 {
      var p := EmittedBefore(g, Key(progress, 0));
      AllReachedBefore(g, progress);
      CountAll(g.nbRows, g.nbCols, p);
      assert g.TotalNbCells() == g.nbRows * g.nbCols;
    }
  }

  /** Every grid cell is reached before round `progress` once it is past Bound(). */
  lemma AllReachedBefore(g: Grid, progress: nat)
    requires g.nbRows > 0 && g.nbCols > 0 && progress > g.Bound()
    ensures forall y: Cell | InGrid(y, g.nbRows, g.nbCols) :: EmittedBefore(g, Key(progress, 0))(y)
  {
    forall y: Cell | InGrid(y, g.nbRows, g.nbCols)
      ensures EmittedBefore(g, Key(progress, 0))(y)
    {
      KeyRoundBound(Offset(y.row - g.startRow, y.col - g.startCol));
    }
  }

  /** Every cell of `out` is in the grid. */
  ghost predicate AllValid(g: Grid, out: seq<Cell>) {
    forall i | 0 <= i < |out| :: g.Valid(out[i])
  }

  /** Every cell of `out` is reached at step k or later. */
  ghost predicate AllFrom(g: Grid, out: seq<Cell>, k: Key) {
    forall i | 0 <= i < |out| :: !Before(g.KeyAt(out[i]), k)
  }

  /** The cells of `out` come in strictly increasing key order. */
  ghost predicate Increasing(g: Grid, out: seq<Cell>) {
    forall i, j | 0 <= i < j < |out| :: Before(g.KeyAt(out[i]), g.KeyAt(out[j]))
  }

  lemma Prepend(g: Grid, x: Cell, rest: seq<Cell>, k: Key)
    requires g.Valid(x) && g.KeyAt(x) == k
    requires AllValid(g, rest) && AllFrom(g, rest, Key(k.round, k.step + 1)) && Increasing(g, rest)
    ensures AllValid(g, [x] + rest) && AllFrom(g, [x] + rest, k) && Increasing(g, [x] + rest)
  {
    var out := [x] + rest;
    forall i | 0 <= i < |out|
      ensures g.Valid(out[i]) && !Before(g.KeyAt(out[i]), k)
    {
      if i > 0 {
        assert out[i] == rest[i - 1];
      }
    }
    forall i, j | 0 <= i < j < |out|
      ensures Before(g.KeyAt(out[i]), g.KeyAt(out[j]))
    {
      assert out[j] == rest[j - 1];
      if i > 0 {
        assert out[i] == rest[i - 1];
      }
    }
  }

  /** `Rounds` from this state emits only valid cells, each at or after step (progress, step), in strictly increasing key order. */
  ghost predicate Ordered(g: Grid, row: int, col: int, progress: nat, variation: int, step: nat, marked: int)
    requires 1 <= progress <= g.Bound() + 1 && step <= 2 * progress
    requires step > 0 ==> progress <= g.Bound()
  {
    var out := Rounds(g, row, col, progress, variation, step, marked);
    AllValid(g, out) && AllFrom(g, out, Key(progress, step)) && Increasing(g, out)
  }

  /**
    `Rounds` emits only valid cells, each at or after the current step, in
    strictly increasing key order.
  */
  lemma {:induction false} RoundsOrdered(g: Grid, row: int, col: int, progress: nat, variation: int, step: nat, marked: int)
    requires PosInv(g, row, col, progress, variation, step)
    ensures Ordered(g, row, col, progress, variation, step, marked)
    decreases g.Bound() + 1 - progress, 2 * progress - step, 1
  {
    if step == 0 && (marked >= g.TotalNbCells() || progress > g.Bound()) {
    } else if step == 2 * progress {
      OrderedRoundEnd(g, row, col, progress, variation, marked);
    } else {
      OrderedStep(g, row, col, progress, variation, step, marked);
    }
  }

  lemma {:induction false} OrderedRoundEnd(g: Grid, row: int, col: int, progress: nat, variation: int, marked: int)
    requires PosInv(g, row, col, progress, variation, 2 * progress) && progress <= g.Bound()
    ensures Ordered(g, row, col, progress, variation, 2 * progress, marked)
    decreases g.Bound() + 1 - progress, 0, 0
  {
    RoundEndPos(g, row, col, progress, variation);
    RoundsOrdered(g, row, col, progress + 1, -variation, 0, marked);
    OrderedAcrossRounds(g, row, col, progress, variation, marked);
  }

  lemma {:induction false} OrderedStep(g: Grid, row: int, col: int, progress: nat, variation: int, step: nat, marked: int)
    requires PosInv(g, row, col, progress, variation, step) && step < 2 * progress && progress <= g.Bound()
    requires step == 0 ==> marked < g.TotalNbCells()
    ensures Ordered(g, row, col, progress, variation, step, marked)
    decreases g.Bound() + 1 - progress, 2 * progress - step, 0
  {
    var x := Move(row, col, progress, variation, step);
    NextCell(g, row, col, progress, variation, step);
    RoundsOrdered(g, x.row, x.col, progress, variation, step + 1, if g.Valid(x) then marked + 1 else marked);
    OrderedOneStep(g, row, col, progress, variation, step, marked);
  }

  lemma OrderedAcrossRounds(g: Grid, row: int, col: int, progress: nat, variation: int, marked: int)
    requires 1 <= progress <= g.Bound()
    requires Ordered(g, row, col, progress + 1, -variation, 0, marked)
    ensures Ordered(g, row, col, progress, variation, 2 * progress, marked)
  {
    assert Rounds(g, row, col, progress, variation, 2 * progress, marked) == Rounds(g, row, col, progress + 1, -variation, 0, marked);
  }

  lemma OrderedOneStep(g: Grid, row: int, col: int, progress: nat, variation: int, step: nat, marked: int)
    requires 1 <= progress <= g.Bound() && step < 2 * progress
    requires step == 0 ==> marked < g.TotalNbCells()
    requires var x := Move(row, col, progress, variation, step);
             && g.KeyAt(x) == Key(progress, step)
             && Ordered(g, x.row, x.col, progress, variation, step + 1, if g.Valid(x) then marked + 1 else marked)
    ensures Ordered(g, row, col, progress, variation, step, marked)
  {
    var x := Move(row, col, progress, variation, step);
    var rest := Rounds(g, x.row, x.col, progress, variation, step + 1, if g.Valid(x) then marked + 1 else marked);
    assert Rounds(g, row, col, progress, variation, step, marked) == if g.Valid(x) then [x] + rest else rest;
    if g.Valid(x) {
      Prepend(g, x, rest, Key(progress, step));
    }
  }

  /** When the loop stops after a valid start, every valid cell has been reached and exactly all are marked. */
  lemma {:induction false} StopCovers(g: Grid, row: int, col: int, progress: nat, variation: int, marked: int)
    requires WalkInv(g, row, col, progress, variation, 0, marked)
    requires g.Valid(g.Start())
    requires marked >= g.TotalNbCells() || progress > g.Bound()
    ensures forall c: Cell | g.Valid(c) :: Before(g.KeyAt(c), Key(progress, 0))
    ensures marked == g.TotalNbCells()
  {
    if progress > g.Bound() {
      BoundNeverCuts(g, row, col, progress, variation, marked);
    }
    assert g.TotalNbCells() > 0 by {
      assert g.nbRows > 0 && g.nbCols > 0;
    }
    var p := EmittedBefore(g, Key(progress, 0));
    forall c: Cell | g.Valid(c)
      ensures Before(g.KeyAt(c), Key(progress, 0))
    {
      if !p(c) {
        CountMissing(g.nbRows, g.nbCols, p, c);
      }
    }
  }

  /** Every valid cell reached at step k or later is in `out`. */
  ghost predicate CoversFrom(g: Grid, out: seq<Cell>, k: Key) {
    forall c: Cell | g.Valid(c) && !Before(g.KeyAt(c), k) :: c in out
  }

  /** `Rounds` from this state emits every valid cell reached from step (progress, step) on, and the marks add up. */
  ghost predicate Covered(g: Grid, row: int, col: int, progress: nat, variation: int, step: nat, marked: int)
    requires 1 <= progress <= g.Bound() + 1 && step <= 2 * progress
    requires step > 0 ==> progress <= g.Bound()
  {
    var out := Rounds(g, row, col, progress, variation, step, marked);
    CoversFrom(g, out, Key(progress, step)) && marked + |out| == g.TotalNbCells()
  }

  /**
    From a valid start, `Rounds` emits every valid cell not reached yet, and
    the loop ends with exactly nbRows * nbCols marked cells.
  */
  lemma {:induction false} RoundsCover(g: Grid, row: int, col: int, progress: nat, variation: int, step: nat, marked: int)
    requires WalkInv(g, row, col, progress, variation, step, marked)
    requires g.Valid(g.Start())
    ensures Covered(g, row, col, progress, variation, step, marked)
    decreases g.Bound() + 1 - progress, 2 * progress - step, 1
  {
    if step == 0 && (marked >= g.TotalNbCells() || progress > g.Bound()) {
      StopCovers(g, row, col, progress, variation, marked);
    } else if step == 2 * progress {
      CoverRoundEnd(g, row, col, progress, variation, marked);
    } else {
      CoverStep(g, row, col, progress, variation, step, marked);
    }
  }

  lemma {:induction false} CoverRoundEnd(g: Grid, row: int, col: int, progress: nat, variation: int, marked: int)
    requires WalkInv(g, row, col, progress, variation, 2 * progress, marked)
    requires g.Valid(g.Start()) && progress <= g.Bound()
    ensures Covered(g, row, col, progress, variation, 2 * progress, marked)
    decreases g.Bound() + 1 - progress, 0, 0
  {
    RoundEndInv(g, row, col, progress, variation, marked);
    RoundsCover(g, row, col, progress + 1, -variation, 0, marked);
    CoverAcrossRounds(g, row, col, progress, variation, marked);
  }

  lemma {:induction false} CoverStep(g: Grid, row: int, col: int, progress: nat, variation: int, step: nat, marked: int)
    requires WalkInv(g, row, col, progress, variation, step, marked)
    requires g.Valid(g.Start()) && step < 2 * progress && progress <= g.Bound()
    requires step == 0 ==> marked < g.TotalNbCells()
    ensures Covered(g, row, col, progress, variation, step, marked)
    decreases g.Bound() + 1 - progress, 2 * progress - step, 0
  {
    var x := Move(row, col, progress, variation, step);
    var next := if g.Valid(x) then marked + 1 else marked;
    assert Covered(g, x.row, x.col, progress, variation, step + 1, next) by {
      StepInv(g, row, col, progress, variation, step, marked);
      RoundsCover(g, x.row, x.col, progress, variation, step + 1, next);
    }
    CoverOneStep(g, row, col, progress, variation, step, marked);
  }

  /** No cell has a key between the end of a round and the start of the next one. */
  lemma CoverAcrossRounds(g: Grid, row: int, col: int, progress: nat, variation: int, marked: int)
    requires 1 <= progress <= g.Bound()
    requires Covered(g, row, col, progress + 1, -variation, 0, marked)
    ensures Covered(g, row, col, progress, variation, 2 * progress, marked)
  {
    var out := Rounds(g, row, col, progress + 1, -variation, 0, marked);
    assert Rounds(g, row, col, progress, variation, 2 * progress, marked) == out;
    forall c: Cell | !Before(g.KeyAt(c), Key(progress, 2 * progress))
      ensures !Before(g.KeyAt(c), Key(progress + 1, 0))
    {
      KeyOfShape(Offset(c.row - g.startRow, c.col - g.startCol));
    }
  }

  /** Covering from the next step, plus the cell of the current step when valid, covers from the current step. */
  lemma CoverOneStep(g: Grid, row: int, col: int, progress: nat, variation: int, step: nat, marked: int)
    requires PosInv(g, row, col, progress, variation, step)
    requires progress <= g.Bound() && step < 2 * progress
    requires step == 0 ==> marked < g.TotalNbCells()
    requires var x := Move(row, col, progress, variation, step);
             Covered(g, x.row, x.col, progress, variation, step + 1, if g.Valid(x) then marked + 1 else marked)
    ensures Covered(g, row, col, progress, variation, step, marked)
  {
    var x := Move(row, col, progress, variation, step);
    NextCell(g, row, col, progress, variation, step);
    var marked' := if g.Valid(x) then marked + 1 else marked;
    var rest := Rounds(g, x.row, x.col, progress, variation, step + 1, marked');
    var out := Rounds(g, row, col, progress, variation, step, marked);
    assert out == if g.Valid(x) then [x] + rest else rest;
    forall y: Cell | g.Valid(y) && !Before(g.KeyAt(y), Key(progress, step))
      ensures y in out
    {
      if g.KeyAt(y) != Key(progress, step) {
        assert y in rest;
      }
    }
  }

  /**
    The walk starts at the start cell, every later cell is inside the grid, and
    no cell comes twice.
  */
  lemma WalkShape(nbRows: int, nbCols: int, startRow: int, startCol: int)
    requires Grid(nbRows, nbCols, startRow, startCol).Terminates()
    ensures var w := Walk(nbRows, nbCols, startRow, startCol);
            && |w| >= 1 && w[0] == Cell(startRow, startCol)
            && (forall i | 1 <= i < |w| :: IsValidCell(w[i].row, w[i].col, nbRows, nbCols))
            && (forall i, j | 0 <= i < j < |w| :: w[i] != w[j])
  {
    var g := Grid(nbRows, nbCols, startRow, startCol);
    RoundsOrdered(g, startRow, startCol, 1, 1, 0, 1);
    var w := Walk(nbRows, nbCols, startRow, startCol);
    var out := Rounds(g, startRow, startCol, 1, 1, 0, 1);
    assert w == [g.Start()] + out;
    KeyOfShape(Origin);
    forall i | 1 <= i < |w|
      ensures IsValidCell(w[i].row, w[i].col, nbRows, nbCols)
    {
      assert w[i] == out[i - 1];
      assert g.Valid(out[i - 1]);
    }
    forall i, j | 0 <= i < j < |w|
      ensures w[i] != w[j]
    {
      assert w[j] == out[j - 1];
      if i == 0 {
        assert g.KeyAt(w[0]) == Key(0, 0);
        assert !Before(g.KeyAt(out[j - 1]), Key(1, 0));
      } else {
        assert w[i] == out[i - 1];
        assert Before(g.KeyAt(out[i - 1]), g.KeyAt(out[j - 1]));
      }
    }
  }

  /**
    From a start cell inside the grid, the walk emits every cell of the grid
    and has exactly nbRows * nbCols entries: with `WalkShape`, each cell
    exactly once.
  */
  lemma WalkCoversGrid(nbRows: int, nbCols: int, startRow: int, startCol: int)
    requires IsValidCell(startRow, startCol, nbRows, nbCols)
    ensures Grid(nbRows, nbCols, startRow, startCol).Terminates()
    ensures var w := Walk(nbRows, nbCols, startRow, startCol);
            && (forall c: Cell | IsValidCell(c.row, c.col, nbRows, nbCols) :: c in w)
            && |w| == nbRows * nbCols
  {
    var g := Grid(nbRows, nbCols, startRow, startCol);
    InitialInv(g);
    RoundsCover(g, startRow, startCol, 1, 1, 0, 1);
    var out := Rounds(g, startRow, startCol, 1, 1, 0, 1);
    forall c: Cell | IsValidCell(c.row, c.col, nbRows, nbCols)
      ensures c in Walk(nbRows, nbCols, startRow, startCol)
    {
      KeyOfShape(Offset(c.row - startRow, c.col - startCol));
      if c != g.Start() {
        assert c in out;
      }
    }
  }

  /**
    Whatever the state the loop reaches, the cells it still emits bring
    nbMarkedCells up to at least the grid's cell count: the loop only ends
    on its own exit condition.
  */
  lemma {:induction false} RoundsReachTotal(g: Grid, row: int, col: int, progress: nat, variation: int, step: nat, marked: int)
    requires WalkInv(g, row, col, progress, variation, step, marked)
    ensures marked + |Rounds(g, row, col, progress, variation, step, marked)| >= g.TotalNbCells()
    decreases g.Bound() + 1 - progress, 2 * progress - step
  {
    if step == 0 && (marked >= g.TotalNbCells() || progress > g.Bound()) {
      if marked < g.TotalNbCells() {
        BoundNeverCuts(g, row, col, progress, variation, marked);
      }
    } else if step == 2 * progress {
      RoundEndInv(g, row, col, progress, variation, marked);
      RoundsReachTotal(g, row, col, progress + 1, -variation, 0, marked);
    } else {
      var x := Move(row, col, progress, variation, step);
      StepInv(g, row, col, progress, variation, step, marked);
      RoundsReachTotal(g, x.row, x.col, progress, variation, step + 1, if g.Valid(x) then marked + 1 else marked);
    }
  }

  /**
    From any start, inside the grid or not, the walk has at least
    nbRows * nbCols entries: the start call counts as one marked cell.
  */
  lemma WalkLengthAtLeastGrid(nbRows: int, nbCols: int, startRow: int, startCol: int)
    requires Grid(nbRows, nbCols, startRow, startCol).Terminates()
    ensures |Walk(nbRows, nbCols, startRow, startCol)| >= nbRows * nbCols
  {
    var g := Grid(nbRows, nbCols, startRow, startCol);
    InitialInv(g);
    RoundsReachTotal(g, startRow, startCol, 1, 1, 0, 1);
  }

  /** The 3 x 3 example of the class documentation, started from the centre. */
  lemma WalkOfDocumentedGrid()
    ensures Walk(3, 3, 1, 1) == [Cell(1, 1), Cell(2, 1), Cell(2, 2), Cell(1, 2), Cell(0, 2),
                                 Cell(0, 1), Cell(0, 0), Cell(1, 0), Cell(2, 0)]
  {
    var g := Grid(3, 3, 1, 1);
    assert Rounds(g, 3, 3, 4, -1, 0, 9) == [];
    assert Rounds(g, 3, 3, 3, 1, 6, 9) == [];
    assert Rounds(g, 3, 2, 3, 1, 5, 9) == [];
    assert Rounds(g, 3, 1, 3, 1, 4, 9) == [];
    assert Rounds(g, 3, 0, 3, 1, 3, 9) == [];
    assert Rounds(g, 2, 0, 3, 1, 2, 9) == [];
    assert Rounds(g, 1, 0, 3, 1, 1, 8) == [Cell(2, 0)];
    assert Rounds(g, 0, 0, 3, 1, 0, 7) == [Cell(1, 0), Cell(2, 0)];
    assert Rounds(g, 0, 0, 2, -1, 4, 7) == [Cell(1, 0), Cell(2, 0)];
    assert Rounds(g, 0, 1, 2, -1, 3, 6) == [Cell(0, 0), Cell(1, 0), Cell(2, 0)];
    assert Rounds(g, 0, 2, 2, -1, 2, 5) == [Cell(0, 1), Cell(0, 0), Cell(1, 0), Cell(2, 0)];
    assert Rounds(g, 1, 2, 2, -1, 1, 4) == [Cell(0, 2), Cell(0, 1), Cell(0, 0), Cell(1, 0), Cell(2, 0)];
    assert Rounds(g, 2, 2, 2, -1, 0, 3) == [Cell(1, 2), Cell(0, 2), Cell(0, 1), Cell(0, 0), Cell(1, 0), Cell(2, 0)];
    assert Rounds(g, 2, 2, 1, 1, 2, 3) == [Cell(1, 2), Cell(0, 2), Cell(0, 1), Cell(0, 0), Cell(1, 0), Cell(2, 0)];
    assert Rounds(g, 2, 1, 1, 1, 1, 2) == [Cell(2, 2), Cell(1, 2), Cell(0, 2), Cell(0, 1), Cell(0, 0), Cell(1, 0), Cell(2, 0)];
    assert Rounds(g, 1, 1, 1, 1, 0, 1) == [Cell(2, 1), Cell(2, 2), Cell(1, 2), Cell(0, 2), Cell(0, 1), Cell(0, 0), Cell(1, 0), Cell(2, 0)];
  }

  /**
    From a start cell outside the grid the walk can end before reaching every
    cell, because the start call is counted as a marked cell: on a 1 x 3 grid
    started one column past the right edge, cell (0, 0) is never reached, and
    on a 1 x 1 grid started at (0, 1) the only cell is never reached.
  */
  lemma WalkFromOutsideMissesCells()
    ensures Walk(1, 3, 0, 3) == [Cell(0, 3), Cell(0, 2), Cell(0, 1)]
    ensures Walk(1, 1, 0, 1) == [Cell(0, 1)]
  {
    var g := Grid(1, 3, 0, 3);
    assert Rounds(g, 3, 6, 6, -1, 0, 3) == [];
    assert Rounds(g, 3, 6, 5, 1, 10, 3) == [];
    assert Rounds(g, 3, 5, 5, 1, 9, 3) == [];
    assert Rounds(g, 3, 4, 5, 1, 8, 3) == [];
    assert Rounds(g, 3, 3, 5, 1, 7, 3) == [];
    assert Rounds(g, 3, 2, 5, 1, 6, 3) == [];
    assert Rounds(g, 3, 1, 5, 1, 5, 3) == [];
    assert Rounds(g, 2, 1, 5, 1, 4, 3) == [];
    assert Rounds(g, 1, 1, 5, 1, 3, 3) == [];
    assert Rounds(g, 0, 1, 5, 1, 2, 3) == [];
    assert Rounds(g, -1, 1, 5, 1, 1, 2) == [Cell(0, 1)];
    assert Rounds(g, -2, 1, 5, 1, 0, 2) == [Cell(0, 1)];
    assert Rounds(g, -2, 1, 4, -1, 8, 2) == [Cell(0, 1)];
    assert Rounds(g, -2, 2, 4, -1, 7, 2) == [Cell(0, 1)];
    assert Rounds(g, -2, 3, 4, -1, 6, 2) == [Cell(0, 1)];
    assert Rounds(g, -2, 4, 4, -1, 5, 2) == [Cell(0, 1)];
    assert Rounds(g, -2, 5, 4, -1, 4, 2) == [Cell(0, 1)];
    assert Rounds(g, -1, 5, 4, -1, 3, 2) == [Cell(0, 1)];
    assert Rounds(g, 0, 5, 4, -1, 2, 2) == [Cell(0, 1)];
    assert Rounds(g, 1, 5, 4, -1, 1, 2) == [Cell(0, 1)];
    assert Rounds(g, 2, 5, 4, -1, 0, 2) == [Cell(0, 1)];
    assert Rounds(g, 2, 5, 3, 1, 6, 2) == [Cell(0, 1)];
    assert Rounds(g, 2, 4, 3, 1, 5, 2) == [Cell(0, 1)];
    assert Rounds(g, 2, 3, 3, 1, 4, 2) == [Cell(0, 1)];
    assert Rounds(g, 2, 2, 3, 1, 3, 2) == [Cell(0, 1)];
    assert Rounds(g, 1, 2, 3, 1, 2, 2) == [Cell(0, 1)];
    assert Rounds(g, 0, 2, 3, 1, 1, 2) == [Cell(0, 1)];
    assert Rounds(g, -1, 2, 3, 1, 0, 1) == [Cell(0, 2), Cell(0, 1)];
    assert Rounds(g, -1, 2, 2, -1, 4, 1) == [Cell(0, 2), Cell(0, 1)];
    assert Rounds(g, -1, 3, 2, -1, 3, 1) == [Cell(0, 2), Cell(0, 1)];
    assert Rounds(g, -1, 4, 2, -1, 2, 1) == [Cell(0, 2), Cell(0, 1)];
    assert Rounds(g, 0, 4, 2, -1, 1, 1) == [Cell(0, 2), Cell(0, 1)];
    assert Rounds(g, 1, 4, 2, -1, 0, 1) == [Cell(0, 2), Cell(0, 1)];
    assert Rounds(g, 1, 4, 1, 1, 2, 1) == [Cell(0, 2), Cell(0, 1)];
    assert Rounds(g, 1, 3, 1, 1, 1, 1) == [Cell(0, 2), Cell(0, 1)];
    assert Rounds(g, 0, 3, 1, 1, 0, 1) == [Cell(0, 2), Cell(0, 1)];
  }

  // ---------------------------------------------------------------------------
  // The listener

  /** What a loop leaves behind: the listener's final state and how many calls it received. */
  datatype Run<S> = Run(state: S, calls: nat)

  /** The listener's state after being called on every cell of `cells`, whatever it answered. */
  function FeedAll<S>(onLoop: (S, Cell) -> (S, bool), s: S, cells: seq<Cell>): S
    decreases |cells|
  {
    if |cells| == 0 then s
    else FeedAll(onLoop, onLoop(s, cells[0]).0, cells[1..])
  }

  /** The listener's answer to the call on cells[i]. */
  function Answer<S>(onLoop: (S, Cell) -> (S, bool), s: S, cells: seq<Cell>, i: nat): bool
    requires i < |cells|
  {
    onLoop(FeedAll(onLoop, s, cells[..i]), cells[i]).1
  }

  /** Calls the listener on each cell in turn, returning right after the first `false`. */
  function UntilStop<S>(onLoop: (S, Cell) -> (S, bool), s: S, cells: seq<Cell>): Run<S>
    decreases |cells|
  {
    if |cells| == 0 then Run(s, 0)
    else
      var (s1, canContinue) := onLoop(s, cells[0]);
      if !canContinue then Run(s1, 1)
      else
        var rest := UntilStop(onLoop, s1, cells[1..]);
        Run(rest.state, rest.calls + 1)
  }

  /** A loop manager wraps its listener; the listener's state is threaded explicitly. */
  datatype Manager<!S> = Manager(onLoop: (S, Cell) -> (S, bool)) {

    /**
      `startLoop`: the first call (on the start cell) is made unconditionally
      and its answer is ignored; every later call on a valid cell may stop the
      loop.
    */
    function StartLoop(s: S, nbRows: int, nbCols: int, startRow: int, startCol: int): Run<S>
      requires Grid(nbRows, nbCols, startRow, startCol).Terminates()
    {
      var cells := Walk(nbRows, nbCols, startRow, startCol);
      var (s1, _) := onLoop(s, cells[0]);
      var rest := UntilStop(onLoop, s1, cells[1..]);
      Run(rest.state, rest.calls + 1)
    }
  }

  /** The constructor rejects a missing listener. */
  function NewManager<S>(listener: Option<(S, Cell) -> (S, bool)>): (r: Result<Manager<S>, string>)
    ensures r.Failure? <==> listener.None?
    ensures listener.Some? ==> r.Success? && r.value.onLoop == listener.value
  {
    match listener
    case None => Failure("SpiralLoopListener must not be null")
    case Some(l) => Success(Manager(l))
  }

  lemma {:induction false} FeedAllAppend<S>(onLoop: (S, Cell) -> (S, bool), s: S, cells: seq<Cell>, i: nat)
    requires i < |cells|
    ensures FeedAll(onLoop, s, cells[..i + 1]) == onLoop(FeedAll(onLoop, s, cells[..i]), cells[i]).0
  {
    if i > 0 {
      var s1 := onLoop(s, cells[0]).0;
      assert cells[..i + 1][1..] == cells[1..][..i];
      assert cells[..i][1..] == cells[1..][..i - 1];
      FeedAllAppend(onLoop, s1, cells[1..], i - 1);
    } else {
      assert cells[..1][1..] == [];
    }
  }

  /**
    `UntilStop` makes `calls` calls, on a prefix of the cells; every answer but
    the last was `true`, and the last was `false` unless the cells ran out.
  */
  lemma {:induction false} UntilStopSpec<S>(onLoop: (S, Cell) -> (S, bool), s: S, cells: seq<Cell>)
    ensures var r := UntilStop(onLoop, s, cells);
            && r.calls <= |cells|
            && (|cells| > 0 ==> r.calls >= 1)
            && r.state == FeedAll(onLoop, s, cells[..r.calls])
            && (forall i | 0 <= i < r.calls - 1 :: Answer(onLoop, s, cells, i))
            && (r.calls < |cells| ==> r.calls >= 1 && !Answer(onLoop, s, cells, r.calls - 1))
    decreases |cells|
  {
    var r := UntilStop(onLoop, s, cells);
    if |cells| > 0 {
      var (s1, canContinue) := onLoop(s, cells[0]);
      assert cells[..1][1..] == [];
      assert Answer(onLoop, s, cells, 0) == canContinue by {
        assert cells[..0] == [];
      }
      if canContinue {
        var tail := cells[1..];
        UntilStopSpec(onLoop, s1, tail);
        var rest := UntilStop(onLoop, s1, tail);
        assert cells[..r.calls][1..] == tail[..rest.calls];
        forall i | 1 <= i < |cells|
          ensures Answer(onLoop, s, cells, i) == Answer(onLoop, s1, tail, i - 1)
        {
          assert cells[..i][1..] == tail[..i - 1];
          assert cells[..i][0] == cells[0];
        }
      }
    }
  }

  /**
    `startLoop` calls the listener at least once, on a prefix of the walk; the
    answer to the first call is ignored, every later answer but the last was
    `true`, and if the walk was cut short the last answer was `false`.
  */
  lemma StartLoopSpec<S>(m: Manager<S>, s: S, nbRows: int, nbCols: int, startRow: int, startCol: int)
    requires Grid(nbRows, nbCols, startRow, startCol).Terminates()
    ensures var w := Walk(nbRows, nbCols, startRow, startCol);
            var r := m.StartLoop(s, nbRows, nbCols, startRow, startCol);
            && 1 <= r.calls <= |w|
            && r.state == FeedAll(m.onLoop, s, w[..r.calls])
            && (forall i | 1 <= i < r.calls - 1 :: Answer(m.onLoop, s, w, i))
            && (r.calls < |w| ==> r.calls >= 2 && !Answer(m.onLoop, s, w, r.calls - 1))
  {
    var w := Walk(nbRows, nbCols, startRow, startCol);
    var s1 := m.onLoop(s, w[0]).0;
    var tail := w[1..];
    UntilStopSpec(m.onLoop, s1, tail);
    var rest := UntilStop(m.onLoop, s1, tail);
    assert w[..rest.calls + 1][1..] == tail[..rest.calls];
    forall i | 1 <= i < |w|
      ensures Answer(m.onLoop, s, w, i) == Answer(m.onLoop, s1, tail, i - 1)
    {
      assert w[..i][1..] == tail[..i - 1];
    }
  }
}
