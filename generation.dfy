/**
 * One generation of the automaton: every cell's neighbours are counted on the
 * old board, and the outcome is written into a separate copy, so that all
 * cells change at once.
 */
module Generation {
  import opened Cells
  import opened Neighbours

  /**
   * The outcome for one cell, applied to its copy `c` given its live
   * neighbour count `n`: a live cell dies (only `alive` is cleared, so it
   * keeps its copied `newborn`) or survives as no longer newborn; a dead cell
   * is born newborn with exactly three, and is otherwise left as copied.
   */
  function Rule(c: Cell, n: nat): (r: Cell)
    ensures r.alive <==> n == 3 || (c.alive && n == 2)
    ensures r.alive && !c.alive ==> r.newborn == Some(true)
    ensures r.alive && c.alive ==> r.newborn == Some(false)
    ensures !r.alive ==> r.newborn == c.newborn
  {
    if c.alive then
      if n < 2 || n > 3 then c.(alive := false) else c.(newborn := Some(false))
    else if n == 3 then
      c.(alive := true, newborn := Some(true))
    else
      c
  }

  /** The next generation of a `d` by `d` board, every count taken on `cells`. */
  function Step(cells: seq<Cell>, d: nat): (next: seq<Cell>)
    requires |cells| == d * d
    ensures |next| == |cells|
  {
    seq(|cells|, i requires 0 <= i < |cells| => Rule(cells[i], NeighbourCount(cells, d, i)))
  }

  /**
   * The boundary tests of the engine's loop: which of the eight neighbours of
   * `cell` lie on the board, decided on the flat index alone. Each flag that
   * is set permits a read that lies on the board.
   */
  method BoundaryChecks(cell: nat, dimension: nat)
    returns (checkTop: bool, checkTopRight: bool, checkRight: bool, checkBottomRight: bool,
             checkBottom: bool, checkBottomLeft: bool, checkLeft: bool, checkTopLeft: bool)
    requires cell < dimension * dimension
    ensures checkTop == CheckTop(cell, dimension) && checkTopRight == CheckTopRight(cell, dimension)
    ensures checkRight == CheckRight(cell, dimension) && checkBottomRight == CheckBottomRight(cell, dimension)
    ensures checkBottom == CheckBottom(cell, dimension) && checkBottomLeft == CheckBottomLeft(cell, dimension)
    ensures checkLeft == CheckLeft(cell, dimension) && checkTopLeft == CheckTopLeft(cell, dimension)
    ensures checkTop ==> 0 <= cell - dimension
    ensures checkTopRight ==> 0 <= cell - dimension + 1
    ensures checkRight ==> cell + 1 < dimension * dimension
    ensures checkBottomRight ==> cell + dimension + 1 < dimension * dimension
    ensures checkBottom ==> cell + dimension < dimension * dimension
    ensures checkBottomLeft ==> 0 <= cell + dimension - 1 < dimension * dimension
    ensures checkLeft ==> 0 <= cell - 1
    ensures checkTopLeft ==> 0 <= cell - dimension - 1
  {
    ChecksMatchRowCol(dimension, cell);
    GuardsKeepReadsInRange(dimension, cell);
    var secondLastRow := dimension * (dimension - 1) - 1;
    checkTop, checkBottom, checkLeft, checkRight := true, true, true, true;
    checkTopRight, checkBottomRight, checkBottomLeft, checkTopLeft := true, true, true, true;

    if cell < dimension { checkTop := false; }
    if cell < dimension || (cell + 1) % dimension == 0 { checkTopRight := false; }
    if (cell + 1) % dimension == 0 { checkRight := false; }
    if cell > secondLastRow || (cell + 1) % dimension == 0 { checkBottomRight := false; }
    if cell > secondLastRow { checkBottom := false; }
    if cell % dimension == 0 || cell > secondLastRow { checkBottomLeft := false; }
    if cell % dimension == 0 { checkLeft := false; }
    if cell < dimension || cell % dimension == 0 { checkTopLeft := false; }
  }

  /**
   * The per-cell part of the engine's loop: decide which of the eight
   * neighbours exist, then count the live ones on the old board.
   */
  method CountAliveNeighbours(cells: seq<Cell>, dimension: nat, cell: nat) returns (aliveNeighbours: nat)
    requires |cells| == dimension * dimension && cell < |cells|
    ensures aliveNeighbours == NeighbourCount(cells, dimension, cell)
  {
    var checkTop, checkTopRight, checkRight, checkBottomRight, checkBottom, checkBottomLeft, checkLeft, checkTopLeft
      := BoundaryChecks(cell, dimension);

    // `counted` is the sum of the directions' contributions so far. It and the
    // asserts after each test are proof scaffolding only: they keep the
    // verifier's case split small and add nothing to the count's definition,
    // which is `NeighbourCount`.
    ghost var counted := 0;
    aliveNeighbours := 0;
    if checkTop && cells[cell - dimension].alive { aliveNeighbours := aliveNeighbours + 1; }
    counted := counted + Term(cells, checkTop, cell - dimension);
    assert aliveNeighbours == counted;
    if checkTopRight && cells[cell - dimension + 1].alive { aliveNeighbours := aliveNeighbours + 1; }
    counted := counted + Term(cells, checkTopRight, cell - dimension + 1);
    assert aliveNeighbours == counted;
    if checkRight && cells[cell + 1].alive { aliveNeighbours := aliveNeighbours + 1; }
    counted := counted + Term(cells, checkRight, cell + 1);
    assert aliveNeighbours == counted;
    if checkBottomRight && cells[cell + dimension + 1].alive { aliveNeighbours := aliveNeighbours + 1; }
    counted := counted + Term(cells, checkBottomRight, cell + dimension + 1);
    assert aliveNeighbours == counted;
    if checkBottom && cells[cell + dimension].alive { aliveNeighbours := aliveNeighbours + 1; }
    counted := counted + Term(cells, checkBottom, cell + dimension);
    assert aliveNeighbours == counted;
    if checkBottomLeft && cells[cell + dimension - 1].alive { aliveNeighbours := aliveNeighbours + 1; }
    counted := counted + Term(cells, checkBottomLeft, cell + dimension - 1);
    assert aliveNeighbours == counted;
    if checkLeft && cells[cell - 1].alive { aliveNeighbours := aliveNeighbours + 1; }
    counted := counted + Term(cells, checkLeft, cell - 1);
    assert aliveNeighbours == counted;
    if checkTopLeft && cells[cell - dimension - 1].alive { aliveNeighbours := aliveNeighbours + 1; }
    counted := counted + Term(cells, checkTopLeft, cell - dimension - 1);
    assert aliveNeighbours == counted;

    assert NeighbourCount(cells, dimension, cell) == counted;
  }

  /**
   * The engine's loop: copy the board, then for each cell count its live
   * neighbours on the old board and write the outcome into the copy. The
   * counts never read the copy, so every cell changes at once.
   */
  method NextGeneration(cells: seq<Cell>, dimension: nat) returns (nextGeneration: seq<Cell>)
    requires |cells| == dimension * dimension
    ensures nextGeneration == Step(cells, dimension)
  {
    ghost var outcome := Step(cells, dimension);
    var next := new Cell[|cells|](i requires 0 <= i < |cells| => cells[i]);
    for cell := 0 to |cells|
      invariant next[..cell] == outcome[..cell]
      invariant next[cell..] == cells[cell..]
    {
      var aliveNeighbours := CountAliveNeighbours(cells, dimension, cell);
      assert next[cell] == cells[cell];
      next[cell] := Rule(next[cell], aliveNeighbours);
      assert next[..cell + 1] == outcome[..cell] + [outcome[cell]];
    }
    nextGeneration := next[..];
    assert nextGeneration == next[..|cells|];
  }

  // ---------------------------------------------------------------------
  // The rule, stated on rows and columns
  // ---------------------------------------------------------------------

  /**
   * A live cell with two or three live neighbours survives and is no longer
   * newborn.
   */
  lemma {:induction false} Survival(cells: seq<Cell>, d: nat, i: int)
    requires |cells| == d * d && 0 <= i < |cells| && cells[i].alive
    requires var n := LiveNeighbours(cells, d, i / d, i % d); n == 2 || n == 3
    ensures Step(cells, d)[i] == Cell(true, Some(false))
  {
    NeighbourCountIsGridCount(cells, d, i);
  }

  /**
   * A live cell with fewer than two or more than three live neighbours dies;
   * its `newborn` field is carried over.
   */
  lemma {:induction false} Death(cells: seq<Cell>, d: nat, i: int)
    requires |cells| == d * d && 0 <= i < |cells| && cells[i].alive
    requires var n := LiveNeighbours(cells, d, i / d, i % d); n < 2 || n > 3
    ensures Step(cells, d)[i] == Cell(false, cells[i].newborn)
  {
    NeighbourCountIsGridCount(cells, d, i);
  }

  /** A dead cell with exactly three live neighbours is born, newborn. */
  lemma {:induction false} Birth(cells: seq<Cell>, d: nat, i: int)
    requires |cells| == d * d && 0 <= i < |cells| && !cells[i].alive
    requires LiveNeighbours(cells, d, i / d, i % d) == 3
    ensures Step(cells, d)[i] == Cell(true, Some(true))
  {
    NeighbourCountIsGridCount(cells, d, i);
  }

  /** A dead cell with any other count is left exactly as it was. */
  lemma {:induction false} StaysDead(cells: seq<Cell>, d: nat, i: int)
    requires |cells| == d * d && 0 <= i < |cells| && !cells[i].alive
    requires LiveNeighbours(cells, d, i / d, i % d) != 3
    ensures Step(cells, d)[i] == cells[i]
  {
    NeighbourCountIsGridCount(cells, d, i);
  }

  /**
   * Whether a cell lives in the next generation is the rule B3/S23 on the
   * row/column neighbourhood: born with three, survives with two or three.
   */
  lemma {:induction false} StepIsB3S23(cells: seq<Cell>, d: nat, i: int)
    requires |cells| == d * d && 0 <= i < |cells|
    ensures var n := LiveNeighbours(cells, d, i / d, i % d);
            Step(cells, d)[i].alive <==> n == 3 || (cells[i].alive && n == 2)
  {
    NeighbourCountIsGridCount(cells, d, i);
  }

  /** On a 1 by 1 board the only cell has no neighbours, so it is never live after a step. */
  lemma {:induction false} SingleCellBoardDies(c: Cell)
    ensures !Step([c], 1)[0].alive
  {
    NeighbourCountIsGridCount([c], 1, 0);
  }
}
