/**
 * Neighbour counting on a square, non-wrapping board stored row-major in a
 * flat sequence. The engine decides which of the eight neighbours exist by
 * tests on the flat index; this module states those tests as the source
 * writes them, gives an independent row/column definition of the same count,
 * and proves the two agree.
 */
module Neighbours {
  import opened Cells

  // ---------------------------------------------------------------------
  // Row and column of a flat index
  // ---------------------------------------------------------------------

  /** Division with remainder is unique: the quotient and remainder of `x` by `d`. */
  lemma {:induction false} DivModUnique(x: int, d: int, q: int, r: int)
    requires d >= 1 && x == q * d + r && 0 <= r < d
    ensures x / d == q && x % d == r
  {
    var q', r' := x / d, x % d;
    assert (q - q') * d == r' - r;
    if q' < q {
      MulAtLeast(q - q', d);
      assert false;
    } else if q' > q {
      MulAtLeast(q' - q, d);
      assert false;
    }
  }

  lemma {:induction false} MulAtLeast(k: int, d: int)
    requires k >= 1 && d >= 1
    ensures k * d >= d
  {
    assert k * d == (k - 1) * d + d;
    assert (k - 1) * d >= 0;
  }

  lemma {:induction false} MulMonotone(a: int, b: int, d: nat)
    requires a <= b
    ensures a * d <= b * d
  {
    assert b * d - a * d == (b - a) * d;
  }

  /** A flat index of a `d` by `d` board splits into a row and a column, both below `d`. */
  lemma {:induction false} RowCol(d: nat, cell: int)
    requires 0 <= cell < d * d
    ensures d >= 1
    ensures cell == (cell / d) * d + cell % d
    ensures 0 <= cell / d < d && 0 <= cell % d < d
  {
    if d == 0 {
      assert false;
    }
    var q := cell / d;
    if q >= d {
      assert false;
    }
  }

  /** The flat index of (`row`, `col`) lies on the board. */
  lemma {:induction false} IndexInRange(d: nat, row: int, col: int)
    requires 0 <= row < d && 0 <= col < d
    ensures 0 <= row * d + col < d * d
  {
    assert row * d <= (d - 1) * d;
    assert (d - 1) * d + col < d * d;
  }

  // ---------------------------------------------------------------------
  // The boundary tests written on flat indices
  // ---------------------------------------------------------------------

  /** Every index above this one lies in the last row. */
  function SecondLastRow(d: int): int { d * (d - 1) - 1 }

  predicate CheckTop(cell: int, d: int) { !(cell < d) }
  predicate CheckTopRight(cell: int, d: int) requires d != 0 { !(cell < d || (cell + 1) % d == 0) }
  predicate CheckRight(cell: int, d: int) requires d != 0 { !((cell + 1) % d == 0) }
  predicate CheckBottomRight(cell: int, d: int) requires d != 0 { !(cell > SecondLastRow(d) || (cell + 1) % d == 0) }
  predicate CheckBottom(cell: int, d: int) { !(cell > SecondLastRow(d)) }
  predicate CheckBottomLeft(cell: int, d: int) requires d != 0 { !(cell % d == 0 || cell > SecondLastRow(d)) }
  predicate CheckLeft(cell: int, d: int) requires d != 0 { !(cell % d == 0) }
  predicate CheckTopLeft(cell: int, d: int) requires d != 0 { !(cell < d || cell % d == 0) }

  /**
   * The flat-index tests mean exactly "first row", "last row" and "last
   * column" (the "first column" test `cell % d == 0` is already `col == 0`).
   */
  lemma {:induction false} GuardsMatchRowCol(d: nat, cell: int)
    requires 0 <= cell < d * d
    ensures d >= 1
    ensures cell < d <==> cell / d == 0
    ensures cell > SecondLastRow(d) <==> cell / d == d - 1
    ensures (cell + 1) % d == 0 <==> cell % d == d - 1
  {
    RowCol(d, cell);
    var row, col := cell / d, cell % d;
    RowStart(d, row);
    // last column
    if col == d - 1 {
      DivModUnique(cell + 1, d, row + 1, 0);
    } else {
      DivModUnique(cell + 1, d, row, col + 1);
    }
  }

  // ---------------------------------------------------------------------
  // The count as the engine computes it
  // ---------------------------------------------------------------------

  /** 1 for a live cell of the board, 0 for a dead one or an index off the board. */
  function Alive(cells: seq<Cell>, i: int): nat
  {
    if 0 <= i < |cells| && cells[i].alive then 1 else 0
  }

  /** What one direction adds to the count: the neighbour's state when its test passes, else 0. */
  function Term(cells: seq<Cell>, check: bool, i: int): nat
  {
    if check then Alive(cells, i) else 0
  }

  /**
   * Each boundary test that passes permits a read that lies on the board: the
   * tests never let the count look outside `cells`.
   */
  lemma {:induction false} GuardsKeepReadsInRange(d: nat, cell: int)
    requires 0 <= cell < d * d
    ensures d >= 1
    ensures CheckTop(cell, d) ==> 0 <= cell - d < d * d
    ensures CheckTopRight(cell, d) ==> 0 <= cell - d + 1 < d * d
    ensures CheckRight(cell, d) ==> 0 <= cell + 1 < d * d
    ensures CheckBottomRight(cell, d) ==> 0 <= cell + d + 1 < d * d
    ensures CheckBottom(cell, d) ==> 0 <= cell + d < d * d
    ensures CheckBottomLeft(cell, d) ==> 0 <= cell + d - 1 < d * d
    ensures CheckLeft(cell, d) ==> 0 <= cell - 1 < d * d
    ensures CheckTopLeft(cell, d) ==> 0 <= cell - d - 1 < d * d
  {
    ChecksMatchRowCol(d, cell);
    RowCol(d, cell);
    RowStart(d, cell / d);
  }

  /** Where row `row` of a `d` by `d` board starts, relative to the first and the last rows. */
  lemma {:induction false} RowStart(d: nat, row: int)
    requires 0 <= row < d
    ensures row * d <= d * d - d
    ensures row == d - 1 ==> row * d == d * d - d
    ensures row >= 1 ==> row * d >= d
    ensures row <= d - 2 ==> row * d <= d * d - 2 * d
  {
    MulMonotone(row, d - 1, d);
    if row >= 1 {
      MulAtLeast(row, d);
    }
    if row <= d - 2 {
      MulMonotone(row, d - 2, d);
    }
  }


  /**
   * The number of live neighbours of `cell`, summed over the eight directions
   * in the engine's order, each direction read only when its test passes.
   */
  function NeighbourCount(cells: seq<Cell>, d: nat, cell: int): (n: nat)
    requires |cells| == d * d && 0 <= cell < |cells|
    ensures n <= 8
  {
    Term(cells, CheckTop(cell, d), cell - d)
    + Term(cells, CheckTopRight(cell, d), cell - d + 1)
    + Term(cells, CheckRight(cell, d), cell + 1)
    + Term(cells, CheckBottomRight(cell, d), cell + d + 1)
    + Term(cells, CheckBottom(cell, d), cell + d)
    + Term(cells, CheckBottomLeft(cell, d), cell + d - 1)
    + Term(cells, CheckLeft(cell, d), cell - 1)
    + Term(cells, CheckTopLeft(cell, d), cell - d - 1)
  }

  // ---------------------------------------------------------------------
  // The same count on rows and columns
  // ---------------------------------------------------------------------

  /** 1 when (`row`, `col`) is on the board and live there, 0 otherwise (off the board counts as dead). */
  function AliveAt(cells: seq<Cell>, d: nat, row: int, col: int): nat
    requires |cells| == d * d
  {
    if 0 <= row < d && 0 <= col < d then Alive(cells, row * d + col) else 0
  }

  /** The live cells among the eight cells around (`row`, `col`), with no wrap-around. */
  function LiveNeighbours(cells: seq<Cell>, d: nat, row: int, col: int): nat
    requires |cells| == d * d
  {
    AliveAt(cells, d, row - 1, col) + AliveAt(cells, d, row - 1, col + 1)
    + AliveAt(cells, d, row, col + 1) + AliveAt(cells, d, row + 1, col + 1)
    + AliveAt(cells, d, row + 1, col) + AliveAt(cells, d, row + 1, col - 1)
    + AliveAt(cells, d, row, col - 1) + AliveAt(cells, d, row - 1, col - 1)
  }

  /** Moving `dr` rows moves the start of the row by `dr * d`. */
  lemma {:induction false} Shift(d: int, row: int, dr: int)
    requires -1 <= dr <= 1
    ensures (row + dr) * d == row * d + dr * d
  {
    if dr == -1 {
      assert (row - 1) * d == row * d - d;
    } else if dr == 1 {
      assert (row + 1) * d == row * d + d;
    }
  }

  /**
   * One direction: when its test passes exactly when the neighbour at offset
   * (`dr`, `dc`) is on the board, the engine's term equals the row/column term.
   */
  lemma {:induction false} TermMatches(cells: seq<Cell>, d: nat, cell: int, dr: int, dc: int, check: bool, i: int)
    requires |cells| == d * d && 0 <= cell < |cells|
    requires -1 <= dr <= 1 && i == cell + dr * d + dc
    requires check <==> 0 <= cell / d + dr < d && 0 <= cell % d + dc < d
    ensures check ==> 0 <= i < |cells|
    ensures Term(cells, check, i) == AliveAt(cells, d, cell / d + dr, cell % d + dc)
  {
    RowCol(d, cell);
    var row, col := cell / d, cell % d;
    Shift(d, row, dr);
    if check {
      IndexInRange(d, row + dr, col + dc);
    }
  }

  /** Each of the eight tests passes exactly when its neighbour's row and column are on the board. */
  lemma {:induction false} ChecksMatchRowCol(d: nat, cell: int)
    requires 0 <= cell < d * d
    ensures d >= 1
    ensures CheckTop(cell, d) == (cell / d > 0)
    ensures CheckBottom(cell, d) == (cell / d < d - 1)
    ensures CheckLeft(cell, d) == (cell % d > 0)
    ensures CheckRight(cell, d) == (cell % d < d - 1)
    ensures CheckTopRight(cell, d) == (CheckTop(cell, d) && CheckRight(cell, d))
    ensures CheckTopLeft(cell, d) == (CheckTop(cell, d) && CheckLeft(cell, d))
    ensures CheckBottomRight(cell, d) == (CheckBottom(cell, d) && CheckRight(cell, d))
    ensures CheckBottomLeft(cell, d) == (CheckBottom(cell, d) && CheckLeft(cell, d))
  {
    GuardsMatchRowCol(d, cell);
    RowCol(d, cell);
  }

  /** Adding up the eight directions: equal terms give equal counts. */
  lemma SumOfTerms(cells: seq<Cell>, d: nat, cell: int)
    requires |cells| == d * d && 0 <= cell < |cells|
    requires Term(cells, CheckTop(cell, d), cell - d) == AliveAt(cells, d, cell / d - 1, cell % d)
    requires Term(cells, CheckTopRight(cell, d), cell - d + 1) == AliveAt(cells, d, cell / d - 1, cell % d + 1)
    requires Term(cells, CheckRight(cell, d), cell + 1) == AliveAt(cells, d, cell / d, cell % d + 1)
    requires Term(cells, CheckBottomRight(cell, d), cell + d + 1) == AliveAt(cells, d, cell / d + 1, cell % d + 1)
    requires Term(cells, CheckBottom(cell, d), cell + d) == AliveAt(cells, d, cell / d + 1, cell % d)
    requires Term(cells, CheckBottomLeft(cell, d), cell + d - 1) == AliveAt(cells, d, cell / d + 1, cell % d - 1)
    requires Term(cells, CheckLeft(cell, d), cell - 1) == AliveAt(cells, d, cell / d, cell % d - 1)
    requires Term(cells, CheckTopLeft(cell, d), cell - d - 1) == AliveAt(cells, d, cell / d - 1, cell % d - 1)
    ensures NeighbourCount(cells, d, cell) == LiveNeighbours(cells, d, cell / d, cell % d)
  {
  }

  // One lemma per direction keeps each proof small.

  lemma {:induction false} TopMatches(cells: seq<Cell>, d: nat, cell: int)
    requires |cells| == d * d && 0 <= cell < |cells|
    ensures d >= 1
    ensures Term(cells, CheckTop(cell, d), cell - d) == AliveAt(cells, d, cell / d - 1, cell % d)
  {
    ChecksMatchRowCol(d, cell);
    RowCol(d, cell);
    TermMatches(cells, d, cell, -1, 0, CheckTop(cell, d), cell - d);
  }

  lemma {:induction false} TopRightMatches(cells: seq<Cell>, d: nat, cell: int)
    requires |cells| == d * d && 0 <= cell < |cells|
    ensures d >= 1
    ensures Term(cells, CheckTopRight(cell, d), cell - d + 1) == AliveAt(cells, d, cell / d - 1, cell % d + 1)
  {
    ChecksMatchRowCol(d, cell);
    RowCol(d, cell);
    TermMatches(cells, d, cell, -1, 1, CheckTopRight(cell, d), cell - d + 1);
  }

  lemma {:induction false} RightMatches(cells: seq<Cell>, d: nat, cell: int)
    requires |cells| == d * d && 0 <= cell < |cells|
    ensures d >= 1
    ensures Term(cells, CheckRight(cell, d), cell + 1) == AliveAt(cells, d, cell / d, cell % d + 1)
  {
    ChecksMatchRowCol(d, cell);
    RowCol(d, cell);
    TermMatches(cells, d, cell, 0, 1, CheckRight(cell, d), cell + 1);
  }

  lemma {:induction false} BottomRightMatches(cells: seq<Cell>, d: nat, cell: int)
    requires |cells| == d * d && 0 <= cell < |cells|
    ensures d >= 1
    ensures Term(cells, CheckBottomRight(cell, d), cell + d + 1) == AliveAt(cells, d, cell / d + 1, cell % d + 1)
  {
    ChecksMatchRowCol(d, cell);
    RowCol(d, cell);
    TermMatches(cells, d, cell, 1, 1, CheckBottomRight(cell, d), cell + d + 1);
  }

  lemma {:induction false} BottomMatches(cells: seq<Cell>, d: nat, cell: int)
    requires |cells| == d * d && 0 <= cell < |cells|
    ensures d >= 1
    ensures Term(cells, CheckBottom(cell, d), cell + d) == AliveAt(cells, d, cell / d + 1, cell % d)
  {
    ChecksMatchRowCol(d, cell);
    RowCol(d, cell);
    TermMatches(cells, d, cell, 1, 0, CheckBottom(cell, d), cell + d);
  }

  lemma {:induction false} BottomLeftMatches(cells: seq<Cell>, d: nat, cell: int)
    requires |cells| == d * d && 0 <= cell < |cells|
    ensures d >= 1
    ensures Term(cells, CheckBottomLeft(cell, d), cell + d - 1) == AliveAt(cells, d, cell / d + 1, cell % d - 1)
  {
    ChecksMatchRowCol(d, cell);
    RowCol(d, cell);
    TermMatches(cells, d, cell, 1, -1, CheckBottomLeft(cell, d), cell + d - 1);
  }

  lemma {:induction false} LeftMatches(cells: seq<Cell>, d: nat, cell: int)
    requires |cells| == d * d && 0 <= cell < |cells|
    ensures d >= 1
    ensures Term(cells, CheckLeft(cell, d), cell - 1) == AliveAt(cells, d, cell / d, cell % d - 1)
  {
    ChecksMatchRowCol(d, cell);
    RowCol(d, cell);
    TermMatches(cells, d, cell, 0, -1, CheckLeft(cell, d), cell - 1);
  }

  lemma {:induction false} TopLeftMatches(cells: seq<Cell>, d: nat, cell: int)
    requires |cells| == d * d && 0 <= cell < |cells|
    ensures d >= 1
    ensures Term(cells, CheckTopLeft(cell, d), cell - d - 1) == AliveAt(cells, d, cell / d - 1, cell % d - 1)
  {
    ChecksMatchRowCol(d, cell);
    RowCol(d, cell);
    TermMatches(cells, d, cell, -1, -1, CheckTopLeft(cell, d), cell - d - 1);
  }

  /** The flat-index count equals the row/column count at the cell's row and column. */
  lemma {:induction false} NeighbourCountIsGridCount(cells: seq<Cell>, d: nat, cell: int)
    requires |cells| == d * d && 0 <= cell < |cells|
    ensures NeighbourCount(cells, d, cell) == LiveNeighbours(cells, d, cell / d, cell % d)
  {
    TopMatches(cells, d, cell);
    TopRightMatches(cells, d, cell);
    RightMatches(cells, d, cell);
    BottomRightMatches(cells, d, cell);
    BottomMatches(cells, d, cell);
    BottomLeftMatches(cells, d, cell);
    LeftMatches(cells, d, cell);
    TopLeftMatches(cells, d, cell);
    SumOfTerms(cells, d, cell);
  }
}
