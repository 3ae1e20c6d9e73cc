/** The value types shared by the whole engine: one cell of the board. */
module Cells {

  /** A field that an object literal may carry or leave out. */
  datatype Option<+T> = None | Some(value: T)

  /**
   * One cell of the board. `alive` is the automaton's state. `newborn` is the
   * display flag "became alive recently"; it is `None` when the cell was
   * written as a literal without that key (the initial fill, a clear, a
   * toggle), and `Some(b)` once a seeding or a generation step has set it.
   */
  datatype Cell = Cell(alive: bool, newborn: Option<bool>)

  /** The dead cell that fills a fresh or cleared board. */
  const DeadCell: Cell := Cell(false, None)
}
