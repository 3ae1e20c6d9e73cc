/**
 * The simulation state and the operations the host drives: seeding,
 * pausing and resuming, changing the tick interval, clearing, toggling one
 * cell, restarting, and the body of one timer tick.
 */
module Game {
  import opened Cells
  import opened Seeding
  import opened Neighbours
  import opened Generation

  /** The number of cells the state starts with, before the board is seeded (60 by 60). */
  const InitialCellCount: nat := 60 * 60

  /** The tick interval, in milliseconds, the state starts with. */
  const InitialLifespan: int := 100

  /** `n` dead cells, as a fresh or cleared board holds them. */
  function DeadCells(n: nat): (cells: seq<Cell>)
    ensures |cells| == n && forall i :: 0 <= i < n ==> cells[i] == DeadCell
  {
    seq(n, _ => DeadCell)
  }

  /**
   * The board with cell `cellNum` flipped: the chosen cell's `alive` is
   * negated and the new cell literal has no `newborn`; the length and every
   * other cell are as they were.
   */
  function Toggled(cells: seq<Cell>, cellNum: int): (toggled: seq<Cell>)
    requires 0 <= cellNum < |cells|
    ensures |toggled| == |cells|
    ensures toggled[cellNum].alive == !cells[cellNum].alive && toggled[cellNum].newborn == None
    ensures forall i :: 0 <= i < |cells| && i != cellNum ==> toggled[i] == cells[i]
  {
    cells[cellNum := Cell(!cells[cellNum].alive, None)]
  }

  /**
   * Toggling the same cell twice restores its state; only the `newborn`
   * marker of that cell may differ (it is absent afterwards).
   */
  lemma ToggleTwice(cells: seq<Cell>, cellNum: int)
    requires 0 <= cellNum < |cells|
    ensures Toggled(Toggled(cells, cellNum), cellNum) == cells[cellNum := Cell(cells[cellNum].alive, None)]
    ensures Toggled(Toggled(cells, cellNum), cellNum)[cellNum].alive == cells[cellNum].alive
  {
  }

  /** `generations` steps of the automaton from `cells`. */
  function Generations(cells: seq<Cell>, d: nat, generations: nat): (result: seq<Cell>)
    requires |cells| == d * d
    ensures |result| == |cells|
    decreases generations
  {
    if generations == 0 then cells else Generations(Step(cells, d), d, generations - 1)
  }

  /**
   * A cleared board is a still life: with no live cell anywhere every count
   * is 0, so no cell is born and a step leaves every cell as it was.
   */
  lemma {:induction false} DeadBoardStaysDead(d: nat)
    ensures Step(DeadCells(d * d), d) == DeadCells(d * d)
  {
    var cells := DeadCells(d * d);
    forall i | 0 <= i < d * d
      ensures Step(cells, d)[i] == cells[i]
    {
      assert NeighbourCount(cells, d, i) == 0;
    }
  }

  /** The simulation state of the board component. */
  class Application {
    const dimension: nat
    var isRunning: bool
    var lifespan: int
    var cells: seq<Cell>
    var generations: nat

    /** The board holds `dimension * dimension` cells, as every generation step expects. */
    ghost predicate Valid()
      reads this
    {
      |cells| == dimension * dimension
    }

    /**
     * The initial state: running, ticking every 100 ms, no generation yet,
     * and 60 * 60 dead cells whatever the dimension, until the board is
     * seeded.
     */
    constructor (dimension: nat)
      ensures this.dimension == dimension
      ensures isRunning && lifespan == InitialLifespan && generations == 0
      ensures cells == DeadCells(InitialCellCount)
      ensures dimension == 60 ==> Valid()
    {
      this.dimension := dimension;
      isRunning := true;
      lifespan := InitialLifespan;
      cells := DeadCells(InitialCellCount);
      generations := 0;
    }

    /**
     * Seeds the board: `floor(cellCount / 4)` indices drawn from `draws`
     * without repeats, each index marking one live cell.
     */
    method InitializeBoard(draws: seq<int>)
      modifies this
      ensures Valid()
      ensures Seeds(cells, dimension * dimension, AcceptedDraws(draws, dimension * dimension / 4))
      ensures isRunning == old(isRunning) && lifespan == old(lifespan) && generations == old(generations)
    {
      var cellCount := dimension * dimension;
      var aliveCells := RandomizeAliveCells(cellCount, draws);
      cells := GenerateCells(cellCount, aliveCells);
    }

    /** Pauses a running simulation or resumes a paused one. */
    method ToggleExecution()
      modifies this
      ensures isRunning == !old(isRunning)
      ensures lifespan == old(lifespan) && cells == old(cells) && generations == old(generations)
    {
      isRunning := !isRunning;
    }

    /** Stores a new tick interval; any value is accepted. */
    method ChangeLifespan(lifespan: int)
      modifies this
      ensures this.lifespan == lifespan
      ensures isRunning == old(isRunning) && cells == old(cells) && generations == old(generations)
    {
      this.lifespan := lifespan;
    }

    /** Stops the simulation, kills every cell and resets the generation count. */
    method ClearBoard()
      modifies this
      ensures Valid()
      ensures !isRunning && generations == 0
      ensures |cells| == dimension * dimension
      ensures forall i :: 0 <= i < |cells| ==> !cells[i].alive && cells[i].newborn == None
      ensures lifespan == old(lifespan)
    {
      isRunning := false;
      cells := DeadCells(dimension * dimension);
      generations := 0;
    }

    /**
     * Flips cell `cellNum`. An index off the board fails before anything is
     * stored (`ok` is false and nothing changes).
     */
    method ToggleSingleCell(cellNum: int) returns (ok: bool)
      modifies this
      ensures ok <==> 0 <= cellNum < |old(cells)|
      ensures ok ==> cells == Toggled(old(cells), cellNum)
      ensures !ok ==> cells == old(cells)
      ensures |cells| == |old(cells)|
      ensures isRunning == old(isRunning) && lifespan == old(lifespan) && generations == old(generations)
    {
      if !(0 <= cellNum < |cells|) {
        return false;
      }
      var next := cells;
      if next[cellNum].alive {
        next := next[cellNum := Cell(false, None)];
      } else {
        next := next[cellNum := Cell(true, None)];
      }
      cells := next;
      return true;
    }

    /** Reseeds the board from `draws`, resets the count and runs the simulation. */
    method Restart(draws: seq<int>)
      modifies this
      ensures Valid()
      ensures Seeds(cells, dimension * dimension, AcceptedDraws(draws, dimension * dimension / 4))
      ensures isRunning && generations == 0
      ensures lifespan == old(lifespan)
    {
      InitializeBoard(draws);
      isRunning := true;
      generations := 0;
    }

    /** Replaces the board by its next generation. */
    method CultivateNextGeneration()
      requires Valid()
      modifies this
      ensures Valid()
      ensures cells == Step(old(cells), dimension)
      ensures isRunning == old(isRunning) && lifespan == old(lifespan) && generations == old(generations)
    {
      cells := NextGeneration(cells, dimension);
    }

    /**
     * One firing of the timer: while running, count one more generation and
     * step the board; while paused, change nothing.
     */
    method Tick()
      requires Valid()
      modifies this
      ensures Valid()
      ensures old(isRunning) ==> generations == old(generations) + 1 && cells == Step(old(cells), dimension)
      ensures !old(isRunning) ==> generations == old(generations) && cells == old(cells)
      ensures isRunning == old(isRunning) && lifespan == old(lifespan)
    {
      if isRunning {
        generations := generations + 1;
        CultivateNextGeneration();
      }
    }
  }

  /**
   * `ticks` firings of the timer in a row: a running simulation advances by
   * exactly that many generations; a paused one keeps its board and count.
   */
  method RunTicks(app: Application, ticks: nat)
    requires app.Valid()
    modifies app
    ensures app.Valid()
    ensures app.isRunning == old(app.isRunning) && app.lifespan == old(app.lifespan)
    ensures old(app.isRunning) ==>
      app.generations == old(app.generations) + ticks && app.cells == Generations(old(app.cells), app.dimension, ticks)
    ensures !old(app.isRunning) ==> app.generations == old(app.generations) && app.cells == old(app.cells)
  {
    var fired := 0;
    while fired < ticks
      invariant 0 <= fired <= ticks
      invariant app.Valid()
      invariant app.isRunning == old(app.isRunning) && app.lifespan == old(app.lifespan)
      invariant old(app.isRunning) ==> app.generations == old(app.generations) + fired
      invariant old(app.isRunning) ==>
        Generations(old(app.cells), app.dimension, ticks) == Generations(app.cells, app.dimension, ticks - fired)
      invariant !old(app.isRunning) ==> app.generations == old(app.generations) && app.cells == old(app.cells)
    {
      app.Tick();
      fired := fired + 1;
    }
  }

  /** Pausing and then resuming leaves the whole state as it was. */
  method PauseThenResume(app: Application)
    modifies app
    ensures app.isRunning == old(app.isRunning) && app.lifespan == old(app.lifespan)
    ensures app.cells == old(app.cells) && app.generations == old(app.generations)
  {
    app.ToggleExecution();
    app.ToggleExecution();
  }
}
