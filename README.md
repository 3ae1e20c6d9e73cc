# Conway's Game of Life engine, modelled in Dafny

This project models the engine of a browser Game of Life: a square,
non-wrapping board of `dimension * dimension` cells stored row-major in one
flat array, seeded at random with a quarter of its cells live, advanced one
generation per timer tick by the classic rule (born with exactly 3 live
neighbours, survives with 2 or 3), and edited by pausing and resuming,
changing the tick interval, clearing the board, toggling one cell and
restarting.

Layout:

- `cells.dfy` (module `Cells`): the `Cell` value `{alive, newborn}`. `newborn`
  is an `Option<bool>`: `None` stands for a cell literal written without that
  key, as the initial fill, a clear and a toggle write it.
- `seeding.dfy` (module `Seeding`): `RandomizeAliveCells`, the rejection
  sampling loop, proved against the function `AcceptedDraws`;
  `GenerateCells`, the loop that builds the board; lemmas on the sampled list
  and on the seeded population.
- `neighbours.dfy` (module `Neighbours`): the eight boundary tests as the
  engine writes them on flat indices, the neighbour count built from them
  (`NeighbourCount`), an independent count on rows and columns
  (`LiveNeighbours`), and the proofs that the tests never read outside the
  board and that both counts agree.
- `generation.dfy` (module `Generation`): the per-cell outcome `Rule`, the
  specification `Step` of one generation, the imperative `NextGeneration`
  loop that fills a fresh copy of the board, and the birth / survival / death
  lemmas stated on rows and columns.
- `game.dfy` (module `Game`): the class `Application` with the component's
  state (`isRunning`, `lifespan`, `cells`, `generations` and the constant
  `dimension`) and its state-changing methods, plus `RunTicks`, a run of
  timer firings.

Behaviour of the code worth knowing (the model follows the code):

- Seeds are drawn from `1..cellCount`, not from `0..cellCount-1`. Cell 0 is
  never live after seeding. A draw equal to `cellCount` takes a place in the
  list but marks no cell, so a seeded board has `floor(cellCount/4)` or
  `floor(cellCount/4) - 1` live cells (`Seeding.SeedPopulation`).
- The last-row threshold `dimension * (dimension - 1) - 1` is correct: an
  index lies above it exactly when its row is `dimension - 1`
  (`Neighbours.GuardsMatchRowCol`). No cell is misclassified.
- A toggled cell gets no `newborn` field, in either direction.
- `changeLifespan` stores any value. There is no check against a set of
  speeds, and no error for a bad dimension or index is returned. A toggle
  of an index off the board throws before the state is touched; the model
  returns `false` and leaves the state unchanged.
- A dying cell keeps its copied `newborn`, and a dead cell that is not born
  is left exactly as copied.

## Model

| member | source | states |
|---|---|---|
| `Seeding.AcceptedDraws` | Application.js:5-10 | the list the sampling loop builds never exceeds its target and takes at most one value per draw |
| `Seeding.AcceptedDrawsShape` | Application.js:5-10 | the sampled list holds no value twice, holds only drawn values, and holds every drawn value while it is short of its target |
| `Seeding.DuplicateDrawIgnored` | Application.js:7-9 | a draw already in the list leaves the list unchanged |
| `Seeding.FullListIsFinal` | Application.js:5 | once the list holds its target, later draws change nothing (the loop stops) |
| `Seeding.EnoughDrawsFillTheList` | Application.js:4-11 | given draws with at least `floor(cellCount/4)` distinct values, the list reaches exactly that length |
| `Seeding.RandomizeAliveCells` | Application.js:1-12 | the loop returns exactly the list `AcceptedDraws` of the draws it was given, with target `floor(cellCount/4)` |
| `Seeding.GenerateCells` | Application.js:14-24 | the board has `cellCount` cells; cell `y` is live iff `y` is in the list; every cell has `newborn` set to true |
| `Seeding.SeedPopulation` | Application.js:6-20 | with draws in `1..cellCount`: cell 0 is dead, the live cells are the sampled values other than `cellCount`, at most `floor(cellCount/4)` of them and, with enough distinct draws, at least one fewer |
| `Neighbours.GuardsMatchRowCol` | Application.js:113-132 | `cell < d` iff row 0, `cell > d*(d-1)-1` iff last row, `(cell+1) % d == 0` iff last column (`cell % d == 0` is column 0 by definition) |
| `Neighbours.GuardsKeepReadsInRange` | Application.js:125-157 | with `d*d` cells, every test that passes permits a read inside the board |
| `Neighbours.NeighbourCount` | Application.js:114-157 | the count built from the flat-index tests is between 0 and 8 |
| `Neighbours.NeighbourCountIsGridCount` | Application.js:125-157 | the flat-index count equals the count of live cells among the (up to) eight row/column neighbours, with no wrap-around |
| `Neighbours.ChecksMatchRowCol` | Application.js:113-132 | the eight tests mean "not first row", "not last row", "not first column", "not last column" and, for the diagonals, the conjunction of the two sides |
| `Generation.BoundaryChecks` | Application.js:113-132 | the eight flags are the engine's tests on the flat index, and every flag that is set permits the read of its neighbour inside the `dimension * dimension` board |
| `Generation.CountAliveNeighbours` | Application.js:134-157 | the per-cell count equals `NeighbourCount` on the old board |
| `Generation.Rule` | Application.js:159-174 | a cell is live next iff the count is 3, or it is live and the count is 2; a newly born cell is `newborn` true, a survivor `newborn` false, and a cell that is dead afterwards keeps the `newborn` it had |
| `Generation.Step` | Application.js:110-175 | the next generation has as many cells as the old one |
| `Generation.NextGeneration` | Application.js:106-175 | filling a fresh copy cell by cell yields exactly `Step` of the old board, every count read from the old board |
| `Generation.Survival` | Application.js:160-165 | a live cell with 2 or 3 live neighbours stays live with `newborn` false |
| `Generation.Death` | Application.js:160-162 | a live cell with fewer than 2 or more than 3 dies and keeps its copied `newborn` |
| `Generation.Birth` | Application.js:169-173 | a dead cell with exactly 3 live neighbours becomes live with `newborn` true |
| `Generation.StaysDead` | Application.js:168-174 | a dead cell with any other count is left as copied |
| `Generation.StepIsB3S23` | Application.js:159-174 | a cell is live next iff it has 3 live neighbours, or is live and has 2 |
| `Generation.SingleCellBoardDies` | Application.js:112-174 | on a 1 by 1 board the single cell is dead after a step |
| `Game.DeadBoardStaysDead` | Application.js:72-73 | the cleared board, all cells dead without `newborn`, is left exactly as it is by a step |
| `Game.Toggled` | Application.js:79-84 | toggling flips the chosen cell's `alive`, drops its `newborn`, and keeps the length and every other cell |
| `Game.ToggleTwice` | Application.js:78-86 | toggling one cell twice restores its `alive`; only its `newborn` is now absent |
| `Game.Generations` | Application.js:95-103 | any number of steps keeps the board size |
| `Game.Application.constructor` | Application.js:28-37 | initial state: running, lifespan 100, 0 generations, 60*60 dead cells |
| `Game.Application.InitializeBoard` | Application.js:53-59 | the board becomes the `dimension*dimension` cells seeded from the sampled list; the other fields are unchanged |
| `Game.Application.ToggleExecution` | Application.js:61-63 | `isRunning` is negated; nothing else changes |
| `Game.Application.ChangeLifespan` | Application.js:65-67 | `lifespan` takes the given value; nothing else changes |
| `Game.Application.ClearBoard` | Application.js:69-76 | not running, 0 generations, `dimension*dimension` dead cells without `newborn` |
| `Game.Application.ToggleSingleCell` | Application.js:78-86 | on the board: the cells become the toggled board; off the board: nothing changes; `generations`, `isRunning` and the length never change |
| `Game.Application.Restart` | Application.js:88-91 | the board is reseeded, `generations` is 0 and the simulation runs |
| `Game.Application.CultivateNextGeneration` | Application.js:106-177 | the board becomes `Step` of the old board; nothing else changes |
| `Game.Application.Tick` | Application.js:96-100 | running: `generations` goes up by exactly 1 and the board steps; paused: neither changes |
| `Game.RunTicks` | Application.js:93-104 | `n` firings advance a running simulation by exactly `n` generations and leave a paused one unchanged |
| `Game.PauseThenResume` | Application.js:61-63 | toggling execution twice leaves the whole state unchanged |

## Left out

- Rendering (`render`, `ElapsedGenerations`, `ControlPanel`, `Board`, `Cell`, the mount call, Application.js:179-279) and the display width `boardWidth`: presentation only.
- `componentDidMount` (Application.js:48-51): lifecycle glue; its effect is `InitializeBoard` followed by the start of the timer.
- The `setTimeout` loop (Application.js:93-104): the delay and the re-arming are timer plumbing; `Tick` is the body of one firing and `RunTicks` a finite run of firings. `lifespan` is stored but no time passes in the model.
- `Math.random` (Application.js:6): replaced by the input sequence `draws`, given already scaled to `1..cellCount`.
- Seeding.RandomizeAliveCells: the source loop runs until the list is full; the model stops when the finite draws run out, and then the list is shorter than `floor(cellCount/4)`. `EnoughDrawsFillTheList` states when it is full. The unused `dimension` parameter is dropped.
- The `JSON.parse(JSON.stringify(...))` deep copy and `Array.fill` with one shared literal: modelled as a fresh array or sequence of cell values; aliasing cannot arise.
- React's asynchronous, merging `setState`: modelled as plain field assignments in program order.
- `dimension` is a `nat`, so a negative dimension is not modelled. In the source it seeds and clears a normal board of `dimension * dimension` cells. With `dimension = -3`, at cell 0 the bottom-right test passes (`secondLastRow` is 11 and `1 % -3` is 1), so the count reads `cells[-2]`, which is undefined. The first generation throws a TypeError, after `generations` has already gone up by one, and the timer is never re-armed.
- Game.Application.ToggleSingleCell: the source has no result and, for an index off the board, throws when it reads the missing cell, before any state is stored; the model returns `ok == false` with the state unchanged instead of an exception.
- Game.Application.constructor: before the board is seeded it holds 60*60 cells whatever the dimension, so `Valid()` holds then only for dimension 60; `Tick` requires `Valid()`, which every seeding, clear and restart establishes.
- Concrete patterns (a still block, a blinker) are not proved; the general birth, survival and death lemmas cover the rule they exercise.
