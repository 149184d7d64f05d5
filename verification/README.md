# Game of Life engine in Dafny

A model of the simulation engine of a browser Game of Life (`CellGrid` in
`game.js`): a bounded rectangular grid of cells, each alive or dead and
recording its own (row, col) position; the generation step that counts live
neighbours in the Moore neighbourhood without wrap-around and applies the
B3/S23 rule into a separate next-generation buffer; the click toggle; grid
initialisation, clear and reset; and the `population` and `generations`
counters the engine keeps beside the grid.

Files and modules:

- `cells.dfy`, module `Cells`: positions, cells, grids, the well-formedness
  invariant (rectangular, every cell's position equal to its index), the live
  count that `population` must equal, and the birth/death balance.
- `neighbours.dfy`, module `Neighbours`: the nine probes of the neighbour loop
  with the bounds test of `updateCells`, and an independent set-based description
  of the live in-grid Moore neighbours, proved to agree.
- `life.dfy`, module `Life`: the next generation as a pure function `Step` of
  the previous grid, the rule stated per cell, and the still-life, empty-grid
  and lone-cell facts.
- `engine.dfy`, module `Engine`: the engine state `Game`, the imperative
  `updateCells` loop proved equal to `Step` with its population bookkeeping,
  the toggle, initialisation, clear, reset, the timer tick, and `Run`, which
  applies any sequence of ticks, clicks, clears and resets and keeps the
  population invariant.

The random draws of `initialiseGrid` (`Math.random() < 0.1` per cell) are a
parameter: a 70 by 70 table of booleans, one per cell, so every property holds
for every random outcome. The grid built by initialisation is 70 by 70 as in
`initialiseGrid`; the step and the toggle are modelled for any rectangular grid.

## Model

| member | source | states |
|---|---|---|
| Cells.RowLiveZero | game.js:38 | the live count of a row is zero exactly when no cell of the row is alive |
| Cells.LiveCountZero | game.js:28-44 | the live count of a grid, which `population` must equal, is zero exactly when every cell is dead |
| Cells.RowLiveUpdate | game.js:55-56 | replacing one cell of a row moves its live count by the change in that cell's liveness |
| Cells.LiveCountUpdate | game.js:55-56 | replacing one cell of the grid moves the live count by the change in that cell's liveness, the fact behind the toggle's ±1 |
| Cells.RowBalance | game.js:104-123 | between two rows of equal length the live count grows by the births and shrinks by the deaths |
| Cells.Balance | game.js:104-125 | between two grids of equal shape the live count grows by one per birth and shrinks by one per death, the fact behind the step's ±1 bookkeeping |
| Neighbours.ProbeOffset | game.js:86-87 | the k-th iteration of the nested loops visits offset (y, x) with k = 3(y+1) + (x+1), each offset at most one away |
| Neighbours.ProbeCount | game.js:84-103 | n probes count at most n live cells, and the probe of the cell itself never counts |
| Neighbours.HitsStep | game.js:86-101 | one more probe adds its position to the set of hit positions exactly when it counts |
| Neighbours.HitsMissLaterProbe | game.js:86-87 | no earlier probe reaches the position of a later one |
| Neighbours.ProbeCountIsHits | game.js:84-103 | the probe sum equals the number of distinct positions the probes hit |
| Neighbours.ProbeIsMoore | game.js:89-101 | the skip of the cell itself and the -1 / past-the-end test let a probe count exactly when its offset is a Moore offset leading to a live in-grid cell |
| Neighbours.LiveNeighboursAreHits | game.js:89-101 | every live in-grid Moore neighbour is counted by some probe, the -1 / past-the-end test admitting it |
| Neighbours.HitsAreLiveNeighbours | game.js:89-101 | every counted probe is a live in-grid Moore neighbour other than the cell itself |
| Neighbours.CountIsLiveNeighbours | game.js:84-103 | the loop's count is the number of live cells among the eight surrounding positions that lie inside the grid |
| Neighbours.NeighbourBounds | game.js:84-103 | the count lies in 0..8, and is at most 3 for a corner cell |
| Life.Step | game.js:79-125 | the next generation has the same number of rows and each row the same length; a well-formed grid steps to a well-formed grid, every new cell at its own (row, col) |
| Life.StepRule | game.js:104-122 | a live cell whose count is not 2 or 3 dies, a dead cell with count 3 is born, every other cell is carried over unchanged; so a cell is alive next exactly when it has 3 live neighbours or is alive with 2 |
| Life.AllDeadIsFixedPoint | game.js:112-121 | a grid with no live cell steps to itself |
| Life.LoneCellNeighbours | game.js:84-103 | with a single live cell every cell has at most one live neighbour and that cell none |
| Life.LoneCellDies | game.js:104-111 | a grid with a single live cell steps to an all-dead grid |
| Life.BlockCellNeighbours | game.js:84-103 | in a lone 2 by 2 block each block cell counts exactly the other three block cells |
| Life.OutsideBlockNeighbours | game.js:84-103 | a cell outside a lone 2 by 2 block counts at most two live neighbours |
| Life.BlockNeighbours | game.js:84-103 | in a lone 2 by 2 block each block cell has three live neighbours and every other cell at most two |
| Life.BlockIsStillLife | game.js:104-122 | a lone 2 by 2 block is unchanged by a step |
| Engine.InitialiseGrid | game.js:27-44 | builds a well-formed 70 by 70 grid whose cells follow the draws (all dead when `allDead`), with the counter equal to the number of live cells, zero when all dead |
| Neighbours.ProbeCountNext | game.js:86-103 | each loop iteration adds exactly the contribution of probe (y, x) to the count |
| Engine.ProbeNeighbour | game.js:87-101 | one inner-loop pass, probing from the cell's recorded position, adds one exactly when (y, x) is one of the eight Moore offsets and leads to a live cell inside the grid, nothing otherwise |
| Engine.CountLiveNeighbours | game.js:84-103 | the nested loops compute the neighbour count of the pure step, which `Neighbours.CountIsLiveNeighbours` ties to the Moore neighbourhood |
| Engine.UpdateCell | game.js:83-122 | a cell's next value is the one the pure step gives it, and the population moves by +1 for a birth, -1 for a death, 0 otherwise |
| Engine.UpdateRow | game.js:82-123 | one row of the buffer equals that row of `Step`, and the counter moves by the row's births minus its deaths |
| Engine.UpdateCells | game.js:78-126 | the buffer that replaces the grid equals `Step` of the old grid, the counter moves by births minus deaths, so a correct population stays correct |
| Engine.Toggle | game.js:54-56 | flips exactly the clicked cell, keeps its position and every other cell, and moves the population by +1 if it became alive, -1 otherwise |
| Engine.TogglePreservesValid | game.js:54-56 | a toggle keeps the population equal to the number of live cells |
| Engine.ToggleTwice | game.js:54-56 | toggling the same cell twice restores the state |
| Engine.Tick | game.js:129-134 | a tick adds exactly one to the generation counter, advances the grid by `Step`, and keeps the engine valid |
| Engine.NewGame | game.js:10-15 | the constructor starts at generation 1 with a drawn grid and a correct population |
| Engine.ClearGrid | game.js:141-148 | clear gives an all-dead 70 by 70 grid, population 0, generation 1 |
| Engine.ResetGrid | game.js:149-155 | reset gives a freshly drawn grid with a correct population and generation 1 |
| Engine.Run | game.js:158-180 | after any sequence of ticks, clicks, clears and resets, the population equals the number of live cells and the generation counter is at least 1 |

## Left out

- Drawing (`drawCell`, `draw`, `clearRect`) and the text of the population and generation displays: rendering side effects that do not touch the engine's state.
- The pixel-to-cell conversion of a click (`getBoundingClientRect`, floating-point cell sizes, `Math.floor`): floating point and browser calls; the model starts from an integer (row, col).
- Engine.Toggle: requires (row, col) to be inside the grid. The handler indexes without a check; a click outside the grid makes it fail on the missing cell before anything is written, which is how `Engine.Run` treats such a click.
- `setInterval` / `clearInterval`, the `running` flag and the start/stop button (`runGrid`, `stopGrid`, `toggleStart`): timer scheduling. A tick is modelled as one atomic event; `runGrid` does not guard against being started twice, and clear does not stop a running timer, neither of which changes what a single tick does.
- The probability 0.1 of `Math.random`: the draws are a parameter, so the model covers every outcome without saying how likely each is.
- Error results for bad dimensions, a bad probability or an out-of-range toggle: the code has none (fixed 70 by 70 dimensions, a fixed probability, no bounds check on a click), and both clear and reset set the generation counter to 1. The model follows the code.
- Object identity: the step carries unchanged cell objects over into the new buffer, so old and new grids share them. The old grid is dropped at once and nothing else refers to it, so value semantics give the same behaviour.
