/** The `CellGrid` engine: the current grid together with the `population` and
    `generations` counters, and the operations that change them. Drawing,
    timers and the pixel-to-cell conversion of clicks are not modelled. */
module Engine {
  import opened Cells
  import opened Neighbours
  import opened Life

  datatype Game = Game(cells: Grid, population: int, generations: int)

  /** What every reachable engine state satisfies: a well-formed grid, a
      population counter equal to the number of live cells, and a generation
      counter of at least one. */
  predicate Valid(s: Game) {
    && WellFormed(s.cells)
    && s.population == LiveCount(s.cells)
    && s.generations >= 1
  }

  /** The random outcomes `initialiseGrid` draws: for each cell of the Size by
      Size grid, whether its draw fell below the 10% threshold. */
  predicate IsDraw(draw: seq<seq<bool>>) {
    |draw| == Size && forall r | 0 <= r < |draw| :: |draw[r]| == Size
  }

  /** The grid has the shape of the draws and a cell is alive exactly when its
      draw says so. */
  predicate Drawn(cells: Grid, draw: seq<seq<bool>>) {
    && |cells| == |draw|
    && (forall r | 0 <= r < |draw| :: |cells[r]| == |draw[r]|)
    && forall r, c | 0 <= r < |draw| && 0 <= c < |draw[r]| :: cells[r][c].alive == draw[r][c]
  }

  /** Builds a fresh Size by Size grid, counting the live cells as it goes. Each
      cell is alive when its draw says so, unless `allDead` forces every cell
      dead; the draws are only consulted when `allDead` is false. */
  method InitialiseGrid(draw: seq<seq<bool>>, allDead: bool) returns (cells: Grid, population: int)
    requires !allDead ==> IsDraw(draw)
    ensures WellFormed(cells) && |cells| == Size && |cells[0]| == Size
    ensures forall r, c | InGrid(cells, r, c) :: cells[r][c].alive == (!allDead && draw[r][c])
    ensures population == LiveCount(cells)
    ensures allDead ==> population == 0
  {
    population := 0;
    cells := [];
    for row := 0 to Size
      invariant |cells| == row
      invariant forall r | 0 <= r < row :: |cells[r]| == Size
      invariant forall r, c | 0 <= r < row && 0 <= c < Size ::
                  cells[r][c] == Cell(!allDead && draw[r][c], Position(r, c))
      invariant population == LiveCount(cells)
      invariant allDead ==> population == 0
    {
      var line: seq<Cell> := [];
      for col := 0 to Size
        invariant |line| == col
        invariant forall c | 0 <= c < col :: line[c] == Cell(!allDead && draw[row][c], Position(row, c))
        invariant population == LiveCount(cells) + RowLive(line)
        invariant allDead ==> population == 0
      {
        var alive := if allDead then false else draw[row][col];
        if alive {
          population := population + 1;
        }
        assert (line + [Cell(alive, Position(row, col))])[..col] == line;
        line := line + [Cell(alive, Position(row, col))];
      }
      assert (cells + [line])[..row] == cells;
      cells := cells + [line];
    }
  }

  /** One pass of the inner loop of the neighbour count: the probe at offset
      (y, x) from the cell's recorded position, skipped for the cell itself and
      for a position off the grid, adds one for a live neighbour. */
  method ProbeNeighbour(cells: Grid, row: int, col: int, y: int, x: int, liveNeighbours: nat)
    returns (liveNeighbours': nat)
    requires Rectangular(cells) && InGrid(cells, row, col)
    requires cells[row][col].position == Position(row, col)
    requires -1 <= y <= 1 && -1 <= x <= 1
    ensures liveNeighbours' == liveNeighbours + Bit((y, x) in Moore && Alive(cells, row + y, col + x))
    ensures liveNeighbours' == liveNeighbours + Probe(cells, row, col, (y, x))
  {
    ProbeIsMoore(cells, row, col, (y, x));
    var cell := cells[row][col];
    liveNeighbours' := liveNeighbours;
    if !(x == 0 && y == 0) {
      var neighbourRow := cell.position.row + y;
      var neighbourCol := cell.position.col + x;
      if !(neighbourCol == -1 || neighbourCol > |cells[row]| - 1
           || neighbourRow == -1 || neighbourRow > |cells| - 1) {
        assert |cells[neighbourRow]| == |cells[row]|;
        if cells[neighbourRow][neighbourCol].alive {
          liveNeighbours' := liveNeighbours' + 1;
        }
      }
    }
  }

  /** The neighbour count of `updateCells`: the nine probes of the nested
      loops, `y` outer and `x` inner, each running over -1, 0, 1. */
  method CountLiveNeighbours(cells: Grid, row: int, col: int) returns (liveNeighbours: nat)
    requires Rectangular(cells) && InGrid(cells, row, col)
    requires cells[row][col].position == Position(row, col)
    ensures liveNeighbours == CountNeighbours(cells, row, col)
  {
    liveNeighbours := 0;
    for y := -1 to 2
      invariant liveNeighbours == ProbeCount(cells, row, col, 3 * (y + 1))
    {
      for x := -1 to 2
        invariant liveNeighbours == ProbeCount(cells, row, col, 3 * (y + 1) + (x + 1))
      {
        ProbeCountNext(cells, row, col, y, x);
        liveNeighbours := ProbeNeighbour(cells, row, col, y, x, liveNeighbours);
      }
    }
  }

  /** The rule applied to one cell of `updateCells`: a live cell whose count is
      neither 2 nor 3 is replaced by a fresh dead cell and the population drops
      by one, a dead cell with count 3 by a fresh live cell and the population
      grows by one, any other cell is carried over. */
  method UpdateCell(cells: Grid, row: int, col: int, population: int) returns (next: Cell, population': int)
    requires WellFormed(cells) && InGrid(cells, row, col)
    ensures next == StepCell(cells, row, col)
    ensures population' == population + Bit(!cells[row][col].alive && next.alive)
                                      - Bit(cells[row][col].alive && !next.alive)
  {
    var cell := cells[row][col];
    var liveNeighbours := CountLiveNeighbours(cells, row, col);
    population' := population;
    if cell.alive && !(liveNeighbours == 2 || liveNeighbours == 3) {
      next := Cell(false, Position(row, col));
      population' := population' - 1;
    } else if !cell.alive && liveNeighbours == 3 {
      next := Cell(true, Position(row, col));
      population' := population' + 1;
    } else {
      next := cell;
    }
  }

  /** One row of `updateCells`: the next value of each cell of row `row`,
      pushed onto a fresh row of the buffer, with the population moved by one
      for every birth and every death. */
  method UpdateRow(cells: Grid, row: int, population: int) returns (line: seq<Cell>, population': int)
    requires WellFormed(cells) && 0 <= row < |cells|
    ensures line == Step(cells)[row]
    ensures population' == population + RowChanges(cells[row], line, false, true)
                                      - RowChanges(cells[row], line, true, false)
  {
    population' := population;
    line := [];
    for col := 0 to |cells[row]|
      invariant |line| == col
      invariant forall c | 0 <= c < col :: line[c] == StepCell(cells, row, c)
      invariant population' == population + RowChanges(cells[row][..col], line, false, true)
                                          - RowChanges(cells[row][..col], line, true, false)
    {
      var next;
      next, population' := UpdateCell(cells, row, col, population');
      TakeOneMore(cells[row], col);
      RowChangesAppend(cells[row][..col], line, cells[row][col], next, false, true);
      RowChangesAppend(cells[row][..col], line, cells[row][col], next, true, false);
      line := line + [next];
    }
    assert cells[row][..|cells[row]|] == cells[row];
  }

  /** One generation: every cell's next value is computed from the current
      grid, by the same probe loop, bounds test and rule as `updateCells` in game.js, into a
      separate buffer; births add one to the population and deaths remove
      one. */
  method UpdateCells(s: Game) returns (t: Game)
    requires WellFormed(s.cells)
    ensures t.cells == Step(s.cells)
    ensures t.population == s.population + Births(s.cells, t.cells) - Deaths(s.cells, t.cells)
    ensures s.population == LiveCount(s.cells) ==> t.population == LiveCount(t.cells)
    ensures t.generations == s.generations
  {
    var cells := s.cells;
    var population := s.population;
    var nextGen: Grid := [];
    ghost var next := Step(cells);
    for row := 0 to |cells|
      invariant nextGen == next[..row]
      invariant SameShape(cells[..row], nextGen)
      invariant population == s.population + Births(cells[..row], nextGen) - Deaths(cells[..row], nextGen)
    {
      var line;
      line, population := UpdateRow(cells, row, population);
      TakeOneMore(cells, row);
      ChangesAppend(cells[..row], nextGen, cells[row], line, false, true);
      ChangesAppend(cells[..row], nextGen, cells[row], line, true, false);
      TakeOneMore(next, row);
      nextGen := nextGen + [line];
    }
    assert cells[..|cells|] == cells;
    assert next[..|cells|] == next;
    Balance(cells, nextGen);
    t := s.(cells := nextGen, population := population);
  }

  /** The body of the click handler for an already computed cell: flip that one
      cell and move the population by one in the direction of the flip. */
  function Toggle(s: Game, row: int, col: int): (t: Game)
    requires InGrid(s.cells, row, col)
    ensures SameShape(s.cells, t.cells)
    ensures t.cells[row][col].alive == !s.cells[row][col].alive
    ensures t.cells[row][col].position == s.cells[row][col].position
    ensures forall r, c | InGrid(s.cells, r, c) && (r != row || c != col) :: t.cells[r][c] == s.cells[r][c]
    ensures t.population == s.population + (if t.cells[row][col].alive then 1 else -1)
    ensures t.generations == s.generations
  {
    var cell := s.cells[row][col];
    var flipped := cell.(alive := !cell.alive);
    var population := if flipped.alive then s.population + 1 else s.population - 1;
    s.(cells := s.cells[row := s.cells[row][col := flipped]], population := population)
  }

  /** Toggling keeps the population counter equal to the number of live
      cells. */
  lemma TogglePreservesValid(s: Game, row: int, col: int)
    requires Valid(s) && InGrid(s.cells, row, col)
    ensures Valid(Toggle(s, row, col))
  {
    var cell := s.cells[row][col];
    var t := Toggle(s, row, col);
    LiveCountUpdate(s.cells, row, col, cell.(alive := !cell.alive));
    assert t.cells == s.cells[row := s.cells[row][col := cell.(alive := !cell.alive)]];
    assert forall r, c | InGrid(t.cells, r, c) :: t.cells[r][c].position == Position(r, c);
  }

  /** Clicking the same cell twice restores the state. */
  lemma ToggleTwice(s: Game, row: int, col: int)
    requires InGrid(s.cells, row, col)
    ensures Toggle(Toggle(s, row, col), row, col) == s
  {
    var t := Toggle(Toggle(s, row, col), row, col);
    assert t.cells[row] == s.cells[row];
    assert t.cells == s.cells;
  }

  /** One timer tick: the generation counter goes up by one, then the grid
      advances one generation. */
  method Tick(s: Game) returns (t: Game)
    requires WellFormed(s.cells)
    ensures t.generations == s.generations + 1
    ensures t.cells == Step(s.cells)
    ensures Valid(s) ==> Valid(t)
  {
    var counted := s.(generations := s.generations + 1);
    t := UpdateCells(counted);
  }

  /** The constructor: generation one and a freshly drawn grid. */
  method NewGame(draw: seq<seq<bool>>) returns (s: Game)
    requires IsDraw(draw)
    ensures Valid(s)
    ensures s.generations == 1
    ensures Drawn(s.cells, draw)
  {
    var cells, population := InitialiseGrid(draw, false);
    s := Game(cells, population, 1);
  }

  /** The clear button: an all-dead grid, no population, generation one. */
  method ClearGrid() returns (t: Game)
    ensures Valid(t)
    ensures AllDead(t.cells) && |t.cells| == Size && |t.cells[0]| == Size
    ensures t.population == 0
    ensures t.generations == 1
  {
    var cells, population := InitialiseGrid([], true);
    t := Game(cells, population, 1);
  }

  /** The reset button: a freshly drawn grid and generation one. */
  method ResetGrid(draw: seq<seq<bool>>) returns (t: Game)
    requires IsDraw(draw)
    ensures Valid(t)
    ensures Drawn(t.cells, draw)
    ensures t.generations == 1
  {
    var cells, population := InitialiseGrid(draw, false);
    t := Game(cells, population, 1);
  }

  /** The things that can happen to a running page: a timer tick, a click on a
      cell, the clear button, the reset button with its fresh draws. */
  datatype Event = TimerTick | Click(row: int, col: int) | ClearPressed | ResetPressed(draw: seq<seq<bool>>)

  predicate Drawable(e: Event) {
    e.ResetPressed? ==> IsDraw(e.draw)
  }

  /** Any sequence of events keeps the engine valid, so the population counter
      equals the number of live cells in every reachable state. A click outside
      the grid changes nothing: the handler fails on the missing cell before it
      writes anything. */
  method Run(s: Game, events: seq<Event>) returns (t: Game)
    requires Valid(s)
    requires forall i | 0 <= i < |events| :: Drawable(events[i])
    ensures Valid(t)
  {
    t := s;
    for i := 0 to |events|
      invariant Valid(t)
    {
      match events[i]
      case TimerTick =>
        t := Tick(t);
      case Click(row, col) =>
        if InGrid(t.cells, row, col) {
          TogglePreservesValid(t, row, col);
          t := Toggle(t, row, col);
        }
      case ClearPressed =>
        t := ClearGrid();
      case ResetPressed(draw) =>
        t := ResetGrid(draw);
    }
  }
}
