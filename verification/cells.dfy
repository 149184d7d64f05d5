/** The cell grid of the Game of Life: cells, grid shape, and the count of live
    cells that the engine's `population` counter must always agree with. */
module Cells {

  /** Side length of the square grid built by `initialiseGrid`. */
  const Size: nat := 70

  datatype Position = Position(row: int, col: int)

  /** A cell records whether it is alive and the coordinate it sits at. */
  datatype Cell = Cell(alive: bool, position: Position)

  /** Rows of cells, indexed `g[row][col]`. */
  type Grid = seq<seq<Cell>>

  /** Every row has the length of the first one. */
  predicate Rectangular(g: Grid) {
    forall r | 0 <= r < |g| :: |g[r]| == |g[0]|
  }

  predicate InGrid(g: Grid, r: int, c: int) {
    0 <= r < |g| && 0 <= c < |g[r]|
  }

  /** A grid the engine can hold: at least one row and one column, rectangular,
      and every cell's recorded position equal to its index. */
  predicate WellFormed(g: Grid) {
    && |g| >= 1
    && |g[0]| >= 1
    && Rectangular(g)
    && forall r, c | 0 <= r < |g| && 0 <= c < |g[r]| :: g[r][c].position == Position(r, c)
  }

  /** (r, c) lies inside the grid and holds a live cell. */
  predicate Alive(g: Grid, r: int, c: int) {
    InGrid(g, r, c) && g[r][c].alive
  }

  /** One for true, zero for false. */
  function Bit(b: bool): (n: nat) {
    if b then 1 else 0
  }

  /** Number of live cells in one row. */
  function RowLive(row: seq<Cell>): (n: nat)
    ensures n <= |row|
  {
    if |row| == 0 then 0
    else RowLive(row[..|row| - 1]) + Bit(row[|row| - 1].alive)
  }

  /** Number of live cells in the grid: what `population` must equal. */
  function LiveCount(g: Grid): (n: nat) {
    if |g| == 0 then 0
    else LiveCount(g[..|g| - 1]) + RowLive(g[|g| - 1])
  }

  /** A row has no live cell exactly when its live count is zero. */
  lemma {:induction false} RowLiveZero(row: seq<Cell>)
    ensures RowLive(row) == 0 <==> forall c | 0 <= c < |row| :: !row[c].alive
    decreases |row|
  {
    if |row| > 0 {
      RowLiveZero(row[..|row| - 1]);
    }
  }

  /** A grid has no live cell exactly when its live count is zero. */
  lemma {:induction false} LiveCountZero(g: Grid)
    ensures LiveCount(g) == 0 <==> forall r, c | InGrid(g, r, c) :: !g[r][c].alive
    decreases |g|
  {
    if |g| > 0 {
      var n := |g|;
      LiveCountZero(g[..n - 1]);
      RowLiveZero(g[n - 1]);
      assert forall r, c | InGrid(g[..n - 1], r, c) :: g[..n - 1][r][c] == g[r][c];
    }
  }

  /** Replacing one cell changes the row's live count by the difference of the
      two cells' liveness. */
  lemma {:induction false} RowLiveUpdate(row: seq<Cell>, c: int, x: Cell)
    requires 0 <= c < |row|
    ensures RowLive(row[c := x]) == RowLive(row) - Bit(row[c].alive) + Bit(x.alive)
    decreases |row|
  {
    var n := |row|;
    var row' := row[c := x];
    if c == n - 1 {
      assert row'[..n - 1] == row[..n - 1];
    } else {
      assert row'[..n - 1] == row[..n - 1][c := x];
      RowLiveUpdate(row[..n - 1], c, x);
    }
  }

  /** Replacing one cell changes the grid's live count by the difference of the
      two cells' liveness. */
  lemma {:induction false} LiveCountUpdate(g: Grid, r: int, c: int, x: Cell)
    requires InGrid(g, r, c)
    ensures LiveCount(g[r := g[r][c := x]]) == LiveCount(g) - Bit(g[r][c].alive) + Bit(x.alive)
    decreases |g|
  {
    var n := |g|;
    var g' := g[r := g[r][c := x]];
    RowLiveUpdate(g[r], c, x);
    if r == n - 1 {
      assert g'[..n - 1] == g[..n - 1];
    } else {
      assert g'[..n - 1] == g[..n - 1][r := g[..n - 1][r][c := x]];
      LiveCountUpdate(g[..n - 1], r, c, x);
    }
  }

  /** Two grids of the same shape, such as a generation and its successor. */
  predicate SameShape(a: Grid, b: Grid) {
    |a| == |b| && forall r | 0 <= r < |a| :: |a[r]| == |b[r]|
  }

  /** Number of columns whose cell goes from liveness `from` in `a` to
      liveness `to` in `b`. */
  function RowChanges(a: seq<Cell>, b: seq<Cell>, from: bool, to: bool): nat
    requires |a| == |b|
  {
    if |a| == 0 then 0
    else
      RowChanges(a[..|a| - 1], b[..|b| - 1], from, to)
      + Bit(a[|a| - 1].alive == from && b[|b| - 1].alive == to)
  }

  /** Number of coordinates whose cell goes from liveness `from` in `a` to
      liveness `to` in `b`. */
  function Changes(a: Grid, b: Grid, from: bool, to: bool): nat
    requires SameShape(a, b)
  {
    if |a| == 0 then 0
    else Changes(a[..|a| - 1], b[..|b| - 1], from, to) + RowChanges(a[|a| - 1], b[|b| - 1], from, to)
  }

  /** A prefix one longer is the shorter prefix followed by the next element. */
  lemma TakeOneMore<T>(s: seq<T>, i: int)
    requires 0 <= i < |s|
    ensures s[..i + 1] == s[..i] + [s[i]]
  {
  }

  /** Adding one more cell to both rows adds that cell's change. */
  lemma RowChangesAppend(a: seq<Cell>, b: seq<Cell>, x: Cell, y: Cell, from: bool, to: bool)
    requires |a| == |b|
    ensures RowChanges(a + [x], b + [y], from, to) == RowChanges(a, b, from, to) + Bit(x.alive == from && y.alive == to)
  {
    assert (a + [x])[..|a|] == a;
    assert (b + [y])[..|b|] == b;
  }

  /** Adding one more row to both grids adds that row's changes. */
  lemma ChangesAppend(a: Grid, b: Grid, x: seq<Cell>, y: seq<Cell>, from: bool, to: bool)
    requires SameShape(a, b) && |x| == |y|
    ensures SameShape(a + [x], b + [y])
    ensures Changes(a + [x], b + [y], from, to) == Changes(a, b, from, to) + RowChanges(x, y, from, to)
  {
    assert (a + [x])[..|a|] == a;
    assert (b + [y])[..|b|] == b;
  }

  /** Cells dead in `a` and alive in `b`. */
  function Births(a: Grid, b: Grid): nat
    requires SameShape(a, b)
  {
    Changes(a, b, false, true)
  }

  /** Cells alive in `a` and dead in `b`. */
  function Deaths(a: Grid, b: Grid): nat
    requires SameShape(a, b)
  {
    Changes(a, b, true, false)
  }

  /** Going from one row to another, the live count grows by one per birth and
      shrinks by one per death. */
  lemma {:induction false} RowBalance(a: seq<Cell>, b: seq<Cell>)
    requires |a| == |b|
    ensures RowLive(b) == RowLive(a) + RowChanges(a, b, false, true) - RowChanges(a, b, true, false)
    decreases |a|
  {
    if |a| > 0 {
      RowBalance(a[..|a| - 1], b[..|b| - 1]);
    }
  }

  /** Going from one grid to another of the same shape, the live count grows by
      one per birth and shrinks by one per death. */
  lemma {:induction false} Balance(a: Grid, b: Grid)
    requires SameShape(a, b)
    ensures LiveCount(b) == LiveCount(a) + Births(a, b) - Deaths(a, b)
    decreases |a|
  {
    if |a| > 0 {
      var n := |a|;
      Balance(a[..n - 1], b[..n - 1]);
      RowBalance(a[n - 1], b[n - 1]);
    }
  }
}
