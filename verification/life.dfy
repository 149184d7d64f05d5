/** One generation of the Game of Life on a bounded grid, as a pure function of
    the previous grid, and the classic B3/S23 rule it implements. */
module Life {
  import opened Cells
  import opened Neighbours

  /** The cell at (r, c) in the next generation. A live cell whose count is
      neither 2 nor 3 is replaced by a fresh dead cell, a dead cell with count 3
      by a fresh live cell, and any other cell is carried over as it is. */
  function StepCell(g: Grid, r: int, c: int): (next: Cell)
    requires Rectangular(g) && InGrid(g, r, c)
  {
    var cell := g[r][c];
    var n := CountNeighbours(g, r, c);
    if cell.alive && !(n == 2 || n == 3) then Cell(false, Position(r, c))
    else if !cell.alive && n == 3 then Cell(true, Position(r, c))
    else cell
  }

  /** The next generation. Every cell is computed from `g` alone, so no count
      can see a value already decided for this generation. */
  function Step(g: Grid): (h: Grid)
    requires Rectangular(g)
    ensures SameShape(g, h)
    ensures WellFormed(g) ==> WellFormed(h)
  {
    seq(|g|, r requires 0 <= r < |g| =>
      seq(|g[r]|, c requires 0 <= c < |g[r]| => StepCell(g, r, c)))
  }

  /** The rule for every cell, stated with the independent neighbourhood
      description: a live cell whose count is not 2 or 3 dies, a dead cell with
      exactly 3 live neighbours is born, every other cell is unchanged; put
      together, a cell is alive next exactly when it has 3 live neighbours, or
      is alive and has 2. */
  lemma StepRule(g: Grid)
    requires Rectangular(g)
    ensures forall r, c | InGrid(g, r, c) ::
              var n := |LiveNeighbours(g, r, c)|;
              && (g[r][c].alive && n != 2 && n != 3 ==> !Step(g)[r][c].alive)
              && (!g[r][c].alive && n == 3 ==> Step(g)[r][c].alive)
              && (!(g[r][c].alive && n != 2 && n != 3) && !(!g[r][c].alive && n == 3)
                  ==> Step(g)[r][c] == g[r][c])
              && (Step(g)[r][c].alive <==> n == 3 || (g[r][c].alive && n == 2))
  {
    forall r, c | InGrid(g, r, c)
      ensures var n := |LiveNeighbours(g, r, c)|;
              && (g[r][c].alive && n != 2 && n != 3 ==> !Step(g)[r][c].alive)
              && (!g[r][c].alive && n == 3 ==> Step(g)[r][c].alive)
              && (!(g[r][c].alive && n != 2 && n != 3) && !(!g[r][c].alive && n == 3)
                  ==> Step(g)[r][c] == g[r][c])
              && (Step(g)[r][c].alive <==> n == 3 || (g[r][c].alive && n == 2))
    {
      CountIsLiveNeighbours(g, r, c);
    }
  }

  predicate AllDead(g: Grid) {
    forall r, c | 0 <= r < |g| && 0 <= c < |g[r]| :: !g[r][c].alive
  }

  /** An empty grid stays empty: the all-dead grid is a fixed point. */
  lemma AllDeadIsFixedPoint(g: Grid)
    requires Rectangular(g) && AllDead(g)
    ensures Step(g) == g
  {
    forall r, c | InGrid(g, r, c) ensures Step(g)[r][c] == g[r][c] {
      CountIsLiveNeighbours(g, r, c);
      assert LiveNeighbours(g, r, c) == {};
    }
    forall r | 0 <= r < |g| ensures Step(g)[r] == g[r] {
    }
  }

  /** With a single live cell on the grid, every cell has at most one live
      neighbour, and the live cell itself has none. */
  lemma LoneCellNeighbours(g: Grid, r0: int, c0: int, r: int, c: int)
    requires Rectangular(g) && InGrid(g, r0, c0) && InGrid(g, r, c)
    requires forall i, j | InGrid(g, i, j) :: g[i][j].alive <==> (i == r0 && j == c0)
    ensures |LiveNeighbours(g, r, c)| <= 1
    ensures r == r0 && c == c0 ==> |LiveNeighbours(g, r, c)| == 0
  {
    var L := LiveNeighbours(g, r, c);
    assert L <= {Position(r0, c0)};
    if r == r0 && c == c0 {
      assert L == {};
    } else if Position(r0, c0) in L {
      assert L == {Position(r0, c0)};
    } else {
      assert L == {};
    }
  }

  /** A grid with a single live cell becomes empty: the lone cell has no live
      neighbour and dies of under-population, and no other cell has the three
      live neighbours a birth needs. */
  lemma LoneCellDies(g: Grid, r0: int, c0: int)
    requires Rectangular(g) && InGrid(g, r0, c0)
    requires forall r, c | InGrid(g, r, c) :: g[r][c].alive <==> (r == r0 && c == c0)
    ensures AllDead(Step(g))
  {
    forall r, c | InGrid(g, r, c) ensures !Step(g)[r][c].alive {
      CountIsLiveNeighbours(g, r, c);
      LoneCellNeighbours(g, r0, c0, r, c);
    }
  }

  /** A set drawn from two positions has at most two elements. */
  lemma AtMostTwo(L: set<Position>, p: Position, q: Position)
    requires L <= {p, q}
    ensures |L| <= 2
  {
    if p in L && q in L {
      assert L == {p, q};
    } else if p in L {
      assert L == {p};
    } else if q in L {
      assert L == {q};
    } else {
      assert L == {};
    }
  }

  /** The live cells are exactly the 2 by 2 block with top-left corner (a, b). */
  predicate IsBlock(g: Grid, a: int, b: int) {
    && InGrid(g, a, b) && InGrid(g, a + 1, b + 1)
    && forall r, c | 0 <= r < |g| && 0 <= c < |g[r]| ::
         g[r][c].alive <==> (a <= r <= a + 1 && b <= c <= b + 1)
  }

  /** Three distinct positions make a set of three. */
  lemma ThreePositions(p: Position, q: Position, t: Position)
    requires p != q && q != t && p != t
    ensures |{p, q, t}| == 3
  {
    assert |{p, q}| == 2;
  }

  /** A live neighbour of a block cell is one of the other three block
      cells. */
  lemma BlockNeighbourIsBlockCell(g: Grid, a: int, b: int, r: int, c: int, d: Offset)
    requires Rectangular(g) && IsBlock(g, a, b)
    requires a <= r <= a + 1 && b <= c <= b + 1
    requires d in Moore && Alive(g, r + d.0, c + d.1)
    ensures var r' := if r == a then a + 1 else a;
            var c' := if c == b then b + 1 else b;
            Position(r + d.0, c + d.1) in {Position(r', c), Position(r, c'), Position(r', c')}
  {
    MooreIsOffsets(d);
  }

  /** In a lone block every block cell has the other three as live
      neighbours. */
  lemma BlockCellNeighbours(g: Grid, a: int, b: int, r: int, c: int)
    requires Rectangular(g) && IsBlock(g, a, b)
    requires a <= r <= a + 1 && b <= c <= b + 1
    ensures |LiveNeighbours(g, r, c)| == 3
  {
    var r' := if r == a then a + 1 else a;
    var c' := if c == b then b + 1 else b;
    var L := LiveNeighbours(g, r, c);
    var T := {Position(r', c), Position(r, c'), Position(r', c')};
    forall p | p in L ensures p in T {
      var d :| d in Moore && Alive(g, r + d.0, c + d.1) && p == Position(r + d.0, c + d.1);
      BlockNeighbourIsBlockCell(g, a, b, r, c, d);
    }
    LiveNeighbourAt(g, r, c, (r' - r, 0));
    LiveNeighbourAt(g, r, c, (0, c' - c));
    LiveNeighbourAt(g, r, c, (r' - r, c' - c));
    assert L == T;
    ThreePositions(Position(r', c), Position(r, c'), Position(r', c'));
  }

  /** A cell outside a lone block touches at most two block cells. */
  lemma OutsideBlockNeighbours(g: Grid, a: int, b: int, r: int, c: int)
    requires Rectangular(g) && IsBlock(g, a, b) && InGrid(g, r, c)
    requires !(a <= r <= a + 1 && b <= c <= b + 1)
    ensures |LiveNeighbours(g, r, c)| <= 2
  {
    var L := LiveNeighbours(g, r, c);
    if r < a || r > a + 1 {
      var row := if r < a then a else a + 1;
      assert L <= {Position(row, b), Position(row, b + 1)};
      AtMostTwo(L, Position(row, b), Position(row, b + 1));
    } else {
      var col := if c < b then b else b + 1;
      assert L <= {Position(a, col), Position(a + 1, col)};
      AtMostTwo(L, Position(a, col), Position(a + 1, col));
    }
  }

  /** In a lone block every block cell has the other three as live neighbours,
      and a cell outside it touches at most two block cells. */
  lemma BlockNeighbours(g: Grid, a: int, b: int, r: int, c: int)
    requires Rectangular(g) && IsBlock(g, a, b) && InGrid(g, r, c)
    ensures a <= r <= a + 1 && b <= c <= b + 1 ==> |LiveNeighbours(g, r, c)| == 3
    ensures !(a <= r <= a + 1 && b <= c <= b + 1) ==> |LiveNeighbours(g, r, c)| <= 2
  {
    if a <= r <= a + 1 && b <= c <= b + 1 {
      BlockCellNeighbours(g, a, b, r, c);
    } else {
      OutsideBlockNeighbours(g, a, b, r, c);
    }
  }

  /** A lone 2 by 2 block is a still life: one step leaves the grid as it
      is. */
  lemma BlockIsStillLife(g: Grid, a: int, b: int)
    requires Rectangular(g) && IsBlock(g, a, b)
    ensures Step(g) == g
  {
    forall r, c | InGrid(g, r, c) ensures Step(g)[r][c] == g[r][c] {
      CountIsLiveNeighbours(g, r, c);
      BlockNeighbours(g, a, b, r, c);
    }
    forall r | 0 <= r < |g| ensures Step(g)[r] == g[r] {
    }
  }
}
