/** Counting the live neighbours of a cell on a bounded grid (no wrap-around).
    `CountNeighbours` follows the probe loop of `updateCells`; `LiveNeighbours`
    is an independent description of the Moore neighbourhood, and
    `CountIsLiveNeighbours` ties the two together. */
module Neighbours {
  import opened Cells

  /** An offset (y, x) added to a cell's (row, col). */
  type Offset = (int, int)

  predicate IsOffset(d: Offset) {
    -1 <= d.0 <= 1 && -1 <= d.1 <= 1
  }

  /** The k-th offset the nested loops visit, for k in 0..8: `y` outer and
      `x` inner, each running -1, 0, 1. */
  function ProbeOffset(k: int): (d: Offset)
    requires 0 <= k < 9
    ensures IsOffset(d)
    ensures k == 3 * (d.0 + 1) + (d.1 + 1)
  {
    var y := if k < 3 then -1 else if k < 6 then 0 else 1;
    (y, k - 3 * (y + 1) - 1)
  }

  /** The contribution of one offset to the count: nothing for the cell itself,
      nothing for a position off the grid, one for a live neighbour. The bounds
      test is the one of `updateCells` in game.js, which only has to catch -1
      and one past the end because offsets are at most one away from an
      in-grid cell. */
  function Probe(g: Grid, r: int, c: int, d: Offset): (p: nat)
    requires Rectangular(g) && InGrid(g, r, c) && IsOffset(d)
    ensures p <= 1
  {
    if d.1 == 0 && d.0 == 0 then 0
    else
      var nr := r + d.0;
      var nc := c + d.1;
      if nc == -1 || nc > |g[r]| - 1 || nr == -1 || nr > |g| - 1 then 0
      else Bit(g[nr][nc].alive)
  }

  /** Sum of the first n probes. The probe of the cell itself (k = 4) never
      counts, so past it at most n - 1 probes do. */
  function ProbeCount(g: Grid, r: int, c: int, n: nat): (m: nat)
    requires Rectangular(g) && InGrid(g, r, c)
    requires n <= 9
    ensures m <= n
    ensures n > 4 ==> m < n
  {
    if n == 0 then 0
    else ProbeCount(g, r, c, n - 1) + Probe(g, r, c, ProbeOffset(n - 1))
  }

  /** The live-neighbour count computed for cell (r, c) during a step. */
  function CountNeighbours(g: Grid, r: int, c: int): (n: nat)
    requires Rectangular(g) && InGrid(g, r, c)
  {
    ProbeCount(g, r, c, 9)
  }

  /** The Moore neighbourhood: the eight offsets to the surrounding cells. */
  const Moore: set<Offset> := {(-1, -1), (-1, 0), (-1, 1), (0, -1), (0, 1), (1, -1), (1, 0), (1, 1)}

  /** The positions of the live cells among the eight around (r, c) that lie
      inside the grid. */
  ghost function LiveNeighbours(g: Grid, r: int, c: int): set<Position> {
    set d | d in Moore && Alive(g, r + d.0, c + d.1) :: Position(r + d.0, c + d.1)
  }

  /** The positions hit by the first n probes that count. */
  ghost function Hits(g: Grid, r: int, c: int, n: nat): set<Position>
    requires Rectangular(g) && InGrid(g, r, c)
    requires n <= 9
  {
    set k | 0 <= k < n && Probe(g, r, c, ProbeOffset(k)) == 1
      :: Position(r + ProbeOffset(k).0, c + ProbeOffset(k).1)
  }

  /** The probe of the loop's iteration (y, x) is the next one in the sum. */
  lemma ProbeCountNext(g: Grid, r: int, c: int, y: int, x: int)
    requires Rectangular(g) && InGrid(g, r, c)
    requires -1 <= y <= 1 && -1 <= x <= 1
    ensures ProbeCount(g, r, c, 3 * (y + 1) + (x + 1) + 1)
            == ProbeCount(g, r, c, 3 * (y + 1) + (x + 1)) + Probe(g, r, c, (y, x))
  {
    ProbeOffsetAt((y, x));
  }

  /** The position probe n - 1 reaches when it counts, or nothing. */
  function LastHit(g: Grid, r: int, c: int, n: nat): set<Position>
    requires Rectangular(g) && InGrid(g, r, c)
    requires 0 < n <= 9
  {
    var d := ProbeOffset(n - 1);
    if Probe(g, r, c, d) == 1 then {Position(r + d.0, c + d.1)} else {}
  }

  /** Every hit of n probes is a hit of the first n - 1 or of the last one. */
  lemma HitsStepSub(g: Grid, r: int, c: int, n: nat)
    requires Rectangular(g) && InGrid(g, r, c)
    requires 0 < n <= 9
    ensures Hits(g, r, c, n) <= Hits(g, r, c, n - 1) + LastHit(g, r, c, n)
  {
    forall p | p in Hits(g, r, c, n) ensures p in Hits(g, r, c, n - 1) + LastHit(g, r, c, n) {
      var k :| 0 <= k < n && Probe(g, r, c, ProbeOffset(k)) == 1
               && p == Position(r + ProbeOffset(k).0, c + ProbeOffset(k).1);
      if k < n - 1 {
        assert p in Hits(g, r, c, n - 1);
      } else {
        assert p in LastHit(g, r, c, n);
      }
    }
  }

  /** The hits of the first n - 1 probes and of the last one are hits of n. */
  lemma HitsStepSup(g: Grid, r: int, c: int, n: nat)
    requires Rectangular(g) && InGrid(g, r, c)
    requires 0 < n <= 9
    ensures Hits(g, r, c, n - 1) + LastHit(g, r, c, n) <= Hits(g, r, c, n)
  {
    forall p | p in Hits(g, r, c, n - 1) + LastHit(g, r, c, n) ensures p in Hits(g, r, c, n) {
      if p in Hits(g, r, c, n - 1) {
        var k :| 0 <= k < n - 1 && Probe(g, r, c, ProbeOffset(k)) == 1
                 && p == Position(r + ProbeOffset(k).0, c + ProbeOffset(k).1);
        assert p in Hits(g, r, c, n);
      } else {
        assert p in Hits(g, r, c, n);
      }
    }
  }

  /** The hits of n probes are those of the first n - 1 plus the position of
      the last probe if it counts. */
  lemma HitsStep(g: Grid, r: int, c: int, n: nat)
    requires Rectangular(g) && InGrid(g, r, c)
    requires 0 < n <= 9
    ensures var d := ProbeOffset(n - 1);
            Hits(g, r, c, n)
            == Hits(g, r, c, n - 1) + (if Probe(g, r, c, d) == 1 then {Position(r + d.0, c + d.1)} else {})
  {
    HitsStepSub(g, r, c, n);
    HitsStepSup(g, r, c, n);
  }

  /** The first n probes do not reach the position of probe n. */
  lemma HitsMissLaterProbe(g: Grid, r: int, c: int, n: nat)
    requires Rectangular(g) && InGrid(g, r, c)
    requires n < 9
    ensures Position(r + ProbeOffset(n).0, c + ProbeOffset(n).1) !in Hits(g, r, c, n)
  {
    var d := ProbeOffset(n);
    forall k | 0 <= k < n
      ensures Position(r + ProbeOffset(k).0, c + ProbeOffset(k).1) != Position(r + d.0, c + d.1)
    {
      var e := ProbeOffset(k);
      assert e != d;
    }
  }

  /** Distinct probes reach distinct positions, so the probe sum is the number
      of positions the probes hit. */
  lemma {:induction false} ProbeCountIsHits(g: Grid, r: int, c: int, n: nat)
    requires Rectangular(g) && InGrid(g, r, c)
    requires n <= 9
    ensures ProbeCount(g, r, c, n) == |Hits(g, r, c, n)|
  {
    if n == 0 {
      assert Hits(g, r, c, n) == {};
    } else {
      var d := ProbeOffset(n - 1);
      var p := Position(r + d.0, c + d.1);
      ProbeCountIsHits(g, r, c, n - 1);
      HitsStep(g, r, c, n);
      if Probe(g, r, c, d) == 1 {
        HitsMissLaterProbe(g, r, c, n - 1);
      }
    }
  }

  /** Each offset is visited once, at index 3 * (y + 1) + (x + 1). */
  lemma ProbeOffsetAt(d: Offset)
    requires IsOffset(d)
    ensures ProbeOffset(3 * (d.0 + 1) + (d.1 + 1)) == d
  {
  }

  /** The Moore neighbourhood is every offset but the cell itself. */
  lemma MooreIsOffsets(d: Offset)
    ensures d in Moore <==> IsOffset(d) && d != (0, 0)
  {
  }

  /** A live cell at a Moore offset is a live neighbour. */
  lemma LiveNeighbourAt(g: Grid, r: int, c: int, d: Offset)
    requires d in Moore && Alive(g, r + d.0, c + d.1)
    ensures Position(r + d.0, c + d.1) in LiveNeighbours(g, r, c)
  {
  }

  /** The live neighbour at offset d is hit by the probe with index
      3 * (d.0 + 1) + (d.1 + 1). */
  lemma LiveNeighbourIsHit(g: Grid, r: int, c: int, d: Offset)
    requires Rectangular(g) && InGrid(g, r, c)
    requires d in Moore && Alive(g, r + d.0, c + d.1)
    ensures Position(r + d.0, c + d.1) in Hits(g, r, c, 9)
  {
    MooreIsOffsets(d);
    var k := 3 * (d.0 + 1) + (d.1 + 1);
    ProbeOffsetAt(d);
    assert Probe(g, r, c, ProbeOffset(k)) == 1;
  }

  /** The position a counting probe hits is a live neighbour. */
  lemma HitIsLiveNeighbour(g: Grid, r: int, c: int, k: int)
    requires Rectangular(g) && InGrid(g, r, c)
    requires 0 <= k < 9 && Probe(g, r, c, ProbeOffset(k)) == 1
    ensures Position(r + ProbeOffset(k).0, c + ProbeOffset(k).1) in LiveNeighbours(g, r, c)
  {
    var d := ProbeOffset(k);
    MooreIsOffsets(d);
    LiveNeighbourAt(g, r, c, d);
  }

  /** The bounds test of `updateCells` lets a probe count exactly when its offset is
      in the Moore neighbourhood and lands on a live cell inside the grid. */
  lemma ProbeIsMoore(g: Grid, r: int, c: int, d: Offset)
    requires Rectangular(g) && InGrid(g, r, c) && IsOffset(d)
    ensures Probe(g, r, c, d) == Bit(d in Moore && Alive(g, r + d.0, c + d.1))
  {
    MooreIsOffsets(d);
  }

  /** Every live neighbour is hit by some probe. */
  lemma LiveNeighboursAreHits(g: Grid, r: int, c: int)
    requires Rectangular(g) && InGrid(g, r, c)
    ensures LiveNeighbours(g, r, c) <= Hits(g, r, c, 9)
  {
    forall p | p in LiveNeighbours(g, r, c) ensures p in Hits(g, r, c, 9) {
      var d :| d in Moore && Alive(g, r + d.0, c + d.1) && p == Position(r + d.0, c + d.1);
      LiveNeighbourIsHit(g, r, c, d);
    }
  }

  /** Every position a probe hits is a live neighbour. */
  lemma HitsAreLiveNeighbours(g: Grid, r: int, c: int)
    requires Rectangular(g) && InGrid(g, r, c)
    ensures Hits(g, r, c, 9) <= LiveNeighbours(g, r, c)
  {
    forall p | p in Hits(g, r, c, 9) ensures p in LiveNeighbours(g, r, c) {
      var k :| 0 <= k < 9 && Probe(g, r, c, ProbeOffset(k)) == 1
               && p == Position(r + ProbeOffset(k).0, c + ProbeOffset(k).1);
      HitIsLiveNeighbour(g, r, c, k);
    }
  }

  /** The count computed by the probe loop is the number of live cells among
      the in-grid positions of the Moore neighbourhood. */
  lemma CountIsLiveNeighbours(g: Grid, r: int, c: int)
    requires Rectangular(g) && InGrid(g, r, c)
    ensures CountNeighbours(g, r, c) == |LiveNeighbours(g, r, c)|
  {
    ProbeCountIsHits(g, r, c, 9);
    LiveNeighboursAreHits(g, r, c);
    HitsAreLiveNeighbours(g, r, c);
    assert Hits(g, r, c, 9) == LiveNeighbours(g, r, c);
  }

  /** The neighbour count spelled out as the nine probes of the loop. */
  lemma CountUnrolled(g: Grid, r: int, c: int)
    requires Rectangular(g) && InGrid(g, r, c)
    ensures CountNeighbours(g, r, c)
            == Probe(g, r, c, (-1, -1)) + Probe(g, r, c, (-1, 0)) + Probe(g, r, c, (-1, 1))
             + Probe(g, r, c, (0, -1)) + Probe(g, r, c, (0, 1))
             + Probe(g, r, c, (1, -1)) + Probe(g, r, c, (1, 0)) + Probe(g, r, c, (1, 1))
  {
    assert ProbeCount(g, r, c, 9) == ProbeCount(g, r, c, 8) + Probe(g, r, c, (1, 1));
    assert ProbeCount(g, r, c, 8) == ProbeCount(g, r, c, 7) + Probe(g, r, c, (1, 0));
    assert ProbeCount(g, r, c, 7) == ProbeCount(g, r, c, 6) + Probe(g, r, c, (1, -1));
    assert ProbeCount(g, r, c, 6) == ProbeCount(g, r, c, 5) + Probe(g, r, c, (0, 1));
    assert ProbeCount(g, r, c, 5) == ProbeCount(g, r, c, 4) + Probe(g, r, c, (0, 0));
    assert ProbeCount(g, r, c, 4) == ProbeCount(g, r, c, 3) + Probe(g, r, c, (0, -1));
    assert ProbeCount(g, r, c, 3) == ProbeCount(g, r, c, 2) + Probe(g, r, c, (-1, 1));
    assert ProbeCount(g, r, c, 2) == ProbeCount(g, r, c, 1) + Probe(g, r, c, (-1, 0));
    assert ProbeCount(g, r, c, 1) == Probe(g, r, c, (-1, -1));
  }

  /** A cell has between zero and eight live neighbours; a corner cell, with
      only three neighbours inside the grid, at most three. */
  lemma NeighbourBounds(g: Grid, r: int, c: int)
    requires Rectangular(g) && InGrid(g, r, c)
    ensures 0 <= CountNeighbours(g, r, c) <= 8
    ensures (r == 0 || r == |g| - 1) && (c == 0 || c == |g[r]| - 1) ==> CountNeighbours(g, r, c) <= 3
  {
    CountUnrolled(g, r, c);
  }
}
