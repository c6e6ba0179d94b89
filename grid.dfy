/**
 * The board's grid as a value (src/minesweeper/Board.java): a map from points to squares,
 * with the pure functions that the Board class's methods are proved against. Counting the
 * bombs around a square, placing a bomb, flagging and deflagging are defined here; the
 * flood fill of `dig` is in module Digging and the text of the board in module Rendering.
 */
module Grids {
  import opened Points
  import opened Squares

  type Grid = map<Point, Square>

  /** The eight offsets of a square's neighbours, in the order the source visits them. */
  const Adjacencies: seq<(int, int)> :=
    [(0, 1), (0, -1), (1, 0), (-1, 0), (1, 1), (-1, 1), (1, -1), (-1, -1)]

  predicate InBounds(rows: int, cols: int, p: Point) {
    0 <= p.x < rows && 0 <= p.y < cols
  }

  /** The grid holds a square at exactly the points of [0,rows) x [0,cols). */
  ghost predicate Covers(g: Grid, rows: int, cols: int) {
    forall p :: p in g <==> InBounds(rows, cols, p)
  }

  ghost function Cells(rows: int, cols: int): set<Point> {
    set i, j | 0 <= i < rows && 0 <= j < cols :: Point(i, j)
  }

  ghost function RowCells(i: int, cols: int): set<Point> {
    set j | 0 <= j < cols :: Point(i, j)
  }

  lemma {:induction false} RowCellsCardinality(i: int, cols: nat)
    ensures |RowCells(i, cols)| == cols
    decreases cols
  {
    if cols > 0 {
      RowCellsCardinality(i, cols - 1);
      assert RowCells(i, cols) == RowCells(i, cols - 1) + {Point(i, cols - 1)};
    }
  }

  lemma {:induction false} CellsCardinality(rows: nat, cols: nat)
    ensures |Cells(rows, cols)| == rows * cols
    decreases rows
  {
    if rows > 0 {
      CellsCardinality(rows - 1, cols);
      RowCellsCardinality(rows - 1, cols);
      CellsAddRow(rows - 1, cols);
      RowsTimesColumns(rows - 1, cols);
    }
  }

  /** The cells of r + 1 rows are those of r rows and, apart from them, row r. */
  lemma CellsAddRow(r: nat, cols: nat)
    ensures Cells(r + 1, cols) == Cells(r, cols) + RowCells(r, cols)
    ensures Cells(r, cols) !! RowCells(r, cols)
  {
    forall p | p in Cells(r + 1, cols) ensures p in Cells(r, cols) + RowCells(r, cols) {
      var i, j :| 0 <= i < r + 1 && 0 <= j < cols && p == Point(i, j);
      if i < r {
        assert p in Cells(r, cols);
      } else {
        assert p in RowCells(r, cols);
      }
    }
    forall p | p in Cells(r, cols) + RowCells(r, cols) ensures p in Cells(r + 1, cols) {
      if p in Cells(r, cols) {
        var i, j :| 0 <= i < r && 0 <= j < cols && p == Point(i, j);
        assert p.x < r + 1;
      } else {
        var j :| 0 <= j < cols && p == Point(r, j);
      }
    }
    forall p | p in Cells(r, cols) ensures p !in RowCells(r, cols) {
      var i, j :| 0 <= i < r && 0 <= j < cols && p == Point(i, j);
    }
  }

  lemma RowsTimesColumns(r: nat, cols: nat)
    ensures r * cols + cols == (r + 1) * cols
  {
  }

  /** Where row `row` starts when every row takes `width` places: row * width, built by
      repeated addition so that the proofs about positions stay linear. */
  function RowStart(row: int, width: int): (n: int)
    ensures 0 <= width ==> 0 <= n
  {
    if row <= 0 then 0 else RowStart(row - 1, width) + width
  }

  lemma {:induction false} RowStartIsProduct(row: nat, width: int)
    ensures RowStart(row, width) == row * width
    decreases row
  {
    if row > 0 {
      RowStartIsProduct(row - 1, width);
    }
  }

  /** A later row starts at least one whole row further on. */
  lemma {:induction false} RowStartMonotone(row: nat, rows: nat, width: int)
    requires row < rows && 0 <= width
    ensures RowStart(row, width) + width <= RowStart(rows, width)
    decreases rows
  {
    if row < rows - 1 {
      RowStartMonotone(row, rows - 1, width);
    }
  }

  /** A grid over [0,rows) x [0,cols) has rows * cols squares: the size half of the rep
      invariant follows from the shape of the key set. */
  lemma CoveringGridSize(g: Grid, rows: int, cols: int)
    requires 0 <= rows && 0 <= cols && Covers(g, rows, cols)
    ensures |g| == rows * cols
  {
    assert g.Keys == Cells(rows, cols) by {
      forall p | p in Cells(rows, cols) ensures p in g {
      }
      forall p | p in g ensures p in Cells(rows, cols) {
        assert InBounds(rows, cols, p);
        assert p == Point(p.x, p.y);
      }
    }
    CellsCardinality(rows, cols);
    assert |g| == |g.Keys|;
  }

  function Neighbour(p: Point, k: nat): Point
    requires k < |Adjacencies|
  {
    Point(p.x + Adjacencies[k].0, p.y + Adjacencies[k].1)
  }

  /** The neighbour at offset k of the square (row, col), as the source computes it. */
  lemma NeighbourOf(row: int, col: int, k: nat)
    requires k < |Adjacencies|
    ensures Neighbour(Point(row, col), k) == Point(row + Adjacencies[k].0, col + Adjacencies[k].1)
  {
  }

  /** q is one of the eight squares touching p, orthogonally or diagonally. */
  predicate Adjacent(p: Point, q: Point) {
    p != q && -1 <= q.x - p.x <= 1 && -1 <= q.y - p.y <= 1
  }

  predicate IsBombAt(g: Grid, q: Point) {
    q in g && g[q].HasBomb()
  }

  lemma NeighbourIsAdjacent(p: Point, k: nat)
    requires k < |Adjacencies|
    ensures Adjacent(p, Neighbour(p, k))
  {
    assert k == 0 || k == 1 || k == 2 || k == 3 || k == 4 || k == 5 || k == 6 || k == 7;
  }

  lemma NeighboursDistinct(p: Point, m: nat, n: nat)
    requires m < n < |Adjacencies|
    ensures Neighbour(p, m) != Neighbour(p, n)
  {
    assert m == 0 || m == 1 || m == 2 || m == 3 || m == 4 || m == 5 || m == 6;
    assert n == 1 || n == 2 || n == 3 || n == 4 || n == 5 || n == 6 || n == 7;
  }

  /** The offset that leads from p to an adjacent q. */
  ghost function OffsetIndex(p: Point, q: Point): (k: nat)
    requires Adjacent(p, q)
    ensures k < |Adjacencies| && Neighbour(p, k) == q
  {
    var dx, dy := q.x - p.x, q.y - p.y;
    if dx == 0 && dy == 1 then 0
    else if dx == 0 && dy == -1 then 1
    else if dx == 1 && dy == 0 then 2
    else if dx == -1 && dy == 0 then 3
    else if dx == 1 && dy == 1 then 4
    else if dx == -1 && dy == 1 then 5
    else if dx == 1 && dy == -1 then 6
    else 7
  }

  /** The bombs among the first k neighbours of p, as the source's loop counts them. */
  function BombsAmong(g: Grid, p: Point, k: nat): (n: nat)
    requires k <= |Adjacencies|
    ensures n <= k
  {
    if k == 0 then 0
    else BombsAmong(g, p, k - 1) + (if IsBombAt(g, Neighbour(p, k - 1)) then 1 else 0)
  }

  /** adjacentBombs(row, col): the bombs on the squares around p. */
  function BombsAround(g: Grid, p: Point): nat {
    BombsAmong(g, p, |Adjacencies|)
  }

  /** The squares of the grid that touch p and hold a bomb. */
  ghost function AdjacentBombSet(g: Grid, p: Point): set<Point> {
    set q | q in g && Adjacent(p, q) && g[q].HasBomb()
  }

  ghost function BombsAmongSet(g: Grid, p: Point, k: nat): set<Point>
    requires k <= |Adjacencies|
  {
    set m | 0 <= m < k && IsBombAt(g, Neighbour(p, m)) :: Neighbour(p, m)
  }

  lemma {:induction false} BombsAmongCardinality(g: Grid, p: Point, k: nat)
    requires k <= |Adjacencies|
    ensures BombsAmong(g, p, k) == |BombsAmongSet(g, p, k)|
    decreases k
  {
    if k > 0 {
      BombsAmongCardinality(g, p, k - 1);
      BombsAmongSetStep(g, p, k - 1);
    }
  }

  /** Offset k adds its neighbour to the bombs found so far exactly when it holds a bomb,
      and that neighbour was not among them. */
  lemma BombsAmongSetStep(g: Grid, p: Point, k: nat)
    requires k < |Adjacencies|
    ensures IsBombAt(g, Neighbour(p, k)) ==>
      |BombsAmongSet(g, p, k + 1)| == |BombsAmongSet(g, p, k)| + 1
    ensures !IsBombAt(g, Neighbour(p, k)) ==> BombsAmongSet(g, p, k + 1) == BombsAmongSet(g, p, k)
  {
    var q := Neighbour(p, k);
    var before, after := BombsAmongSet(g, p, k), BombsAmongSet(g, p, k + 1);
    var added: set<Point> := if IsBombAt(g, q) then {q} else {};
    forall x | x in before ensures x != q {
      var m :| 0 <= m < k && IsBombAt(g, Neighbour(p, m)) && x == Neighbour(p, m);
      NeighboursDistinct(p, m, k);
    }
    forall x | x in after ensures x in before + added {
      var m :| 0 <= m < k + 1 && IsBombAt(g, Neighbour(p, m)) && x == Neighbour(p, m);
      if m < k {
        assert x in before;
      }
    }
    forall x | x in before + added ensures x in after {
      if x in before {
        var m :| 0 <= m < k && IsBombAt(g, Neighbour(p, m)) && x == Neighbour(p, m);
        assert 0 <= m < k + 1;
      } else {
        assert IsBombAt(g, Neighbour(p, k)) && x == Neighbour(p, k);
      }
    }
    assert after == before + added;
    if IsBombAt(g, q) {
      assert q !in before;
      assert |before + {q}| == |before| + 1;
    }
  }

  /** The source's count over the offset table is the number of bombs on the board that
      touch p: each in-bounds neighbour holding a bomb counts once and p itself never. */
  lemma BombsAroundCountsAdjacentBombs(g: Grid, p: Point)
    ensures BombsAround(g, p) == |AdjacentBombSet(g, p)|
  {
    BombsAmongCardinality(g, p, |Adjacencies|);
    assert BombsAmongSet(g, p, |Adjacencies|) == AdjacentBombSet(g, p) by {
      forall q | q in AdjacentBombSet(g, p) ensures q in BombsAmongSet(g, p, |Adjacencies|) {
        var k := OffsetIndex(p, q);
        assert IsBombAt(g, Neighbour(p, k));
      }
      forall q | q in BombsAmongSet(g, p, |Adjacencies|) ensures q in AdjacentBombSet(g, p) {
        var k :| 0 <= k < |Adjacencies| && IsBombAt(g, Neighbour(p, k)) && q == Neighbour(p, k);
        NeighbourIsAdjacent(p, k);
      }
    }
  }

  lemma {:induction false} BombsAmongLocal(g: Grid, g': Grid, p: Point, k: nat)
    requires k <= |Adjacencies|
    requires forall q :: Adjacent(p, q) ==> (IsBombAt(g, q) <==> IsBombAt(g', q))
    ensures BombsAmong(g, p, k) == BombsAmong(g', p, k)
    decreases k
  {
    if k > 0 {
      BombsAmongLocal(g, g', p, k - 1);
      NeighbourIsAdjacent(p, k - 1);
    }
  }

  /** The count at p depends only on which of p's neighbours hold bombs. */
  lemma BombsAroundLocal(g: Grid, g': Grid, p: Point)
    requires forall q :: Adjacent(p, q) ==> (IsBombAt(g, q) <==> IsBombAt(g', q))
    ensures BombsAround(g, p) == BombsAround(g', p)
  {
    BombsAmongLocal(g, g', p, |Adjacencies|);
  }

  /** The square itself is not counted: replacing it leaves its count unchanged. */
  lemma BombsAroundIgnoresSelf(g: Grid, p: Point, s: Square)
    ensures BombsAround(g[p := s], p) == BombsAround(g, p)
  {
    BombsAroundLocal(g[p := s], g, p);
  }

  /** Two grids with the same bombs give every square the same count. */
  lemma SameBombsSameCounts(g: Grid, g': Grid)
    requires forall q :: IsBombAt(g, q) <==> IsBombAt(g', q)
    ensures forall p :: BombsAround(g, p) == BombsAround(g', p)
  {
    forall p {
      BombsAroundLocal(g, g', p);
    }
  }

  /** On a 3x3 board with a bomb on every square the centre counts 8 and a corner 3. */
  lemma AllBombsThreeByThree(g: Grid)
    requires Covers(g, 3, 3)
    requires forall q :: q in g ==> g[q].HasBomb()
    ensures BombsAround(g, Point(1, 1)) == 8
    ensures BombsAround(g, Point(0, 0)) == 3
  {
    var c, o := Point(1, 1), Point(0, 0);
    assert BombsAmong(g, c, 1) == 1;
    assert BombsAmong(g, c, 2) == 2;
    assert BombsAmong(g, c, 3) == 3;
    assert BombsAmong(g, c, 4) == 4;
    assert BombsAmong(g, c, 5) == 5;
    assert BombsAmong(g, c, 6) == 6;
    assert BombsAmong(g, c, 7) == 7;
    assert BombsAmong(g, o, 1) == 1;
    assert BombsAmong(g, o, 2) == 1;
    assert BombsAmong(g, o, 3) == 2;
    assert BombsAmong(g, o, 4) == 2;
    assert BombsAmong(g, o, 5) == 3;
    assert BombsAmong(g, o, 6) == 3;
    assert BombsAmong(g, o, 7) == 3;
  }

  /** Every dug square on the board is bomb-free and shows at most 8: the state every
      Board operation keeps. */
  ghost predicate Defused(g: Grid) {
    forall q :: q in g && g[q].Dug? ==> !g[q].bomb && g[q].adjacentBombs <= 8
  }

  /** placeBomb: an in-bounds square becomes an untouched bomb, whatever it was. */
  function PlaceBombAt(g: Grid, p: Point): (g': Grid)
    ensures g'.Keys == g.Keys
    ensures Defused(g) ==> Defused(g')
  {
    if p in g then g[p := UntouchedSquare(true)] else g
  }

  /** flag: an in-bounds square without a flag (untouched or dug) becomes flagged, keeping
      its bomb. */
  function FlagAt(g: Grid, p: Point): (g': Grid)
    ensures g'.Keys == g.Keys
    ensures forall q :: IsBombAt(g', q) <==> IsBombAt(g, q)
    ensures Defused(g) ==> Defused(g')
  {
    if p in g && !g[p].HasFlag() then g[p := FlaggedSquare(g[p].HasBomb())] else g
  }

  /** deflag: a flagged square becomes untouched, keeping its bomb. */
  function DeflagAt(g: Grid, p: Point): (g': Grid)
    ensures g'.Keys == g.Keys
    ensures forall q :: IsBombAt(g', q) <==> IsBombAt(g, q)
    ensures Defused(g) ==> Defused(g')
  {
    if p in g && g[p].HasFlag() then g[p := UntouchedSquare(g[p].HasBomb())] else g
  }

  /** After placeBomb the square holds a bomb when it is on the board; no other square's
      bomb changes, and off the board nothing changes. */
  lemma PlaceBombThenCheck(g: Grid, p: Point, q: Point)
    ensures IsBombAt(PlaceBombAt(g, p), p) <==> p in g
    ensures q != p ==> (IsBombAt(PlaceBombAt(g, p), q) <==> IsBombAt(g, q))
    ensures q != p && q in g ==> PlaceBombAt(g, p)[q] == g[q]
    ensures p !in g ==> PlaceBombAt(g, p) == g
  {
  }

  /** Deflagging after flagging an untouched square restores the grid exactly. */
  lemma DeflagUndoesFlag(g: Grid, p: Point)
    requires p in g ==> g[p].Untouched?
    ensures DeflagAt(FlagAt(g, p), p) == g
  {
    if p in g {
      assert DeflagAt(FlagAt(g, p), p) == g[p := Untouched(g[p].bomb)];
    }
  }

  /** Flagging twice is flagging once; deflagging twice is deflagging once. */
  lemma FlagDeflagIdempotent(g: Grid, p: Point)
    ensures FlagAt(FlagAt(g, p), p) == FlagAt(g, p)
    ensures DeflagAt(DeflagAt(g, p), p) == DeflagAt(g, p)
  {
  }

  /** Flagging a dug square is allowed and leaves a flagged square without a bomb on a
      defused board; deflagging an unflagged square does nothing. */
  lemma FlagDugSquare(g: Grid, p: Point)
    requires Defused(g) && p in g && g[p].Dug?
    ensures FlagAt(g, p)[p] == Flagged(false)
    ensures DeflagAt(g, p) == g
  {
  }
}
