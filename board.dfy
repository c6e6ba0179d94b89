/**
 * The Board class (src/minesweeper/Board.java): a grid of squares over [0,rows) x [0,cols)
 * that the operations change in place. Each method is proved against the function on grids
 * that specifies it (Grids, Digging, Rendering); what those functions promise is proved
 * there.
 */
module Boards {
  import opened Points
  import opened Squares
  import opened Grids
  import opened Digging
  import opened Rendering

  /** Where square p comes in the row-major order a board file lists squares in: after
      p.x whole rows of `cols` squares. */
  function CellOrdinal(cols: int, p: Point): int {
    RowStart(p.x, cols) + p.y
  }

  function Min(a: int, b: int): int {
    if a < b then a else b
  }

  /** The ordinals of the squares of a rows x cols board are 0 .. rows * cols - 1, so a
      file holding 2 + rows * cols integers covers every square and a shorter one misses the
      last square. */
  lemma OrdinalBounds(rows: int, cols: int)
    requires 0 <= rows && 0 <= cols
    ensures forall p :: InBounds(rows, cols, p) ==> 0 <= CellOrdinal(cols, p) < rows * cols
    ensures 1 <= rows && 1 <= cols ==> CellOrdinal(cols, Point(rows - 1, cols - 1)) == rows * cols - 1
  {
    RowStartIsProduct(rows, cols);
    forall p | InBounds(rows, cols, p) ensures 0 <= CellOrdinal(cols, p) < rows * cols {
      RowStartMonotone(p.x, rows, cols);
    }
    if 1 <= rows && 1 <= cols {
      assert RowStart(rows, cols) == RowStart(rows - 1, cols) + cols;
    }
  }

  /** A grid loaded from a file holds every square of the board exactly when the file holds
      an integer for each: 2 + rows * cols of them. */
  lemma FileCoverage(g: Grid, tokens: seq<int>, rows: int, cols: int)
    requires 2 <= |tokens|
    requires forall p :: p in g <==> InBounds(rows, cols, p) && 2 + CellOrdinal(cols, p) < |tokens|
    ensures 0 <= rows && 0 <= cols && Covers(g, rows, cols) <==>
      0 <= rows && 0 <= cols && 2 + rows * cols <= |tokens|
  {
    if 0 <= rows && 0 <= cols {
      OrdinalBounds(rows, cols);
      if 2 + rows * cols <= |tokens| {
        forall p ensures p in g <==> InBounds(rows, cols, p) {
        }
      }
    }
  }

  /** What the file loader has stored before it reaches square (row, col): every on-board
      square earlier in row-major order for which the file still held an integer, and no other,
      each untouched and holding a bomb exactly when its integer is 1. */
  ghost predicate LoadedBefore(g: Grid, tokens: seq<int>, rows: int, cols: int, row: int, col: int) {
    && (forall p :: p in g <==>
         (p.x < row || (p.x == row && p.y < col)) && InBounds(rows, cols, p) && 2 + CellOrdinal(cols, p) < |tokens|)
    && (forall p :: p in g ==>
         0 <= CellOrdinal(cols, p) && 2 + CellOrdinal(cols, p) < |tokens| &&
         g[p] == Untouched(tokens[2 + CellOrdinal(cols, p)] == 1))
  }

  /** Storing square (row, col) from its integer moves the loader one square on. */
  lemma LoadSquare(g: Grid, g': Grid, tokens: seq<int>, rows: int, cols: int, row: int, col: int)
    requires LoadedBefore(g, tokens, rows, cols, row, col)
    requires 0 <= row < rows && 0 <= col < cols && 2 + CellOrdinal(cols, Point(row, col)) < |tokens|
    requires g' == g[Point(row, col) := Untouched(tokens[2 + CellOrdinal(cols, Point(row, col))] == 1)]
    ensures LoadedBefore(g', tokens, rows, cols, row, col + 1)
  {
  }

  /** Once the integers have run out, passing a square over also moves the loader on. */
  lemma LoadSkip(g: Grid, tokens: seq<int>, rows: int, cols: int, row: int, col: int)
    requires LoadedBefore(g, tokens, rows, cols, row, col)
    requires |tokens| <= 2 + CellOrdinal(cols, Point(row, col))
    ensures LoadedBefore(g, tokens, rows, cols, row, col + 1)
  {
    forall p: Point | p.x == row && p.y == col && InBounds(rows, cols, p)
      ensures |tokens| <= 2 + CellOrdinal(cols, p)
    {
    }
  }

  /** Past the last column the loader moves to the start of the next row. */
  lemma LoadRowDone(g: Grid, tokens: seq<int>, rows: int, cols: int, row: int, col: int)
    requires LoadedBefore(g, tokens, rows, cols, row, col) && cols <= col
    ensures LoadedBefore(g, tokens, rows, cols, row + 1, 0)
  {
  }

  class Board {
    var grid: Grid
    const rows: int
    const cols: int

    /** The rep invariant: both dimensions are non-negative and the grid holds one square at
        each point of [0,rows) x [0,cols), and nowhere else; and, as every operation keeps it,
        every dug square is bomb-free and shows at most 8. */
    ghost predicate Valid()
      reads this
    {
      0 <= rows && 0 <= cols && Covers(grid, rows, cols) && Defused(grid)
    }

    /** The testing constructor: every square untouched and bomb-free; hasBombs is not
        used. The rep check passes exactly when neither dimension is negative. */
    constructor (rows: int, cols: int, hasBombs: bool)
      ensures this.rows == rows && this.cols == cols
      ensures Valid() <==> 0 <= rows && 0 <= cols
      ensures forall p :: p in grid <==> InBounds(rows, cols, p)
      ensures forall p :: p in grid ==> grid[p] == Untouched(false)
      ensures Defused(grid)
    {
      this.rows := rows;
      this.cols := cols;
      var g: Grid := map[];
      var i := 0;
      while i < rows
        invariant i == 0 || i <= rows
        invariant forall p :: p in g <==> 0 <= p.x < i && 0 <= p.y < cols
        invariant forall p :: p in g ==> g[p] == Untouched(false)
      {
        var j := 0;
        while j < cols
          invariant j == 0 || j <= cols
          invariant forall p :: p in g <==> (0 <= p.x < i && 0 <= p.y < cols) || (p.x == i && 0 <= p.y < j)
          invariant forall p :: p in g ==> g[p] == Untouched(false)
        {
          g := g[Point(i, j) := UntouchedSquare()];
          j := j + 1;
        }
        i := i + 1;
      }
      grid := g;
      assert Defused(g);
    }

    /** The playing constructor: every square starts untouched, and the square (i, j) gets a
        bomb when the draw from [0, 4) made for it is 0. The draws are a parameter. */
    constructor Generate(rows: int, cols: int, draw: (int, int) -> int)
      ensures this.rows == rows && this.cols == cols
      ensures Valid() <==> 0 <= rows && 0 <= cols
      ensures forall p :: p in grid <==> InBounds(rows, cols, p)
      ensures forall p :: p in grid ==> grid[p] == Untouched(draw(p.x, p.y) == 0)
      ensures Defused(grid)
    {
      this.rows := rows;
      this.cols := cols;
      grid := map[];
      new;
      var i := 0;
      while i < rows
        invariant i == 0 || i <= rows
        invariant forall p :: p in grid <==> 0 <= p.x < i && 0 <= p.y < cols
        invariant forall p :: p in grid ==> grid[p] == Untouched(draw(p.x, p.y) == 0)
      {
        GenerateRow(i, draw);
        i := i + 1;
      }
      assert Defused(grid);
    }

    /** The inner loop of the playing constructor: every square of row i gets an untouched
        square, with a bomb when its draw is 0. */
    method GenerateRow(i: int, draw: (int, int) -> int)
      requires 0 <= i < rows
      requires forall p :: p in grid <==> 0 <= p.x < i && 0 <= p.y < cols
      requires forall p :: p in grid ==> grid[p] == Untouched(draw(p.x, p.y) == 0)
      modifies this
      ensures forall p :: p in grid <==> 0 <= p.x < i + 1 && 0 <= p.y < cols
      ensures forall p :: p in grid ==> grid[p] == Untouched(draw(p.x, p.y) == 0)
    {
      var j := 0;
      while j < cols
        invariant j == 0 || j <= cols
        invariant forall p :: p in grid <==> (0 <= p.x < i && 0 <= p.y < cols) || (p.x == i && 0 <= p.y < j)
        invariant forall p :: p in grid ==> grid[p] == Untouched(draw(p.x, p.y) == 0)
      {
        grid := grid[Point(i, j) := UntouchedSquare()];
        var rngVal := draw(i, j);
        if rngVal == 0 {
          ghost var before := grid;
          PlaceBomb(i, j);
          assert grid == before[Point(i, j) := UntouchedSquare(true)];
        }
        j := j + 1;
      }
    }

    /** The file constructor, over the integers the file holds: the number of columns, the
        number of rows, then one integer per square in row-major order, 1 for a bomb. While
        integers remain each square takes the next one; once they run out the remaining
        squares are left out, and the rep check passes exactly when none was left out. */
    constructor FromFile(tokens: seq<int>)
      requires 2 <= |tokens|
      ensures cols == tokens[0] && rows == tokens[1]
      ensures forall p :: p in grid <==> InBounds(rows, cols, p) && 2 + CellOrdinal(cols, p) < |tokens|
      ensures forall p :: p in grid ==>
        0 <= CellOrdinal(cols, p) && 2 + CellOrdinal(cols, p) < |tokens| && grid[p] == Untouched(tokens[2 + CellOrdinal(cols, p)] == 1)
      ensures Valid() <==> 0 <= rows && 0 <= cols && 2 + rows * cols <= |tokens|
      ensures Defused(grid)
    {
      cols := tokens[0];
      rows := tokens[1];
      grid := map[];
      new;
      var next := 2;
      var row := 0;
      while row < rows
        invariant row == 0 || row <= rows
        invariant cols < 0 ==> next == 2
        invariant 0 <= cols ==> next == 2 + Min(RowStart(row, cols), |tokens| - 2)
        invariant LoadedBefore(grid, tokens, rows, cols, row, 0)
      {
        next := LoadRow(tokens, row, next);
        row := row + 1;
      }
      assert Defused(grid);
      FileCoverage(grid, tokens, rows, cols);
    }

    /** The inner loop of the file constructor: row `row` takes the integers from `next` on,
        one per square, until the file runs out; `next` moves past the integers it used. */
    method LoadRow(tokens: seq<int>, row: int, next: int) returns (next': int)
      requires 0 <= row < rows
      requires cols < 0 ==> next == 2
      requires 0 <= cols ==> next == 2 + Min(RowStart(row, cols), |tokens| - 2)
      requires LoadedBefore(grid, tokens, rows, cols, row, 0)
      modifies this
      ensures cols < 0 ==> next' == 2
      ensures 0 <= cols ==> next' == 2 + Min(RowStart(row + 1, cols), |tokens| - 2)
      ensures LoadedBefore(grid, tokens, rows, cols, row + 1, 0)
    {
      next' := next;
      var col := 0;
      while col < cols
        invariant col == 0 || col <= cols
        invariant cols < 0 ==> next' == 2
        invariant 0 <= cols ==> next' == 2 + Min(RowStart(row, cols) + col, |tokens| - 2)
        invariant LoadedBefore(grid, tokens, rows, cols, row, col)
      {
        next' := LoadSquareFrom(tokens, row, col, next');
        col := col + 1;
      }
      LoadRowDone(grid, tokens, rows, cols, row, col);
    }

    /** One pass of the file constructor's inner loop: while integers remain, square
        (row, col) is put in untouched and gets a bomb when its integer, the one at `next`,
        is 1; `next` moves past it. */
    method LoadSquareFrom(tokens: seq<int>, row: int, col: int, next: int) returns (next': int)
      requires 0 <= row < rows && 0 <= col < cols
      requires next == 2 + Min(RowStart(row, cols) + col, |tokens| - 2)
      requires LoadedBefore(grid, tokens, rows, cols, row, col)
      modifies this
      ensures next' == 2 + Min(RowStart(row, cols) + col + 1, |tokens| - 2)
      ensures LoadedBefore(grid, tokens, rows, cols, row, col + 1)
    {
      ghost var before := grid;
      next' := next;
      if next' < |tokens| {
        var position := Point(row, col);
        assert next' == 2 + CellOrdinal(cols, position);
        grid := grid[position := UntouchedSquare()];
        if tokens[next'] == 1 {
          ghost var unbombed := grid;
          PlaceBomb(row, col);
          assert grid == unbombed[position := UntouchedSquare(true)];
        }
        LoadSquare(before, grid, tokens, rows, cols, row, col);
        next' := next' + 1;
      } else {
        LoadSkip(before, tokens, rows, cols, row, col);
      }
    }

    /** placeBomb: an on-board square becomes an untouched bomb; off the board nothing
        happens. */
    method PlaceBomb(row: int, column: int)
      modifies this
      ensures grid == PlaceBombAt(old(grid), Point(row, column))
    {
      var position := Point(row, column);
      if position in grid {
        grid := grid[position := UntouchedSquare(true)];
      }
    }

    /** boardSize: on a valid board, rows * cols. */
    function BoardSize(): (n: int)
      reads this
      ensures Valid() ==> n == rows * cols
    {
      assert Valid() ==> |grid| == rows * cols by {
        if Valid() {
          CoveringGridSize(grid, rows, cols);
        }
      }
      |grid|
    }

    /** getRows: on a valid board, every square lies in rows 0 .. r - 1, and with at least one
        column each of those rows holds a square. */
    function GetRows(): (r: int)
      reads this
      ensures Valid() ==> 0 <= r && forall p :: p in grid ==> 0 <= p.x < r
      ensures Valid() && cols > 0 ==> forall i :: 0 <= i < r ==> Point(i, 0) in grid
    {
      rows
    }

    /** getColumns: on a valid board, every square lies in columns 0 .. c - 1, and with at
        least one row each of those columns holds a square. */
    function GetColumns(): (c: int)
      reads this
      ensures Valid() ==> 0 <= c && forall p :: p in grid ==> 0 <= p.y < c
      ensures Valid() && rows > 0 ==> forall j :: 0 <= j < c ==> Point(0, j) in grid
    {
      cols
    }

    /** checkBomb: false off the board, and otherwise whether the square holds a bomb. */
    function CheckBomb(row: int, col: int): (b: bool)
      reads this
      ensures b <==> IsBombAt(grid, Point(row, col))
      ensures Valid() && b ==> InBounds(rows, cols, Point(row, col))
    {
      var position := Point(row, col);
      if position !in grid then false else grid[position].HasBomb()
    }

    /** adjacentBombs: the loop over the eight offsets counts the bombs around the square,
        which is at most 8. */
    method AdjacentBombs(row: int, col: int) returns (bombCount: int)
      requires Valid()
      ensures bombCount == BombsAround(grid, Point(row, col))
      ensures 0 <= bombCount <= 8
    {
      bombCount := 0;
      for k := 0 to |Adjacencies|
        invariant bombCount == BombsAmong(grid, Point(row, col), k)
      {
        var adjacentSquare := Point(Adjacencies[k].0 + row, Adjacencies[k].1 + col);
        if adjacentSquare in grid && grid[adjacentSquare].HasBomb() {
          bombCount := bombCount + 1;
        }
      }
    }

    /** dig: the recursive flood fill, with the same checks in the same order as DigAt. */
    method Dig(row: int, col: int)
      requires Valid() && InBounds(rows, cols, Point(row, col))
      modifies this
      ensures Valid()
      ensures grid == DigAt(old(grid), Point(row, col))
      decreases Undug(grid), 0
    {
      var currentSquare := Point(row, col);
      if grid[currentSquare].HasBomb() {
        var count := AdjacentBombs(row, col);
        grid := grid[currentSquare := DugSquare(count)];
        return;
      }
      if grid[currentSquare].IsDug() || grid[currentSquare].HasFlag() {
        return;
      }
      var adjacentBombs := AdjacentBombs(row, col);
      var recount := AdjacentBombs(row, col);
      if recount > 0 {
        grid := grid[currentSquare := DugSquare(adjacentBombs)];
        return;
      }
      ghost var start := grid;
      grid := grid[currentSquare := DugSquare(0)];
      assert currentSquare in Undug(start) && currentSquare !in Undug(grid);
      assert Undug(grid) <= Undug(start);
      DigAdjacent(row, col);
    }

    /** The loop that ends dig: each of the eight neighbours of (row, col) that is on the
        board is dug in turn. */
    method DigAdjacent(row: int, col: int)
      requires Valid()
      modifies this
      ensures Valid()
      ensures grid == DigAround(old(grid), Point(row, col), 0)
      decreases Undug(grid), 1
    {
      ghost var cleared := grid;
      var currentSquare := Point(row, col);
      for k := 0 to |Adjacencies|
        invariant Valid()
        invariant Undug(grid) <= Undug(cleared)
        invariant DigAround(grid, currentSquare, k) == DigAround(cleared, currentSquare, 0)
      {
        var adjacentRow, adjacentCol := row + Adjacencies[k].0, col + Adjacencies[k].1;
        var adjacentPosition := Point(adjacentRow, adjacentCol);
        ghost var before := grid;
        NeighbourOf(row, col, k);
        ghost var neighbour := Neighbour(currentSquare, k);
        assert neighbour == adjacentPosition;
        ghost var after := if neighbour in before then DigAt(before, neighbour) else before;
        DigAroundStep(before, after, currentSquare, k);
        if adjacentPosition in grid {
          Dig(adjacentRow, adjacentCol);
        }
        assert grid == after;
        assert Undug(grid) <= Undug(before);
        SubsetTransitive(Undug(grid), Undug(before), Undug(cleared));
      }
    }

    /** flag: an on-board square without a flag becomes flagged, keeping its bomb. */
    method Flag(row: int, col: int)
      requires Valid()
      modifies this
      ensures Valid()
      ensures grid == FlagAt(old(grid), Point(row, col))
    {
      var position := Point(row, col);
      if position in grid {
        var currentSquare := grid[position];
        if !currentSquare.HasFlag() {
          grid := grid[position := FlaggedSquare(currentSquare.HasBomb())];
        }
      }
    }

    /** deflag: a flagged square becomes untouched, keeping its bomb. */
    method Deflag(row: int, col: int)
      requires Valid()
      modifies this
      ensures Valid()
      ensures grid == DeflagAt(old(grid), Point(row, col))
    {
      var position := Point(row, col);
      if position in grid {
        var currentSquare := grid[position];
        if currentSquare.HasFlag() {
          grid := grid[position := UntouchedSquare(currentSquare.HasBomb())];
        }
      }
    }

    /** toString: the nested loops build exactly the board's text. */
    method ToString() returns (repr: string)
      requires Valid()
      ensures repr == Render(grid, rows, cols)
      ensures forall k :: 0 <= k < |repr| ==> repr[k] in TokenChars + {'\n'}
      ensures 1 <= rows && 1 <= cols ==> |repr| == 2 * rows * cols - 1
    {
      repr := "";
      ghost var texts := RowTexts(grid, rows, cols);
      for i := 0 to rows
        invariant repr == if cols == 0 then "" else TextSoFar(texts, i)
      {
        ghost var before := repr;
        ghost var tokens := RowTokens(grid, i, cols);
        for j := 0 to cols
          invariant repr == before + RowSoFar(tokens, j, i == rows - 1)
        {
          var position := Point(i, j);
          RowSoFarStep(before, tokens, j, i == rows - 1);
          repr := repr + grid[position].ToString();
          if j != cols - 1 {
            repr := repr + " ";
          }
          if j == cols - 1 && i != rows - 1 {
            repr := repr + "\n";
          }
        }
        if cols > 0 {
          TextSoFarStep(texts, i, tokens);
        }
      }
      if cols > 0 && rows > 0 {
        assert texts[..rows] == texts;
        RenderLength(grid, rows, cols);
      }
      RenderShape(grid, rows, cols);
    }

    /** look: the board's text, as toString gives it. */
    method Look() returns (s: string)
      requires Valid()
      ensures s == Render(grid, rows, cols)
      ensures forall k :: 0 <= k < |s| ==> s[k] in TokenChars + {'\n'}
      ensures 1 <= rows && 1 <= cols ==> |s| == 2 * rows * cols - 1
    {
      s := ToString();
    }
  }
}
