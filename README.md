# Minesweeper board, modelled in Dafny

This project models the game state of a multiplayer Minesweeper server (package `minesweeper`):

- the `Board` that holds a square at each point of `[0,rows) x [0,cols)`, with its operations
  `placeBomb`, `dig` (a recursive flood fill), `flag`, `deflag`, `adjacentBombs`,
  `checkBomb`, `boardSize`, `getRows`, `getColumns`, `toString` / `look`, and its three
  constructors;
- the `Square` interface and its three immutable implementations `UntouchedSquare`,
  `FlaggedSquare` and `DugSquare`;
- the immutable `Point` coordinate, with its equality, hash, text and ordering.

Files and modules:

| file | module | contents |
|---|---|---|
| `wrappers.dfy` | `Wrappers` | `Option` |
| `decimal.dfy` | `Decimal` | Java's decimal text of an `int`, and reading it back |
| `point.dfy` | `Points` | `Point` as a datatype; 32-bit hash; `compareTo` as written and corrected |
| `square.dfy` | `Squares` | `Square` as one datatype with variants `Untouched`, `Flagged`, `Dug` |
| `grid.dfy` | `Grids` | the board's map as a value: bounds, neighbour offsets, bomb counting, `placeBomb` / `flag` / `deflag` as functions |
| `dig.dfy` | `Digging` | the flood fill as two mutually recursive functions, and what it reveals |
| `render.dfy` | `Rendering` | the board's text and its shape |
| `board.dfy` | `Boards` | the `Board` class: fields updated in place, each method proved against the functions above |
| `scenarios.dfy` | `Scenarios` | the boards of the unit tests, stated as lemmas |

The `Board` class keeps the Java shape. `grid` is a `map<Point, Square>` field that the
methods reassign, the loops of the constructors, of `adjacentBombs` and of `toString` are
`while` / `for` loops with invariants, and `Dig` is a recursive method that terminates because
the set of undug squares shrinks; its loop over the eight neighbours is the method
`DigAdjacent`, and the rows of the constructors' nested loops are the methods `GenerateRow`,
`LoadRow` and `LoadSquareFrom`. The rep invariant `Board.Valid()` holds non-negative
dimensions, a square at exactly each in-bounds point, and `Grids.Defused` (every dug square is
bomb-free and shows at most 8); every operation keeps it. Its size half,
`|grid| == rows * cols`, is the lemma `Grids.CoveringGridSize`.

The model follows the code as written, including where it departs from the usual rules of the
game:

- `dig` on a square with a bomb replaces it with a bomb-free dug square showing the number of
  bombs around it (not 0), and does not cascade.
- The bomb test comes before the flag test, so a flagged bomb is dug.
- `flag` tests only whether the square is flagged, so a dug square can be flagged.
- `dig` on an out-of-bounds point throws (`grid.get` returns null); it is a precondition of
  `Board.Dig`. Out-of-bounds `flag`, `deflag`, `placeBomb` and `checkBomb` do nothing.
- A board with no columns renders as the empty text, whatever the number of rows.

## Model

| member | source | states |
|---|---|---|
| Decimal.NatToString | src/minesweeper/DugSquare.java:72 | the decimal text of a count is a non-empty digit string, one character exactly below 10, starting with '0' only for 0 |
| Decimal.ParseNatToString | src/minesweeper/DugSquare.java:72 | reading the decimal text of a count back gives the count |
| Decimal.IntToStringRoundTrip | src/minesweeper/Point.java:71-73 | the text of any `int` is an integer literal, and reading it back gives the `int` |
| Points.Wrap32 | src/minesweeper/Point.java:61-66 | Java `int` wrap-around: the result is in [-2^31, 2^31) and congruent to the exact value modulo 2^32 |
| Points.Point.GetX | src/minesweeper/Point.java:37-39 | getX returns the first constructor argument: with y it rebuilds the point |
| Points.Point.GetY | src/minesweeper/Point.java:44-46 | getY returns the second constructor argument: with x it rebuilds the point |
| Points.Point.Equals | src/minesweeper/Point.java:52-56 | equals on two points holds exactly when they are the same point (both coordinates match) |
| Points.Point.HashCode | src/minesweeper/Point.java:61-66 | the hash is a 32-bit `int` |
| Points.HashCodeClosedForm | src/minesweeper/Point.java:61-66 | the hash is (373 * 37 * 37 + 37 * x + y) wrapped to 32 bits, so it depends on x and y only |
| Points.ToStringRoundTrip | src/minesweeper/Point.java:71-73 | the text "(x,y)" of a point parses back to the same point |
| Points.ToStringInjective | src/minesweeper/Point.java:71-73 | two points with the same text are the same point |
| Points.Point.CompareTo | src/minesweeper/Point.java:76-80 | compareTo returns only -1 or 1, never 0 |
| Points.CompareToIsRowMajor | src/minesweeper/Point.java:76-80 | -1 exactly when the point comes first in the row-major order of a board with `cols` columns |
| Points.CompareToOrder | src/minesweeper/Point.java:76-80 | every point compares as 1 to itself; distinct points compare oppositely; -1 is transitive; (0,0) < (0,1) < (1,0) |
| Points.CompareToBreaksComparableContract | src/minesweeper/Point.java:76-80 | as written, sgn(p.compareTo(p)) == -sgn(p.compareTo(p)) fails for every point |
| Points.Point.CompareToConsistent | src/minesweeper/Point.java:76-80 | the corrected comparison returns -1, 0 or 1, and 0 exactly for equal points |
| Points.ComparableContract | src/minesweeper/Point.java:76-80 | the corrected comparison is antisymmetric, transitive, consistent with equality, and agrees with the written one on distinct points |
| Squares.Square.Dig | src/minesweeper/FlaggedSquare.java:57-59 | digging a flagged square gives the same square: still flagged, not dug, same bomb |
| Squares.UntouchedSquare | src/minesweeper/UntouchedSquare.java:20-29 | an untouched square has the given bomb (none by default), no flag, and is not dug |
| Squares.FlaggedSquare | src/minesweeper/FlaggedSquare.java:22-31 | a flagged square has the given bomb (none by default), a flag, and is not dug |
| Squares.DugSquare | src/minesweeper/DugSquare.java:29-33 | a count square (count >= 0, the class's rep invariant) has no bomb, no flag, is dug, and keeps the count |
| Squares.ExplodedSquare | src/minesweeper/DugSquare.java:36-40 | the exploded-bomb square has the given bomb, count 0, no flag, and is dug |
| Squares.QueriesClassify | src/minesweeper/Square.java:10-32 | hasFlag holds exactly for flagged squares and isDug exactly for dug ones; no square is both; neither means untouched |
| Squares.ToStringDistinguishes | src/minesweeper/DugSquare.java:68-74 | "-" exactly for untouched, "F" exactly for flagged, "*" exactly for dug bombs, " " exactly for dug squares counting 0, otherwise the decimal count, which reads back as the count |
| Squares.ToStringIsOneCharacter | src/minesweeper/DugSquare.java:68-74 | a square whose count has one digit renders as one character |
| Grids.CoveringGridSize | src/minesweeper/Board.java:57-65 | a grid with a square at exactly each point of [0,rows) x [0,cols) has rows * cols squares |
| Grids.NeighbourIsAdjacent | src/minesweeper/Board.java:26 | each of the eight offsets leads to a different square touching the current one |
| Grids.NeighboursDistinct | src/minesweeper/Board.java:26 | the eight offsets lead to eight distinct squares |
| Grids.BombsAmong | src/minesweeper/Board.java:196-205 | after k offsets the loop has counted at most k bombs |
| Grids.BombsAroundCountsAdjacentBombs | src/minesweeper/Board.java:196-205 | the count over the offsets is the number of squares on the board that touch p and hold a bomb; p itself is never counted |
| Grids.BombsAroundLocal | src/minesweeper/Board.java:196-205 | the count depends only on which neighbours hold bombs |
| Grids.BombsAroundIgnoresSelf | src/minesweeper/Board.java:196-205 | replacing the square itself does not change its count |
| Grids.SameBombsSameCounts | src/minesweeper/Board.java:196-205 | two grids with the same bombs give every square the same count |
| Grids.AllBombsThreeByThree | test/minesweeper/BoardTest.java:197-206 | on a 3 x 3 board full of bombs the centre counts 8 and a corner 3 |
| Grids.PlaceBombAt | src/minesweeper/Board.java:135-140 | placing a bomb keeps the key set and keeps the board defused |
| Grids.PlaceBombThenCheck | src/minesweeper/Board.java:135-140 | afterwards the point holds a bomb exactly when it is on the board; no other square changes; off the board nothing changes |
| Grids.FlagAt | src/minesweeper/Board.java:239-247 | flagging keeps the key set and every bomb, and keeps the board defused |
| Grids.DeflagAt | src/minesweeper/Board.java:255-263 | deflagging keeps the key set and every bomb, and keeps the board defused |
| Grids.DeflagUndoesFlag | src/minesweeper/Board.java:239-263 | deflag after flag restores an untouched square, and the whole grid, exactly |
| Grids.FlagDeflagIdempotent | src/minesweeper/Board.java:239-263 | flagging twice is flagging once; deflagging twice is deflagging once |
| Grids.FlagDugSquare | src/minesweeper/Board.java:239-247 | a dug square on a defused board can be flagged and becomes a bomb-free flagged square; deflagging an unflagged square does nothing |
| Digging.DigAt | src/minesweeper/Board.java:163-189 | digging keeps the key set and never adds an undug square |
| Digging.DigAround | src/minesweeper/Board.java:184-187 | the loop over the neighbours keeps the key set and never adds an undug square |
| Digging.DigAtReveals | src/minesweeper/Board.java:163-189 | the lower bound of the flood fill: digging a square without a bomb changes only untouched squares, each to a bomb-free dug square with its true count; every bomb stays; every blank it reveals has all its neighbours dug or flagged; the square ends dug or flagged |
| Digging.DigAroundReveals | src/minesweeper/Board.java:184-187 | the same for the loop over the neighbours of a blank, and every neighbour ends dug or flagged |
| Digging.DigAtReachesOnly | src/minesweeper/Board.java:163-189 | the upper bound of the flood fill: every dig changes squares only into bomb-free dug ones, leaves every bomb-free dug square as it is, and reaches every square it changes from the dug square by a walk of touching squares each newly revealed as blank, so it never crosses a bomb or a numbered square |
| Digging.DigAroundReachesOnly | src/minesweeper/Board.java:184-187 | the loop over the neighbours from offset i on changes squares only into bomb-free dug ones, and reaches each square it changes from one of those neighbours by such a walk |
| Digging.ReachesThroughBlank | src/minesweeper/Board.java:183-187 | once a square is dug as blank, a change the neighbours' loop reaches from a neighbour is reached from the square itself |
| Digging.ReachesFromNeighbours | src/minesweeper/Board.java:184-187 | one step of the neighbours' loop: a change reached from neighbour i or from a later neighbour is reached from some neighbour from i on |
| Digging.DigBomb | src/minesweeper/Board.java:167-170 | digging a bomb (untouched or flagged) replaces just that square with a bomb-free dug square showing the bombs around it; no cascade; no other bomb changes |
| Digging.DigWithoutCascade | src/minesweeper/Board.java:173-180 | on a dug square or a bomb-free flagged one dig changes nothing; on a bomb-free untouched square with k > 0 bombs around only that square becomes Dug(k) |
| Digging.DigIdempotent | src/minesweeper/Board.java:163-189 | digging the same square twice is digging it once |
| Digging.DigKeepsDefused | src/minesweeper/Board.java:163-189 | after any dig every dug square is bomb-free and shows at most 8 |
| Digging.ClearBoardDigsEverything | src/minesweeper/Board.java:183-187 | on a board of untouched bomb-free squares one dig anywhere reveals every square as a blank |
| Rendering.SquareTokenChar | src/minesweeper/Board.java:273 | on a defused board each square's token is one character among "-", "F", " ", "1".."8" |
| Rendering.RowTextAt | src/minesweeper/Board.java:271-278 | a row of a defused board has 2 * cols - 1 characters, the token of column j at 2 * j and a space after every token but the last |
| Rendering.RenderToken | src/minesweeper/Board.java:268-281 | the token of square (i, j) stands at 2 * (i * cols + j) of the text |
| Rendering.RenderSeparator | src/minesweeper/Board.java:268-281 | the token of square (i, j) is followed by " " inside a row and by "\n" at the end of every row but the last |
| Rendering.RenderShape | src/minesweeper/Board.java:268-281 | the same for every square at once, and every character of the text is a token character or "\n" |
| Rendering.RenderLength | src/minesweeper/Board.java:268-281 | with at least one row and one column the text has 2 * rows * cols - 1 characters |
| Boards.OrdinalBounds | src/minesweeper/Board.java:99-108 | a board file lists the squares at positions 0 .. rows * cols - 1 in row-major order, the last square last |
| Boards.FileCoverage | src/minesweeper/Board.java:99-109 | a board read from a file holds every square exactly when the file has 2 + rows * cols integers |
| Boards.Board.constructor | src/minesweeper/Board.java:116-126 | the testing constructor gives exactly the in-bounds points, all untouched and bomb-free whatever hasBombs says; valid exactly when both dimensions are non-negative |
| Boards.Board.Generate | src/minesweeper/Board.java:68-83 | the playing constructor gives exactly the in-bounds points, each untouched, with a bomb exactly where the draw for it is 0 |
| Boards.Board.GenerateRow | src/minesweeper/Board.java:74-81 | one pass of the inner loop adds exactly row i, each square untouched with a bomb exactly where its draw is 0 |
| Boards.Board.FromFile | src/minesweeper/Board.java:92-111 | columns then rows are read first; each square present takes the next integer in row-major order, a bomb exactly when it is 1; a square is present exactly when an integer remains for it; valid exactly when none is missing |
| Boards.Board.LoadRow | src/minesweeper/Board.java:100-108 | one pass of the outer loop loads row `row`: afterwards every square before row + 1 that has an integer is present, with a bomb exactly when its integer is 1, and the read position has moved past the row |
| Boards.Board.LoadSquareFrom | src/minesweeper/Board.java:101-107 | one square: when an integer remains it is present, untouched, with a bomb exactly when the integer is 1, and the read position moves on by one; otherwise nothing changes |
| Boards.Board.PlaceBomb | src/minesweeper/Board.java:135-140 | the grid becomes PlaceBombAt of the old grid |
| Boards.Board.BoardSize | src/minesweeper/Board.java:145-147 | on a valid board the number of squares is rows * cols |
| Boards.Board.GetRows | src/minesweeper/Board.java:211-213 | on a valid board every square's row is below the result, and each row below it holds a square when there are columns |
| Boards.Board.GetColumns | src/minesweeper/Board.java:218-220 | on a valid board every square's column is below the result, and each column below it holds a square when there are rows |
| Boards.Board.CheckBomb | src/minesweeper/Board.java:227-231 | true exactly when the point is on the board and its square holds a bomb |
| Boards.Board.AdjacentBombs | src/minesweeper/Board.java:196-205 | the loop's count is BombsAround, between 0 and 8 |
| Boards.Board.Dig | src/minesweeper/Board.java:163-189 | the recursive method leaves exactly DigAt of the old grid and keeps the rep invariant, defusal included |
| Boards.Board.DigAdjacent | src/minesweeper/Board.java:184-187 | the loop over the eight offsets, digging each on-board neighbour, leaves exactly DigAround of the grid it starts from and keeps the rep invariant |
| Boards.Board.Flag | src/minesweeper/Board.java:239-247 | the grid becomes FlagAt of the old grid; the rep invariant, defusal included, is kept |
| Boards.Board.Deflag | src/minesweeper/Board.java:255-263 | the grid becomes DeflagAt of the old grid; the rep invariant, defusal included, is kept |
| Boards.Board.ToString | src/minesweeper/Board.java:268-281 | the nested loops build exactly Render of the grid; every character is a square token or "\n"; with at least one row and one column the text has 2 * rows * cols - 1 characters |
| Boards.Board.Look | src/minesweeper/Board.java:152-155 | look returns the board's text, with the same character set and length |
| Scenarios.RenderThreeByThree | src/minesweeper/Board.java:268-281 | a 3 x 3 board's text is its three rows joined by "\n" |
| Scenarios.CornerBombCounts | test/minesweeper/BoardTest.java:224-229 | with one bomb in the corner (0,0) the corner counts 0 and the centre 1 |
| Scenarios.CornerBombCount | test/minesweeper/BoardTest.java:224-232 | with one bomb in the corner a square counts 1 exactly when it touches the corner |
| Scenarios.OneBombDigging | test/minesweeper/BoardTest.java:224-229 | digging the centre next to the corner bomb shows "- - -\n- 1 -\n- - -" |
| Scenarios.CascadeSquares | test/minesweeper/BoardTest.java:231-232 | any dig of (2,2) that reveals only, expands every blank and settles (2,2) floods every square but the bomb: 1 on the three squares touching it, blanks elsewhere |
| Scenarios.OneBombCascade | test/minesweeper/BoardTest.java:231-232 | then digging (2,2) shows "- 1  \n1 1  \n     " |
| Scenarios.DiggingBomb | test/minesweeper/BoardTest.java:236-243 | digging the corner bomb leaves no bomb there and shows "  - -\n- - -\n- - -" |
| Scenarios.FreshBoardText | test/minesweeper/BoardTest.java:187-194 | a fresh 3 x 3 board, its squares untouched with or without bombs, shows "- - -\n- - -\n- - -" |
| Scenarios.FlaggingCorner | test/minesweeper/BoardTest.java:187-194 | on a fresh board with any bombs, flagging the corner (bomb or not) shows "F - -\n- - -\n- - -" and deflagging it restores the fresh text |
| Scenarios.NoBombsDigging | test/minesweeper/BoardTest.java:215-221 | on a bomb-free board digging the centre twice equals digging it once and shows three lines of five blanks |

## Left out

- Thread safety: the `ConcurrentHashMap` and the concurrent readers and writers it allows are not modelled; the model is sequential.
- Boards.Board.Generate: `new Random().nextInt(4)` is replaced by a parameter `draw(i, j)` that gives the draw for square (i, j); which values a random generator produces is not modelled.
- Boards.Board.FromFile: opening and scanning the file is replaced by the sequence of integers it holds; a missing file, a file with fewer than two integers (required instead) and non-integer tokens (which stop `hasNextInt` without being consumed) are not modelled.
- `checkRep`: Java assertions become the predicate `Board.Valid()`. Constructors state when it holds; the methods that call `checkRep` or read every square (`adjacentBombs`, `dig`, `flag`, `deflag`, `toString`, `look`) require it.
- Boards.Board.BoardSize: `checkRep` compares with the 32-bit product `MAXCOLUMN * MAXROW`; the model uses the exact product, so boards with more than 2^31 - 1 squares are not modelled.
- Java `int` overflow in the neighbour coordinates `row + square[0]` is not modelled; a wrapped coordinate is off the board either way.
- `Point.equals(Object)` on an object that is not a `Point` (the `instanceof` test) is left out; only point-to-point equality is modelled.
- `FlaggedSquare extends UntouchedSquare`: the shadowed fields are a Java artefact; the three variants are one datatype.
- The server, its sockets, its protocol and its debug flag are not part of this model.
- testBoardFromFile reads a board file that is not part of this model, so it has no scenario lemma.

## Findings

| source | as written | input that shows it | evidently intended | confidence | as-written member | corrected member |
|---|---|---|---|---|---|---|
| src/minesweeper/Point.java:76-80 | `compareTo` returns 1 when the points are equal, never 0 | `p.compareTo(p)` for any point `p`, e.g. (0,0): returns 1, so `sgn(p.compareTo(p)) != -sgn(p.compareTo(p))`, breaking the `Comparable` contract | return 0 for equal points and -1 / 1 otherwise; Points.ComparableContract proves the contract for that | not executed | Points.CompareToBreaksComparableContract | Points.Point.CompareToConsistent |
