/**
 * Concrete boards from the unit tests (test/minesweeper/BoardTest.java), stated on the grid
 * functions the Board methods are proved against.
 */
module Scenarios {
  import opened Points
  import opened Squares
  import opened Grids
  import opened Digging
  import opened Rendering
  import opened Decimal

  /** Row i of a 3 x 3 board spelled out square by square. */
  function RowOfThree(g: Grid, i: int): string
    requires Point(i, 0) in g && Point(i, 1) in g && Point(i, 2) in g
  {
    g[Point(i, 0)].ToString() + " " + g[Point(i, 1)].ToString() + " " + g[Point(i, 2)].ToString()
  }

  /** The text of a 3 x 3 board: its three rows, one per line. */
  lemma RenderThreeByThree(g: Grid)
    requires Covers(g, 3, 3)
    ensures Render(g, 3, 3) == RowOfThree(g, 0) + "\n" + RowOfThree(g, 1) + "\n" + RowOfThree(g, 2)
  {
    forall i | 0 <= i < 3 ensures RowText(g, i, 3) == RowOfThree(g, i) {
      var tokens := RowTokens(g, i, 3);
      JoinStep(tokens, " ", 0);
      JoinStep(tokens, " ", 1);
      JoinStep(tokens, " ", 2);
      assert tokens[..3] == tokens;
    }
    var texts := RowTexts(g, 3, 3);
    JoinStep(texts, "\n", 0);
    JoinStep(texts, "\n", 1);
    JoinStep(texts, "\n", 2);
    assert texts[..3] == texts;
  }

  /** Three rows of three one-character tokens, spelled out. */
  lemma LinesOfThree(cs: string)
    requires |cs| == 9
    ensures [cs[0]] + " " + [cs[1]] + " " + [cs[2]] + "\n" +
            ([cs[3]] + " " + [cs[4]] + " " + [cs[5]]) + "\n" +
            ([cs[6]] + " " + [cs[7]] + " " + [cs[8]]) ==
            [cs[0], ' ', cs[1], ' ', cs[2], '\n', cs[3], ' ', cs[4], ' ', cs[5], '\n', cs[6], ' ', cs[7], ' ', cs[8]]
  {
  }

  /** The text of a 3 x 3 board whose squares, in row-major order, show the characters of
      cs. */
  lemma ThreeByThreeText(g: Grid, cs: string)
    requires Covers(g, 3, 3) && |cs| == 9
    requires g[Point(0, 0)].ToString() == [cs[0]] && g[Point(0, 1)].ToString() == [cs[1]]
    requires g[Point(0, 2)].ToString() == [cs[2]] && g[Point(1, 0)].ToString() == [cs[3]]
    requires g[Point(1, 1)].ToString() == [cs[4]] && g[Point(1, 2)].ToString() == [cs[5]]
    requires g[Point(2, 0)].ToString() == [cs[6]] && g[Point(2, 1)].ToString() == [cs[7]]
    requires g[Point(2, 2)].ToString() == [cs[8]]
    ensures Render(g, 3, 3) ==
      [cs[0], ' ', cs[1], ' ', cs[2], '\n', cs[3], ' ', cs[4], ' ', cs[5], '\n', cs[6], ' ', cs[7], ' ', cs[8]]
  {
    RenderThreeByThree(g);
    LinesOfThree(cs);
  }

  /** A 3 x 3 board with a single bomb, in the corner (0, 0). */
  ghost predicate CornerBombBoard(g: Grid) {
    && Covers(g, 3, 3)
    && g[Point(0, 0)] == Untouched(true)
    && forall q :: q in g && q != Point(0, 0) ==> g[q] == Untouched(false)
  }

  /** On that board the corner holding the bomb has no bomb around it and the centre has
      one. */
  lemma CornerBombCounts(g: Grid)
    requires CornerBombBoard(g)
    ensures BombsAround(g, Point(0, 0)) == 0
    ensures BombsAround(g, Point(1, 1)) == 1
  {
    var o, c := Point(0, 0), Point(1, 1);
    assert BombsAmong(g, o, 1) == 0;
    assert BombsAmong(g, o, 2) == 0;
    assert BombsAmong(g, o, 3) == 0;
    assert BombsAmong(g, o, 4) == 0;
    assert BombsAmong(g, o, 5) == 0;
    assert BombsAmong(g, o, 6) == 0;
    assert BombsAmong(g, o, 7) == 0;
    assert IsBombAt(g, Neighbour(c, 7));
    assert BombsAmong(g, c, 1) == 0;
    assert BombsAmong(g, c, 2) == 0;
    assert BombsAmong(g, c, 3) == 0;
    assert BombsAmong(g, c, 4) == 0;
    assert BombsAmong(g, c, 5) == 0;
    assert BombsAmong(g, c, 6) == 0;
    assert BombsAmong(g, c, 7) == 0;
  }

  /** testOneBombDigging: digging the centre, next to the bomb, reveals just the centre,
      showing 1. */
  lemma OneBombDigging(g: Grid)
    requires CornerBombBoard(g)
    ensures Render(DigAt(g, Point(1, 1)), 3, 3) == "- - -\n- 1 -\n- - -"
  {
    var c := Point(1, 1);
    CornerBombCounts(g);
    var g' := DigAt(g, c);
    assert g' == g[c := DugSquare(1)];
    assert NatToString(1) == "1";
    ThreeByThreeText(g', "----1----");
  }

  /** On that board a square counts one bomb exactly when it touches the corner. */
  lemma CornerBombCount(g: Grid, q: Point)
    requires CornerBombBoard(g)
    ensures BombsAround(g, q) == if Adjacent(Point(0, 0), q) then 1 else 0
  {
    var o := Point(0, 0);
    BombsAroundCountsAdjacentBombs(g, q);
    if Adjacent(o, q) {
      assert AdjacentBombSet(g, q) == {o};
    } else {
      assert AdjacentBombSet(g, q) == {};
    }
  }

  /** A square that was untouched and bomb-free and that the dig left settled was revealed
      with its count. */
  lemma RevealedSquare(g1: Grid, g2: Grid, q: Point)
    requires RevealsOnly(g1, g2) && q in g1 && g1[q] == Untouched(false) && Settled(g2[q])
    ensures g2[q] == DugSquare(BombsAround(g1, q))
  {
  }

  /** A neighbour of a newly revealed blank is settled. */
  lemma ExpandedNeighbour(g1: Grid, g2: Grid, q: Point, k: nat)
    requires RevealsOnly(g1, g2) && BlanksExpanded(g1, g2)
    requires q in g1 && g1[q].Untouched? && g2[q] == DugSquare(0)
    requires k < |Adjacencies| && Neighbour(q, k) in g1
    ensures Settled(g2[Neighbour(q, k)])
  {
  }

  /** The board of testOneBombDigging after its first dig. */
  ghost predicate AfterCentreDig(g: Grid) {
    && Covers(g, 3, 3)
    && g[Point(0, 0)] == Untouched(true)
    && g[Point(1, 1)] == DugSquare(1)
    && (forall q :: q in g && q != Point(0, 0) && q != Point(1, 1) ==> g[q] == Untouched(false))
    && forall q :: BombsAround(g, q) == if Adjacent(Point(0, 0), q) then 1 else 0
  }

  /** Any result of digging (2, 2) there that reveals only, expands every blank and settles
      (2, 2) is the fully flooded board. */
  lemma CascadeSquares(g1: Grid, g2: Grid)
    requires AfterCentreDig(g1)
    requires RevealsOnly(g1, g2) && BlanksExpanded(g1, g2) && Settled(g2[Point(2, 2)])
    ensures g2[Point(0, 0)] == Untouched(true)
    ensures g2[Point(0, 1)] == DugSquare(1) && g2[Point(0, 2)] == DugSquare(0)
    ensures g2[Point(1, 0)] == DugSquare(1) && g2[Point(1, 1)] == DugSquare(1)
    ensures g2[Point(1, 2)] == DugSquare(0)
    ensures g2[Point(2, 0)] == DugSquare(0) && g2[Point(2, 1)] == DugSquare(0)
    ensures g2[Point(2, 2)] == DugSquare(0)
  {
    var f, e, s := Point(2, 2), Point(1, 2), Point(2, 1);
    RevealedSquare(g1, g2, f);
    ExpandedNeighbour(g1, g2, f, 3);
    ExpandedNeighbour(g1, g2, f, 1);
    RevealedSquare(g1, g2, e);
    RevealedSquare(g1, g2, s);
    ExpandedNeighbour(g1, g2, e, 3);
    ExpandedNeighbour(g1, g2, e, 7);
    ExpandedNeighbour(g1, g2, s, 1);
    ExpandedNeighbour(g1, g2, s, 7);
    RevealedSquare(g1, g2, Point(0, 2));
    RevealedSquare(g1, g2, Point(0, 1));
    RevealedSquare(g1, g2, Point(2, 0));
    RevealedSquare(g1, g2, Point(1, 0));
    assert IsBombAt(g2, Point(0, 0));
  }

  /** The text of the flooded board. */
  lemma CascadeText(h: Grid)
    requires Covers(h, 3, 3) && h[Point(0, 0)] == Untouched(true)
    requires h[Point(0, 1)] == DugSquare(1) && h[Point(0, 2)] == DugSquare(0)
    requires h[Point(1, 0)] == DugSquare(1) && h[Point(1, 1)] == DugSquare(1)
    requires h[Point(1, 2)] == DugSquare(0)
    requires h[Point(2, 0)] == DugSquare(0) && h[Point(2, 1)] == DugSquare(0)
    requires h[Point(2, 2)] == DugSquare(0)
    ensures Render(h, 3, 3) == "- 1  \n1 1  \n     "
  {
    assert NatToString(1) == "1";
    ThreeByThreeText(h, "-1 11    ");
  }

  /** testOneBombDigging, second dig: digging the far corner (2, 2) then floods every square
      that does not hold the bomb, showing 1 on the squares touching it and blanks elsewhere. */
  lemma OneBombCascade(g: Grid)
    requires CornerBombBoard(g)
    ensures Render(DigAt(DigAt(g, Point(1, 1)), Point(2, 2)), 3, 3) == "- 1  \n1 1  \n     "
  {
    var c := Point(1, 1);
    CornerBombCounts(g);
    var g1 := DigAt(g, c);
    assert g1 == g[c := DugSquare(1)];
    SameBombsSameCounts(g, g1);
    forall q ensures BombsAround(g1, q) == if Adjacent(Point(0, 0), q) then 1 else 0 {
      CornerBombCount(g, q);
    }
    DigAtReveals(g1, Point(2, 2));
    CascadeSquares(g1, DigAt(g1, Point(2, 2)));
    CascadeText(DigAt(g1, Point(2, 2)));
  }

  /** testDiggingBomb: digging the bomb leaves no bomb there and shows the square blank, the
      bombs around it being none; the rest of the board is untouched. */
  lemma DiggingBomb(g: Grid)
    requires CornerBombBoard(g)
    ensures !IsBombAt(DigAt(g, Point(0, 0)), Point(0, 0))
    ensures Render(DigAt(g, Point(0, 0)), 3, 3) == "  - -\n- - -\n- - -"
  {
    var c := Point(0, 0);
    CornerBombCounts(g);
    var g' := DigAt(g, c);
    assert g' == g[c := DugSquare(0)];
    ThreeByThreeText(g', " --------");
  }

  /** A fresh 3 x 3 board shows nine "-", whichever squares hold bombs: the testing
      constructor and the random one both leave every square untouched. */
  lemma FreshBoardText(g: Grid)
    requires Covers(g, 3, 3) && forall q :: q in g ==> g[q].Untouched?
    ensures Render(g, 3, 3) == "- - -\n- - -\n- - -"
  {
    ThreeByThreeText(g, "---------");
  }

  /** testFlaggingBombSquare: on a fresh board from the random constructor, flagging a
      corner, with or without a bomb, shows "F" there, and deflagging it restores the fresh
      text. */
  lemma FlaggingCorner(g: Grid)
    requires Covers(g, 3, 3) && forall q :: q in g ==> g[q].Untouched?
    ensures Render(FlagAt(g, Point(0, 0)), 3, 3) == "F - -\n- - -\n- - -"
    ensures Render(DeflagAt(FlagAt(g, Point(0, 0)), Point(0, 0)), 3, 3) == "- - -\n- - -\n- - -"
  {
    var f := FlagAt(g, Point(0, 0));
    ThreeByThreeText(f, "F--------");
    DeflagUndoesFlag(g, Point(0, 0));
    FreshBoardText(g);
  }

  /** A 3 x 3 board of blank dug squares shows as three lines of blanks. */
  lemma AllBlankText(h: Grid)
    requires Covers(h, 3, 3) && forall q :: q in h ==> h[q] == DugSquare(0)
    ensures Render(h, 3, 3) == "     \n     \n     "
  {
    ThreeByThreeText(h, "         ");
  }

  /** testNoBombsDigging: on a board without bombs one dig in the centre reveals every
      square as blank, and digging there again changes nothing. */
  lemma NoBombsDigging(g: Grid)
    requires Covers(g, 3, 3) && forall q :: q in g ==> g[q] == Untouched(false)
    ensures DigAt(DigAt(g, Point(1, 1)), Point(1, 1)) == DigAt(g, Point(1, 1))
    ensures Render(DigAt(g, Point(1, 1)), 3, 3) == "     \n     \n     "
  {
    DigIdempotent(g, Point(1, 1));
    ClearBoardDigsEverything(g, 3, 3, Point(1, 1));
    AllBlankText(DigAt(g, Point(1, 1)));
  }
}
