/**
 * One square of the grid (src/minesweeper/Square.java and its three implementations).
 * The interface with three immutable classes becomes one datatype with three variants;
 * every query is a pure function of the variant's fields.
 */
module Squares {
  import opened Decimal

  /**
   * - Untouched(bomb): neither flagged nor dug (UntouchedSquare).
   * - Flagged(bomb): marked by a player (FlaggedSquare).
   * - Dug(adjacentBombs, bomb): revealed (DugSquare); the count is never negative, which is
   *   the class's rep invariant.
   */
  datatype Square =
    | Untouched(bomb: bool)
    | Flagged(bomb: bool)
    | Dug(adjacentBombs: nat, bomb: bool)
  {
    predicate HasBomb() {
      bomb
    }

    predicate HasFlag() {
      Flagged?
    }

    predicate IsDug() {
      Dug?
    }

    /** FlaggedSquare.dig(): digging a flagged square yields the same square. */
    function Dig(): (s: Square)
      requires Flagged?
      ensures s == this && s.HasFlag() && !s.IsDug() && s.HasBomb() == HasBomb()
    {
      this
    }

    /** The token a square shows in the board's text. */
    function ToString(): string {
      match this
      case Untouched(_) => "-"
      case Flagged(_) => "F"
      case Dug(n, b) => if b then "*" else if n > 0 then NatToString(n) else " "
    }
  }

  /** new UntouchedSquare() and new UntouchedSquare(bomb). */
  function UntouchedSquare(bomb: bool := false): (s: Square)
    ensures s.HasBomb() == bomb && !s.HasFlag() && !s.IsDug()
  {
    Untouched(bomb)
  }

  /** new FlaggedSquare() and new FlaggedSquare(bomb). */
  function FlaggedSquare(bomb: bool := false): (s: Square)
    ensures s.HasBomb() == bomb && s.HasFlag() && !s.IsDug()
  {
    Flagged(bomb)
  }

  /** new DugSquare(adjacentBombs): a revealed square without a bomb. The constructor's
      checkRep asserts that the count is not negative. */
  function DugSquare(adjacentBombs: int): (s: Square)
    requires adjacentBombs >= 0
    ensures !s.HasBomb() && !s.HasFlag() && s.IsDug() && s.adjacentBombs == adjacentBombs
  {
    Dug(adjacentBombs, false)
  }

  /** new DugSquare(hasBomb), the constructor for an exploded bomb: count 0. */
  function ExplodedSquare(hasBomb: bool): (s: Square)
    ensures s.HasBomb() == hasBomb && !s.HasFlag() && s.IsDug() && s.adjacentBombs == 0
  {
    Dug(0, hasBomb)
  }

  /** Every square is in exactly one state: flagged exactly for the Flagged variant, dug
      exactly for the Dug variant, never both. */
  lemma QueriesClassify(s: Square)
    ensures s.HasFlag() <==> s.Flagged?
    ensures s.IsDug() <==> s.Dug?
    ensures !(s.HasFlag() && s.IsDug())
    ensures !s.HasFlag() && !s.IsDug() <==> s.Untouched?
  {
  }

  /** The token tells the state apart: "-" exactly for untouched squares, "F" exactly for
      flagged ones, "*" exactly for dug bombs, " " exactly for dug squares with no bomb and
      no neighbouring bomb, and otherwise the decimal count, which reads back as the count. */
  lemma {:induction false} ToStringDistinguishes(s: Square)
    ensures s.ToString() == "-" <==> s.Untouched?
    ensures s.ToString() == "F" <==> s.Flagged?
    ensures s.ToString() == "*" <==> s.Dug? && s.bomb
    ensures s.ToString() == " " <==> s.Dug? && !s.bomb && s.adjacentBombs == 0
    ensures s.Dug? && !s.bomb && s.adjacentBombs > 0 ==>
      IsDigits(s.ToString()) && ParseNat(s.ToString()) == s.adjacentBombs
  {
    if s.Dug? && !s.bomb && s.adjacentBombs > 0 {
      ParseNatToString(s.adjacentBombs);
      var t := s.ToString();
      assert IsDigit(t[0]);
    }
  }

  /** A square whose count has one digit renders as a single character. */
  lemma ToStringIsOneCharacter(s: Square)
    requires s.Dug? ==> s.adjacentBombs < 10
    ensures |s.ToString()| == 1
  {
  }
}
