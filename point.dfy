/**
 * An immutable grid coordinate (src/minesweeper/Point.java). On the board `x` is the row
 * and `y` the column. Equality is structural, so Dafny's `==` on the datatype is the
 * source's `equals`; the hash and the ordering are written out with Java's 32-bit `int`
 * arithmetic.
 */
module Points {
  import opened Wrappers
  import opened Decimal

  const TwoTo31: int := 0x8000_0000
  const TwoTo32: int := 0x1_0000_0000

  /** The Java `int` that an exact integer result wraps to: the value congruent to `n`
      modulo 2^32 in [-2^31, 2^31). */
  function Wrap32(n: int): (r: int)
    ensures -TwoTo31 <= r < TwoTo31
    ensures (r - n) % TwoTo32 == 0
  {
    (n + TwoTo31) % TwoTo32 - TwoTo31
  }

  datatype Point = Point(x: int, y: int) {

    /** getX: the coordinate that, with `y`, rebuilds this point. */
    function GetX(): (r: int)
      ensures Point(r, y) == this
    {
      x
    }

    /** getY: the coordinate that, with `x`, rebuilds this point. */
    function GetY(): (r: int)
      ensures Point(x, r) == this
    {
      y
    }

    /** equals, restricted to another Point: structural equality. */
    function Equals(that: Point): (b: bool)
      ensures b <==> this == that
    {
      that.x == x && that.y == y
    }

    /** hashCode: 373, then 37 * hash + x, then 37 * hash + y, each step in 32-bit arithmetic. */
    function HashCode(): (h: int)
      ensures -TwoTo31 <= h < TwoTo31
    {
      var hash := 373;
      var hash' := Wrap32(37 * hash + x);
      Wrap32(37 * hash' + y)
    }

    /** toString: "(" + x + "," + y + ")". */
    function ToString(): string {
      "(" + IntToString(x) + "," + IntToString(y) + ")"
    }

    /** compareTo as written: -1 when this point comes first (x, then y), and 1 otherwise,
        including when the two points are equal. */
    function CompareTo(other: Point): (r: int)
      ensures r == -1 || r == 1
    {
      if x < other.x then -1
      else if x == other.x && y < other.y then -1
      else 1
    }

    /** compareTo as the Comparable contract requires it: 0 for equal points. */
    function CompareToConsistent(other: Point): (r: int)
      ensures r == -1 || r == 0 || r == 1
      ensures r == 0 <==> this == other
    {
      if this == other then 0 else CompareTo(other)
    }
  }

  /** The position of the first comma in `s`, or |s| when there is none. */
  function IndexOfComma(s: string): (k: nat)
    ensures k <= |s|
    ensures k < |s| ==> s[k] == ','
    ensures forall i :: 0 <= i < k ==> s[i] != ','
  {
    if s == [] then 0 else if s[0] == ',' then 0 else 1 + IndexOfComma(s[1..])
  }

  /** Reads a point back from the text `Point.ToString` produces. */
  function ParsePoint(s: string): Option<Point> {
    if 2 <= |s| && s[0] == '(' && s[|s| - 1] == ')' then
      var inner := s[1..|s| - 1];
      var k := IndexOfComma(inner);
      if k < |inner| && IsIntLiteral(inner[..k]) && IsIntLiteral(inner[k + 1..]) then
        Some(Point(ParseInt(inner[..k]), ParseInt(inner[k + 1..])))
      else
        None
    else
      None
  }

  /** In `a,b` with no comma in a, the first comma is the one after a. */
  lemma CommaSplit(a: string, b: string)
    requires forall i :: 0 <= i < |a| ==> a[i] != ','
    ensures IndexOfComma(a + "," + b) == |a|
    ensures (a + "," + b)[..|a|] == a && (a + "," + b)[|a| + 1..] == b
  {
    var t := a + "," + b;
    assert t[|a|] == ',';
    forall i | 0 <= i < |a| ensures t[i] != ',' {
      assert t[i] == a[i];
    }
    assert t[..|a|] == a;
    assert t[|a| + 1..] == b;
  }

  /** Two integer literals around a comma, in parentheses, parse back to their values. */
  lemma ParseWrapped(a: string, b: string)
    requires IsIntLiteral(a) && IsIntLiteral(b)
    requires forall i :: 0 <= i < |a| ==> a[i] != ','
    ensures ParsePoint("(" + (a + "," + b) + ")") == Some(Point(ParseInt(a), ParseInt(b)))
  {
    var inner := a + "," + b;
    var s := "(" + inner + ")";
    assert s[1..|s| - 1] == inner;
    CommaSplit(a, b);
  }

  /** The text of a point gives the point back, so distinct points render differently. */
  lemma ToStringRoundTrip(p: Point)
    ensures ParsePoint(p.ToString()) == Some(p)
  {
    var a, b := IntToString(p.x), IntToString(p.y);
    IntToStringRoundTrip(p.x);
    IntToStringRoundTrip(p.y);
    IntToStringChars(p.x);
    assert p.ToString() == "(" + (a + "," + b) + ")";
    ParseWrapped(a, b);
  }

  lemma ToStringInjective(p: Point, q: Point)
    ensures p.ToString() == q.ToString() ==> p == q
  {
    ToStringRoundTrip(p);
    ToStringRoundTrip(q);
  }

  lemma Wrap32Congruent(a: int, b: int)
    requires (a - b) % TwoTo32 == 0
    ensures Wrap32(a) == Wrap32(b)
  {
    var qa, qb := (a + TwoTo31) / TwoTo32, (b + TwoTo31) / TwoTo32;
    var k := (a - b) / TwoTo32;
    assert a - b == TwoTo32 * k;
    assert a + TwoTo31 == TwoTo32 * (qb + k) + (b + TwoTo31) % TwoTo32;
  }

  /** The hash is one wrapped linear form of the coordinates: 373 * 37 * 37 + 37 * x + y
      taken modulo 2^32, so it depends on x and y only, and equal points hash alike. */
  lemma HashCodeClosedForm(p: Point)
    ensures p.HashCode() == Wrap32(510637 + 37 * p.x + p.y)
  {
    var h := Wrap32(37 * 373 + p.x);
    var d := h - (13801 + p.x);
    assert d % TwoTo32 == 0;
    var k := d / TwoTo32;
    assert d == TwoTo32 * k;
    assert (37 * h + p.y) - (510637 + 37 * p.x + p.y) == TwoTo32 * (37 * k);
    Wrap32Congruent(37 * h + p.y, 510637 + 37 * p.x + p.y);
  }

  /** On a board with `cols` columns, compareTo's -1 is exactly "comes earlier in the
      row-major order in which the board is laid out and rendered". */
  lemma {:induction false} CompareToIsRowMajor(a: Point, b: Point, cols: int)
    requires 0 <= a.y < cols && 0 <= b.y < cols
    ensures a.CompareTo(b) == -1 <==> a.x * cols + a.y < b.x * cols + b.y
  {
    if a.x < b.x {
      MulMonotone(b.x - a.x, cols);
      assert b.x * cols - a.x * cols == (b.x - a.x) * cols;
    } else if b.x < a.x {
      MulMonotone(a.x - b.x, cols);
      assert a.x * cols - b.x * cols == (a.x - b.x) * cols;
    }
  }

  lemma MulMonotone(k: int, cols: int)
    requires 1 <= k && 0 <= cols
    ensures cols <= k * cols
  {
  }

  /** The -1 relation is a strict total order, with (0,0) < (0,1) < (1,0); every point
      compares as 1 against itself, and distinct points compare oppositely. */
  lemma CompareToOrder(a: Point, b: Point, c: Point)
    ensures a.CompareTo(a) == 1
    ensures a != b ==> a.CompareTo(b) == -b.CompareTo(a)
    ensures a.CompareTo(b) == -1 && b.CompareTo(c) == -1 ==> a.CompareTo(c) == -1
    ensures Point(0, 0).CompareTo(Point(0, 1)) == -1 && Point(0, 1).CompareTo(Point(1, 0)) == -1
  {
  }

  /** As written, compareTo breaks Comparable's rule sgn(p.compareTo(q)) == -sgn(q.compareTo(p))
      on every point compared with itself. */
  lemma CompareToBreaksComparableContract(p: Point)
    ensures p.CompareTo(p) != -p.CompareTo(p)
  {
  }

  /** The corrected comparison keeps the Comparable contract for all points, and agrees with
      the written one on distinct points. */
  lemma ComparableContract(a: Point, b: Point, c: Point)
    ensures a.CompareToConsistent(b) == -b.CompareToConsistent(a)
    ensures a.CompareToConsistent(b) < 0 && b.CompareToConsistent(c) < 0 ==> a.CompareToConsistent(c) < 0
    ensures a.CompareToConsistent(b) == 0 ==> a.CompareToConsistent(c) == b.CompareToConsistent(c)
    ensures a != b ==> a.CompareToConsistent(b) == a.CompareTo(b)
  {
  }
}
