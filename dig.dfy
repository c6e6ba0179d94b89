/**
 * Board.dig (src/minesweeper/Board.java:163-189) as a function on grids. DigAt checks the
 * square in the source's order (bomb first, then dug or flagged, then the neighbour count)
 * and DigAround is the loop over the eight offsets that re-digs each in-bounds neighbour.
 * The recursion ends because every call either returns or first turns an undug square dug:
 * the set of undug squares shrinks.
 */
module Digging {
  import opened Points
  import opened Squares
  import opened Grids

  ghost function Undug(g: Grid): set<Point> {
    set q | q in g && !g[q].IsDug()
  }

  /** Between g and g' the keys are the same, every changed square is now dug and bomb-free,
      and every square that was already dug and bomb-free is unchanged. */
  ghost predicate DigsOnly(g: Grid, g': Grid) {
    && g'.Keys == g.Keys
    && (forall q :: q in g && g'[q] != g[q] ==> g'[q].Dug? && !g'[q].bomb)
    && (forall q :: q in g && g[q].Dug? && !g[q].bomb ==> g'[q] == g[q])
  }

  function DigAt(g: Grid, p: Point): (g': Grid)
    requires p in g
    ensures g'.Keys == g.Keys
    ensures Undug(g') <= Undug(g)
    decreases Undug(g), 0, 0
  {
    if g[p].HasBomb() then
      g[p := DugSquare(BombsAround(g, p))]
    else if g[p].IsDug() || g[p].HasFlag() then
      g
    else
      var count := BombsAround(g, p);
      if count > 0 then
        g[p := DugSquare(count)]
      else
        var g1 := g[p := DugSquare(0)];
        assert p in Undug(g) && p !in Undug(g1);
        DigAround(g1, p, 0)
  }

  /** Digs, in offset order, each neighbour of p from offset i on that is on the board. */
  function DigAround(g: Grid, p: Point, i: nat): (g': Grid)
    requires i <= |Adjacencies|
    ensures g'.Keys == g.Keys
    ensures Undug(g') <= Undug(g)
    decreases Undug(g), 1, |Adjacencies| - i
  {
    if i == |Adjacencies| then
      g
    else
      var n := Neighbour(p, i);
      var g1 := if n in g then DigAt(g, n) else g;
      DigAround(g1, p, i + 1)
  }

  lemma SubsetTransitive<T>(a: set<T>, b: set<T>, c: set<T>)
    requires a <= b && b <= c
    ensures a <= c
  {
  }

  /** One pass of the neighbour loop: neighbour i is dug when it is on the board. */
  lemma DigAroundStep(g: Grid, g': Grid, p: Point, i: nat)
    requires i < |Adjacencies|
    requires g' == if Neighbour(p, i) in g then DigAt(g, Neighbour(p, i)) else g
    ensures DigAround(g, p, i) == DigAround(g', p, i + 1)
  {
  }

  /** Dug or flagged: the squares a cascade stops at. */
  predicate Settled(s: Square) {
    s.Dug? || s.Flagged?
  }

  /** g' comes from g by revealing untouched squares only: the keys and every square's bomb
      are unchanged, and each square that changed was untouched and now shows, dug, the true
      number of bombs around it. So flagged and dug squares are never touched. */
  ghost predicate RevealsOnly(g: Grid, g': Grid) {
    && g'.Keys == g.Keys
    && (forall q :: IsBombAt(g', q) <==> IsBombAt(g, q))
    && forall q :: q in g && g'[q] != g[q] ==>
         g[q].Untouched? && g'[q] == DugSquare(BombsAround(g, q))
  }

  /** Every square that g' newly shows as blank has all its on-board neighbours dug or
      flagged: the flood fill never stops at a blank square. */
  ghost predicate BlanksExpanded(g: Grid, g': Grid)
    requires g'.Keys == g.Keys
  {
    forall q, k ::
      (q in g && g'[q] != g[q] && g'[q] == DugSquare(0) &&
       0 <= k < |Adjacencies| && Neighbour(q, k) in g) ==>
        Settled(g'[Neighbour(q, k)])
  }

  lemma RevealsOnlyReflexive(g: Grid)
    ensures RevealsOnly(g, g) && BlanksExpanded(g, g)
  {
  }

  lemma RevealsOnlyTransitive(g1: Grid, g2: Grid, g3: Grid)
    requires RevealsOnly(g1, g2) && RevealsOnly(g2, g3)
    requires BlanksExpanded(g1, g2) && BlanksExpanded(g2, g3)
    ensures RevealsOnly(g1, g3) && BlanksExpanded(g1, g3)
  {
    SameBombsSameCounts(g1, g2);
    forall q, k | q in g1 && g3[q] != g1[q] && g3[q] == DugSquare(0) &&
      0 <= k < |Adjacencies| && Neighbour(q, k) in g1
      ensures Settled(g3[Neighbour(q, k)])
    {
      var n := Neighbour(q, k);
      if g2[q] != g1[q] {
        assert Settled(g2[n]);
      }
    }
  }

  /** Digging a square without a bomb reveals only untouched squares, each with its true
      count, expands every blank it reveals, and leaves the square itself dug or flagged. */
  lemma {:induction false} DigAtReveals(g: Grid, p: Point)
    requires p in g && !g[p].HasBomb()
    ensures RevealsOnly(g, DigAt(g, p))
    ensures BlanksExpanded(g, DigAt(g, p))
    ensures Settled(DigAt(g, p)[p])
    decreases Undug(g), 0, 0
  {
    if g[p].IsDug() || g[p].HasFlag() {
      RevealsOnlyReflexive(g);
    } else if BombsAround(g, p) > 0 {
    } else {
      var g1 := g[p := DugSquare(0)];
      assert p in Undug(g) && p !in Undug(g1);
      assert RevealsOnly(g, g1);
      SameBombsSameCounts(g, g1);
      forall m | 0 <= m < |Adjacencies| && Neighbour(p, m) in g1
        ensures !g1[Neighbour(p, m)].HasBomb()
      {
        NoBombAmongZero(g1, p, m, |Adjacencies|);
      }
      DigAroundReveals(g1, p, 0);
      var g' := DigAround(g1, p, 0);
      assert g'[p] == g1[p];
      SameBombsSameCounts(g1, g');
      forall q, k | q in g && g'[q] != g[q] && g'[q] == DugSquare(0) &&
        0 <= k < |Adjacencies| && Neighbour(q, k) in g
        ensures Settled(g'[Neighbour(q, k)])
      {
        if q != p {
          assert g'[q] != g1[q];
        }
      }
    }
  }

  lemma {:induction false} DigAroundReveals(g: Grid, p: Point, i: nat)
    requires i <= |Adjacencies|
    requires forall m :: i <= m < |Adjacencies| && Neighbour(p, m) in g ==>
      !g[Neighbour(p, m)].HasBomb()
    ensures RevealsOnly(g, DigAround(g, p, i))
    ensures BlanksExpanded(g, DigAround(g, p, i))
    ensures forall m :: i <= m < |Adjacencies| && Neighbour(p, m) in g ==>
      Settled(DigAround(g, p, i)[Neighbour(p, m)])
    decreases Undug(g), 1, |Adjacencies| - i
  {
    if i == |Adjacencies| {
      RevealsOnlyReflexive(g);
    } else {
      var n := Neighbour(p, i);
      var g1 := if n in g then DigAt(g, n) else g;
      if n in g {
        DigAtReveals(g, n);
      } else {
        RevealsOnlyReflexive(g);
      }
      DigAroundReveals(g1, p, i + 1);
      var g' := DigAround(g1, p, i + 1);
      RevealsOnlyTransitive(g, g1, g');
      if n in g {
        assert g'[n] == g1[n];
      }
    }
  }

  /** r was not a blank in g and shows as one, dug with no bombs around it, in g'. */
  ghost predicate NewBlank(g: Grid, g': Grid, r: Point) {
    r in g && r in g' && g'[r] != g[r] && g'[r] == DugSquare(0)
  }

  /** A walk of king's moves along which every square but the last was newly revealed blank
      between g and g': the only way a cascade travels. */
  ghost predicate RevealPath(g: Grid, g': Grid, path: seq<Point>) {
    0 < |path| &&
    forall i :: 0 <= i < |path| - 1 ==> NewBlank(g, g', path[i]) && Adjacent(path[i], path[i + 1])
  }

  ghost predicate Reached(g: Grid, g': Grid, p: Point, q: Point) {
    exists path :: RevealPath(g, g', path) && path[0] == p && path[|path| - 1] == q
  }

  /** Every square that changed between g and g' is reached from p. */
  ghost predicate ReachesOnlyFrom(g: Grid, g': Grid, p: Point) {
    forall q :: q in g && q in g' && g'[q] != g[q] ==> Reached(g, g', p, q)
  }

  /** Every square that changed between g and g' is reached from a neighbour of p at
      offset i or later that is on the board. */
  ghost predicate ReachesOnlyFromNeighbours(g: Grid, g': Grid, p: Point, i: nat) {
    forall q :: q in g && q in g' && g'[q] != g[q] ==>
      exists m :: i <= m < |Adjacencies| && Neighbour(p, m) in g && Reached(g, g', Neighbour(p, m), q)
  }

  /** Every square reaches itself, by the walk that does not move. */
  lemma ReachedSelf(g: Grid, g': Grid, p: Point)
    ensures Reached(g, g', p, p)
  {
    assert RevealPath(g, g', [p]);
  }

  /** A walk can start one step earlier, from a newly revealed blank next to its start. */
  lemma ReachedPrepend(g: Grid, g': Grid, p: Point, n: Point, q: Point)
    requires NewBlank(g, g', p) && Adjacent(p, n) && Reached(g, g', n, q)
    ensures Reached(g, g', p, q)
  {
    var path :| RevealPath(g, g', path) && path[0] == n && path[|path| - 1] == q;
    var walk := [p] + path;
    forall i | 0 <= i < |walk| - 1
      ensures NewBlank(g, g', walk[i]) && Adjacent(walk[i], walk[i + 1])
    {
      if 0 < i {
        assert walk[i] == path[i - 1] && walk[i + 1] == path[i];
      }
    }
    assert RevealPath(g, g', walk);
  }

  /** A walk over the blanks revealed between a and b is a walk between c and d too, when
      every blank revealed between a and b is also revealed between c and d. */
  lemma ReachedLifts(a: Grid, b: Grid, c: Grid, d: Grid, p: Point, q: Point)
    requires Reached(a, b, p, q)
    requires forall r :: NewBlank(a, b, r) ==> NewBlank(c, d, r)
    ensures Reached(c, d, p, q)
  {
    var path :| RevealPath(a, b, path) && path[0] == p && path[|path| - 1] == q;
    assert RevealPath(c, d, path);
  }

  /** Two digs in a row: a blank revealed by either, counted from the first grid to the last,
      is a blank revealed overall. */
  lemma NewBlanksCompose(g: Grid, g1: Grid, g': Grid)
    requires DigsOnly(g, g1) && DigsOnly(g1, g')
    ensures forall r :: NewBlank(g, g1, r) ==> NewBlank(g, g', r)
    ensures forall r :: NewBlank(g1, g', r) ==> NewBlank(g, g', r)
  {
  }

  /** The upper bound of a dig: it changes squares only into bomb-free dug squares, leaves
      bomb-free dug squares alone, and every square it changes is reached from p by a walk
      over squares the same dig revealed as blanks. */
  lemma {:induction false} DigAtReachesOnly(g: Grid, p: Point)
    requires p in g
    ensures DigsOnly(g, DigAt(g, p))
    ensures ReachesOnlyFrom(g, DigAt(g, p), p)
    decreases Undug(g), 0, 0
  {
    var g' := DigAt(g, p);
    if !g[p].HasBomb() && !g[p].IsDug() && !g[p].HasFlag() && BombsAround(g, p) == 0 {
      var g1 := g[p := DugSquare(0)];
      assert p in Undug(g) && p !in Undug(g1);
      assert g' == DigAround(g1, p, 0);
      DigAroundReachesOnly(g1, p, 0);
      ReachesThroughBlank(g, g1, g', p);
    } else {
      ReachedSelf(g, g', p);
    }
  }

  /** The cascade case of a dig: p is revealed blank first, so what the neighbour loop
      changes afterwards is reached from p through p's neighbours. */
  lemma ReachesThroughBlank(g: Grid, g1: Grid, g': Grid, p: Point)
    requires p in g && g[p].Untouched? && g1 == g[p := DugSquare(0)]
    requires DigsOnly(g1, g') && ReachesOnlyFromNeighbours(g1, g', p, 0)
    ensures DigsOnly(g, g') && ReachesOnlyFrom(g, g', p)
  {
    assert DigsOnly(g, g1);
    NewBlanksCompose(g, g1, g');
    assert NewBlank(g, g', p);
    ReachedSelf(g, g', p);
    forall q | q in g && q in g' && g'[q] != g[q] ensures Reached(g, g', p, q) {
      if q != p {
        assert g'[q] != g1[q];
        var m :| 0 <= m < |Adjacencies| && Neighbour(p, m) in g1 && Reached(g1, g', Neighbour(p, m), q);
        ReachedLifts(g1, g', g, g', Neighbour(p, m), q);
        NeighbourIsAdjacent(p, m);
        ReachedPrepend(g, g', p, Neighbour(p, m), q);
      }
    }
  }

  /** The neighbour loop from offset i keeps the same bounds, and every square it changes is
      reached from one of the neighbours it digs. */
  lemma {:induction false} DigAroundReachesOnly(g: Grid, p: Point, i: nat)
    requires i <= |Adjacencies|
    ensures DigsOnly(g, DigAround(g, p, i))
    ensures ReachesOnlyFromNeighbours(g, DigAround(g, p, i), p, i)
    decreases Undug(g), 1, |Adjacencies| - i
  {
    if i < |Adjacencies| {
      var n := Neighbour(p, i);
      var g1 := if n in g then DigAt(g, n) else g;
      var g' := DigAround(g1, p, i + 1);
      assert g' == DigAround(g, p, i);
      DigAroundReachesOnly(g1, p, i + 1);
      if n in g {
        DigAtReachesOnly(g, n);
      }
      ReachesFromNeighbours(g, g1, g', p, i);
    }
  }

  /** One pass of the neighbour loop keeps the bounds: what digging neighbour i changes is
      reached from it, and what the later passes change is reached from a later neighbour. */
  lemma ReachesFromNeighbours(g: Grid, g1: Grid, g': Grid, p: Point, i: nat)
    requires i < |Adjacencies|
    requires Neighbour(p, i) !in g ==> g1 == g
    requires Neighbour(p, i) in g ==> DigsOnly(g, g1) && ReachesOnlyFrom(g, g1, Neighbour(p, i))
    requires DigsOnly(g1, g') && ReachesOnlyFromNeighbours(g1, g', p, i + 1)
    ensures DigsOnly(g, g') && ReachesOnlyFromNeighbours(g, g', p, i)
  {
    var n := Neighbour(p, i);
    if n in g {
      NewBlanksCompose(g, g1, g');
    }
    forall q | q in g && q in g' && g'[q] != g[q]
      ensures exists m :: i <= m < |Adjacencies| && Neighbour(p, m) in g && Reached(g, g', Neighbour(p, m), q)
    {
      if g1[q] != g[q] {
        ReachedLifts(g, g1, g, g', n, q);
      } else {
        var m :| i + 1 <= m < |Adjacencies| && Neighbour(p, m) in g1 && Reached(g1, g', Neighbour(p, m), q);
        if n in g {
          ReachedLifts(g1, g', g, g', Neighbour(p, m), q);
        }
      }
    }
  }

  /** A count of 0 means no neighbour holds a bomb. */
  lemma {:induction false} NoBombAmongZero(g: Grid, p: Point, m: nat, k: nat)
    requires m < k <= |Adjacencies| && BombsAmong(g, p, k) == 0
    ensures !IsBombAt(g, Neighbour(p, m))
    decreases k
  {
    if m < k - 1 {
      NoBombAmongZero(g, p, m, k - 1);
    }
  }

  /** dig on a square holding a bomb (untouched or flagged): that square alone becomes a
      bomb-free dug square showing the bombs around it; there is no cascade. */
  lemma DigBomb(g: Grid, p: Point)
    requires p in g && g[p].HasBomb()
    ensures DigAt(g, p) == g[p := Dug(BombsAround(g, p), false)]
    ensures !IsBombAt(DigAt(g, p), p)
    ensures forall q :: q != p ==> (IsBombAt(DigAt(g, p), q) <==> IsBombAt(g, q))
  {
  }

  /** dig on a dug square, or on a flagged square without a bomb, changes nothing; on an
      untouched square without a bomb and with k > 0 bombs around it, only that square
      changes, to Dug(k). */
  lemma DigWithoutCascade(g: Grid, p: Point)
    requires p in g && !g[p].HasBomb()
    ensures g[p].IsDug() || g[p].HasFlag() ==> DigAt(g, p) == g
    ensures g[p].Untouched? && BombsAround(g, p) > 0 ==>
      DigAt(g, p) == g[p := DugSquare(BombsAround(g, p))]
  {
  }

  /** Digging the same square twice has the effect of digging it once. */
  lemma DigIdempotent(g: Grid, p: Point)
    requires p in g
    ensures DigAt(DigAt(g, p), p) == DigAt(g, p)
  {
    if !g[p].HasBomb() {
      DigAtReveals(g, p);
    }
  }

  /** Every dig keeps the board defused: dug squares hold no bomb and show at most 8. */
  lemma DigKeepsDefused(g: Grid, p: Point)
    requires p in g && Defused(g)
    ensures Defused(DigAt(g, p))
  {
    if !g[p].HasBomb() {
      DigAtReveals(g, p);
    }
  }

  /** On a board whose squares are all untouched and bomb-free, one dig anywhere reveals the
      whole board as blanks. */
  lemma ClearBoardDigsEverything(g: Grid, rows: int, cols: int, p: Point)
    requires Covers(g, rows, cols) && p in g
    requires forall q :: q in g ==> g[q] == Untouched(false)
    ensures forall q :: q in g ==> DigAt(g, p)[q] == DugSquare(0)
  {
    DigAtReveals(g, p);
    var g' := DigAt(g, p);
    forall q | q in g ensures g'[q] == DugSquare(0) {
      ClearBoardReaches(g, g', rows, cols, p, q, Distance(p, q));
    }
  }

  function Abs(n: int): nat {
    if n < 0 then -n else n
  }

  /** The number of king's moves from p to q. */
  function Distance(p: Point, q: Point): nat {
    if Abs(q.x - p.x) < Abs(q.y - p.y) then Abs(q.y - p.y) else Abs(q.x - p.x)
  }

  function Step(from: int, to: int): int {
    if from < to then from + 1 else if to < from then from - 1 else from
  }

  lemma {:induction false} ClearBoardReaches(g: Grid, g': Grid, rows: int, cols: int,
                                             p: Point, q: Point, d: nat)
    requires Covers(g, rows, cols) && p in g && q in g && d == Distance(p, q)
    requires forall r :: r in g ==> g[r] == Untouched(false)
    requires g' == DigAt(g, p)
    requires RevealsOnly(g, g') && BlanksExpanded(g, g') && Settled(g'[p])
    ensures g'[q] == DugSquare(0)
    decreases d
  {
    BombsAroundCountsAdjacentBombs(g, q);
    assert AdjacentBombSet(g, q) == {};
    if d == 0 {
      assert q == p;
    } else {
      var r := Point(Step(q.x, p.x), Step(q.y, p.y));
      assert Distance(p, r) == d - 1;
      assert InBounds(rows, cols, r);
      ClearBoardReaches(g, g', rows, cols, p, r, d - 1);
      var k := OffsetIndex(r, q);
      assert Settled(g'[Neighbour(r, k)]);
    }
  }
}
