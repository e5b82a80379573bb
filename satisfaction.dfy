// The satisfaction test: how an actor sees its Moore neighbourhood, and when it
// wants to move.

module Satisfaction {
  import opened Grids

  /*
   * The engine visits the neighbourhood column by column: xOffset runs from
   * -1 to 1 in the outer loop, yOffset from -1 to 1 in the inner one. The
   * tallies below follow the same order, a column at a time.
   */

  /** The visit at (xOffset, yOffset) is counted: it is not the centre and it lies inside the grid. */
  predicate Counted(g: Grid, p: Point, xOffset: int, yOffset: int)
  {
    !(xOffset == 0 && yOffset == 0) && InBounds(g, p.x + xOffset, p.y + yOffset)
  }

  /** 1 when the visit at (xOffset, yOffset) is counted and finds a, else 0. */
  function Seen(g: Grid, p: Point, a: Actor, xOffset: int, yOffset: int): nat
    requires Rectangular(g)
  {
    if Counted(g, p, xOffset, yOffset) && g[p.y + yOffset][p.x + xOffset] == a then 1 else 0
  }

  /** The first m visits (yOffset from -1 up) of column xOffset that find a. */
  function ColumnTally(g: Grid, p: Point, a: Actor, xOffset: int, m: nat): nat
    requires Rectangular(g) && m <= 3
  {
    if m == 0 then 0 else ColumnTally(g, p, a, xOffset, m - 1) + Seen(g, p, a, xOffset, m - 2)
  }

  /** The visits of the first n columns (xOffset from -1 up) that find a. */
  function Tally(g: Grid, p: Point, a: Actor, n: nat): nat
    requires Rectangular(g) && n <= 3
  {
    if n == 0 then 0 else Tally(g, p, a, n - 1) + ColumnTally(g, p, a, n - 2, 3)
  }

  /** Number of neighbours of p, inside the grid, that hold a. */
  function NeighbourCount(g: Grid, p: Point, a: Actor): nat
    requires Rectangular(g)
  {
    Tally(g, p, a, 3)
  }

  /** 1 when the visit at (xOffset, yOffset) is counted at all, else 0. */
  function Visible(g: Grid, p: Point, xOffset: int, yOffset: int): nat
  {
    if Counted(g, p, xOffset, yOffset) then 1 else 0
  }

  /** How many visits of column xOffset are counted at all. */
  function ColumnCounted(g: Grid, p: Point, xOffset: int): nat
  {
    Visible(g, p, xOffset, -1) + Visible(g, p, xOffset, 0) + Visible(g, p, xOffset, 1)
  }

  /** How many of the nine visits are counted at all. */
  function CountedVisits(g: Grid, p: Point): nat
  {
    ColumnCounted(g, p, -1) + ColumnCounted(g, p, 0) + ColumnCounted(g, p, 1)
  }

  /** How many of c - 1, c, c + 1 lie in [0, n). */
  function Span(c: int, n: nat): nat
  {
    (if 0 <= c - 1 < n then 1 else 0) + (if 0 <= c < n then 1 else 0) + (if 0 <= c + 1 < n then 1 else 0)
  }

  /** The actor's own kind among its neighbours (a cell that is not Red is judged as Blue). */
  function SameKind(g: Grid, p: Point): nat
    requires Rectangular(g) && InGrid(g, p)
  {
    if At(g, p) == Red then NeighbourCount(g, p, Red) else NeighbourCount(g, p, Blue)
  }

  /** Occupied neighbours: empty ones count toward neither kind. */
  function Occupied(g: Grid, p: Point): nat
    requires Rectangular(g)
  {
    NeighbourCount(g, p, Blue) + NeighbourCount(g, p, Red)
  }

  /**
   * The threshold test on counts: an actor of the given kind with nBlue Blue
   * and nRed Red neighbours. With no occupied neighbour it is dissatisfied;
   * otherwise it is dissatisfied when the share of its own kind (Red for a
   * Red actor, Blue for any other) is below the threshold.
   */
  function Unhappy(kind: Actor, nBlue: nat, nRed: nat, threshold: real): (u: bool)
    ensures nBlue + nRed == 0 ==> u
    ensures nBlue + nRed > 0 ==>
              (u <==> (if kind == Red then nRed else nBlue) as real < threshold * (nBlue + nRed) as real)
  {
    if nBlue + nRed > 0 then
      var quota := if kind == Red then nRed as real / (nBlue + nRed) as real
                   else nBlue as real / (nBlue + nRed) as real;
      ShareBelow(if kind == Red then nRed else nBlue, nBlue + nRed, threshold);
      quota < threshold
    else
      true
  }

  /** A share same / total is below t exactly when same is below t * total. */
  lemma ShareBelow(same: nat, total: nat, t: real)
    requires total > 0
    ensures same as real / total as real < t <==> (same as real) < t * (total as real)
  {
    var quota, d := same as real / total as real, total as real;
    assert quota * d == same as real;
    assert quota < t <==> quota * d < t * d;
  }

  /** The satisfaction test of the actor at p against its neighbourhood. */
  predicate DissatisfiedAt(g: Grid, p: Point, threshold: real)
    requires Rectangular(g) && InGrid(g, p)
  {
    Unhappy(At(g, p), NeighbourCount(g, p, Blue), NeighbourCount(g, p, Red), threshold)
  }

  /** A column's tally is its three visits, yOffset -1, 0 and 1. */
  lemma ColumnOf(g: Grid, p: Point, a: Actor, xOffset: int)
    requires Rectangular(g)
    ensures ColumnTally(g, p, a, xOffset, 3) == Seen(g, p, a, xOffset, -1) + Seen(g, p, a, xOffset, 0) + Seen(g, p, a, xOffset, 1)
  {
    assert ColumnTally(g, p, a, xOffset, 1) == Seen(g, p, a, xOffset, -1);
    assert ColumnTally(g, p, a, xOffset, 2) == Seen(g, p, a, xOffset, -1) + Seen(g, p, a, xOffset, 0);
  }

  /** The neighbour count is the tallies of the three columns, xOffset -1, 0 and 1. */
  lemma CountOf(g: Grid, p: Point, a: Actor)
    requires Rectangular(g)
    ensures NeighbourCount(g, p, a) == ColumnTally(g, p, a, -1, 3) + ColumnTally(g, p, a, 0, 3) + ColumnTally(g, p, a, 1, 3)
  {
    assert Tally(g, p, a, 1) == ColumnTally(g, p, a, -1, 3);
    assert Tally(g, p, a, 2) == ColumnTally(g, p, a, -1, 3) + ColumnTally(g, p, a, 0, 3);
  }

  /** Each counted visit of a column finds exactly one kind. */
  lemma ColumnKinds(g: Grid, p: Point, xOffset: int)
    requires Rectangular(g)
    ensures ColumnTally(g, p, Blue, xOffset, 3) + ColumnTally(g, p, Red, xOffset, 3) + ColumnTally(g, p, None, xOffset, 3)
            == ColumnCounted(g, p, xOffset)
  {
    ColumnOf(g, p, Blue, xOffset);
    ColumnOf(g, p, Red, xOffset);
    ColumnOf(g, p, None, xOffset);
  }

  /** Every counted visit finds exactly one kind. */
  lemma TallyKinds(g: Grid, p: Point)
    requires Rectangular(g)
    ensures NeighbourCount(g, p, Blue) + NeighbourCount(g, p, Red) + NeighbourCount(g, p, None) == CountedVisits(g, p)
  {
    CountOf(g, p, Blue);
    CountOf(g, p, Red);
    CountOf(g, p, None);
    ColumnKinds(g, p, -1);
    ColumnKinds(g, p, 0);
    ColumnKinds(g, p, 1);
  }

  /** A column inside the grid counts the rows around p that exist, less p itself in the middle column. */
  lemma ColumnSize(g: Grid, p: Point, xOffset: int)
    requires InGrid(g, p)
    ensures ColumnCounted(g, p, xOffset)
            == if 0 <= p.x + xOffset < Width(g) then Span(p.y, |g|) - (if xOffset == 0 then 1 else 0) else 0
  {
  }

  lemma SpanProduct(c: int, w: nat, sy: nat)
    requires 0 <= c < w
    ensures Span(c, w) * sy == (if 0 <= c - 1 < w then sy else 0) + sy + (if 0 <= c + 1 < w then sy else 0)
  {
    var vl, vr := 0 <= c - 1 < w, 0 <= c + 1 < w;
    if vl && vr { assert Span(c, w) == 3; }
    else if vl || vr { assert Span(c, w) == 2; }
    else { assert Span(c, w) == 1; }
  }

  /** The visits counted are exactly the in-grid cells of the 3 x 3 block around p, less p itself. */
  lemma CountedVisitsAll(g: Grid, p: Point)
    requires InGrid(g, p)
    ensures CountedVisits(g, p) == Span(p.x, Width(g)) * Span(p.y, |g|) - 1
  {
    ColumnSize(g, p, -1);
    ColumnSize(g, p, 0);
    ColumnSize(g, p, 1);
    SpanProduct(p.x, Width(g), Span(p.y, |g|));
  }

  /**
   * Out-of-grid cells are never counted and the centre is skipped: a corner
   * sees at most 3 neighbours, an edge cell at most 5, any cell at most 8,
   * and with room enough those bounds are exact.
   */
  lemma NeighbourhoodSize(g: Grid, p: Point)
    requires Rectangular(g) && InGrid(g, p)
    ensures var total := NeighbourCount(g, p, Blue) + NeighbourCount(g, p, Red) + NeighbourCount(g, p, None);
      var w, h := Width(g), |g|;
      var xEdge, yEdge := p.x == 0 || p.x == w - 1, p.y == 0 || p.y == h - 1;
      && total == Span(p.x, w) * Span(p.y, h) - 1
      && total <= 8
      && (xEdge || yEdge ==> total <= 5)
      && (xEdge && yEdge ==> total <= 3)
      && (xEdge && yEdge && w >= 2 && h >= 2 ==> total == 3)
      && (xEdge != yEdge && w >= 3 && h >= 3 ==> total == 5)
      && (!xEdge && !yEdge ==> total == 8)
  {
    TallyKinds(g, p);
    CountedVisitsAll(g, p);
    var sx, sy := Span(p.x, Width(g)), Span(p.y, |g|);
    assert 1 <= sx <= 3 && 1 <= sy <= 3;
    if sx == 1 { assert sx * sy == sy; }
    else if sx == 2 { assert sx * sy == sy + sy; }
    else { assert sx * sy == sy + sy + sy; }
  }

  /** An actor with no occupied neighbour is dissatisfied whatever the threshold. */
  lemma IsolatedIsDissatisfied(g: Grid, p: Point, threshold: real)
    requires Rectangular(g) && InGrid(g, p) && Occupied(g, p) == 0
    ensures DissatisfiedAt(g, p, threshold)
  {
  }

  /** Otherwise the test compares same-kind neighbours with the threshold share of occupied ones. */
  lemma DissatisfiedIff(g: Grid, p: Point, threshold: real)
    requires Rectangular(g) && InGrid(g, p)
    ensures DissatisfiedAt(g, p, threshold)
            <==> Occupied(g, p) == 0 || (SameKind(g, p) as real) < threshold * (Occupied(g, p) as real)
  {
  }

  /** In whole numbers, for a threshold num / den: same * den < num * occupied. */
  lemma DissatisfiedRational(g: Grid, p: Point, num: nat, den: nat)
    requires Rectangular(g) && InGrid(g, p) && den > 0
    ensures DissatisfiedAt(g, p, num as real / den as real)
            <==> Occupied(g, p) == 0 || SameKind(g, p) * den < num * Occupied(g, p)
  {
    DissatisfiedIff(g, p, num as real / den as real);
    CrossMultiply(SameKind(g, p), Occupied(g, p), num, den);
  }

  lemma CrossMultiply(s: nat, o: nat, num: nat, den: nat)
    requires den > 0
    ensures (s as real) < (num as real / den as real) * (o as real) <==> s * den < num * o
  {
    var t, d := num as real / den as real, den as real;
    assert t * d == num as real;
    assert (s as real) < t * (o as real) <==> (s as real) * d < t * (o as real) * d;
    assert t * (o as real) * d == (num as real) * (o as real);
    assert (s * den) as real == (s as real) * d;
    assert (num * o) as real == (num as real) * (o as real);
  }

  /** Raising the threshold never makes a dissatisfied actor satisfied. */
  lemma ThresholdMonotone(g: Grid, p: Point, t1: real, t2: real)
    requires Rectangular(g) && InGrid(g, p) && t1 <= t2 && DissatisfiedAt(g, p, t1)
    ensures DissatisfiedAt(g, p, t2)
  {
  }

  /** The small hand-written world the engine's test fixture builds. */
  const TestWorld: Grid := [[Red, Red, None], [None, Blue, None], [Red, None, Blue]]

  /** The Blue actor in the centre has one Blue and three Red neighbours: share 1/4 < 0.5. */
  lemma TestWorldCentre()
    ensures Rectangular(TestWorld) && InGrid(TestWorld, Point(1, 1))
    ensures NeighbourCount(TestWorld, Point(1, 1), Blue) == 1
    ensures NeighbourCount(TestWorld, Point(1, 1), Red) == 3
    ensures DissatisfiedAt(TestWorld, Point(1, 1), 0.5)
  {
  }

  /** The Red actor in the top-left corner has one Red and one Blue neighbour: share 1/2 is not below 0.5. */
  lemma TestWorldCorner()
    ensures Rectangular(TestWorld) && InGrid(TestWorld, Point(0, 0))
    ensures NeighbourCount(TestWorld, Point(0, 0), Blue) == 1
    ensures NeighbourCount(TestWorld, Point(0, 0), Red) == 1
    ensures !DissatisfiedAt(TestWorld, Point(0, 0), 0.5)
  {
    assert Rectangular(TestWorld);
    CornerCount(TestWorld, Point(0, 0), Blue);
    CornerCount(TestWorld, Point(0, 0), Red);
  }

  /** Only the three in-grid neighbours of a top-left corner are seen. */
  lemma CornerCount(g: Grid, p: Point, a: Actor)
    requires Rectangular(g) && |g| >= 2 && Width(g) >= 2 && p.x == 0 && p.y == 0
    ensures NeighbourCount(g, p, a)
            == (if g[1][0] == a then 1 else 0) + (if g[0][1] == a then 1 else 0) + (if g[1][1] == a then 1 else 0)
  {
    CountOf(g, p, a);
    ColumnOf(g, p, a, -1);
    ColumnOf(g, p, a, 0);
    ColumnOf(g, p, a, 1);
  }
}
