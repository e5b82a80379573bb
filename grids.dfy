// The world of the segregation simulation as a value: cell kinds, positions,
// rectangular grids of cells and how many cells of each kind they hold.

module Grids {

  /** What a cell holds; None marks an empty location. */
  datatype Actor = Blue | Red | None

  /** A location: x is the column, y the row (the engine reads world[y][x]). */
  datatype Point = Point(x: int, y: int)

  /** The cells of a world, row by row: g[y][x]. */
  type Grid = seq<seq<Actor>>

  /** Number of columns, taken from the first row as the engine does. */
  function Width(g: Grid): nat
  {
    if |g| == 0 then 0 else |g[0]|
  }

  predicate Rectangular(g: Grid)
  {
    forall y :: 0 <= y < |g| ==> |g[y]| == Width(g)
  }

  /** Column x, row y is a cell of g. */
  predicate InBounds(g: Grid, x: int, y: int)
  {
    0 <= y < |g| && 0 <= x < Width(g)
  }

  predicate InGrid(g: Grid, p: Point)
  {
    InBounds(g, p.x, p.y)
  }

  function At(g: Grid, p: Point): Actor
    requires Rectangular(g) && InGrid(g, p)
  {
    g[p.y][p.x]
  }

  /** The grid with the cell at p replaced by a. */
  function Put(g: Grid, p: Point, a: Actor): (r: Grid)
    requires Rectangular(g) && InGrid(g, p)
    ensures Rectangular(r) && |r| == |g| && Width(r) == Width(g)
    ensures At(r, p) == a
    ensures forall q :: InGrid(g, q) && q != p ==> At(r, q) == At(g, q)
  {
    g[p.y := g[p.y][p.x := a]]
  }

  /** A rows-by-cols grid whose every cell holds a. */
  function Filled(rows: nat, cols: nat, a: Actor): (r: Grid)
    ensures Rectangular(r) && |r| == rows && (rows > 0 ==> Width(r) == cols)
    ensures forall p :: InGrid(r, p) ==> At(r, p) == a
  {
    seq(rows, _ => seq(cols, _ => a))
  }

  /** after is before with some empty cells, and only empty cells, now holding a. */
  ghost predicate Fills(before: Grid, after: Grid, a: Actor)
    requires Rectangular(before) && Rectangular(after)
  {
    && |after| == |before| && Width(after) == Width(before)
    && forall q :: InGrid(before, q) ==> (At(after, q) == At(before, q) || (At(before, q) == None && At(after, q) == a))
  }

  /** Writing a into a cell that is still empty keeps the overlay property. */
  lemma FillsPut(before: Grid, g: Grid, p: Point, a: Actor)
    requires Rectangular(before) && Rectangular(g) && Fills(before, g, a)
    requires InGrid(g, p) && At(g, p) == None
    ensures Fills(before, Put(g, p, a), a)
  {
  }

  /** Number of cells of g that hold a. */
  function Population(g: Grid, a: Actor): nat
  {
    if |g| == 0 then 0 else Population(g[..|g| - 1], a) + multiset(g[|g| - 1])[a]
  }

  /** Replacing one cell moves exactly that cell's contribution between kinds. */
  lemma {:induction false} PopulationPut(g: Grid, p: Point, v: Actor, a: Actor)
    requires Rectangular(g) && InGrid(g, p)
    ensures Population(Put(g, p, v), a)
            == Population(g, a) - (if At(g, p) == a then 1 else 0) + (if v == a then 1 else 0)
  {
    var n := |g|;
    var h := Put(g, p, v);
    if p.y == n - 1 {
      assert h[..n - 1] == g[..n - 1];
      assert h[n - 1] == g[n - 1][p.x := v];
    } else {
      var pre := g[..n - 1];
      assert Width(pre) == Width(g);
      assert h[..n - 1] == Put(pre, p, v);
      PopulationPut(pre, p, v, a);
    }
  }

  /** A kind that is present occupies some cell of the grid. */
  lemma {:induction false} PopulationWitness(g: Grid, a: Actor) returns (p: Point)
    requires Rectangular(g) && Population(g, a) > 0
    ensures InGrid(g, p) && At(g, p) == a
  {
    var n := |g|;
    var last := g[n - 1];
    if multiset(last)[a] > 0 {
      assert a in last;
      var x :| 0 <= x < |last| && last[x] == a;
      p := Point(x, n - 1);
    } else {
      var pre := g[..n - 1];
      assert Width(pre) == Width(g);
      p := PopulationWitness(pre, a);
    }
  }

  lemma {:induction false} ConstantRowCount(cols: nat, a: Actor, b: Actor)
    ensures multiset(seq(cols, _ => a))[b] == if a == b then cols else 0
  {
    if cols > 0 {
      var row := seq(cols, _ => a);
      assert row == seq(cols - 1, _ => a) + [a];
      ConstantRowCount(cols - 1, a, b);
    }
  }

  /** A freshly filled world holds rows * cols cells of its kind and none of any other. */
  lemma {:induction false} PopulationFilled(rows: nat, cols: nat, a: Actor, b: Actor)
    ensures Population(Filled(rows, cols, a), b) == if a == b then rows * cols else 0
  {
    if rows > 0 {
      var g := Filled(rows, cols, a);
      assert g[..rows - 1] == Filled(rows - 1, cols, a);
      assert g[rows - 1] == seq(cols, _ => a);
      PopulationFilled(rows - 1, cols, a, b);
      ConstantRowCount(cols, a, b);
      if a == b {
        calc {
          Population(g, b);
          Population(Filled(rows - 1, cols, a), b) + cols;
          (rows - 1) * cols + cols;
          { assert (rows - 1) * cols + cols == rows * cols; }
          rows * cols;
        }
      }
    }
  }

  /**
   * Side length of the square world built for n locations: the floor of the
   * square root, found from the floor root of n / 4 (recursion depth log4 n).
   */
  function FloorSqrt(n: nat): (r: nat)
    ensures r * r <= n < (r + 1) * (r + 1)
  {
    if n == 0 then 0
    else
      var s := FloorSqrt(n / 4);
      RootStep(n, n / 4, s);
      var r := 2 * s;
      if (r + 1) * (r + 1) <= n then r + 1 else r
  }

  /** Doubling the floor root of n / 4 brackets the root of n: (2s)^2 <= n < (2s + 2)^2. */
  lemma RootStep(n: nat, q: nat, s: nat)
    requires q == n / 4 && s * s <= q < (s + 1) * (s + 1)
    ensures (2 * s) * (2 * s) <= n < (2 * s + 2) * (2 * s + 2)
  {
    assert 4 * q <= n < 4 * q + 4;
    assert (2 * s) * (2 * s) == 4 * (s * s);
    assert (2 * s + 2) * (2 * s + 2) == 4 * ((s + 1) * (s + 1));
  }

  lemma SquareMonotone(a: nat, b: nat)
    requires a <= b
    ensures a * a <= b * b
  {
    var d := b - a;
    assert b * b == a * a + 2 * a * d + d * d;
  }

  /** The floor square root is the only s with s * s <= n < (s + 1) * (s + 1). */
  lemma FloorSqrtUnique(n: nat, s: nat)
    requires s * s <= n < (s + 1) * (s + 1)
    ensures FloorSqrt(n) == s
  {
    var r := FloorSqrt(n);
    if r < s {
      SquareMonotone(r + 1, s);
    } else if r > s {
      SquareMonotone(s + 1, r);
    }
  }

  /** A perfect square keeps all its locations: 100 gives a 10 x 10 world, 90000 a 300 x 300 one. */
  lemma FloorSqrtOfSquare(k: nat)
    ensures FloorSqrt(k * k) == k
  {
    assert (k + 1) * (k + 1) == k * k + 2 * k + 1;
    FloorSqrtUnique(k * k, k);
  }
}
