// The classification scan: one row-major pass over the world that lists the
// empty locations and the dissatisfied actors.

module Classification {
  import opened Grids
  import opened Satisfaction

  /** The two lists the scan fills. */
  datatype Bucket = Vacant | Unsettled(threshold: real)

  /** Which list the cell at p goes to: empty cells first, otherwise actors that fail the test. */
  predicate Belongs(g: Grid, b: Bucket, p: Point)
    requires Rectangular(g) && InGrid(g, p)
  {
    match b
    case Vacant => At(g, p) == None
    case Unsettled(threshold) => At(g, p) != None && DissatisfiedAt(g, p, threshold)
  }

  /** The cells of row y among columns [0, n) that go to b, left to right. */
  function RowPart(g: Grid, b: Bucket, y: int, n: nat): seq<Point>
    requires Rectangular(g) && 0 <= y < |g| && n <= Width(g)
  {
    if n == 0 then []
    else RowPart(g, b, y, n - 1) + (if Belongs(g, b, Point(n - 1, y)) then [Point(n - 1, y)] else [])
  }

  /** The cells of rows [0, m) that go to b, in row-major order. */
  function Rows(g: Grid, b: Bucket, m: nat): seq<Point>
    requires Rectangular(g) && m <= |g|
  {
    if m == 0 then [] else Rows(g, b, m - 1) + RowPart(g, b, m - 1, Width(g))
  }

  /** The list of empty locations a scan of g produces. */
  function NoneLocations(g: Grid): seq<Point>
    requires Rectangular(g)
  {
    Rows(g, Vacant, |g|)
  }

  /** The list of dissatisfied actors a scan of g produces. */
  function DissatisfiedLocations(g: Grid, threshold: real): seq<Point>
    requires Rectangular(g)
  {
    Rows(g, Unsettled(threshold), |g|)
  }

  /** Row-major order: by row, then by column. */
  predicate Before(p: Point, q: Point)
  {
    p.y < q.y || (p.y == q.y && p.x < q.x)
  }

  predicate RowMajor(s: seq<Point>)
  {
    forall i, j :: 0 <= i < j < |s| ==> Before(s[i], s[j])
  }

  predicate Distinct(s: seq<Point>)
  {
    forall i, j :: 0 <= i < j < |s| ==> s[i] != s[j]
  }

  lemma RowMajorConcat(a: seq<Point>, b: seq<Point>)
    requires RowMajor(a) && RowMajor(b)
    requires forall p, q :: p in a && q in b ==> Before(p, q)
    ensures RowMajor(a + b)
  {
    forall i, j | 0 <= i < j < |a + b| ensures Before((a + b)[i], (a + b)[j]) {
      if j < |a| {
      } else if i >= |a| {
        assert (a + b)[i] == b[i - |a|] && (a + b)[j] == b[j - |a|];
      } else {
        assert (a + b)[i] == a[i] && (a + b)[j] == b[j - |a|];
      }
    }
  }

  lemma {:induction false} RowPartExact(g: Grid, b: Bucket, y: int, n: nat)
    requires Rectangular(g) && 0 <= y < |g| && n <= Width(g)
    ensures RowMajor(RowPart(g, b, y, n))
    ensures forall q :: q in RowPart(g, b, y, n) <==> q.y == y && 0 <= q.x < n && Belongs(g, b, q)
  {
    if n > 0 {
      RowPartExact(g, b, y, n - 1);
      var q := Point(n - 1, y);
      var tail := if Belongs(g, b, q) then [q] else [];
      RowMajorConcat(RowPart(g, b, y, n - 1), tail);
    }
  }

  lemma {:induction false} RowsExact(g: Grid, b: Bucket, m: nat)
    requires Rectangular(g) && m <= |g|
    ensures RowMajor(Rows(g, b, m))
    ensures forall q :: q in Rows(g, b, m) <==> 0 <= q.y < m && 0 <= q.x < Width(g) && Belongs(g, b, q)
  {
    if m > 0 {
      RowsExact(g, b, m - 1);
      RowPartExact(g, b, m - 1, Width(g));
      RowMajorConcat(Rows(g, b, m - 1), RowPart(g, b, m - 1, Width(g)));
    }
  }

  /**
   * The scan is exact: the empty list holds exactly the empty cells, the
   * dissatisfied list exactly the actors that fail the test; both are in
   * row-major order, so neither repeats a location, and no location is in both.
   */
  lemma ClassificationExact(g: Grid, threshold: real)
    requires Rectangular(g)
    ensures forall q :: q in NoneLocations(g) <==> InGrid(g, q) && At(g, q) == None
    ensures forall q :: q in DissatisfiedLocations(g, threshold)
                        <==> InGrid(g, q) && At(g, q) != None && DissatisfiedAt(g, q, threshold)
    ensures RowMajor(NoneLocations(g)) && RowMajor(DissatisfiedLocations(g, threshold))
    ensures Distinct(NoneLocations(g)) && Distinct(DissatisfiedLocations(g, threshold))
    ensures forall q :: q in NoneLocations(g) ==> q !in DissatisfiedLocations(g, threshold)
  {
    RowsExact(g, Vacant, |g|);
    RowsExact(g, Unsettled(threshold), |g|);
  }

  /** A world is stable exactly when no actor in it is dissatisfied. */
  lemma StableIff(g: Grid, threshold: real)
    requires Rectangular(g)
    ensures DissatisfiedLocations(g, threshold) == []
            <==> forall q :: InGrid(g, q) && At(g, q) != None ==> !DissatisfiedAt(g, q, threshold)
  {
    ClassificationExact(g, threshold);
    var d := DissatisfiedLocations(g, threshold);
    if d != [] {
      assert d[0] in d;
    }
  }
}
