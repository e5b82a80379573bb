// The engine itself: the world as a mutable square matrix of actors, and the
// operations that populate it, scan it and relocate the dissatisfied actors.
// The ghost field `cells` mirrors the matrix as a Grid value, so that each
// method is stated against the functions of the value-level modules.

module Engine {
  import opened Grids
  import opened Satisfaction
  import opened Classification
  import opened Relocation

  /** Share of like neighbours an actor wants, fixed by the engine's update step. */
  const Threshold: real := 0.7

  /** The number of actors a share of the locations amounts to: Java's cast truncates toward zero. */
  function Truncate(r: real): (n: int)
    ensures 0.0 <= r ==> n as real <= r < n as real + 1.0
    ensures r < 0.0 ==> r <= n as real < r + 1.0 && n <= 0
  {
    if r >= 0.0 then r.Floor else -((-r).Floor)
  }

  /** The side of the square world built for n locations: (int) Math.sqrt(n), 0 for negative n. */
  function Side(nLocations: int): (side: nat)
    ensures nLocations >= 0 ==> side * side <= nLocations < (side + 1) * (side + 1)
    ensures nLocations < 0 ==> side == 0
  {
    if nLocations < 0 then 0 else FloorSqrt(nLocations)
  }

  /** How many actors a request for n places: none when n is not positive. */
  function Placed(n: int): nat
  {
    if n > 0 then n else 0
  }

  class Neighbours {
    var world: array2<Actor>
    ghost var cells: Grid

    /** cells is the matrix read row by row: cells[y][x] == world[y, x]. */
    ghost predicate Valid()
      reads this, world
    {
      && |cells| == world.Length0
      && (forall y :: 0 <= y < |cells| ==> |cells[y]| == world.Length1)
      && Rectangular(cells)
      && (forall y, x :: 0 <= y < world.Length0 && 0 <= x < world.Length1 ==> cells[y][x] == world[y, x])
    }

    /** Before population the world has no locations. */
    constructor()
      ensures Valid() && cells == []
    {
      world := new Actor[0, 0]((_, _) => None);
      cells := [];
    }

    /**
     * Despite its name, true exactly when column x, row y lies OUTSIDE the
     * world; the neighbourhood scan skips such positions.
     */
    function IsInsideBounds(x: int, y: int): (outside: bool)
      reads this, world
      ensures Valid() ==> (outside <==> !InBounds(cells, x, y))
    {
      x < 0 || x >= world.Length1 || y < 0 || y >= world.Length0
    }

    /** Reading world[y][x]. */
    function Cell(x: int, y: int): (a: Actor)
      reads this, world
      requires Valid() && InBounds(cells, x, y)
      ensures a == cells[y][x]
    {
      world[y, x]
    }

    /** The matrix entry at p is the model's cell at p. */
    lemma Entry(p: Point)
      requires Valid() && InGrid(cells, p)
      ensures world[p.y, p.x] == At(cells, p)
      ensures 0 <= p.y < world.Length0 && 0 <= p.x < world.Length1
    {
    }

    /**
     * The satisfaction test at p: counts the Blue and Red neighbours over
     * the eight surrounding positions inside the world and compares the
     * actor's own share with the threshold.
     */
    method IsDissatisfied(p: Point, threshold: real) returns (dissatisfied: bool)
      requires Valid() && InGrid(cells, p)
      ensures dissatisfied == DissatisfiedAt(cells, p, threshold)
    {
      var nBlue, nRed := 0, 0;
      for xOffset := -1 to 2
        invariant nBlue == Tally(cells, p, Blue, xOffset + 1)
        invariant nRed == Tally(cells, p, Red, xOffset + 1)
      {
        ghost var blueBefore, redBefore := nBlue, nRed;
        for yOffset := -1 to 2
          invariant nBlue == blueBefore + ColumnTally(cells, p, Blue, xOffset, yOffset + 1)
          invariant nRed == redBefore + ColumnTally(cells, p, Red, xOffset, yOffset + 1)
        {
          var x, y := p.x + xOffset, p.y + yOffset;
          if (xOffset == 0 && yOffset == 0) || IsInsideBounds(x, y) {
            continue;
          }
          var neighbour := Cell(x, y);
          if neighbour == Blue {
            nBlue := nBlue + 1;
          } else if neighbour == Red {
            nRed := nRed + 1;
          }
        }
      }
      assert nBlue == NeighbourCount(cells, p, Blue) && nRed == NeighbourCount(cells, p, Red);
      Entry(p);
      if nBlue + nRed > 0 {
        var quota: real;
        if world[p.y, p.x] == Red {
          quota := nRed as real / (nBlue + nRed) as real;
        } else {
          quota := nBlue as real / (nBlue + nRed) as real;
        }
        return quota < threshold;
      } else {
        return true;
      }
    }

    /**
     * One row-major pass over the world: empty locations go to the first
     * list, occupied ones that fail the satisfaction test to the second.
     */
    method SetNonSatisfiedLocations(threshold: real) returns (noneLocations: seq<Point>, dissatisfiedLocations: seq<Point>)
      requires Valid()
      ensures noneLocations == NoneLocations(cells)
      ensures dissatisfiedLocations == DissatisfiedLocations(cells, threshold)
    {
      noneLocations, dissatisfiedLocations := [], [];
      for y := 0 to world.Length0
        invariant noneLocations == Rows(cells, Vacant, y)
        invariant dissatisfiedLocations == Rows(cells, Unsettled(threshold), y)
      {
        assert Width(cells) == world.Length1;
        for x := 0 to world.Length1
          invariant noneLocations == Rows(cells, Vacant, y) + RowPart(cells, Vacant, y, x)
          invariant dissatisfiedLocations == Rows(cells, Unsettled(threshold), y) + RowPart(cells, Unsettled(threshold), y, x)
        {
          var point := Point(x, y);
          Entry(point);
          if world[y, x] == None {
            noneLocations := noneLocations + [point];
          } else {
            var d := IsDissatisfied(point, threshold);
            if d {
              dissatisfiedLocations := dissatisfiedLocations + [point];
            }
          }
        }
      }
    }

    /** The assignment world[p.y][p.x] = a, mirrored in the model. */
    method SetCell(p: Point, a: Actor)
      requires Valid() && InGrid(cells, p)
      modifies this, world
      ensures Valid() && world == old(world)
      ensures cells == Put(old(cells), p, a)
    {
      Entry(p);
      world[p.y, p.x] := a;
      cells := Put(cells, p, a);
    }

    /**
     * Relocation: the dissatisfied actors, in list order, each move into an
     * empty location drawn at random from those not yet used, until the
     * empty locations run out. The k-th draw is draw(k).
     */
    method RelocateDissatisfied(noneLocations: seq<Point>, dissatisfiedLocations: seq<Point>, draw: nat -> nat)
      requires Valid()
      requires forall q :: q in noneLocations ==> InGrid(cells, q)
      requires forall q :: q in dissatisfiedLocations ==> InGrid(cells, q)
      modifies this, world
      ensures Valid() && world == old(world)
      ensures MovesInGrid(old(cells), Moves(noneLocations, dissatisfiedLocations, draw, 0))
      ensures cells == Apply(old(cells), Moves(noneLocations, dissatisfiedLocations, draw, 0))
    {
      ghost var start := cells;
      ghost var all := Moves(noneLocations, dissatisfiedLocations, draw, 0);
      MovesWithin(start, noneLocations, dissatisfiedLocations, draw, 0);
      var none := noneLocations;
      ghost var done: seq<Move> := [];
      var i := 0;
      while i < |dissatisfiedLocations|
        invariant i <= |dissatisfiedLocations|
        invariant Valid() && world == old(world)
        invariant |cells| == |start| && Width(cells) == Width(start)
        invariant forall q :: q in none ==> InGrid(start, q)
        invariant MovesInGrid(start, done)
        invariant cells == Apply(start, done)
        invariant all == done + Moves(none, dissatisfiedLocations[i..], draw, i)
      {
        if |none| <= 0 {
          break;
        }
        var noneIndex := draw(i) % |none|;
        var nonePoint := none[noneIndex];
        var dissatisfied := dissatisfiedLocations[i];
        ghost var m := Move(dissatisfied, nonePoint);
        MovesAdvance(all, done, none, dissatisfiedLocations, draw, i);
        ghost var before := cells;
        assert dissatisfied in dissatisfiedLocations && nonePoint in none;
        Entry(dissatisfied);
        SetCell(nonePoint, world[dissatisfied.y, dissatisfied.x]);
        SetCell(dissatisfied, None);
        ApplySnoc(start, done, m);
        none := RemoveAt(none, noneIndex);
        done := done + [m];
        i := i + 1;
      }
      MovesFinished(all, done, none, dissatisfiedLocations, draw, i);
    }

    /**
     * One update of the simulation: scan with the fixed threshold, then
     * relocate if any actor is dissatisfied.
     */
    method UpdateWorld(draw: nat -> nat)
      requires Valid()
      modifies this, world
      ensures Valid() && world == old(world)
      ensures cells == Step(old(cells), Threshold, draw)
      ensures forall a :: Population(cells, a) == Population(old(cells), a)
    {
      ghost var start := cells;
      var noneLocations, dissatisfiedLocations := SetNonSatisfiedLocations(Threshold);
      if |dissatisfiedLocations| > 0 {
        ClassificationExact(cells, Threshold);
        RelocateDissatisfied(noneLocations, dissatisfiedLocations, draw);
      }
      forall a {
        StepConserves(start, Threshold, draw, a);
      }
    }

    /**
     * Places nActors actors of kind color on empty locations of the
     * sideLength x sideLength world. The Java engine retries random positions
     * until it hits an empty one; the model picks any empty location.
     */
    method AddColorsToGrid(sideLength: int, nActors: int, color: Actor)
      requires Valid() && world.Length0 == sideLength && world.Length1 == sideLength
      requires nActors > 0 ==> if color == None then Population(cells, None) > 0 else nActors <= Population(cells, None)
      modifies this, world
      ensures Valid() && world == old(world)
      ensures Fills(old(cells), cells, color)
      ensures color != None ==> Population(cells, color) == Population(old(cells), color) + Placed(nActors)
      ensures color != None ==> Population(cells, None) == Population(old(cells), None) - Placed(nActors)
      ensures forall a :: a != color && a != None ==> Population(cells, a) == Population(old(cells), a)
    {
      ghost var start := cells;
      var remaining := nActors;
      while remaining > 0
        invariant Valid() && world == old(world)
        invariant Fills(start, cells, color)
        invariant remaining <= Placed(nActors)
        invariant remaining > 0 ==> if color == None then Population(cells, None) > 0 else remaining <= Population(cells, None)
        invariant color != None ==> Population(cells, color) == Population(start, color) + (Placed(nActors) - Placed(remaining))
        invariant color != None ==> Population(cells, None) == Population(start, None) - (Placed(nActors) - Placed(remaining))
        invariant forall a :: a != color && a != None ==> Population(cells, a) == Population(start, a)
        decreases remaining
      {
        ghost var empty := PopulationWitness(cells, None);
        Entry(empty);
        var x, y :| 0 <= x < sideLength && 0 <= y < sideLength && world[y, x] == None;
        var p := Point(x, y);
        Entry(p);
        ghost var before := cells;
        SetCell(p, color);
        FillsPut(start, before, p, color);
        forall a {
          PopulationPut(before, p, color, a);
        }
        remaining := remaining - 1;
      }
    }

    /**
     * Builds the world for nLocations locations: a square of side
     * (int) sqrt(nLocations), all empty, then the Red share and then the
     * Blue share of the locations placed on empty cells.
     */
    method PopulateWorld(nLocations: int, dist: seq<real>)
      requires |dist| >= 2
      requires Placed(Truncate(dist[0] * nLocations as real)) + Placed(Truncate(dist[1] * nLocations as real))
               <= Side(nLocations) * Side(nLocations)
      modifies this
      ensures Valid() && fresh(world)
      ensures world.Length0 == Side(nLocations) && world.Length1 == Side(nLocations)
      ensures Population(cells, Red) == Placed(Truncate(dist[0] * nLocations as real))
      ensures Population(cells, Blue) == Placed(Truncate(dist[1] * nLocations as real))
      ensures Population(cells, None)
              == Side(nLocations) * Side(nLocations) - Population(cells, Red) - Population(cells, Blue)
    {
      var sideLength := Side(nLocations);
      world := new Actor[sideLength, sideLength]((_, _) => None);
      cells := Filled(sideLength, sideLength, None);
      forall a {
        PopulationFilled(sideLength, sideLength, None, a);
      }
      var nRed := Truncate(dist[0] * nLocations as real);
      var nBlue := Truncate(dist[1] * nLocations as real);
      AddColorsToGrid(sideLength, nRed, Red);
      AddColorsToGrid(sideLength, nBlue, Blue);
    }
  }

  /** How many entries of arr equal toFind. */
  method Count<T(==)>(arr: array<T>, toFind: T) returns (count: nat)
    ensures count == multiset(arr[..])[toFind]
  {
    count := 0;
    for i := 0 to arr.Length
      invariant count == multiset(arr[..i])[toFind]
    {
      assert arr[..i + 1] == arr[..i] + [arr[i]];
      if arr[i] == toFind {
        count := count + 1;
      }
    }
    assert arr[..arr.Length] == arr[..];
  }
}
