// The relocation step: dissatisfied actors, in scan order, move into distinct
// randomly chosen empty locations until those run out.

module Relocation {
  import opened Grids
  import opened Satisfaction
  import opened Classification

  /** One relocation: the actor at source moves to target. */
  datatype Move = Move(source: Point, target: Point)

  function Min(a: nat, b: nat): nat { if a <= b then a else b }

  /** The list without its element at index i, as ArrayList.remove(int) leaves it. */
  function RemoveAt(s: seq<Point>, i: nat): (r: seq<Point>)
    requires i < |s|
    ensures |r| == |s| - 1
    ensures forall j :: 0 <= j < |r| ==> r[j] == if j < i then s[j] else s[j + 1]
    ensures forall q :: q in r ==> q in s
    ensures Distinct(s) ==> Distinct(r) && s[i] !in r
  {
    s[..i] + s[i + 1..]
  }

  /**
   * The relocations one step performs. The k-th random draw is draw(k),
   * taken modulo the number of empty locations still unused: every index in
   * range can be drawn, and no other.
   */
  function Moves(none: seq<Point>, dissatisfied: seq<Point>, draw: nat -> nat, k: nat): (ms: seq<Move>)
    ensures |ms| == Min(|none|, |dissatisfied|)
    ensures forall j :: 0 <= j < |ms| ==> ms[j].source == dissatisfied[j] && ms[j].target in none
    decreases |dissatisfied|
  {
    if |dissatisfied| == 0 || |none| == 0 then []
    else
      var i := draw(k) % |none|;
      [Move(dissatisfied[0], none[i])] + Moves(RemoveAt(none, i), dissatisfied[1..], draw, k + 1)
  }

  /**
   * The relocation loop's bookkeeping: with done performed and empty
   * locations none left, one more iteration performs the next move of all.
   */
  lemma MovesAdvance(all: seq<Move>, done: seq<Move>, none: seq<Point>, dissatisfied: seq<Point>, draw: nat -> nat, i: nat)
    requires |none| > 0 && i < |dissatisfied|
    requires all == done + Moves(none, dissatisfied[i..], draw, i)
    ensures var k := draw(i) % |none|;
      all == (done + [Move(dissatisfied[i], none[k])]) + Moves(RemoveAt(none, k), dissatisfied[i + 1..], draw, i + 1)
  {
    assert dissatisfied[i..][1..] == dissatisfied[i + 1..];
    var k := draw(i) % |none|;
    var rest := Moves(RemoveAt(none, k), dissatisfied[i + 1..], draw, i + 1);
    assert Moves(none, dissatisfied[i..], draw, i) == [Move(dissatisfied[i], none[k])] + rest;
    assert done + ([Move(dissatisfied[i], none[k])] + rest) == (done + [Move(dissatisfied[i], none[k])]) + rest;
  }

  /** The loop stops once the dissatisfied list or the empty locations run out: nothing is left to do. */
  lemma MovesFinished(all: seq<Move>, done: seq<Move>, none: seq<Point>, dissatisfied: seq<Point>, draw: nat -> nat, i: nat)
    requires i <= |dissatisfied| && (|none| == 0 || i == |dissatisfied|)
    requires all == done + Moves(none, dissatisfied[i..], draw, i)
    ensures all == done
  {
    assert Moves(none, dissatisfied[i..], draw, i) == [];
  }

  /** Moves drawn from locations of g stay in g. */
  lemma MovesWithin(g: Grid, none: seq<Point>, dissatisfied: seq<Point>, draw: nat -> nat, k: nat)
    requires forall q :: q in none ==> InGrid(g, q)
    requires forall q :: q in dissatisfied ==> InGrid(g, q)
    ensures MovesInGrid(g, Moves(none, dissatisfied, draw, k))
  {
    var ms := Moves(none, dissatisfied, draw, k);
    assert forall j :: 0 <= j < |ms| ==> ms[j].source in dissatisfied;
  }

  /** Every location a list of moves touches lies in the grid. */
  predicate MovesInGrid(g: Grid, ms: seq<Move>)
  {
    forall j :: 0 <= j < |ms| ==> InGrid(g, ms[j].source) && InGrid(g, ms[j].target)
  }

  /** Sources are distinct, targets are distinct, and no target is ever a source. */
  predicate Separate(ms: seq<Move>)
  {
    && (forall i, j :: 0 <= i < j < |ms| ==> ms[i].source != ms[j].source && ms[i].target != ms[j].target)
    && (forall i, j :: 0 <= i < |ms| && 0 <= j < |ms| ==> ms[i].source != ms[j].target)
  }

  /** q is neither the source nor the target of any move. */
  predicate Untouched(ms: seq<Move>, q: Point)
  {
    forall j :: 0 <= j < |ms| ==> ms[j].source != q && ms[j].target != q
  }

  /** One relocation: the target receives the source's actor, then the source is emptied. */
  function MoveActor(g: Grid, m: Move): (r: Grid)
    requires Rectangular(g) && InGrid(g, m.source) && InGrid(g, m.target)
    ensures Rectangular(r) && |r| == |g| && Width(r) == Width(g)
  {
    Put(Put(g, m.target, At(g, m.source)), m.source, None)
  }

  lemma MoveActorEffect(g: Grid, m: Move)
    requires Rectangular(g) && InGrid(g, m.source) && InGrid(g, m.target)
    ensures At(MoveActor(g, m), m.source) == None
    ensures m.source != m.target ==> At(MoveActor(g, m), m.target) == At(g, m.source)
    ensures forall q :: InGrid(g, q) && q != m.source && q != m.target ==> At(MoveActor(g, m), q) == At(g, q)
  {
  }

  /** The grid after performing the moves in order. */
  function Apply(g: Grid, ms: seq<Move>): (r: Grid)
    requires Rectangular(g) && MovesInGrid(g, ms)
    ensures Rectangular(r) && |r| == |g| && Width(r) == Width(g)
  {
    if |ms| == 0 then g else MoveActor(Apply(g, ms[..|ms| - 1]), ms[|ms| - 1])
  }

  /** Performing one more move after a list of moves. */
  lemma ApplySnoc(g: Grid, done: seq<Move>, m: Move)
    requires Rectangular(g) && MovesInGrid(g, done) && InGrid(g, m.source) && InGrid(g, m.target)
    ensures MovesInGrid(g, done + [m])
    ensures Apply(g, done + [m]) == MoveActor(Apply(g, done), m)
  {
    assert (done + [m])[..|done|] == done;
  }

  /** Cells no move touches keep their actor. */
  lemma {:induction false} ApplyFrame(g: Grid, ms: seq<Move>, q: Point)
    requires Rectangular(g) && MovesInGrid(g, ms) && InGrid(g, q) && Untouched(ms, q)
    ensures At(Apply(g, ms), q) == At(g, q)
  {
    if |ms| > 0 {
      var n := |ms| - 1;
      var pre := ms[..n];
      assert forall j :: 0 <= j < n ==> pre[j] == ms[j];
      ApplyFrame(g, pre, q);
      MoveActorEffect(Apply(g, pre), ms[n]);
    }
  }

  /** Dropping the last move keeps a list in the grid and separate. */
  lemma DropLast(g: Grid, ms: seq<Move>)
    requires MovesInGrid(g, ms) && Separate(ms) && |ms| > 0
    ensures MovesInGrid(g, ms[..|ms| - 1]) && Separate(ms[..|ms| - 1])
    ensures Untouched(ms[..|ms| - 1], ms[|ms| - 1].source)
    ensures Untouched(ms[..|ms| - 1], ms[|ms| - 1].target)
  {
    var pre := ms[..|ms| - 1];
    assert forall i :: 0 <= i < |pre| ==> pre[i] == ms[i];
  }

  /** Every source ends empty. */
  lemma {:induction false} ApplySources(g: Grid, ms: seq<Move>, j: nat)
    requires Rectangular(g) && MovesInGrid(g, ms) && Separate(ms) && j < |ms|
    ensures At(Apply(g, ms), ms[j].source) == None
  {
    var n := |ms| - 1;
    var pre, m := ms[..n], ms[n];
    DropLast(g, ms);
    MoveActorEffect(Apply(g, pre), m);
    if j < n {
      assert pre[j] == ms[j];
      ApplySources(g, pre, j);
      assert ms[j].source != m.source && ms[j].source != m.target;
    }
  }

  /** Every target holds what its source held before the step. */
  lemma {:induction false} ApplyTargets(g: Grid, ms: seq<Move>, j: nat)
    requires Rectangular(g) && MovesInGrid(g, ms) && Separate(ms) && j < |ms|
    ensures At(Apply(g, ms), ms[j].target) == At(g, ms[j].source)
  {
    var n := |ms| - 1;
    var pre, m := ms[..n], ms[n];
    DropLast(g, ms);
    assert m.source != m.target;
    MoveActorEffect(Apply(g, pre), m);
    if j < n {
      assert pre[j] == ms[j];
      ApplyTargets(g, pre, j);
      assert ms[j].target != m.source && ms[j].target != m.target;
    } else {
      ApplyFrame(g, pre, m.source);
    }
  }

  /**
   * What a list of separate moves does to each cell: every source ends empty,
   * every target holds what its source held at the start, all other cells
   * are unchanged.
   */
  lemma ApplyEffect(g: Grid, ms: seq<Move>)
    requires Rectangular(g) && MovesInGrid(g, ms) && Separate(ms)
    ensures forall j :: 0 <= j < |ms| ==> At(Apply(g, ms), ms[j].source) == None
    ensures forall j :: 0 <= j < |ms| ==> At(Apply(g, ms), ms[j].target) == At(g, ms[j].source)
    ensures forall q :: InGrid(g, q) && Untouched(ms, q) ==> At(Apply(g, ms), q) == At(g, q)
  {
    forall j | 0 <= j < |ms| ensures At(Apply(g, ms), ms[j].source) == None {
      ApplySources(g, ms, j);
    }
    forall j | 0 <= j < |ms| ensures At(Apply(g, ms), ms[j].target) == At(g, ms[j].source) {
      ApplyTargets(g, ms, j);
    }
    forall q | InGrid(g, q) && Untouched(ms, q) ensures At(Apply(g, ms), q) == At(g, q) {
      ApplyFrame(g, ms, q);
    }
  }

  /** Separate moves into empty cells conserve the number of actors of every kind. */
  lemma {:induction false} ApplyConserves(g: Grid, ms: seq<Move>, a: Actor)
    requires Rectangular(g) && MovesInGrid(g, ms) && Separate(ms)
    requires forall j :: 0 <= j < |ms| ==> At(g, ms[j].target) == None
    ensures Population(Apply(g, ms), a) == Population(g, a)
  {
    if |ms| > 0 {
      var n := |ms| - 1;
      var pre, m := ms[..n], ms[n];
      DropLast(g, ms);
      assert forall j :: 0 <= j < n ==> pre[j] == ms[j];
      ApplyConserves(g, pre, a);
      var before := Apply(g, pre);
      ApplyFrame(g, pre, m.target);
      assert At(before, m.target) == None;
      var v := At(before, m.source);
      var mid := Put(before, m.target, v);
      PopulationPut(before, m.target, v, a);
      PopulationPut(mid, m.source, None, a);
      assert At(mid, m.source) == v;
    }
  }

  /** Drawn from duplicate-free, disjoint lists, the moves are separate. */
  lemma {:induction false} MovesSeparate(none: seq<Point>, dissatisfied: seq<Point>, draw: nat -> nat, k: nat)
    requires Distinct(none) && Distinct(dissatisfied)
    requires forall p :: p in none ==> p !in dissatisfied
    ensures Separate(Moves(none, dissatisfied, draw, k))
    decreases |dissatisfied|
  {
    if |dissatisfied| > 0 && |none| > 0 {
      var i := draw(k) % |none|;
      var rest := RemoveAt(none, i);
      var tail := dissatisfied[1..];
      assert forall j, l :: 0 <= j < l < |tail| ==> tail[j] == dissatisfied[j + 1] && tail[l] == dissatisfied[l + 1];
      MovesSeparate(rest, tail, draw, k + 1);
      var m := Move(dissatisfied[0], none[i]);
      var later := Moves(rest, tail, draw, k + 1);
      var ms := [m] + later;
      assert ms == Moves(none, dissatisfied, draw, k);
      assert dissatisfied[0] !in tail;
      forall j | 0 <= j < |later|
        ensures later[j].source != m.source && later[j].target != m.target
        ensures later[j].source != m.target && later[j].target != m.source
      {
        assert later[j].source == tail[j];
      }
      assert m.source != m.target;
      SeparateCons(m, later);
    }
  }

  lemma SeparateCons(m: Move, later: seq<Move>)
    requires Separate(later) && m.source != m.target
    requires forall j :: 0 <= j < |later| ==> later[j].source != m.source && later[j].target != m.target
    requires forall j :: 0 <= j < |later| ==> later[j].source != m.target && later[j].target != m.source
    ensures Separate([m] + later)
  {
    var ms := [m] + later;
    assert forall j :: 1 <= j < |ms| ==> ms[j] == later[j - 1];
  }

  /** The moves of one step on g, from its scan. */
  function StepMoves(g: Grid, threshold: real, draw: nat -> nat): seq<Move>
    requires Rectangular(g)
  {
    Moves(NoneLocations(g), DissatisfiedLocations(g, threshold), draw, 0)
  }

  /** The scan's lists give moves that stay in the grid, fill empty cells only, and are separate. */
  lemma StepMovesWellFormed(g: Grid, threshold: real, draw: nat -> nat)
    requires Rectangular(g)
    ensures MovesInGrid(g, StepMoves(g, threshold, draw)) && Separate(StepMoves(g, threshold, draw))
    ensures forall j :: 0 <= j < |StepMoves(g, threshold, draw)| ==>
              At(g, StepMoves(g, threshold, draw)[j].target) == None
              && At(g, StepMoves(g, threshold, draw)[j].source) != None
  {
    ClassificationExact(g, threshold);
    var none, dissatisfied := NoneLocations(g), DissatisfiedLocations(g, threshold);
    MovesSeparate(none, dissatisfied, draw, 0);
    var ms := StepMoves(g, threshold, draw);
    assert forall j :: 0 <= j < |ms| ==> ms[j].source in dissatisfied;
  }

  /** One simulation step: scan, then relocate if anybody is dissatisfied. */
  function Step(g: Grid, threshold: real, draw: nat -> nat): (r: Grid)
    requires Rectangular(g)
    ensures Rectangular(r) && |r| == |g| && Width(r) == Width(g)
  {
    if |DissatisfiedLocations(g, threshold)| > 0 then
      StepMovesWellFormed(g, threshold, draw);
      Apply(g, StepMoves(g, threshold, draw))
    else
      g
  }

  /**
   * One step moves min(|dissatisfied|, |empty|) actors, the dissatisfied ones
   * in scan order, each into its own empty cell from the scan; sources end
   * empty, targets hold the moved actor, and every other cell is unchanged.
   */
  lemma StepEffect(g: Grid, threshold: real, draw: nat -> nat)
    requires Rectangular(g)
    ensures var ms := StepMoves(g, threshold, draw);
      var none, dissatisfied := NoneLocations(g), DissatisfiedLocations(g, threshold);
      && |ms| == Min(|dissatisfied|, |none|)
      && (forall j :: 0 <= j < |ms| ==> ms[j].source == dissatisfied[j] && ms[j].target in none)
      && Separate(ms) && MovesInGrid(g, ms)
      && (forall j :: 0 <= j < |ms| ==> At(Step(g, threshold, draw), ms[j].source) == None)
      && (forall j :: 0 <= j < |ms| ==> At(Step(g, threshold, draw), ms[j].target) == At(g, ms[j].source))
      && (forall q :: InGrid(g, q) && Untouched(ms, q) ==> At(Step(g, threshold, draw), q) == At(g, q))
  {
    StepMovesWellFormed(g, threshold, draw);
    var ms := StepMoves(g, threshold, draw);
    if |DissatisfiedLocations(g, threshold)| > 0 {
      ApplyEffect(g, ms);
    }
  }

  /** A step conserves the number of Red, of Blue and of empty cells. */
  lemma StepConserves(g: Grid, threshold: real, draw: nat -> nat, a: Actor)
    requires Rectangular(g)
    ensures Population(Step(g, threshold, draw), a) == Population(g, a)
  {
    if |DissatisfiedLocations(g, threshold)| > 0 {
      StepMovesWellFormed(g, threshold, draw);
      ApplyConserves(g, StepMoves(g, threshold, draw), a);
    }
  }

  /** In a stable world a step changes nothing, and so does every step after it. */
  lemma StableFixpoint(g: Grid, threshold: real, draw: nat -> nat, later: nat -> nat)
    requires Rectangular(g)
    requires forall q :: InGrid(g, q) && At(g, q) != None ==> !DissatisfiedAt(g, q, threshold)
    ensures Step(g, threshold, draw) == g
    ensures Step(Step(g, threshold, draw), threshold, later) == Step(g, threshold, draw)
  {
    StableIff(g, threshold);
  }
}
