/**
 What the breadth-first search guarantees, stated about Search for every grid,
 move list, start and goal.
 */
module BfsTheorems {
  import opened GridModel
  import opened BfsSpec
  import opened BfsProofs

  lemma SearchDelivers(g: Grid, ms: seq<Cell>, start: Cell, goal: Cell)
    ensures Delivers(g, ms, start, goal, Search(g, ms, start, goal))
  {
    InitialInv(g, ms, start, goal);
    RunCorrect(g, ms, start, goal, Initial(start), 0, map[start := 0]);
  }

  /** A path the search returns runs from start to goal, each cell after the
      first one move further, in bounds and not blocked. */
  lemma SearchPathIsWalk(g: Grid, ms: seq<Cell>, start: Cell, goal: Cell)
    ensures var p := Search(g, ms, start, goal).path;
      p != [] ==>
        && p[0] == start
        && p[|p| - 1] == goal
        && forall i :: 0 < i < |p| ==>
             && Offset(p[i - 1], p[i]) in ms
             && 0 <= p[i].x < g.width && 0 <= p[i].y < g.height
             && p[i] !in g.obstacles
  {
    SearchDelivers(g, ms, start, goal);
    var p := Search(g, ms, start, goal).path;
    if p != [] {
      forall i | 0 < i < |p|
        ensures Offset(p[i - 1], p[i]) in ms && InBounds(g, p[i]) && p[i] !in g.obstacles
      {
        assert Step(g, ms, p[i - 1], p[i]);
      }
    }
  }

  /** A path the search returns visits no cell twice. */
  lemma SearchPathNoRepeats(g: Grid, ms: seq<Cell>, start: Cell, goal: Cell)
    ensures NoRepeats(Search(g, ms, start, goal).path)
  {
    SearchDelivers(g, ms, start, goal);
  }

  /** A path the search returns is no longer than any walk from start to goal. */
  lemma SearchShortest(g: Grid, ms: seq<Cell>, start: Cell, goal: Cell, w: seq<Cell>)
    requires IsPath(g, ms, w, start, goal)
    ensures var p := Search(g, ms, start, goal).path;
      p != [] && |p| <= |w|
  {
    SearchDelivers(g, ms, start, goal);
  }

  /** The search returns no path exactly when the goal cannot be reached. */
  lemma SearchFailsIffUnreachable(g: Grid, ms: seq<Cell>, start: Cell, goal: Cell)
    ensures Search(g, ms, start, goal).path == [] <==> !Reachable(g, ms, start, goal)
  {
    SearchDelivers(g, ms, start, goal);
  }

  /** When the search returns no path, the counter equals the number of cells
      reachable from the start. */
  lemma SearchExhaustedCount(g: Grid, ms: seq<Cell>, start: Cell, goal: Cell)
    ensures var r := Search(g, ms, start, goal);
      r.path == [] ==> r.explored == |ReachableSet(g, ms, start)|
  {
    SearchDelivers(g, ms, start, goal);
  }

  /** The counter is at least one and at most one more than the number of
      in-bounds cells. */
  lemma SearchExploredBounds(g: Grid, ms: seq<Cell>, start: Cell, goal: Cell)
    ensures 1 <= Search(g, ms, start, goal).explored <= |InBoundsCells(g)| + 1
  {
    SearchDelivers(g, ms, start, goal);
    var b := InBoundsCells(g);
    if start in b {
      assert b + {start} == b;
    } else {
      assert |b + {start}| == |b| + 1;
    }
  }

  /** A search whose start is its goal returns the one-cell path after taking
      one entry off the queue, whether or not that cell is in bounds or
      blocked. */
  lemma SearchSameCell(g: Grid, ms: seq<Cell>, s: Cell)
    ensures Search(g, ms, s, s) == Outcome([s], 1)
  {
  }

  /** Without diagonals, consecutive cells of a returned path differ by exactly
      step along one axis. */
  lemma AxisOnlyWithoutDiagonals(g: Grid, step: int, start: Cell, goal: Cell)
    ensures var p := Search(g, Moves(step, false), start, goal).path;
      forall i :: 0 < i < |p| ==>
        || (p[i].x == p[i - 1].x && (p[i].y == p[i - 1].y + step || p[i].y == p[i - 1].y - step))
        || (p[i].y == p[i - 1].y && (p[i].x == p[i - 1].x + step || p[i].x == p[i - 1].x - step))
  {
    var ms := Moves(step, false);
    SearchPathIsWalk(g, ms, start, goal);
    var p := Search(g, ms, start, goal).path;
    forall i | 0 < i < |p|
      ensures || (p[i].x == p[i - 1].x && (p[i].y == p[i - 1].y + step || p[i].y == p[i - 1].y - step))
              || (p[i].y == p[i - 1].y && (p[i].x == p[i - 1].x + step || p[i].x == p[i - 1].x - step))
    {
      var d := Offset(p[i - 1], p[i]);
      assert d in AxisMoves(step);
    }
  }
}
