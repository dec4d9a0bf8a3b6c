/**
 The parameterised breadth-first search used by the benchmarks: a FIFO queue of
 (cell, walk) entries, a visited set, and a counter of entries taken off the
 queue. The method is proved to compute exactly Search, whose guarantees are
 proved in BfsTheorems.
 */
module PerformanceAnalysis {
  import opened GridModel
  import opened BfsSpec
  import opened BfsTheorems

  /** The two facts about a search's outcome the method promises directly. */
  lemma SearchOutcome(g: Grid, ms: seq<Cell>, start: Cell, goal: Cell)
    ensures var r := Search(g, ms, start, goal);
      && (r.path != [] ==> IsPath(g, ms, r.path, start, goal))
      && (r.path == [] <==> !Reachable(g, ms, start, goal))
  {
    SearchDelivers(g, ms, start, goal);
  }

  /** The neighbour loop of one iteration: each move in turn leads from
      current to a neighbour, which is marked visited and queued with the walk
      p extended by it when it is in bounds, not yet visited and not blocked. */
  method ExploreNeighbours(current: Cell, p: seq<Cell>, moves: seq<Cell>, obstacles: set<Cell>,
                           gridWidth: int, gridHeight: int, queue0: seq<Entry>, visited0: set<Cell>)
    returns (queue: seq<Entry>, visited: set<Cell>)
    ensures Frontier(queue, visited) == Explore(Grid(gridWidth, gridHeight, obstacles), moves, current, p, Frontier(queue0, visited0))
  {
    ghost var g := Grid(gridWidth, gridHeight, obstacles);
    queue, visited := queue0, visited0;
    for k := 0 to |moves|
      invariant Frontier(queue, visited) == Explore(g, moves[..k], current, p, Frontier(queue0, visited0))
    {
      ghost var before := Frontier(queue, visited);
      ExploreSnoc(g, moves, k, current, p, Frontier(queue0, visited0));
      var neighbor := Cell(current.x + moves[k].x, current.y + moves[k].y);
      if 0 <= neighbor.x < gridWidth && 0 <= neighbor.y < gridHeight
         && neighbor !in visited && neighbor !in obstacles {
        visited := visited + {neighbor};
        queue := queue + [Entry(neighbor, p + [neighbor])];
      }
      assert Frontier(queue, visited) == Consider(g, current, p, before, moves[k]);
    }
    assert moves[..|moves|] == moves;
  }

  /** Searches from start to goal on the gridWidth by gridHeight grid with the
      given obstacles, moving by stepSize along the axes and, when
      allowDiagonal holds, diagonally. Returns the walk found ([] when none)
      and the number of queue entries taken off the queue. */
  method BfsPathfind(start: Cell, goal: Cell, obstacles: set<Cell>, gridWidth: int, gridHeight: int,
                     stepSize: int, allowDiagonal: bool := true)
    returns (path: seq<Cell>, nodesExplored: nat)
    ensures Outcome(path, nodesExplored) == Search(Grid(gridWidth, gridHeight, obstacles), Moves(stepSize, allowDiagonal), start, goal)
    ensures path != [] ==> IsPath(Grid(gridWidth, gridHeight, obstacles), Moves(stepSize, allowDiagonal), path, start, goal)
    ensures path == [] <==> !Reachable(Grid(gridWidth, gridHeight, obstacles), Moves(stepSize, allowDiagonal), start, goal)
  {
    ghost var g := Grid(gridWidth, gridHeight, obstacles);
    ghost var ms := Moves(stepSize, allowDiagonal);
    var queue := [Entry(start, [start])];
    var visited := {start};
    nodesExplored := 0;
    while queue != []
      invariant Run(g, ms, goal, Frontier(queue, visited), nodesExplored) == Search(g, ms, start, goal)
      decreases |InBoundsCells(g) - visited| + |queue|
    {
      ghost var f, n := Frontier(queue, visited), nodesExplored;
      var current, p := queue[0].cell, queue[0].path;
      queue := queue[1..];
      nodesExplored := nodesExplored + 1;

      if current == goal {
        assert Run(g, ms, goal, f, n) == Outcome(p, n + 1);
        SearchOutcome(g, ms, start, goal);
        return p, nodesExplored;
      }

      var moves;
      if allowDiagonal {
        moves := [Cell(0, stepSize), Cell(0, -stepSize), Cell(stepSize, 0), Cell(-stepSize, 0),
                  Cell(stepSize, stepSize), Cell(stepSize, -stepSize),
                  Cell(-stepSize, stepSize), Cell(-stepSize, -stepSize)];
      } else {
        moves := [Cell(0, stepSize), Cell(0, -stepSize), Cell(stepSize, 0), Cell(-stepSize, 0)];
      }
      assert moves == ms;

      ghost var f0 := Frontier(queue, visited);
      queue, visited := ExploreNeighbours(current, p, moves, obstacles, gridWidth, gridHeight, queue, visited);
      assert Frontier(queue, visited) == Next(g, ms, f);
      ExploreMeasure(g, ms, current, p, f0);
      RunStep(g, ms, goal, f, n);
    }
    SearchOutcome(g, ms, start, goal);
    return [], nodesExplored;
  }
}
