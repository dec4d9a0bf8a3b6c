/**
 The breadth-first search as a function of its state. The queue holds, for each
 discovered cell, the walk that reached it (each entry carries its own copy of
 the path, there is no predecessor map); the visited set records every cell ever
 queued; the counter records how many entries have been taken off the queue.
 Both search methods are proved to compute exactly what Search computes.
 */
module BfsSpec {
  import opened GridModel

  /** One queue entry: a cell and the walk from the start that reached it. */
  datatype Entry = Entry(cell: Cell, path: seq<Cell>)

  /** The search state apart from the counter. */
  datatype Frontier = Frontier(queue: seq<Entry>, visited: set<Cell>)

  /** The result of a search: the path ([] when none was found) and the number
      of queue entries taken off the queue. */
  datatype Outcome = Outcome(path: seq<Cell>, explored: nat)

  /** The cells held by a queue. */
  function Cells(q: seq<Entry>): (s: set<Cell>)
    ensures forall i :: 0 <= i < |q| ==> q[i].cell in s
    ensures forall c :: c in s ==> exists i :: 0 <= i < |q| && q[i].cell == c
  {
    set i | 0 <= i < |q| :: q[i].cell
  }

  /** One pass of the neighbour loop: the cell one move away from cur is
      queued, with the walk extended by it, when it is in bounds, not yet
      visited and not blocked. */
  function Consider(g: Grid, cur: Cell, path: seq<Cell>, f: Frontier, m: Cell): Frontier {
    var n := Add(cur, m);
    if InBounds(g, n) && n !in f.visited && n !in g.obstacles then
      Frontier(f.queue + [Entry(n, path + [n])], f.visited + {n})
    else
      f
  }

  /** The whole neighbour loop over the moves ms, taken in order. */
  function Explore(g: Grid, ms: seq<Cell>, cur: Cell, path: seq<Cell>, f: Frontier): Frontier
    decreases |ms|
  {
    if ms == [] then f else Consider(g, cur, path, Explore(g, ms[..|ms| - 1], cur, path, f), ms[|ms| - 1])
  }

  /** The neighbour loop only adds: it keeps the queue it started with as a
      prefix, keeps every visited cell, and marks as many cells visited as it
      queues. */
  lemma {:induction false} ExploreGrows(g: Grid, ms: seq<Cell>, cur: Cell, path: seq<Cell>, f: Frontier)
    ensures var r := Explore(g, ms, cur, path, f);
      && f.visited <= r.visited
      && |f.queue| <= |r.queue|
      && (forall i :: 0 <= i < |f.queue| ==> r.queue[i] == f.queue[i])
      && |r.visited| - |f.visited| == |r.queue| - |f.queue|
    decreases |ms|
  {
    if ms != [] {
      ExploreGrows(g, ms[..|ms| - 1], cur, path, f);
    }
  }

  /** Every cell the neighbour loop queues is a new in-bounds cell, so the
      number of unvisited in-bounds cells falls by as much as the queue grows;
      this is why the search terminates. */
  lemma {:induction false} ExploreMeasure(g: Grid, ms: seq<Cell>, cur: Cell, path: seq<Cell>, f: Frontier)
    ensures var r := Explore(g, ms, cur, path, f);
      |InBoundsCells(g) - r.visited| + |r.queue| == |InBoundsCells(g) - f.visited| + |f.queue|
    decreases |ms|
  {
    if ms != [] {
      var f1 := Explore(g, ms[..|ms| - 1], cur, path, f);
      ExploreMeasure(g, ms[..|ms| - 1], cur, path, f);
      var n, b := Add(cur, ms[|ms| - 1]), InBoundsCells(g);
      if InBounds(g, n) && n !in f1.visited && n !in g.obstacles {
        assert b - f1.visited == (b - (f1.visited + {n})) + {n};
      }
    }
  }

  /** The state after one iteration that does not stop: the front entry is
      taken off the queue and its neighbours are explored. */
  function Next(g: Grid, ms: seq<Cell>, f: Frontier): Frontier
    requires f.queue != []
  {
    Explore(g, ms, f.queue[0].cell, f.queue[0].path, Frontier(f.queue[1..], f.visited))
  }

  /** The search loop from state f with n entries already taken: it stops with
      the front entry's walk when the front cell is the goal, and with the
      empty path when the queue runs out. */
  function Run(g: Grid, ms: seq<Cell>, goal: Cell, f: Frontier, n: nat): (r: Outcome)
    ensures r.explored >= n
    ensures f.queue != [] ==> r.explored > n
    decreases |InBoundsCells(g) - f.visited| + |f.queue|
  {
    if f.queue == [] then
      Outcome([], n)
    else if f.queue[0].cell == goal then
      Outcome(f.queue[0].path, n + 1)
    else
      ExploreMeasure(g, ms, f.queue[0].cell, f.queue[0].path, Frontier(f.queue[1..], f.visited));
      Run(g, ms, goal, Next(g, ms, f), n + 1)
  }

  /** The neighbour loop over the first k + 1 moves is the loop over the first
      k moves followed by one more pass. */
  lemma ExploreSnoc(g: Grid, ms: seq<Cell>, k: nat, cur: Cell, path: seq<Cell>, f: Frontier)
    requires k < |ms|
    ensures Explore(g, ms[..k + 1], cur, path, f) == Consider(g, cur, path, Explore(g, ms[..k], cur, path, f), ms[k])
  {
    assert ms[..k + 1][..k] == ms[..k];
  }

  /** An iteration that does not stop leaves the outcome of the loop as it
      was, one entry further on. */
  lemma RunStep(g: Grid, ms: seq<Cell>, goal: Cell, f: Frontier, n: nat)
    requires f.queue != [] && f.queue[0].cell != goal
    ensures Run(g, ms, goal, f, n) == Run(g, ms, goal, Next(g, ms, f), n + 1)
  {
  }

  /** The initial state: the start is queued with the one-cell walk and marked
      visited, without any check of bounds or obstacles. */
  function Initial(start: Cell): Frontier {
    Frontier([Entry(start, [start])], {start})
  }

  /** A search from start to goal over g with the moves ms. */
  function Search(g: Grid, ms: seq<Cell>, start: Cell, goal: Cell): Outcome {
    Run(g, ms, goal, Initial(start), 0)
  }
}
