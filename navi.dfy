/**
 The interactive editor: a 1000 by 400 pixel canvas divided into 50-pixel
 squares. A left click blocks the square under the mouse, a right click places
 the next marker (start markers and goal markers alternate), and the paths
 between the i-th start and the i-th goal are recomputed with a breadth-first
 search that moves in eight directions.
 */
module Navi {
  import opened GridModel
  import opened BfsSpec
  import opened BfsTheorems
  import PerformanceAnalysis

  /** The size of a square, in pixels. */
  const GridStep: int := 50
  /** The canvas size, in pixels. */
  const ScreenWidth: int := 1000
  const ScreenHeight: int := 400

  /** The anchor of the square holding pixel coordinate m: m rounded down to a
      multiple of GridStep. Python's floor division by a positive divisor
      agrees with Dafny's division, also for negative m. */
  function Snap(m: int): (s: int)
    ensures s % GridStep == 0
    ensures s <= m < s + GridStep
  {
    (m / GridStep) * GridStep
  }

  /** Snap is the only multiple of GridStep at most m and within one square. */
  lemma SnapUnique(m: int, s: int)
    requires s % GridStep == 0 && s <= m < s + GridStep
    ensures s == Snap(m)
  {
    var t := Snap(m);
    assert (s - t) % GridStep == 0;
    assert -GridStep < s - t < GridStep;
  }

  /** A snapped coordinate snaps to itself. */
  lemma SnapIdempotent(m: int)
    ensures Snap(Snap(m)) == Snap(m)
  {
    SnapUnique(Snap(m), Snap(m));
  }

  /** The square under the mouse at (mouseX, mouseY). */
  function SquareAt(mouseX: int, mouseY: int): Cell {
    Cell(Snap(mouseX), Snap(mouseY))
  }

  /** The grid every editor search runs on: the whole canvas, with the blocked
      squares as obstacles. */
  function CanvasGrid(filled: set<Cell>): Grid {
    Grid(ScreenWidth, ScreenHeight, filled)
  }

  /** The eight moves of one square, axis moves first. */
  function CanvasMoves(): seq<Cell> {
    Moves(GridStep, true)
  }

  /** The path the editor draws from start to goal ([] when there is none). */
  function PathFor(filled: set<Cell>, start: Cell, goal: Cell): (p: seq<Cell>)
    ensures p != [] ==> IsPath(CanvasGrid(filled), CanvasMoves(), p, start, goal)
    ensures p == [] <==> !Reachable(CanvasGrid(filled), CanvasMoves(), start, goal)
  {
    SearchDelivers(CanvasGrid(filled), CanvasMoves(), start, goal);
    Search(CanvasGrid(filled), CanvasMoves(), start, goal).path
  }

  /** The paths found for the first k start/goal pairs, in pair order, with the
      pairs that have no path left out. */
  function PairPaths(filled: set<Cell>, blue: seq<Cell>, red: seq<Cell>, k: nat): seq<seq<Cell>>
    requires k <= |blue| && k <= |red|
  {
    if k == 0 then []
    else
      var p := PathFor(filled, blue[k - 1], red[k - 1]);
      if p != [] then PairPaths(filled, blue, red, k - 1) + [p] else PairPaths(filled, blue, red, k - 1)
  }

  /** Every path kept belongs to one of the first k pairs, and is a walk from
      that pair's start to its goal. */
  lemma {:induction false} PairPathsSound(filled: set<Cell>, blue: seq<Cell>, red: seq<Cell>, k: nat)
    requires k <= |blue| && k <= |red|
    ensures |PairPaths(filled, blue, red, k)| <= k
    ensures forall j :: 0 <= j < |PairPaths(filled, blue, red, k)| ==>
      exists i :: 0 <= i < k && PairPaths(filled, blue, red, k)[j] == PathFor(filled, blue[i], red[i]) != []
  {
    if k > 0 {
      PairPathsSound(filled, blue, red, k - 1);
      var prev := PairPaths(filled, blue, red, k - 1);
      var r := PairPaths(filled, blue, red, k);
      forall j | 0 <= j < |r|
        ensures exists i :: 0 <= i < k && r[j] == PathFor(filled, blue[i], red[i]) != []
      {
        if j < |prev| {
          assert r[j] == prev[j];
          var i :| 0 <= i < k - 1 && prev[j] == PathFor(filled, blue[i], red[i]) != [];
        } else {
          assert r[j] == PathFor(filled, blue[k - 1], red[k - 1]);
        }
      }
    }
  }

  /** Every one of the first k pairs that has a path has it kept. */
  lemma {:induction false} PairPathsComplete(filled: set<Cell>, blue: seq<Cell>, red: seq<Cell>, k: nat)
    requires k <= |blue| && k <= |red|
    ensures forall i :: 0 <= i < k && PathFor(filled, blue[i], red[i]) != [] ==>
      PathFor(filled, blue[i], red[i]) in PairPaths(filled, blue, red, k)
  {
    if k > 0 {
      PairPathsComplete(filled, blue, red, k - 1);
    }
  }

  /** The paths kept for fewer pairs are a prefix of those kept for more: the
      pairs are taken in index order, and a later pair never changes the path
      kept for an earlier one. */
  lemma {:induction false} PairPathsPrefix(filled: set<Cell>, blue: seq<Cell>, red: seq<Cell>, j: nat, k: nat)
    requires j <= k <= |blue| && k <= |red|
    ensures PairPaths(filled, blue, red, j) <= PairPaths(filled, blue, red, k)
    decreases k - j
  {
    if j < k {
      PairPathsPrefix(filled, blue, red, j, k - 1);
    }
  }

  /** The paths kept for the first k pairs depend only on the blocked squares
      and those k pairs. */
  lemma {:induction false} PairPathsLocal(filled: set<Cell>, blue: seq<Cell>, red: seq<Cell>,
                                          blue': seq<Cell>, red': seq<Cell>, k: nat)
    requires k <= |blue| && k <= |red| && k <= |blue'| && k <= |red'|
    requires blue[..k] == blue'[..k] && red[..k] == red'[..k]
    ensures PairPaths(filled, blue, red, k) == PairPaths(filled, blue', red', k)
  {
    if k > 0 {
      assert blue[..k - 1] == blue[..k][..k - 1] && blue'[..k - 1] == blue'[..k][..k - 1];
      assert red[..k - 1] == red[..k][..k - 1] && red'[..k - 1] == red'[..k][..k - 1];
      assert blue[k - 1] == blue[..k][k - 1] && red[k - 1] == red[..k][k - 1];
      PairPathsLocal(filled, blue, red, blue', red', k - 1);
    }
  }

  /** The editor's state: the blocked squares, the start markers (blue), the
      goal markers (red), which colour the next marker takes, and the paths
      drawn. */
  class Editor {
    var filledSquares: set<Cell>
    var blueCircles: seq<Cell>
    var redCircles: seq<Cell>
    var nextCircleIsBlue: bool
    var paths: seq<seq<Cell>>

    /** Markers alternate, starting with a blue one; the flag says whether the
        two lists are equally long; no marker sits on a blocked square; and no
        list holds the same square twice. */
    predicate Valid()
      reads this
    {
      && |redCircles| <= |blueCircles| <= |redCircles| + 1
      && nextCircleIsBlue == (|blueCircles| == |redCircles|)
      && (forall c :: c in filledSquares ==> c !in blueCircles && c !in redCircles)
      && NoRepeats(blueCircles)
      && NoRepeats(redCircles)
    }

    /** The state at start-up: nothing blocked, no markers, the next marker
        blue, no paths. */
    constructor ()
      ensures filledSquares == {} && blueCircles == [] && redCircles == []
      ensures nextCircleIsBlue && paths == []
      ensures Valid()
    {
      filledSquares := {};
      blueCircles := [];
      redCircles := [];
      nextCircleIsBlue := true;
      paths := [];
    }

    /** A left click blocks the square under the mouse, unless a marker sits
        on it. */
    method FillSquareAtMouse(mouseX: int, mouseY: int)
      modifies this
      ensures var c := SquareAt(mouseX, mouseY);
        filledSquares == if c !in old(blueCircles) && c !in old(redCircles) then old(filledSquares) + {c} else old(filledSquares)
      ensures blueCircles == old(blueCircles) && redCircles == old(redCircles)
      ensures nextCircleIsBlue == old(nextCircleIsBlue) && paths == old(paths)
      ensures old(Valid()) ==> Valid()
    {
      var gridX := (mouseX / GridStep) * GridStep;
      var gridY := (mouseY / GridStep) * GridStep;
      if Cell(gridX, gridY) !in blueCircles && Cell(gridX, gridY) !in redCircles {
        filledSquares := filledSquares + {Cell(gridX, gridY)};
      }
    }

    /** A right click places the next marker on the square under the mouse:
        nothing happens on a blocked square, or on a square that already holds
        a marker of the colour due; otherwise the marker is appended to its
        list and the colour due flips. */
    method FillCircleAtMouse(mouseX: int, mouseY: int)
      modifies this
      ensures var c := SquareAt(mouseX, mouseY);
        if c in old(filledSquares) then
          blueCircles == old(blueCircles) && redCircles == old(redCircles) && nextCircleIsBlue == old(nextCircleIsBlue)
        else if old(nextCircleIsBlue) then
          redCircles == old(redCircles) &&
          if c in old(blueCircles) then
            blueCircles == old(blueCircles) && nextCircleIsBlue
          else
            blueCircles == old(blueCircles) + [c] && !nextCircleIsBlue
        else
          blueCircles == old(blueCircles) &&
          if c in old(redCircles) then
            redCircles == old(redCircles) && !nextCircleIsBlue
          else
            redCircles == old(redCircles) + [c] && nextCircleIsBlue
      ensures filledSquares == old(filledSquares) && paths == old(paths)
      ensures old(Valid()) ==> Valid()
    {
      var gridX := (mouseX / GridStep) * GridStep;
      var gridY := (mouseY / GridStep) * GridStep;
      var c := Cell(gridX, gridY);
      if c !in filledSquares {
        if nextCircleIsBlue {
          if c !in blueCircles {
            blueCircles := blueCircles + [c];
            nextCircleIsBlue := false;
          }
        } else {
          if c !in redCircles {
            redCircles := redCircles + [c];
            nextCircleIsBlue := true;
          }
        }
      }
    }

    /** The hard-wired search: from start to goal over the whole canvas, with
        the blocked squares as obstacles and eight moves of one square. */
    method BfsPathfind(start: Cell, goal: Cell) returns (path: seq<Cell>)
      ensures path == PathFor(filledSquares, start, goal)
    {
      ghost var g, ms := CanvasGrid(filledSquares), CanvasMoves();
      var queue := [Entry(start, [start])];
      var visited := {start};
      ghost var explored: nat := 0;
      while queue != []
        invariant Run(g, ms, goal, Frontier(queue, visited), explored) == Search(g, ms, start, goal)
        decreases |InBoundsCells(g) - visited| + |queue|
      {
        ghost var f := Frontier(queue, visited);
        var current, p := queue[0].cell, queue[0].path;
        queue := queue[1..];

        if current == goal {
          assert Run(g, ms, goal, f, explored) == Outcome(p, explored + 1);
          return p;
        }

        var moves := [Cell(0, GridStep), Cell(0, -GridStep), Cell(GridStep, 0), Cell(-GridStep, 0),
                      Cell(GridStep, GridStep), Cell(GridStep, -GridStep),
                      Cell(-GridStep, GridStep), Cell(-GridStep, -GridStep)];
        assert moves == ms;
        ghost var f0 := Frontier(queue, visited);
        queue, visited := PerformanceAnalysis.ExploreNeighbours(current, p, moves, filledSquares, ScreenWidth, ScreenHeight, queue, visited);
        assert Frontier(queue, visited) == Next(g, ms, f);
        ExploreMeasure(g, ms, current, p, f0);
        RunStep(g, ms, goal, f, explored);
        explored := explored + 1;
      }
      return [];
    }

    /** Recomputes the drawn paths: for each index below the length of the
        shorter marker list, the path from the i-th blue marker to the i-th red
        one is kept when there is one. Only the paths change. */
    method ComputeAllPaths()
      modifies this`paths
      ensures paths == PairPaths(filledSquares, blueCircles, redCircles, Min(|blueCircles|, |redCircles|))
      ensures filledSquares == old(filledSquares) && blueCircles == old(blueCircles) && redCircles == old(redCircles)
      ensures nextCircleIsBlue == old(nextCircleIsBlue)
    {
      paths := [];
      var n := Min(|blueCircles|, |redCircles|);
      for i := 0 to n
        invariant paths == PairPaths(filledSquares, blueCircles, redCircles, i)
      {
        var path := BfsPathfind(blueCircles[i], redCircles[i]);
        if path != [] {
          paths := paths + [path];
        }
      }
    }
  }

  function Min(a: int, b: int): (m: int)
    ensures m <= a && m <= b && (m == a || m == b)
  {
    if a <= b then a else b
  }
}
