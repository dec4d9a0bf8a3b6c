/**
 The coordinate space both path searches work in: cells are integer pairs on a
 scaled lattice, a grid is a width, a height and a set of blocked cells, and the
 moves are a fixed, ordered list of offsets. Walks over this grid are the
 reference against which the searches are proved correct.
 */
module GridModel {

  /** A cell, identified by its anchor coordinates (a multiple of the step size
      in practice, though nothing in the search relies on that). */
  datatype Cell = Cell(x: int, y: int)

  /** The grid a search runs on: a cell is in bounds when 0 <= x < width and
      0 <= y < height; obstacles is the set of blocked cells. */
  datatype Grid = Grid(width: int, height: int, obstacles: set<Cell>)

  /** The cell reached from c by the offset d. */
  function Add(c: Cell, d: Cell): Cell {
    Cell(c.x + d.x, c.y + d.y)
  }

  /** The offset that leads from a to b. */
  function Offset(a: Cell, b: Cell): (d: Cell)
    ensures Add(a, d) == b
  {
    Cell(b.x - a.x, b.y - a.y)
  }

  /** The axis moves of size step, in the order the search tries them. */
  function AxisMoves(step: int): seq<Cell> {
    [Cell(0, step), Cell(0, -step), Cell(step, 0), Cell(-step, 0)]
  }

  /** The move list of a search: the four axis moves, then, when diagonals are
      allowed, the four diagonal moves. */
  function Moves(step: int, allowDiagonal: bool): seq<Cell> {
    if allowDiagonal then
      AxisMoves(step) + [Cell(step, step), Cell(step, -step), Cell(-step, step), Cell(-step, -step)]
    else
      AxisMoves(step)
  }

  predicate InBounds(g: Grid, c: Cell) {
    0 <= c.x < g.width && 0 <= c.y < g.height
  }

  /** A cell a search may step onto: in bounds and not blocked. */
  predicate Admissible(g: Grid, c: Cell) {
    InBounds(g, c) && c !in g.obstacles
  }

  /** All in-bounds cells of g (a finite set). */
  ghost function InBoundsCells(g: Grid): (s: set<Cell>)
    ensures forall c :: c in s <==> InBounds(g, c)
  {
    set x: int, y: int | 0 <= x < g.width && 0 <= y < g.height :: Cell(x, y)
  }

  /** A step from a to b: b is a plus one of the moves, and b may be entered. */
  predicate Step(g: Grid, ms: seq<Cell>, a: Cell, b: Cell) {
    Offset(a, b) in ms && Admissible(g, b)
  }

  /** w is a walk from s to t: it starts at s, ends at t, and each cell after
      the first is entered by a step. The first cell itself is not checked. */
  predicate IsPath(g: Grid, ms: seq<Cell>, w: seq<Cell>, s: Cell, t: Cell) {
    && |w| >= 1
    && w[0] == s
    && w[|w| - 1] == t
    && forall i :: 0 < i < |w| ==> Step(g, ms, w[i - 1], w[i])
  }

  predicate NoRepeats(w: seq<Cell>) {
    forall i, j :: 0 <= i < j < |w| ==> w[i] != w[j]
  }

  ghost predicate Reachable(g: Grid, ms: seq<Cell>, s: Cell, t: Cell) {
    exists w :: IsPath(g, ms, w, s, t)
  }

  /** Every cell reachable from s is s itself or in bounds. */
  lemma ReachableBounded(g: Grid, ms: seq<Cell>, s: Cell)
    ensures forall t :: Reachable(g, ms, s, t) ==> t in InBoundsCells(g) + {s}
  {
    forall t | Reachable(g, ms, s, t)
      ensures t in InBoundsCells(g) + {s}
    {
      var w :| IsPath(g, ms, w, s, t);
      if |w| > 1 {
        assert Step(g, ms, w[|w| - 2], w[|w| - 1]);
      }
    }
  }

  /** The cells reachable from s, as a finite set. */
  ghost function ReachableSet(g: Grid, ms: seq<Cell>, s: Cell): (r: set<Cell>)
    ensures forall t :: t in r <==> Reachable(g, ms, s, t)
  {
    ReachableBounded(g, ms, s);
    set t | t in InBoundsCells(g) + {s} && Reachable(g, ms, s, t)
  }
}
