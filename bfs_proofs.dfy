/**
 The invariant of the breadth-first search and its preservation.

 The proof follows the search with a ghost map lv from each visited cell to the
 length (in moves) of the walk that discovered it. The invariant Inv says: the
 queue is ordered by walk length and spans at most two lengths; no visited cell
 lies more than one move beyond the front of the queue; every visited cell that
 has left the queue has all its admissible neighbours visited; and the goal has
 not left the queue. From it, RunCorrect derives what the search delivers.
 */
module BfsProofs {
  import opened GridModel
  import opened BfsSpec

  /** A queue entry agrees with lv: its walk reaches its cell from start in
      lv[cell] moves, repeats no cell, and visits only visited cells. */
  ghost predicate EntryOk(g: Grid, ms: seq<Cell>, start: Cell, lv: map<Cell, nat>, e: Entry) {
    && e.cell in lv
    && lv[e.cell] + 1 == |e.path|
    && IsPath(g, ms, e.path, start, e.cell)
    && NoRepeats(e.path)
    && forall j :: 0 <= j < |e.path| ==> e.path[j] in lv
  }

  /** Every admissible neighbour of c is visited, at most one move further. */
  ghost predicate Closed(g: Grid, ms: seq<Cell>, lv: map<Cell, nat>, c: Cell)
    requires c in lv
  {
    forall k :: 0 <= k < |ms| && Admissible(g, Add(c, ms[k])) ==>
      Add(c, ms[k]) in lv && lv[Add(c, ms[k])] <= lv[c] + 1
  }

  /** lv covers the visited cells, the start is at level 0, and the counter
      plus the queue length is the number of visited cells. */
  ghost predicate Levels(start: Cell, f: Frontier, n: nat, lv: map<Cell, nat>) {
    && f.visited == lv.Keys
    && start in lv && lv[start] == 0
    && n + |f.queue| == |f.visited|
  }

  /** Every visited cell is the start or in bounds, and is reachable. */
  ghost predicate Discovered(g: Grid, ms: seq<Cell>, start: Cell, f: Frontier) {
    && f.visited <= InBoundsCells(g) + {start}
    && forall c :: c in f.visited ==> Reachable(g, ms, start, c)
  }

  ghost predicate Entries(g: Grid, ms: seq<Cell>, start: Cell, f: Frontier, lv: map<Cell, nat>) {
    forall i :: 0 <= i < |f.queue| ==> EntryOk(g, ms, start, lv, f.queue[i])
  }

  /** The queue is ordered by walk length, spans at most two lengths, and no
      visited cell is more than one move beyond its front. */
  ghost predicate Layered(f: Frontier, lv: map<Cell, nat>) {
    && (forall i, j :: 0 <= i <= j < |f.queue| ==> |f.queue[i].path| <= |f.queue[j].path|)
    && (f.queue != [] ==> |f.queue[|f.queue| - 1].path| <= |f.queue[0].path| + 1)
    && (f.queue != [] ==> forall c :: c in lv ==> lv[c] <= |f.queue[0].path|)
  }

  /** Every visited cell that has left the queue is closed. */
  ghost predicate ClosedOff(g: Grid, ms: seq<Cell>, f: Frontier, lv: map<Cell, nat>) {
    forall c :: c in lv && c !in Cells(f.queue) ==> Closed(g, ms, lv, c)
  }

  /** A visited goal has not left the queue (the search would have stopped). */
  ghost predicate GoalPending(goal: Cell, f: Frontier) {
    goal in f.visited ==> goal in Cells(f.queue)
  }

  ghost predicate Inv(g: Grid, ms: seq<Cell>, start: Cell, goal: Cell, f: Frontier, n: nat, lv: map<Cell, nat>) {
    && Levels(start, f, n, lv)
    && Discovered(g, ms, start, f)
    && Entries(g, ms, start, f, lv)
    && Layered(f, lv)
    && ClosedOff(g, ms, f, lv)
    && GoalPending(goal, f)
  }

  /** lv extended to the cells of v it lacks, all at the given level. */
  ghost function Extend(lv: map<Cell, nat>, v: set<Cell>, level: nat): (r: map<Cell, nat>)
    requires lv.Keys <= v
    ensures r.Keys == v
    ensures forall c :: c in lv ==> r[c] == lv[c]
    ensures forall c :: c in v && c !in lv ==> r[c] == level
  {
    map c | c in v :: if c in lv then lv[c] else level
  }

  /** The levels after one iteration: the cells it visits are one move beyond
      the cell taken off the queue. */
  ghost function NextLevels(g: Grid, ms: seq<Cell>, f: Frontier, lv: map<Cell, nat>): (r: map<Cell, nat>)
    requires f.queue != [] && lv.Keys == f.visited
    ensures r.Keys == Next(g, ms, f).visited
  {
    ExploreGrows(g, ms, f.queue[0].cell, f.queue[0].path, Frontier(f.queue[1..], f.visited));
    Extend(lv, Next(g, ms, f).visited, |f.queue[0].path|)
  }

  lemma InitialInv(g: Grid, ms: seq<Cell>, start: Cell, goal: Cell)
    ensures Inv(g, ms, start, goal, Initial(start), 0, map[start := 0])
  {
    var f := Initial(start);
    assert IsPath(g, ms, [start], start, start);
    assert Cells(f.queue) == {start};
  }

  /** Any walk from start is no shorter than the level of the cell it ends on,
      and a walk that ends outside the visited set is longer than the walk at
      the front of the queue. */
  lemma {:induction false} WalkBound(g: Grid, ms: seq<Cell>, start: Cell, f: Frontier, n: nat,
                                     lv: map<Cell, nat>, w: seq<Cell>)
    requires Levels(start, f, n, lv) && Entries(g, ms, start, f, lv) && Layered(f, lv) && ClosedOff(g, ms, f, lv)
    requires |w| >= 1 && IsPath(g, ms, w, start, w[|w| - 1])
    ensures w[|w| - 1] in lv ==> lv[w[|w| - 1]] < |w|
    ensures w[|w| - 1] !in lv ==> f.queue != [] && |f.queue[0].path| < |w|
    decreases |w|
  {
    if |w| > 1 {
      var w' := w[..|w| - 1];
      var b, c := w[|w| - 2], w[|w| - 1];
      assert IsPath(g, ms, w', start, b) by {
        forall i | 0 < i < |w'|
          ensures Step(g, ms, w'[i - 1], w'[i])
        {
          assert Step(g, ms, w[i - 1], w[i]);
        }
      }
      WalkBound(g, ms, start, f, n, lv, w');
      assert Step(g, ms, b, c);
      var k :| 0 <= k < |ms| && ms[k] == Offset(b, c);
      assert Add(b, ms[k]) == c;
      if b in lv {
        if b in Cells(f.queue) {
          var i :| 0 <= i < |f.queue| && f.queue[i].cell == b;
          assert EntryOk(g, ms, start, lv, f.queue[i]);
          assert |f.queue[0].path| <= |f.queue[i].path|;
        } else {
          assert Closed(g, ms, lv, b);
        }
      }
    }
  }

  /** Entry i of r is a cell not in visited, now in r's visited set, one step
      from cur, queued with the walk to cur extended by it. */
  ghost predicate Appended(g: Grid, ms: seq<Cell>, cur: Cell, path: seq<Cell>, visited: set<Cell>, r: Frontier, i: int)
    requires 0 <= i < |r.queue|
  {
    && r.queue[i].cell !in visited
    && r.queue[i].cell in r.visited
    && Step(g, ms, cur, r.queue[i].cell)
    && r.queue[i].path == path + [r.queue[i].cell]
  }

  /** The entries one neighbour loop appends are new cells one step from cur,
      each with the walk to cur extended by it. */
  lemma {:induction false} ExploreAppends(g: Grid, ms: seq<Cell>, cur: Cell, path: seq<Cell>, f: Frontier)
    ensures forall i :: |f.queue| <= i < |Explore(g, ms, cur, path, f).queue| ==>
      Appended(g, ms, cur, path, f.visited, Explore(g, ms, cur, path, f), i)
    decreases |ms|
  {
    if ms != [] {
      var ms' := ms[..|ms| - 1];
      ExploreAppends(g, ms', cur, path, f);
      ExploreGrows(g, ms', cur, path, f);
      var f1 := Explore(g, ms', cur, path, f);
      var r := Explore(g, ms, cur, path, f);
      assert r == Consider(g, cur, path, f1, ms[|ms| - 1]);
      forall i | |f.queue| <= i < |r.queue|
        ensures Appended(g, ms, cur, path, f.visited, r, i)
      {
        if i < |f1.queue| {
          assert r.queue[i] == f1.queue[i];
          assert Appended(g, ms', cur, path, f.visited, f1, i);
          var j :| 0 <= j < |ms'| && ms'[j] == Offset(cur, f1.queue[i].cell);
          assert ms[j] == ms'[j];
        }
      }
    }
  }

  /** Every cell one neighbour loop marks visited is queued by it. */
  lemma {:induction false} ExploreQueuesNew(g: Grid, ms: seq<Cell>, cur: Cell, path: seq<Cell>, f: Frontier)
    ensures var r := Explore(g, ms, cur, path, f);
      |f.queue| <= |r.queue| &&
      forall c :: c in r.visited && c !in f.visited ==> c in Cells(r.queue[|f.queue|..])
    decreases |ms|
  {
    if ms != [] {
      var ms' := ms[..|ms| - 1];
      ExploreQueuesNew(g, ms', cur, path, f);
      ExploreGrows(g, ms', cur, path, f);
      var f1 := Explore(g, ms', cur, path, f);
      var r := Explore(g, ms, cur, path, f);
      var k := |f.queue|;
      forall c | c in r.visited && c !in f.visited
        ensures c in Cells(r.queue[k..])
      {
        if c in f1.visited {
          var i :| 0 <= i < |f1.queue[k..]| && f1.queue[k..][i].cell == c;
          assert r.queue[k..][i] == f1.queue[k..][i];
        } else {
          assert r.queue[k..][|r.queue| - 1 - k].cell == c;
        }
      }
    }
  }

  /** After one neighbour loop every admissible neighbour of cur is visited. */
  lemma {:induction false} ExploreCovers(g: Grid, ms: seq<Cell>, cur: Cell, path: seq<Cell>, f: Frontier)
    ensures var r := Explore(g, ms, cur, path, f);
      forall k :: 0 <= k < |ms| && Admissible(g, Add(cur, ms[k])) ==> Add(cur, ms[k]) in r.visited
    decreases |ms|
  {
    if ms != [] {
      var ms' := ms[..|ms| - 1];
      ExploreCovers(g, ms', cur, path, f);
      var f1 := Explore(g, ms', cur, path, f);
      var r := Explore(g, ms, cur, path, f);
      assert f1.visited <= r.visited;
      forall k | 0 <= k < |ms| && Admissible(g, Add(cur, ms[k]))
        ensures Add(cur, ms[k]) in r.visited
      {
        if k < |ms'| {
          assert ms'[k] == ms[k];
        }
      }
    }
  }

  /** One iteration keeps the rest of the queue in front, and queues every
      cell it visits after it, each one step from the cell taken off. */
  lemma NextShape(g: Grid, ms: seq<Cell>, f: Frontier)
    requires f.queue != []
    ensures var q, r := f.queue, Next(g, ms, f);
      && f.visited <= r.visited
      && |q| - 1 <= |r.queue|
      && |r.visited| - |f.visited| == |r.queue| - (|q| - 1)
      && (forall i :: 0 <= i < |q| - 1 ==> r.queue[i] == q[i + 1])
      && (forall i :: |q| - 1 <= i < |r.queue| ==> Appended(g, ms, q[0].cell, q[0].path, f.visited, r, i))
      && (forall c :: c in r.visited && c !in f.visited ==> exists i :: |q| - 1 <= i < |r.queue| && r.queue[i].cell == c)
      && (forall k :: 0 <= k < |ms| && Admissible(g, Add(q[0].cell, ms[k])) ==> Add(q[0].cell, ms[k]) in r.visited)
  {
    var q := f.queue;
    var f0 := Frontier(q[1..], f.visited);
    var r := Next(g, ms, f);
    assert r == Explore(g, ms, q[0].cell, q[0].path, f0);
    ExploreGrows(g, ms, q[0].cell, q[0].path, f0);
    ExploreAppends(g, ms, q[0].cell, q[0].path, f0);
    ExploreQueuesNew(g, ms, q[0].cell, q[0].path, f0);
    ExploreCovers(g, ms, q[0].cell, q[0].path, f0);
    var k0 := |q| - 1;
    forall i | 0 <= i < k0
      ensures r.queue[i] == q[i + 1]
    {
      assert r.queue[i] == f0.queue[i];
    }
    forall c | c in r.visited && c !in f.visited
      ensures exists i :: k0 <= i < |r.queue| && r.queue[i].cell == c
    {
      var i :| 0 <= i < |r.queue[k0..]| && r.queue[k0..][i].cell == c;
      assert r.queue[k0 + i].cell == c;
    }
  }

  /** After one iteration every queue entry agrees with the new levels. */
  lemma NextEntries(g: Grid, ms: seq<Cell>, start: Cell, f: Frontier, n: nat, lv: map<Cell, nat>)
    requires f.queue != [] && Levels(start, f, n, lv) && Entries(g, ms, start, f, lv)
    ensures Entries(g, ms, start, Next(g, ms, f), NextLevels(g, ms, f, lv))
  {
    var q := f.queue;
    var cur, p := q[0].cell, q[0].path;
    var r, lv' := Next(g, ms, f), NextLevels(g, ms, f, lv);
    NextShape(g, ms, f);
    var k0 := |q| - 1;
    assert EntryOk(g, ms, start, lv, q[0]);
    forall i | 0 <= i < |r.queue|
      ensures EntryOk(g, ms, start, lv', r.queue[i])
    {
      if i < k0 {
        assert r.queue[i] == q[i + 1];
        assert EntryOk(g, ms, start, lv, q[i + 1]);
      } else {
        assert Appended(g, ms, cur, p, f.visited, r, i);
        var c := r.queue[i].cell;
        var w := p + [c];
        assert IsPath(g, ms, w, start, c) by {
          forall j | 0 < j < |w|
            ensures Step(g, ms, w[j - 1], w[j])
          {
            if j < |p| {
              assert w[j - 1] == p[j - 1] && w[j] == p[j];
            }
          }
        }
        assert NoRepeats(w) by {
          forall a, b | 0 <= a < b < |w|
            ensures w[a] != w[b]
          {
            if b < |p| {
              assert w[a] == p[a] && w[b] == p[b];
            } else {
              assert w[a] == p[a] && p[a] in lv;
            }
          }
        }
      }
    }
  }

  /** After one iteration every visited cell is the start or in bounds, and
      reachable. */
  lemma NextDiscovered(g: Grid, ms: seq<Cell>, start: Cell, f: Frontier, n: nat, lv: map<Cell, nat>)
    requires f.queue != [] && Levels(start, f, n, lv) && Entries(g, ms, start, f, lv) && Discovered(g, ms, start, f)
    ensures Discovered(g, ms, start, Next(g, ms, f))
  {
    var q := f.queue;
    var r, lv' := Next(g, ms, f), NextLevels(g, ms, f, lv);
    NextShape(g, ms, f);
    NextEntries(g, ms, start, f, n, lv);
    forall c | c in r.visited
      ensures c in InBoundsCells(g) + {start} && Reachable(g, ms, start, c)
    {
      if c !in lv {
        var i :| |q| - 1 <= i < |r.queue| && r.queue[i].cell == c;
        assert Appended(g, ms, q[0].cell, q[0].path, f.visited, r, i);
        assert EntryOk(g, ms, start, lv', r.queue[i]);
      }
    }
  }

  /** After one iteration the queue is still layered. */
  lemma NextLayered(g: Grid, ms: seq<Cell>, start: Cell, f: Frontier, n: nat, lv: map<Cell, nat>)
    requires f.queue != [] && Levels(start, f, n, lv) && Layered(f, lv)
    ensures Layered(Next(g, ms, f), NextLevels(g, ms, f, lv))
  {
    var q := f.queue;
    var cur, p := q[0].cell, q[0].path;
    var r, lv' := Next(g, ms, f), NextLevels(g, ms, f, lv);
    NextShape(g, ms, f);
    var k0 := |q| - 1;
    forall i | k0 <= i < |r.queue|
      ensures |r.queue[i].path| == |p| + 1
    {
      assert Appended(g, ms, cur, p, f.visited, r, i);
    }
    forall i, j | 0 <= i <= j < |r.queue|
      ensures |r.queue[i].path| <= |r.queue[j].path|
    {
      if j < k0 {
        assert r.queue[i] == q[i + 1] && r.queue[j] == q[j + 1];
      } else if i < k0 {
        assert r.queue[i] == q[i + 1];
        assert |q[i + 1].path| <= |q[k0].path|;
      }
    }
    if r.queue != [] {
      if k0 > 0 {
        assert r.queue[0] == q[1];
        assert |q[0].path| <= |q[1].path|;
      }
      assert |p| <= |r.queue[0].path|;
      var last := |r.queue| - 1;
      if last < k0 {
        assert r.queue[last] == q[last + 1];
        assert |q[last + 1].path| <= |p| + 1;
      }
      assert |r.queue[last].path| <= |p| + 1;
    }
  }

  /** After one iteration the cell taken off the queue is closed. */
  lemma NextClosedCurrent(g: Grid, ms: seq<Cell>, start: Cell, f: Frontier, n: nat, lv: map<Cell, nat>)
    requires f.queue != [] && Levels(start, f, n, lv) && Entries(g, ms, start, f, lv) && Layered(f, lv)
    ensures var lv' := NextLevels(g, ms, f, lv);
      f.queue[0].cell in lv' && Closed(g, ms, lv', f.queue[0].cell)
  {
    var cur, p := f.queue[0].cell, f.queue[0].path;
    var lv' := NextLevels(g, ms, f, lv);
    NextShape(g, ms, f);
    assert EntryOk(g, ms, start, lv, f.queue[0]);
    forall k | 0 <= k < |ms| && Admissible(g, Add(cur, ms[k]))
      ensures Add(cur, ms[k]) in lv' && lv'[Add(cur, ms[k])] <= lv'[cur] + 1
    {
      var nb := Add(cur, ms[k]);
      if nb in lv {
        assert lv[nb] <= |p|;
      }
    }
  }

  /** After one iteration every visited cell that has left the queue is
      closed: the old ones were, and the cell just taken off is. */
  lemma NextClosedOff(g: Grid, ms: seq<Cell>, start: Cell, f: Frontier, n: nat, lv: map<Cell, nat>)
    requires f.queue != [] && Levels(start, f, n, lv) && Entries(g, ms, start, f, lv) && Layered(f, lv)
    requires ClosedOff(g, ms, f, lv)
    ensures ClosedOff(g, ms, Next(g, ms, f), NextLevels(g, ms, f, lv))
  {
    var q := f.queue;
    var r, lv' := Next(g, ms, f), NextLevels(g, ms, f, lv);
    NextShape(g, ms, f);
    NextClosedCurrent(g, ms, start, f, n, lv);
    forall c | c in lv' && c !in Cells(r.queue) && c != q[0].cell
      ensures Closed(g, ms, lv', c)
    {
      assert c in lv;
      forall i | 0 < i < |q|
        ensures q[i].cell != c
      {
        assert r.queue[i - 1] == q[i];
      }
      assert c !in Cells(q);
      assert Closed(g, ms, lv, c);
    }
  }

  /** After one iteration that does not stop, a visited goal is still queued. */
  lemma NextGoalPending(g: Grid, ms: seq<Cell>, goal: Cell, f: Frontier)
    requires f.queue != [] && f.queue[0].cell != goal && GoalPending(goal, f)
    ensures GoalPending(goal, Next(g, ms, f))
  {
    var q := f.queue;
    var r := Next(g, ms, f);
    NextShape(g, ms, f);
    if goal in r.visited {
      if goal in f.visited {
        var i :| 0 <= i < |q| && q[i].cell == goal;
        assert r.queue[i - 1] == q[i];
      } else {
        var i :| |q| - 1 <= i < |r.queue| && r.queue[i].cell == goal;
      }
    }
  }

  /** One iteration that does not stop keeps Inv. */
  lemma StepPreservesInv(g: Grid, ms: seq<Cell>, start: Cell, goal: Cell, f: Frontier, n: nat, lv: map<Cell, nat>)
    requires Inv(g, ms, start, goal, f, n, lv) && f.queue != [] && f.queue[0].cell != goal
    ensures Inv(g, ms, start, goal, Next(g, ms, f), n + 1, NextLevels(g, ms, f, lv))
  {
    NextShape(g, ms, f);
    NextDiscovered(g, ms, start, f, n, lv);
    NextEntries(g, ms, start, f, n, lv);
    NextLayered(g, ms, start, f, n, lv);
    NextClosedOff(g, ms, start, f, n, lv);
    NextGoalPending(g, ms, goal, f);
  }

  /** What a finished search from start to goal delivers. */
  ghost predicate Delivers(g: Grid, ms: seq<Cell>, start: Cell, goal: Cell, r: Outcome) {
    && r.explored <= |InBoundsCells(g) + {start}|
    && (r.path != [] ==>
          && IsPath(g, ms, r.path, start, goal)
          && NoRepeats(r.path)
          && forall w :: IsPath(g, ms, w, start, goal) ==> |r.path| <= |w|)
    && (r.path == [] ==>
          && !Reachable(g, ms, start, goal)
          && r.explored == |ReachableSet(g, ms, start)|)
  }

  lemma SubsetCard(a: set<Cell>, b: set<Cell>)
    requires a <= b
    ensures |a| <= |b|
  {
    assert b == a + (b - a);
  }

  /** When the queue runs out, the visited cells are exactly the reachable
      ones, and the goal is not among them. */
  lemma Exhausted(g: Grid, ms: seq<Cell>, start: Cell, goal: Cell, f: Frontier, n: nat, lv: map<Cell, nat>)
    requires Inv(g, ms, start, goal, f, n, lv) && f.queue == []
    ensures f.visited == ReachableSet(g, ms, start)
    ensures Delivers(g, ms, start, goal, Outcome([], n))
  {
    SubsetCard(f.visited, InBoundsCells(g) + {start});
    forall c | Reachable(g, ms, start, c)
      ensures c in lv
    {
      var w :| IsPath(g, ms, w, start, c);
      WalkBound(g, ms, start, f, n, lv, w);
    }
    assert f.visited == ReachableSet(g, ms, start);
  }

  /** When the goal is at the front of the queue, its walk is a shortest one. */
  lemma Found(g: Grid, ms: seq<Cell>, start: Cell, goal: Cell, f: Frontier, n: nat, lv: map<Cell, nat>)
    requires Inv(g, ms, start, goal, f, n, lv) && f.queue != [] && f.queue[0].cell == goal
    ensures Delivers(g, ms, start, goal, Outcome(f.queue[0].path, n + 1))
  {
    SubsetCard(f.visited, InBoundsCells(g) + {start});
    assert EntryOk(g, ms, start, lv, f.queue[0]);
    forall w | IsPath(g, ms, w, start, goal)
      ensures |f.queue[0].path| <= |w|
    {
      WalkBound(g, ms, start, f, n, lv, w);
    }
  }

  /** The search loop, run from any state satisfying Inv, delivers a shortest
      walk to the goal or proves it unreachable. */
  lemma {:induction false} RunCorrect(g: Grid, ms: seq<Cell>, start: Cell, goal: Cell, f: Frontier, n: nat, lv: map<Cell, nat>)
    requires Inv(g, ms, start, goal, f, n, lv)
    ensures Delivers(g, ms, start, goal, Run(g, ms, goal, f, n))
    decreases |InBoundsCells(g) - f.visited| + |f.queue|, 1
  {
    if f.queue == [] {
      Exhausted(g, ms, start, goal, f, n, lv);
      assert Run(g, ms, goal, f, n) == Outcome([], n);
    } else if f.queue[0].cell == goal {
      Found(g, ms, start, goal, f, n, lv);
      assert Run(g, ms, goal, f, n) == Outcome(f.queue[0].path, n + 1);
    } else {
      StepPreservesInv(g, ms, start, goal, f, n, lv);
      RunAfterStep(g, ms, start, goal, f, n, NextLevels(g, ms, f, lv));
    }
  }

  /** The search after one iteration that does not stop delivers what the
      search from the state before it delivers. */
  lemma {:induction false} RunAfterStep(g: Grid, ms: seq<Cell>, start: Cell, goal: Cell, f: Frontier, n: nat, lv': map<Cell, nat>)
    requires f.queue != [] && f.queue[0].cell != goal
    requires Inv(g, ms, start, goal, Next(g, ms, f), n + 1, lv')
    ensures Delivers(g, ms, start, goal, Run(g, ms, goal, f, n))
    decreases |InBoundsCells(g) - f.visited| + |f.queue|, 0
  {
    ExploreMeasure(g, ms, f.queue[0].cell, f.queue[0].path, Frontier(f.queue[1..], f.visited));
    RunCorrect(g, ms, start, goal, Next(g, ms, f), n + 1, lv');
    assert Run(g, ms, goal, f, n) == Run(g, ms, goal, Next(g, ms, f), n + 1);
  }
}
