# Navigation: breadth-first grid path search, modelled in Dafny

The repository is a grid path-finding toy. It contains two copies of a breadth-first search over a scaled integer grid:

- `bfs_pathfind` in `navigation/performance_analysis.py` takes its parameters: start, goal, obstacle set, width, height, step size and a diagonal flag. It returns the path found and the number of queue entries taken off the queue.
- `bfs_pathfind` in `navigation/navi.py` is hard-wired to the 1000 × 400 pixel canvas, 50-pixel squares, eight moves and the editor's blocked squares. It returns only the path.

Around the second copy, `navi.py` keeps a small editor state:

- a left click blocks a square;
- a right click places start (blue) and goal (red) markers in alternation;
- the editor redraws the path between the i-th blue marker and the i-th red marker.

The model has six files.

| file | module | content |
|---|---|---|
| `grid_model.dfy` | `GridModel` | Cells, grids, the ordered move lists, and walks (`IsPath`) as the reference definition of a path. |
| `bfs_spec.dfy` | `BfsSpec` | The search as a function of its state. `Explore` is the neighbour loop, `Next` is one iteration and `Run` is the loop. `Search` is the whole search. |
| `bfs_proofs.dfy` | `BfsProofs` | The loop invariant of the search and its preservation, built on a ghost map from each visited cell to its distance. |
| `bfs_theorems.dfy` | `BfsTheorems` | What `Search` guarantees for every input. |
| `performance_analysis.dfy` | `PerformanceAnalysis` | The parameterised search as an imperative method. It is proved to compute exactly `Search`. |
| `navi.dfy` | `Navi` | The editor as a class whose methods update its fields, and the hard-wired search. |

Both searches are proved equal to `Search`:

- `PerformanceAnalysis.BfsPathfind` returns `Search(Grid(w, h, obstacles), Moves(step, diagonal), start, goal)`.
- `Navi.Editor.BfsPathfind` returns the path of `Search(Grid(1000, 400, filledSquares), Moves(50, true), start, goal)`.

So the hard-wired search returns the same path as the parameterised one called with `filledSquares`, 1000, 400, 50 and diagonals on.

Three points of the code are modelled as written:

- **The start cell is never checked.** It is queued and marked visited even when it is out of bounds or blocked. `IsPath` therefore checks bounds and obstacles only for the cells after the first. `SearchSameCell` shows that a search from a cell to itself returns the one-cell path after one dequeue.
- **Each queue entry carries its own copy of its walk.** There is no predecessor map.
- **Grid dimensions are not validated.** A grid of any width and height is searched as given.

## Model

| member | source | states |
|---|---|---|
| GridModel.AxisMoves | navigation/performance_analysis.py:29 | The four axis moves of size `step_size` in the source's order: down, up, right, left in screen coordinates `(0, s), (0, -s), (s, 0), (-s, 0)`. |
| GridModel.Moves | navigation/performance_analysis.py:24-29 | The move list of one iteration: the four axis moves, followed by the four diagonal moves `(s, s), (s, -s), (-s, s), (-s, -s)` when diagonals are allowed. |
| BfsSpec.Consider | navigation/performance_analysis.py:32-38 | One pass of the `for dx, dy in moves` body. It appends `(n, path + [n])` to the queue and adds n to visited when n is in bounds, not visited and not blocked; otherwise the state is unchanged. |
| BfsSpec.Explore | navigation/performance_analysis.py:31-38 | The whole neighbour loop: `Consider` applied to each move in list order. |
| BfsSpec.Next | navigation/performance_analysis.py:17-38 | One iteration that does not return: popleft of the front entry, then the neighbour loop from its cell and walk on the rest of the queue. |
| BfsSpec.Initial | navigation/performance_analysis.py:12-14 | The queue `[(start, [start])]` and visited set `{start}`, with no check of the start. |
| BfsSpec.Search | navigation/performance_analysis.py:10-40 | The whole search: the loop `Run` from the initial state with the counter at 0. |
| BfsSpec.ExploreGrows | navigation/performance_analysis.py:31-38 | The neighbour loop only appends. It keeps the queue it started with as a prefix and keeps every visited cell. It marks as many cells visited as it queues. |
| BfsSpec.ExploreMeasure | navigation/performance_analysis.py:16-38 | Each cell the neighbour loop queues is a new in-bounds cell. So (unvisited in-bounds cells) + (queue length) is unchanged by the loop and drops by one per dequeue, and the loop terminates. |
| BfsSpec.Run | navigation/performance_analysis.py:16-40 | The loop never decreases the counter, and increments it at least once when the queue is non-empty. |
| BfsSpec.RunStep | navigation/performance_analysis.py:16-38 | An iteration that does not reach the goal leaves the loop's outcome unchanged, with the counter one further. |
| BfsProofs.InitialInv | navigation/performance_analysis.py:12-14 | The initial queue `[(start, [start])]`, visited set `{start}` and counter 0 satisfy the search invariant. |
| BfsProofs.WalkBound | navigation/performance_analysis.py:12-38 | Under the invariant, no walk from start to a visited cell is shorter than that cell's distance. A walk to an unvisited cell is longer than the walk at the front of the queue. |
| BfsProofs.ExploreAppends | navigation/performance_analysis.py:31-38 | Every entry the neighbour loop appends is a cell that was not visited before and is now visited. It is one move from the current cell, in bounds and unblocked, and its walk is the current walk extended by that cell. |
| BfsProofs.ExploreQueuesNew | navigation/performance_analysis.py:36-38 | Every cell the neighbour loop marks visited is also queued by it. |
| BfsProofs.ExploreCovers | navigation/performance_analysis.py:31-38 | After the neighbour loop, every admissible neighbour of the current cell is visited. |
| BfsProofs.NextShape | navigation/performance_analysis.py:16-38 | One iteration pops the front entry and keeps the rest of the queue in order. Behind the rest it appends exactly the newly visited cells, and afterwards all admissible neighbours of the popped cell are visited. |
| BfsProofs.NextEntries | navigation/performance_analysis.py:17-38 | After an iteration, every queued walk runs from start to its cell, repeats no cell, and has length equal to that cell's distance plus one. |
| BfsProofs.NextDiscovered | navigation/performance_analysis.py:35-38 | After an iteration, every visited cell is the start or in bounds, and is reachable from the start. |
| BfsProofs.NextLayered | navigation/performance_analysis.py:17-38 | After an iteration the FIFO queue is still sorted by walk length and spans at most two lengths. No visited cell lies beyond the front's length. |
| BfsProofs.NextClosedCurrent | navigation/performance_analysis.py:31-38 | Once a cell has been expanded, all of its admissible neighbours are visited, at most one move further away. |
| BfsProofs.NextClosedOff | navigation/performance_analysis.py:16-38 | After an iteration, every visited cell that has left the queue is closed in that sense. |
| BfsProofs.NextGoalPending | navigation/performance_analysis.py:17-21 | A visited goal has not left the queue, because the loop returns as soon as the goal is dequeued. |
| BfsProofs.StepPreservesInv | navigation/performance_analysis.py:16-38 | An iteration that does not return keeps the whole search invariant, with the counter incremented. |
| BfsProofs.Exhausted | navigation/performance_analysis.py:16-40 | When the queue runs out, the visited cells are exactly the reachable cells, the goal is not reachable, and the counter equals their number. |
| BfsProofs.Found | navigation/performance_analysis.py:17-21 | When the goal is dequeued, its walk is a path with no repeated cell that is no longer than any walk from start to goal. |
| BfsProofs.RunCorrect | navigation/performance_analysis.py:12-40 | From any state satisfying the invariant, the loop delivers a shortest walk to the goal, or [] exactly when the goal is unreachable. In the [] case the counter equals the number of reachable cells. |
| BfsProofs.RunAfterStep | navigation/performance_analysis.py:16-38 | If the state after one iteration that does not return satisfies the invariant, the loop run from the state before it delivers a shortest walk, or [] with the goal unreachable. This is the step case of RunCorrect. |
| BfsTheorems.SearchDelivers | navigation/performance_analysis.py:10-40 | Everything the search promises, as one statement about `Search`. |
| BfsTheorems.SearchPathIsWalk | navigation/performance_analysis.py:12-38 | A returned path starts at start and ends at goal. Each step equals one of the moves, and every cell after the first is in bounds and not an obstacle. |
| BfsTheorems.SearchPathNoRepeats | navigation/performance_analysis.py:13-38 | A returned path visits no cell twice. |
| BfsTheorems.SearchShortest | navigation/performance_analysis.py:12-38 | If a walk from start to goal exists, the search returns a path that is no longer than it. |
| BfsTheorems.SearchFailsIffUnreachable | navigation/performance_analysis.py:16-40 | The search returns [] if and only if the goal cannot be reached from the start. |
| BfsTheorems.SearchExhaustedCount | navigation/performance_analysis.py:14-40 | When [] is returned, `nodes_explored` equals the number of cells reachable from the start. |
| BfsTheorems.SearchExploredBounds | navigation/performance_analysis.py:14-37 | 1 <= `nodes_explored` <= (number of in-bounds cells) + 1. |
| BfsTheorems.SearchSameCell | navigation/performance_analysis.py:12-21 | With start == goal the result is `([start], 1)`, even when start is out of bounds or blocked. |
| BfsTheorems.AxisOnlyWithoutDiagonals | navigation/performance_analysis.py:24-32 | Without diagonals, consecutive path cells differ by exactly `step_size` along one axis. |
| PerformanceAnalysis.SearchOutcome | navigation/performance_analysis.py:21-40 | A non-empty outcome is a walk from start to goal, and the outcome is [] exactly when the goal is unreachable. |
| PerformanceAnalysis.ExploreNeighbours | navigation/performance_analysis.py:31-38 | The `for dx, dy in moves` loop leaves the queue and visited set equal to `Explore` of the moves. |
| PerformanceAnalysis.BfsPathfind | navigation/performance_analysis.py:10-40 | The method returns exactly `Search` on its parameters (path and counter). So every `BfsTheorems` property holds of its result, and its own contract restates two of them. |
| Navi.Snap | navigation/navi.py:27-28 | `(m // 50) * 50` is a multiple of 50, at most m and within 50 of m. |
| Navi.SnapUnique | navigation/navi.py:27-28 | That multiple is the only one with this property. |
| Navi.SnapIdempotent | navigation/navi.py:27-28 | Snapping an anchor leaves it unchanged. |
| Navi.SquareAt | navigation/navi.py:25-28 | The square under the mouse: both pixel coordinates snapped with `(m // 50) * 50`. |
| Navi.PathFor | navigation/navi.py:53-76 | The path drawn for a pair is a walk from its start to its goal on the canvas, and it is [] exactly when the goal is unreachable. |
| Navi.PairPaths | navigation/navi.py:78-85 | What `compute_all_paths` leaves in `paths` after the first k pairs: the list built from empty by appending, for each index in order, the path from `blue[i]` to `red[i]` when it is non-empty. |
| Navi.PairPathsSound | navigation/navi.py:78-85 | At most one path is kept per pair. Every kept path is the non-empty path of one of the pairs considered. |
| Navi.PairPathsComplete | navigation/navi.py:82-85 | Every pair considered that has a path has it kept. |
| Navi.PairPathsPrefix | navigation/navi.py:82-85 | Pairs are handled in index order. The paths for the first j pairs are a prefix of those for the first k >= j. |
| Navi.PairPathsLocal | navigation/navi.py:53-85 | The paths kept for the first k pairs depend only on the blocked squares and those k pairs. Each search has its own visited set. |
| Navi.Min | navigation/navi.py:82 | `min` is at most both arguments and equal to one of them. |
| Navi.Editor.Valid | navigation/navi.py:17-21 | The editor invariant. The red list has as many markers as the blue one or one fewer, and the flag says whether they are equally long. No marker sits on a blocked square, and neither list holds a square twice. The fill handlers keep it by the guards at navi.py:30, 43, 45 and 49. |
| Navi.Editor.constructor | navigation/navi.py:17-21 | Start-up state: no blocked squares, no markers, the next marker blue, no paths. It satisfies the marker invariant. |
| Navi.Editor.FillSquareAtMouse | navigation/navi.py:23-31 | Adds exactly the snapped square to the blocked set when neither marker list holds it; otherwise nothing changes. The marker lists, the flag and the paths never change. The marker invariant is preserved. |
| Navi.Editor.FillCircleAtMouse | navigation/navi.py:33-51 | Nothing changes on a blocked square. If the flag is set, the square is appended to the blue list unless already there, and the flag flips exactly when it is appended; otherwise the same holds for the red list. The blocked set and paths never change, and the invariant is kept: `len(blue) - len(red)` in {0, 1}, the flag equals `len(blue) == len(red)`, markers stay off blocked squares, and no list holds a square twice. |
| Navi.Editor.BfsPathfind | navigation/navi.py:53-76 | The hard-wired search returns the path of `Search` on the 1000 x 400 canvas with the blocked squares and eight 50-pixel moves, which is what the parameterised search returns for those arguments. |
| Navi.Editor.ComputeAllPaths | navigation/navi.py:78-85 | `paths` becomes the non-empty paths for pairs `0 <= i < min(len(blue), len(red))`, in index order. Blocked squares, markers and the flag are untouched. |

## Left out

- Rendering, the pygame event loop and frame timing (`navigation/navi.py` lines 1-9 and 117-172) are UI and I/O. Which handler a click triggers, and the `compute_all_paths` call after a right click, are not modelled as a sequence of events.
- `generate_random_pairs` (`navigation/navi.py` lines 87-115) and `generate_random_obstacles` (`navigation/performance_analysis.py` lines 42-53) depend on `random.randint`, and their rejection loops need not terminate.
- The timing, printing and plotting harnesses (`test_*`, `plot_results`, `main` in `navigation/performance_analysis.py` lines 55-304) use wall-clock time, floating point and matplotlib.
- The deque is modelled as a sequence. `popleft` takes the head, and the tuple `(cell, path)` is the `Entry` datatype.
- The neighbour loop is a separate method, `PerformanceAnalysis.ExploreNeighbours`, which both searches call. In the source it is written inline in each copy. `Navi.Editor.BfsPathfind` passes it the literal eight-move list of `navigation/navi.py` lines 65-67 and the constants 1000 and 400.
- Mouse coordinates are unbounded integers. Python's `//` with the positive divisor 50 rounds toward negative infinity, as Dafny's `/` does, so snapping is exact for every integer.
