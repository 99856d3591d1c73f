# path-finder: a verified model of the pathfinding engine

path-finder is a grid pathfinding visualiser. It has a square grid of cells. Each cell has coordinates `(x, y)` and a state: EMPTY, BLOCKED, VISITED, EXPLORING, START, END or PATH. Four searches run from the START cell to the END cell: breadth-first search, depth-first search, Dijkstra and A*. Each returns the same two things:

- `explorationSteps`: groups of explored cells, which the UI animates one group per tick;
- `path`: the route found, or nothing.

The application builds the grid, edits it, and marks it during the animation through a handful of pure snapshot transforms.

This project models that core in Dafny and proves what each part promises:

| module | file | what it is |
|---|---|---|
| `Node` | `node.dfy` | the cell value and its `"x-y"` id |
| `Grid` | `grid.dfy` | the graph the searches run on, where a move goes to an in-bounds, 4-adjacent, non-BLOCKED cell of the grid; walks and shortest distances |
| `PathfindingUtils` | `pathfinding_utils.dfy` | neighbour lookup, first START/END lookup, the sorted-array priority queue (a class over a `seq` field), parent-map path reconstruction, the Manhattan heuristic |
| `SearchCommon` | `search_common.dfy` | the result shape and what every search promises (path found iff reachable, a walk from START to END, well-formed steps); the parent-map tree the searches build; the discovery loop of BFS and DFS |
| `Bfs` | `bfs.dfy` | the level-order search |
| `Dfs` | `dfs.dfy` | the explicit-stack search |
| `BestFirst` | `best_first.dfy` | what Dijkstra and A* share: the loop state of a lazy-deletion best-first search whose priority is `g + h` with a consistent `h`, and why the front of the queue is final |
| `Dijkstra` | `dijkstra.dfy` | uniform-cost search, `h = 0` |
| `AStar` | `astar.dfy` | A* with `f = g + manhattan(cell, END)` |
| `App` | `app.dfy` | grid creation, clearing, cell update, drag-and-drop, and the two animation-tick updaters |
| `Seqs` | `seqs.dfy` | `Option`, flattening and distinctness of sequences |

The searches are imperative methods with loops and invariants, written like the JavaScript: FIFO queue, stack, visited set, parent map and distance maps. Each returns its result through a contract over specification predicates:

- `FindsPath`: an empty result when an endpoint is missing; otherwise the path is empty exactly when END is unreachable, and a non-empty path is a legal walk from START to END;
- `FindsShortestPath`: BFS, Dijkstra and A* return a walk no longer than any other (`ShortestResultsAgree` then gives them equal lengths);
- `StepsWellFormed`: steps are non-empty, hold neither START nor END, and no cell appears twice;
- per-search facts:
  - BFS step `k` holds exactly the cells other than START and END at distance `levels[k]` from START, with increasing levels; when the grid has one START and one END, `levels[k]` is `k + 1`;
  - DFS, Dijkstra and A* produce one singleton step per expansion of a cell other than START and END, in expansion order;
  - the DFS pops are exactly the depth-first traversal: each pop takes the top of the stack and pushes the unvisited neighbours in up, down, left, right order;
  - every finalized cell of Dijkstra and A* sits at its true distance, with priorities never decreasing.

## Model

| member | source | states |
|---|---|---|
| Node.ValueNamesDistinct | src/components/Node/Node.js:1-9 | the seven state names are pairwise distinct: equal names iff equal states |
| Node.DefaultValueAndId | src/components/Node/Node.js:12-19 | an omitted state defaults to EMPTY, and the id does not depend on the state |
| Node.NatToStringInjective | src/components/Node/Node.js:17 | the decimal rendering of a coordinate is injective |
| Node.IdInjective | src/components/Node/Node.js:17 | two cells have the same `"x-y"` id iff they have the same coordinates |
| Node.DistinctIdsMeansDistinctStrings | src/components/Node/Node.js:17 | no two cells of a grid share coordinates iff no two share an id string |
| Node.IdIdentifiesCell | src/components/Node/Node.js:17 | in a grid with distinct ids, two of its cells have the same id iff they are the same cell |
| PathfindingUtils.FindIndex | src/App.jsx:153 | `findIndex`: -1 iff no element matches, otherwise the index of the first match |
| PathfindingUtils.Find | src/App.jsx:207-208 | `find`: absent iff no element matches, otherwise the first match |
| PathfindingUtils.FindAtFacts | src/utils/pathfinding/pathfindingUtils.js:21 | the coordinate lookup returns a cell of the grid at those coordinates, and nothing iff there is none |
| PathfindingUtils.FindAtOwnCoords | src/utils/pathfinding/pathfindingUtils.js:21 | with distinct ids, looking a grid cell up by its own coordinates returns that very cell |
| PathfindingUtils.GetNeighbors | src/utils/pathfinding/pathfindingUtils.js:6-29 | the direction loop computes exactly the neighbour list: at most 4 cells, each a legal move (in bounds, 4-adjacent, a grid cell, not BLOCKED) |
| PathfindingUtils.NeighborsSound | src/utils/pathfinding/pathfindingUtils.js:6-29 | at most 4 neighbours, each a legal move from the cell |
| PathfindingUtils.NeighborsOrder | src/utils/pathfinding/pathfindingUtils.js:8-26 | neighbours come strictly in up, down, left, right order |
| PathfindingUtils.NeighborsOpenAt | src/utils/pathfinding/pathfindingUtils.js:16-26 | direction k contributes a neighbour iff its target is in bounds and the first cell found there is not BLOCKED |
| PathfindingUtils.NeighborsOpen | src/utils/pathfinding/pathfindingUtils.js:16-26 | the same for all four directions: only out-of-bounds, missing or BLOCKED directions are omitted |
| PathfindingUtils.NeighborsComplete | src/utils/pathfinding/pathfindingUtils.js:6-29 | with distinct ids, every legal move from the cell is among its neighbours |
| PathfindingUtils.NeighborsDistinct | src/utils/pathfinding/pathfindingUtils.js:6-29 | no neighbour is listed twice |
| PathfindingUtils.FindStartAndEnd | src/utils/pathfinding/pathfindingUtils.js:49-53 | each endpoint is absent iff no cell holds that state, and otherwise is the first cell in array order holding it |
| PathfindingUtils.InsertionPoint | src/utils/pathfinding/pathfindingUtils.js:67-73 | the scan stops before the first entry of strictly greater priority, after every entry it passed |
| PathfindingUtils.InsertionPointUnique | src/utils/pathfinding/pathfindingUtils.js:67-73 | that position is the only one with this property |
| PathfindingUtils.InsertSorted | src/utils/pathfinding/pathfindingUtils.js:63-78 | inserting into a queue sorted by priority leaves it sorted |
| PathfindingUtils.InsertStable | src/utils/pathfinding/pathfindingUtils.js:67-77 | the new entry lands after every entry of equal or smaller priority and before the first greater one; the length grows by one and removing the new entry gives back the old queue in its order |
| PathfindingUtils.InsertMultiset | src/utils/pathfinding/pathfindingUtils.js:63-78 | insertion adds exactly the new entry: the multiset of entries grows by it |
| PathfindingUtils.InsertMembers | src/utils/pathfinding/pathfindingUtils.js:63-78 | after insertion the members are the old ones plus the new entry |
| PathfindingUtils.PriorityQueue.constructor | src/utils/pathfinding/pathfindingUtils.js:59-61 | a new queue is empty and sorted |
| PathfindingUtils.PriorityQueue.Enqueue | src/utils/pathfinding/pathfindingUtils.js:63-78 | the items become the stable insertion of the new entry, and stay sorted |
| PathfindingUtils.PriorityQueue.Dequeue | src/utils/pathfinding/pathfindingUtils.js:80-82 | on an empty queue: absent, and the queue stays empty; otherwise the first item, which has minimum priority, is returned and removed |
| PathfindingUtils.PriorityQueue.IsEmpty | src/utils/pathfinding/pathfindingUtils.js:84-86 | true iff the queue has no items |
| PathfindingUtils.ReconstructPath | src/utils/pathfinding/pathfindingUtils.js:34-44 | for an acyclic parent map: a non-empty path ending at the goal, whose first cell has no parent and in which each cell is the parent of the next |
| PathfindingUtils.ManhattanMetric | src/utils/pathfinding/pathfindingUtils.js:92-94 | the distance is symmetric and is 0 iff the coordinates are equal |
| PathfindingUtils.ManhattanAdjacent | src/utils/pathfinding/pathfindingUtils.js:92-94 | two cells are 4-adjacent iff their distance is 1 |
| PathfindingUtils.ManhattanTriangle | src/utils/pathfinding/pathfindingUtils.js:92-94 | the triangle inequality |
| PathfindingUtils.ManhattanConsistent | src/utils/pathfinding/pathfindingUtils.js:92-94 | between 4-adjacent cells the distance to a goal changes by at most one |
| PathfindingUtils.ManhattanAdmissible | src/utils/pathfinding/pathfindingUtils.js:92-94 | the distance never exceeds the number of moves of any walk between the two cells |
| Grid.ShortestWalksAgree | src/utils/pathfinding/dijkstra/dijkstra.js:10-11 | two shortest walks between the same cells have the same length |
| Grid.ClosedSetContainsWalk | src/utils/pathfinding/bfs/bfs.js:22-59 | a set closed under legal moves holding a walk's first cell holds its last |
| Grid.ClosedSetExcludesUnreached | src/utils/pathfinding/bfs/bfs.js:58-59 | a closed set holding START but not END shows END unreachable |
| SearchCommon.UniqueEndpointCell | src/utils/pathfinding/pathfindingUtils.js:49-53 | with one START and one END, the only endpoint cells are the two that are found |
| SearchCommon.EndpointsOfGrid | src/utils/pathfinding/pathfindingUtils.js:49-53 | the endpoints a search uses are distinct grid cells |
| SearchCommon.ShortestResultsAgree | src/utils/pathfinding/dijkstra/dijkstra.js:10-11 | two searches that both find a path iff one exists, and a shortest one, agree on whether there is a path and on its length |
| SearchCommon.StepsNeverRepeat | src/utils/pathfinding/bfs/bfs.js:45-55 | well-formed steps, flattened for the animation, hold each cell at most once |
| SearchCommon.TreeAcyclic | src/utils/pathfinding/pathfindingUtils.js:34-44 | the parent map a search builds is acyclic, so path reconstruction terminates |
| SearchCommon.TreeWalk | src/utils/pathfinding/pathfindingUtils.js:34-44 | every cell of the tree is reached from START by a walk of depth + 1 cells |
| SearchCommon.TreePath | src/utils/pathfinding/pathfindingUtils.js:34-44 | the path read back from the tree is a legal walk from START to the cell, of depth + 1 cells |
| SearchCommon.TreeReaches | src/utils/pathfinding/dfs/dfs.js:41-47 | every cell given a depth in the tree is reachable from START |
| SearchCommon.UnvisitedFacts | src/utils/pathfinding/bfs/bfs.js:39-44 | the neighbours to discover are exactly the unvisited ones, without repeats |
| SearchCommon.UnvisitedOrder | src/utils/pathfinding/dfs/dfs.js:41-47 | discovery keeps the up, down, left, right order |
| SearchCommon.Discover | src/utils/pathfinding/bfs/bfs.js:39-44 | each unvisited neighbour, in order, is marked visited and given the current cell as parent; nothing else changes |
| SearchCommon.Visible | src/utils/pathfinding/dfs/dfs.js:35-37 | the cells other than START and END, in order and without repeats when the input has none |
| Bfs.LevelComplete | src/utils/pathfinding/bfs/bfs.js:22-56 | once a level is expanded, every cell at the next distance has been discovered during it |
| Bfs.TreeDistance | src/utils/pathfinding/bfs/bfs.js:22-56 | a tree depth with no shorter walk is the cell's distance |
| Bfs.LevelGrowth | src/utils/pathfinding/bfs/bfs.js:39-44 | each dequeue either discovers new cells or shortens the queue, and the visited set is bounded by the grid |
| Bfs.ReachedEnd | src/utils/pathfinding/bfs/bfs.js:30-35 | END dequeued: the path read back is a shortest walk, and the steps so far are the levels |
| Bfs.Exhausted | src/utils/pathfinding/bfs/bfs.js:58-59 | an empty queue means END is unreachable |
| Bfs.ExpandLevel | src/utils/pathfinding/bfs/bfs.js:26-51 | the inner loop over one level: a non-empty path is a correct shortest result; otherwise the loop state for the next level |
| Bfs.Bfs | src/utils/pathfinding/bfs/bfs.js:10-60 | path found iff reachable, a legal walk, the shortest one, steps well formed, and step k holding exactly the non-endpoint cells at distance `levels[k]` (k + 1 when endpoints are unique) |
| Dfs.StackGrowth | src/utils/pathfinding/dfs/dfs.js:41-46 | every cell is pushed at most once, so the pushes are bounded by the grid size |
| Dfs.PushOrder | src/utils/pathfinding/dfs/dfs.js:39-46 | pushed neighbours keep up/down/left/right order, and the last one pushed, the furthest along that order, is on top |
| Dfs.PopStep | src/utils/pathfinding/dfs/dfs.js:22-47 | one pop takes the top of the stack left by the earlier pops and pushes the unvisited neighbours, keeping the stack and visited set equal to the ones the recorded pops define |
| Dfs.FinishTraversal | src/utils/pathfinding/dfs/dfs.js:22-32 | the loop ends with the stack empty and no path, or with END on top and a path |
| Dfs.NextPopIsLastPushed | src/utils/pathfinding/dfs/dfs.js:23-46 | LIFO: when a pop pushed cells and another pop follows, the next cell popped is the last one pushed, the furthest along up, down, left, right |
| Dfs.DfsReachedEnd | src/utils/pathfinding/dfs/dfs.js:27-32 | END popped: the path read back is a legal walk from START, and every popped cell is reachable |
| Dfs.DfsExhausted | src/utils/pathfinding/dfs/dfs.js:54-55 | an empty stack: the popped cells are exactly those reachable from START, and END is not among them |
| Dfs.Dfs | src/utils/pathfinding/dfs/dfs.js:10-56 | path found iff reachable, a legal walk; steps are well-formed singletons of the popped non-endpoint cells in pop order; each popped cell is popped once and is reachable; with no path, every reachable cell was popped; the pops are exactly the depth-first traversal (`DepthFirst`: pop i takes the top of the stack the earlier pops leave, `pushed[i]` are its unvisited neighbours in direction order, and the loop ends with an empty stack or END on top) |
| BestFirst.EstimateConsistent | src/utils/pathfinding/astar/astar.js:10-13 | both estimates (none, Manhattan) drop by at most one per move |
| BestFirst.EstimateAlongWalk | src/utils/pathfinding/astar/astar.js:10-13 | along a walk the estimate drops by at most the walk's number of moves |
| BestFirst.SkipStale | src/utils/pathfinding/dijkstra/dijkstra.js:37-38 | dropping a dequeued entry of a finalized cell keeps the loop state |
| BestFirst.Settle | src/utils/pathfinding/dijkstra/dijkstra.js:34-48 | the front entry of an unfinalized cell carries its current priority, and its depth is already its distance |
| BestFirst.CrossingBound | src/utils/pathfinding/astar/astar.js:48-52 | any walk to the front cell is longer than the cell's depth |
| BestFirst.RelaxNone | src/utils/pathfinding/dijkstra/dijkstra.js:57-67 | before any neighbour is relaxed, nothing has changed |
| BestFirst.Unmet | src/utils/pathfinding/dijkstra/dijkstra.js:57-67 | a neighbour not met before is judged on its original distance |
| BestFirst.RelaxImprove | src/utils/pathfinding/dijkstra/dijkstra.js:57-66 | an improvable neighbour gets depth + 1, the current cell as parent and a queue entry at its new priority |
| BestFirst.ClosedAreFinal | src/utils/pathfinding/dijkstra/dijkstra.js:34-48 | each finalized cell's depth is its distance from START, and priorities never decrease in finalization order |
| BestFirst.ReachedEnd | src/utils/pathfinding/dijkstra/dijkstra.js:43-48 | END at the front: the path read back is a shortest walk |
| BestFirst.Exhausted | src/utils/pathfinding/dijkstra/dijkstra.js:74-75 | an empty queue: END is unreachable, and every reachable cell was finalized |
| BestFirst.NoEndpoints | src/utils/pathfinding/dijkstra/dijkstra.js:14-18 | without START or END the result is empty |
| BestFirst.Found | src/utils/pathfinding/dijkstra/dijkstra.js:43-48 | END dequeued: the full outcome holds for the reconstructed path |
| BestFirst.NotFound | src/utils/pathfinding/dijkstra/dijkstra.js:74-75 | the queue ran dry: the full outcome holds for the empty path |
| Dijkstra.InitDistances | src/utils/pathfinding/dijkstra/dijkstra.js:27-29 | every cell of the grid starts at distance Infinity |
| Dijkstra.RelaxNeighbors | src/utils/pathfinding/dijkstra/dijkstra.js:57-67 | exactly the unvisited neighbours with `dist + 1 < dist[neighbour]` get the new distance, the parent and a queue entry; all other distances, parents and entries are unchanged; the queue stays sorted |
| Dijkstra.Skip | src/utils/pathfinding/dijkstra/dijkstra.js:37-38 | a stale dequeue keeps the loop state |
| Dijkstra.Visit | src/utils/pathfinding/dijkstra/dijkstra.js:40-71 | finalizing a non-END cell and relaxing its neighbours keeps the loop state and grows the finalized set |
| Dijkstra.Dijkstra | src/utils/pathfinding/dijkstra/dijkstra.js:13-76 | path found iff reachable, a shortest legal walk; steps are well-formed singletons of the finalized non-endpoint cells in finalization order; each finalized cell is at its distance; distances never decrease; with no path, every reachable cell was finalized |
| AStar.EstimatesUpdate | src/utils/pathfinding/astar/astar.js:64-71 | setting g to d keeps `f = g + manhattan(cell, END)` on every cell with finite g |
| AStar.ScoresUpdate | src/utils/pathfinding/astar/astar.js:64-71 | one relaxation keeps g tracking the depths and `f = g + h` |
| AStar.InitScores | src/utils/pathfinding/astar/astar.js:29-33 | every cell starts with g and f at Infinity |
| AStar.RelaxNeighbors | src/utils/pathfinding/astar/astar.js:62-74 | exactly the unvisited neighbours with a strictly smaller tentative g get g, `f = g + h`, the parent and a queue entry at f; nothing else changes; the queue stays sorted |
| AStar.Skip | src/utils/pathfinding/astar/astar.js:42-43 | a stale dequeue keeps the loop state |
| AStar.Visit | src/utils/pathfinding/astar/astar.js:45-78 | expanding a non-END cell keeps the loop state and grows the finalized set |
| AStar.GoalEstimate | src/utils/pathfinding/astar/astar.js:35-36 | the heuristic is the Manhattan distance to the END cell that is found |
| AStar.AStar | src/utils/pathfinding/astar/astar.js:14-83 | as for Dijkstra, with priority `g + manhattan(cell, END)`: path found iff reachable, and shortest; singleton steps of expanded non-endpoint cells; each expanded cell at its distance; f never decreasing |
| App.StartPosition | src/App.jsx:33-36 | x is the floor of size * 0.2 and y the floor of size * 0.8, both inside the grid |
| App.EndPosition | src/App.jsx:38-41 | x is the floor of size * 0.8 and y the floor of size * 0.2, both inside the grid |
| App.PositionsApart | src/App.jsx:33-41 | start and end positions coincide iff the grid is at most 1x1 |
| App.RowMajorSplit | src/App.jsx:47-58 | an index below size * size splits into a row and a column below size |
| App.CreateNodesCell | src/App.jsx:43-58 | cell i of the flattened rows is at row i / size, column i % size, with the state createNodes gives that position |
| App.CreateNodesLayout | src/App.jsx:43-58 | the fresh grid has size * size cells in row-major order: index `y * size + x` holds `(x, y)` |
| App.CreateNodesAt | src/App.jsx:43-58 | read the other way: index `y * size + x` holds `(x, y)` with its state |
| App.CreateNodesDistinct | src/App.jsx:43-58 | no two cells of a fresh grid share coordinates |
| App.OnlyCellFound | src/utils/pathfinding/pathfindingUtils.js:49-53 | the only cell in an endpoint state is the one the endpoint lookup finds |
| App.CreateNodesOnly | src/App.jsx:43-58 | a position that alone gets state v is the only fresh cell in state v |
| App.CreateNodesEndpoints | src/App.jsx:43-58 | on grids of at least 2x2: distinct ids, exactly one START at the start position, exactly one END at the end position, every other cell EMPTY, and those two are what a search finds |
| App.CreateNodesSingleCell | src/App.jsx:50-54 | on a 1x1 grid START wins the shared cell and there is no END |
| App.ClearVisualization | src/App.jsx:60-67 | same length and coordinates; VISITED, EXPLORING and PATH cells become EMPTY; every other cell is unchanged |
| App.ClearVisualizationIdempotent | src/App.jsx:60-67 | clearing twice is clearing once |
| App.SameLayoutDistinct | src/App.jsx:60-67 | grids with cellwise equal coordinates have distinct ids together or not at all |
| App.FirstWithCarries | src/utils/pathfinding/pathfindingUtils.js:49-53 | grids that agree on every START and END cell agree on the first cell holding an endpoint state |
| App.FirstWithUnique | src/utils/pathfinding/pathfindingUtils.js:49-53 | the first cell holding a state is unique |
| App.SameEndpointsFound | src/utils/pathfinding/pathfindingUtils.js:49-53 | grids that agree on every START and END cell give a search the same endpoints |
| App.ClearKeepsEndpoints | src/App.jsx:60-67 | after a clear a search finds the same START and END, and ids stay distinct iff they were |
| App.UpdateNode | src/App.jsx:194-202 | same length and coordinates; cells at (x, y) take the new state; others are unchanged |
| App.UpdateNodeSingleWrite | src/App.jsx:194-202 | with distinct ids: no cell at (x, y) leaves the grid unchanged, otherwise exactly that one cell is rewritten; ids stay distinct |
| App.DropNode | src/App.jsx:205-225 | unchanged when either cell is missing or the target is START or END; otherwise source cells become EMPTY, target cells take the dragged state, and others are unchanged |
| App.DropWrites | src/App.jsx:205-225 | with distinct ids and distinct cells, a drop onto a non-endpoint writes exactly the source (EMPTY) and the target (dragged state) |
| App.MoveKeepsOne | src/App.jsx:205-225 | moving a state from one cell to another that did not hold it keeps "exactly one cell holds it" |
| App.DropMovesEndpoint | src/App.jsx:205-225 | dragging START or END onto a non-endpoint moves it, keeps ids distinct, and keeps exactly one START and one END |
| App.StepIdsMembers | src/App.jsx:114 | the id set holds exactly the ids of the current step's cells |
| App.ExploreCellMeaning | src/App.jsx:116-124 | a cell becomes EXPLORING iff a cell of the step shares its coordinates and it is not START or END; an EXPLORING cell outside the step becomes VISITED; every other cell, START and END among them, is unchanged |
| App.ExplorationTick | src/App.jsx:112-127 | a copy of the grid with each cell replaced by what the tick makes of it; ids stay distinct iff they were, and a search finds the same START and END |
| App.PathTick | src/App.jsx:151-160 | same length and coordinates; START and END never change; only the first cell with the path cell's id can change, and it becomes PATH unless it is START or END; ids stay distinct iff they were, and a search finds the same START and END |

## Left out

- Rendering, React state, timers (`setTimeout`, the animation speed), mouse handling, the header and grid components, and `Grid.util` are not modelled. The model starts from the snapshot a search or an updater receives.
- Floating point: `Math.floor(size * 0.2)` and `Math.floor(size * 0.8)` are modelled as the exact integers `size / 5` and `4 * size / 5`. These are the exact floors of the real products, which `StartPosition` and `EndPosition` state. IEEE rounding of `0.2` and `0.8` is not modelled.
- JavaScript `Infinity` is `Dist.Inf`, and finite distances are naturals (`Dist.Fin`). No other number can appear.
- Cells are keyed by their value in the visited sets, parent maps and distance maps, while the source keys them by `id`. Under `DistinctIds` the two coincide (`Node.IdIdentifiesCell`, `Node.IdInjective`).
- Bfs.Bfs, Dfs.Dfs, Dijkstra.Dijkstra, AStar.AStar: require `DistinctIds(nodes)`, which every grid the application builds satisfies (`App.CreateNodesDistinct`, kept by `ClearKeepsEndpoints`, `UpdateNodeSingleWrite`, `DropMovesEndpoint`, `ExplorationTick` and `PathTick`). A grid with two cells at the same coordinates is not modelled.
- The searches bind `order`, `settled` and (for DFS) `pushed` as ghost outputs, holding the expansion order, the finalized depths and the cells each pop pushed, so that the contracts can state order and distances. The source keeps none of them.
- Dijkstra.RelaxNeighbors, AStar.RelaxNeighbors: the source's nested tests (not visited, then a strictly smaller distance) are written as one conjunction. The effect is the same.
- Dijkstra.Dijkstra, AStar.AStar: the per-expansion step is appended through an if-expression rather than an if-statement. This also has the same effect.
- AStar.AStar: "a finite-g cell's parent has g exactly one less" is kept inside the loop state (the parent tree together with `Tracks`). It is not restated in the method's contract, which instead states each expanded cell's true distance.
- App.ExplorationTick: the source's two branches (mark EXPLORING, demote EXPLORING to VISITED) are merged into one function, `ExploreCell`. Every cell is written back, including unchanged ones, whereas the source assigns only the cells it changes. The resulting array is the same.
- App.StepIds: the id set `new Set(currentStepNodes.map(n => n.id))` is built by a recursive fold rather than by a `map` over an array.
- PathfindingUtils.PriorityQueue: JavaScript arrays are modelled as a `seq` field, with `splice`, `push` and `shift` rewritten as sequence operations. Aliasing of the `items` array is not modelled.
- `reconstructPath` on a cyclic parent map would not terminate. The model requires an acyclic map, which every search's parent tree is (`SearchCommon.TreeAcyclic`).
- A 1x1 grid has START and END at the same position. There START wins and no END exists (`App.CreateNodesSingleCell`), so every search returns the empty result. The offered sizes 10, 20, 30 and 50 are all at least 2 (`App.CreateNodesEndpoints`).
