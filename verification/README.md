# Grid path-finding engine (`p1.py`)

A Dafny model of the search engine of `p1.py`: the edge cost between two
adjacent cells of a level (`path_cost_comp`), the neighbour list of a cell
(`navigation_edges`), the destination-targeted search
(`dijkstras_shortest_path`) and the exhaustive one
(`dijkstras_shortest_path_to_all`).

The model keeps the program's behaviour as written, including its quirks:

- the heap holds bare cells, so `heappop` yields the lexicographically
  smallest queued cell, not the one with the smallest tentative distance
  (`Frontier.HeapPop`);
- a cell is pushed only when it first receives a distance, and a later
  improvement updates `dist` and `prev` without pushing it again, so each
  cell is popped at most once and the recorded distances are costs of real
  walks but need not be minimal;
- the targeted search returns the `prev` chain destination first and does
  not reverse it. The docstring at `p1.py:49` says the list runs from the
  initial position to the destination; the model follows the code
  (`Search.BackwardRoute`);
- the `adj` parameter of both searches is never used; both call
  `navigation_edges` directly, and so does the model.

Files:

- `grid.dfy` (module `Grid`): cells, the level's cost map, adjacency, the
  edge cost and `NavigationEdges`.
- `walks.dfy` (module `Walks`): walks through the level, their cost and
  reachability.
- `frontier.dfy` (module `Frontier`): the heap of bare cells.
- `search.dfy` (module `Search`): the search state, one relaxation, the
  relaxation pass over a popped cell's neighbours, path reconstruction and
  the two searches.

Each search returns a ghost count of heap pops, which is bounded by the
number of traversable cells. Each recorded distance is witnessed by a ghost
walk whose cost it equals.

## Model

| member | source | states |
|---|---|---|
| Grid.PathCost | p1.py:5-25 | the edge cost is positive when both cells cost something positive and non-negative when both are non-negative |
| Grid.PathCostSymmetric | p1.py:17-24 | the edge cost is the same in both directions |
| Grid.PathCostBetween | p1.py:17-24 | the edge cost lies between the step length (sqrt 2 for a diagonal, 1 otherwise) times the cheaper and times the dearer endpoint cost, and is exactly the step length times the cost when both endpoints cost the same |
| Grid.PathCostPositive | p1.py:17-24 | on a level whose cells all cost more than zero every edge costs more than zero |
| Grid.NavigationEdges | p1.py:134-162 | the returned cells are exactly the traversable cells at Chebyshev distance 1 (never the cell itself), each paired with its edge cost, listed in strictly increasing lexicographic order (so without repeats), at most eight of them |
| Grid.ScanColumn | p1.py:156-160 | one column of offsets appends, in increasing y, exactly the traversable neighbours with that x-offset, each with its edge cost |
| Frontier.HeapPop | p1.py:65 | the popped cell was queued, is removed, and is lexicographically smaller than every cell left in the queue |
| Search.Start | p1.py:55-61 | the initial state has the source at distance 0, queued, and nothing popped yet |
| Search.StartConsistent | p1.py:55-61 | the initial state satisfies the search invariant, with the one-cell walk as the source's witness |
| Search.Relax | p1.py:79-89 | a relaxation adds the neighbour to the recorded cells, queues it only when it had no distance, sets its distance to the candidate exactly when it had none or the candidate is strictly smaller, sets its predecessor in that case only, and leaves every other cell alone |
| Search.RelaxConsistent | p1.py:79-89 | relaxing a traversable neighbour of a recorded cell keeps the invariant: source at 0, recorded cells traversable, each non-source cell with an adjacent predecessor no farther than its own distance minus the step, and every distance the cost of a walk from the source |
| Search.RelaxRanked | p1.py:82-89 | an improving relaxation keeps the source at 0 and every predecessor adjacent and cheaper by at least the step cost |
| Search.RelaxedOverStep | p1.py:77-89 | relaxing one more neighbour extends the pointwise description of a relaxation pass by that neighbour |
| Search.RelaxNext | p1.py:77-89 | one iteration of the neighbour loop keeps both the search invariant and the pointwise description of the pass |
| Search.RelaxAll | p1.py:118-130 | after the neighbour loop every traversable neighbour carries the relaxed distance, the new ones are queued, improved ones have the popped cell as predecessor, neighbours that did not improve keep their predecessor, and every other cell is unchanged |
| Search.Expand | p1.py:73-89 | expanding a popped cell relaxes exactly its traversable neighbours: each gets the relaxed distance, takes the popped cell as predecessor exactly when it improved and otherwise keeps its predecessor, new ones are queued, nothing else changes; it keeps the invariant and never raises a recorded distance |
| Search.RelaxedOverUnique | p1.py:73-89 | two consistent states that both result from relaxing exactly the same neighbours of the popped cell are equal, so the pass result does not depend on the order of the neighbour list |
| Search.RelaxedOverMonotone | p1.py:86-89 | a relaxation pass never raises a recorded distance and never forgets a cell |
| Search.RankedDescends | p1.py:82-89 | with positive costs every predecessor is strictly closer to the source than the cell it precedes |
| Search.Backtrack | p1.py:66-72 | following the predecessors from the destination ends at the source and yields, destination first, a route of traversable, pairwise distinct cells each adjacent to the next and each the predecessor of the one before; a destination equal to the source yields just that cell |
| Search.ChainIsRoute | p1.py:67-71 | a predecessor chain along which the distance strictly falls is a route without repeated cells |
| Search.PopCounts | p1.py:64-65 | each pop adds the popped cell to the finished cells, whose number never exceeds the number of traversable cells |
| Search.PopThenExpand | p1.py:113-130 | after a pop and its expansion the finished cells grow by exactly the popped cell and all their traversable neighbours are recorded |
| Search.SearchResult | p1.py:113-131 | once the queue is empty the recorded cells are exactly those reachable from the source, each with the cost of a walk to it |
| Search.ShortestPathToAll | p1.py:91-131 | the returned map holds exactly the cells reachable from the source, the source at 0, each value the cost of some walk to its cell, its key set closed under traversable neighbours; the search pops at most as many cells as the level has |
| Search.ShortestPath | p1.py:39-89 | no path is returned exactly when the destination is unreachable; otherwise the path runs from the destination back to the source through adjacent traversable cells without repeats; source equal to destination gives that single cell; the search pops at most as many cells as the level has |
| Walks.ExtendWalk | p1.py:79-85 | stepping from the end of a walk to an adjacent traversable cell gives a walk whose cost grows by exactly the edge cost |
| Walks.ClosedContainsReachable | p1.py:113-131 | a set of cells containing the source and closed under traversable neighbours contains every reachable cell |

## Left out

- `pq_sort` and the neighbour sort (`p1.py:27-37`, `p1.py:74`): `Search.Expand` states its result pointwise over the set of neighbours, and `Search.RelaxedOverUnique` shows that this description fixes the resulting state, so the order in which the neighbours are relaxed does not change the result.
- The commented-out sort in `navigation_edges` (`p1.py:161`) is not part of the behaviour.
- `test_route`, `cost_to_all_cells` and the script entry point (`p1.py:165-225`): they load levels from files, look up waypoints, print, display and write files. `p1_support.py` (level loading, display, cost export) is not part of this model.
- The level's waypoints and walls: the engine reads only the map of traversable cells to costs.
- Floating point: costs are exact reals and `sqrt(2)` is the real 1.4142135623730951; rounding of sums is not modelled. The integer `0` stored as the source's distance is modelled as `0.0`.
- The binary heap's internal layout: only the element `heappop` returns is modelled; the queue is a set because no cell is pushed twice.
- The `adj` parameter of both searches, which the code never uses.
- Optimality of the returned distances and paths: the heap is ordered by cell, not by distance, and improved cells are not re-queued, so the program does not promise minimal costs and the model claims none.
- Search.ShortestPath: requires the source to be traversable. For a wall source the code returns the one-cell path when the source is also the destination; otherwise it raises `KeyError` in `path_cost_comp` as soon as the source has a traversable neighbour, and returns `None` when it has none.
- Search.ShortestPathToAll: requires the source to be traversable. For a wall source the code raises `KeyError` when the source has a traversable neighbour and returns `{source: 0}` otherwise.
- Search.ShortestPath: requires every cell's cost to be positive. This is an assumption of the proof, not a demand of the code: positivity makes each step along `prev` strictly lower the recorded distance, which is how the model shows the reconstruction loop at `p1.py:68-70` ends. The code also ends with zero costs; only negative costs can make the predecessor chain cycle.
- Search.ShortestPathToAll: requires every cell's cost to be positive, the same proof assumption as for the targeted search, with which it shares its invariant. The code places no condition on costs here.
- Grid.NavigationEdges: requires `cell` to be traversable. For a wall cell the code returns `[]` when no neighbour is traversable and raises `KeyError` in `path_cost_comp` otherwise.
