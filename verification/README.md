# Depth-limited search with a shortest-path check, in Dafny

This project models `main.py`, a small program that searches a weighted directed
graph. It runs a depth-limited depth-first search (DLS) from a start node to a goal
node. It prices the path it found and compares that price with the shortest distance
computed by Dijkstra's algorithm. It then reports the path, the exploration log, and
the statistics: visited count, explored count, DLS distance, optimal distance, and
whether the two distances are equal.

Modules:

- `Sequences` (`sequences.dfy`): duplicate-freedom, the element set of a sequence,
  and in-order subsequences.
- `Graphs` (`graphs.dfy`):
  - The graph is a map from node names to adjacency lists. Each list is an ordered
    sequence of `(neighbour, weight)` pairs, so the declaration order that the
    search follows is kept.
  - Weights are `nat`.
  - `Cost = Fin(n) | Inf` stands in for the floating-point infinity.
  - Also defines walks and the cost of a walk.
- `DepthLimited` (`dls.dfy`): the recursive search.
  - It is a pure function over an explicit state: visited set, current branch, and
    exploration log.
  - `Dls` and `TryNeighbours` are mutually recursive; `TryNeighbours` is the loop
    over the neighbours.
  - `Search` starts the search from an empty state.
- `ShortestPath` (`dijkstra.dfy`): the oracle.
  - A distance map and a priority queue held as a sequence.
  - Extract-min follows the heap's tuple order: distance first, then node name.
  - Strict-improvement relaxation, and an early return when the goal is popped.
  - The proof tracks a ghost set of settled nodes.
- `Report` (`report.dfy`): the driver. It runs the search, prices the path, runs
  the oracle, and assembles the statistics.
- `SampleGraph` (`sample.dfy`):
  - The program's built-in graph and the search and oracle results on it.
  - A four-node graph showing the effect of a visited set that is never cleared.

Behaviour that the model keeps on purpose:

- **Visited set is never cleared.** Backtracking pops the node off the current
  branch, but the node stays visited for the rest of the search. So no node is
  entered twice, and a node first reached along a long branch is never tried again
  along a shorter one. `SampleGraph.VisitedNeverCleared` shows the search missing a
  three-node walk with limit 2.
- **The depth test is `limit == 0`.** A negative limit never cuts the search off. It
  is neither an immediate failure nor a source of non-termination: the search
  becomes an unbounded depth-first search, and the visited set still makes it
  terminate. `DepthLimited.NegativeLimitComplete` proves it then finds the goal
  exactly when the goal is reachable.
- **The goal test comes before the depth test.** The goal is found even at depth zero.
- **Two infinite distances count as equal.** When the search fails and the goal is
  unreachable, the report calls the (absent) path optimal, just as two infinite
  floats compare equal.

## Model

| member | source | states |
|---|---|---|
| DepthLimited.Dls | main.py:47-65 | Entering an unvisited node keeps the log duplicate-free and equal to the visited set, and only appends to the log. The log's first new entry is the node itself. On success, the branch was extended by a walk that starts at the node and ends at the goal, with at most `limit + 1` nodes when the limit is non-negative, and the goal is the last node entered. On failure, the branch is back where it was and the goal was never entered. |
| DepthLimited.TryNeighbours | main.py:59-62 | Trying the neighbours from a given index in order keeps the log consistent. On success, the branch gains a walk to the goal whose first node is a neighbour of the expanded node. On failure, the branch is unchanged, the goal was not entered, and every remaining neighbour is now marked visited. |
| DepthLimited.Search | main.py:67-70 | The top-level search. The log starts with the start node, repeats nothing, and has exactly as many entries as there are visited nodes. Success yields a walk from start to goal of at most `limit + 1` nodes for a non-negative limit, with the goal logged last. Failure yields an empty path, and the goal was never explored. |
| DepthLimited.SearchLogDistinct | main.py:49-50 | Every node is appended to the exploration log at most once over the whole search, so no two positions of the log hold the same node. |
| DepthLimited.StartIsGoal | main.py:48-53 | When the start is the goal, the search succeeds whatever the limit, with path, log and visited set all just the start node. |
| DepthLimited.ZeroLimit | main.py:55-57 | With limit 0 and a start that is not the goal, the search fails with an empty path, and the start is the only node logged and visited. |
| DepthLimited.DlsOrder | main.py:47-65 | On success, the walk that the recursion pushed on the branch is an in-order subsequence of the nodes it logged. |
| DepthLimited.TryOrder | main.py:59-62 | The same ordering fact for the loop over the neighbours, across failed siblings. |
| DepthLimited.SearchOrder | main.py:49-50 | A successful search's path is an in-order subsequence of the exploration log. |
| DepthLimited.DlsClosure | main.py:55-65 | With a negative limit, a failed recursion below a node leaves every neighbour of every node it logged visited. |
| DepthLimited.TryClosure | main.py:59-62 | The same closure fact for the loop over the neighbours. |
| DepthLimited.NegativeLimitComplete | main.py:55-57 | With a negative limit, the search succeeds exactly when some walk leads from start to goal. |
| ShortestPath.ArgMin | main.py:21 | The position that the heap pops holds an entry no greater than any other entry in (distance, name) order. |
| ShortestPath.RemoveAt | main.py:21 | Popping removes exactly the entry at the chosen position: the remaining multiset is the original minus that one entry, so every other entry stays and nothing new appears. |
| ShortestPath.Relax | main.py:26-30 | Relaxing the edges of the popped node keeps the distance map's keys. A distance only ever drops strictly, to the popped distance plus that edge's weight, and the new entry is then pushed. Afterwards every neighbour's distance is at most the popped distance plus its edge's weight. Every pushed entry is such a strict improvement, and no node is pushed twice. |
| ShortestPath.PopChoice | main.py:20-24 | The popped entry, if it is not the goal, names a key of the graph, so its adjacency lookup succeeds, and has a walk from the start of exactly that length. It is either a stale copy for a settled node or carries that node's current distance. |
| ShortestPath.StaleRelax | main.py:26-30 | Relaxing again from a settled node, at a distance no smaller than its own, changes no distance and pushes nothing. |
| ShortestPath.Step | main.py:20-30 | One round of the main loop keeps its invariant: queue entries are sound, unsettled finite distances are queued, settled nodes are relaxed and no farther than any queued entry, and the goal is not settled. |
| ShortestPath.Frontier | main.py:20-30 | For every walk from the start, either its last node's distance is at most the walk's cost, or some queued entry is. |
| ShortestPath.GoalPopped | main.py:23-24 | When the goal is popped as the least entry, its distance is the length of a walk and no walk from start to goal is shorter. |
| ShortestPath.Exhausted | main.py:20-32 | When the queue runs empty with the invariant intact, no walk leads from start to goal. |
| ShortestPath.Dijkstra | main.py:14-32 | The returned cost is the length of a shortest walk from start to goal, and no walk is shorter. It is infinite exactly when the goal is unreachable, and 0 when the start is the goal. |
| ShortestPath.ShortestToSelf | main.py:17-24 | The shortest distance from a node to itself is 0. |
| ShortestPath.ShortestInf | main.py:32 | The shortest distance is infinite exactly when no walk exists. |
| Report.WalkCost | main.py:77 | Summing weights front to back over consecutive pairs gives the recursive walk cost. |
| Report.DlsDistance | main.py:77 | The DLS distance is the path's walk cost when found, and infinity otherwise. |
| Report.Run | main.py:67-91 | The returned path and log are those of the search; the path is absent exactly when the search failed. A present path is a walk from start to goal within the limit, priced at its walk cost. Both counts equal the log's length. The optimal distance is the shortest distance and never exceeds the DLS distance. The path is called optimal exactly when the two distances are equal. With a negative limit a path is found exactly when the goal is reachable. When start is the goal, the path and log are just the start, at distance 0, and called optimal. |
| SampleGraph.SampleDepthThree | main.py:7-12 | On the built-in graph, from A to D with limit 3, the search finds A, B, C, D of cost 12, entering exactly those four nodes. |
| SampleGraph.SampleShortest | main.py:7-12 | On the built-in graph, the shortest distance from A to D is 5. |
| SampleGraph.SampleReport | main.py:7-12 | The driver on the built-in graph, from A to D with limit 3, reports path and log A, B, C, D, 4 visited and 4 explored nodes, DLS distance 12, optimal distance 5, and not optimal. |
| SampleGraph.VisitedNeverCleared | main.py:48-61 | Because visited marks survive backtracking, the search with limit 2 misses the three-node walk A, C, D on a graph that has one. The unbounded search finds it. |

## Left out

- Wall-clock timing and peak-memory sampling (main.py:44-45, 73-75, 84-85): they
  carry no functional meaning, so `Statistics` has no time or memory field.
- Plotting the traversal (`graficar_recorrido`, main.py:93-122): it is graph
  layout and image output through foreign libraries.
- Console input and output (main.py:125-142): `SampleGraph.SampleReport` fixes the
  inputs instead of reading and upper-casing them.
- Floating-point numbers: weights are `nat`, and infinity is the `Inf` constructor.
- The binary heap's internal layout: the queue is a sequence, and extract-min
  removes a least entry in the heap's tuple order (distance, then node name by code
  point). Only the popped entry matters to the result.
- Dictionary lookups that would raise `KeyError` in the oracle become preconditions:
  - `ValidGraph` requires every neighbour to be a key.
  - The start must be a key unless it is the goal.

  The search itself needs neither, because it reads neighbours with a default of none.
- ShortestPath.Dijkstra: requires every neighbour of every key to be a key, which is
  more than the program needs. The program fails only when it relaxes an edge from a
  popped node to a non-key, so a graph whose dangling edges are never relaxed is not
  covered.
- Adjacency lists with a repeated neighbour name: a dictionary cannot hold them, so
  `ValidGraph` excludes them through `UniqueNames`.
- Python's recursion-depth limit: the model's recursion is unbounded, so a search
  deep enough to raise `RecursionError` is not represented.
