# Graph analysis: SCCs, condensation, DAG paths and CSV export, in Dafny

This project models the algorithmic core of a Java graph-analysis pipeline over
directed, integer-weighted graphs, and proves properties of the model:

- `TarjanSCC` (src/main/java/graph/scc/TarjanSCC.java): Tarjan's recursive
  strongly-connected-components search, as a class over arrays with a
  recursive `Dfs` and a pop loop (tarjan.dfy; the search invariant is stated
  on a value snapshot of the state in module `TarjanState`).
- `DAGShortestPaths` (src/main/java/graph/dagsp/DAGShortestPaths.java): one
  relaxation pass over a caller-supplied order, for shortest (sentinel
  `1_000_000_000`) and longest (sentinel `Integer.MIN_VALUE`) distances
  (dagsp.dfy). The pass is specified once, as the fold `Relaxation.Solve`
  (relax.dfy); what it guarantees over any order (reach, sentinels, bounds
  from feasible potentials) is in reach.dfy and relax.dfy, and what it
  guarantees over a topological order (edge inequality, tight parents,
  counters) in order.dfy. The unit test on the chain 4 -> 5 -> 6 -> 7 is
  scenarios.dfy.
- The condensation pipeline of `processGraph` in
  src/test/java/BatchJsonTests.java: the vertex-to-component map, collapsing
  cross-component edges to their least weight, the condensation lists,
  the clamped source, the topological vertex list and the sentinel-to-null
  conversion (condensation.dfy); FIFO Kahn ordering `topoKahn` (kahn.dfy);
  the solvers `shortestOnDag` / `longestOnDag` with parents, counters and
  the best end (solvers.dfy); `restorePath` and
  `componentPathToVertexPath` (paths.dfy).
- The CSV helpers of src/test/java/ResultsCsvExportTest.java: `csv`,
  `joinInts`, `deriveSccSizes`, the `scc_sizes` string, `countNonNull` and the
  component size statistics (csv.dfy).

Shared vocabulary (optional values for Java nulls, duplicate-freedom,
concatenation, partitions, ranks in an order, input edges) is in common.dfy.

Integers are mathematical. Where Java `int` arithmetic could overflow, the
lemmas that depend on it require the total absolute weight along the order to
stay below `INF` (`Reachability.AbsSum`), which rules the overflow out.

## Model

| member | source | states |
|---|---|---|
| TarjanScc.TarjanSCC.constructor | src/main/java/graph/scc/TarjanSCC.java:14-18 | `n` vertices, each with an empty adjacency list |
| TarjanScc.TarjanSCC.AddEdge | src/main/java/graph/scc/TarjanSCC.java:20-22 | appends `v` to the list of `u` only; every other list is unchanged |
| TarjanScc.TarjanSCC.Run | src/main/java/graph/scc/TarjanSCC.java:24-38 | the returned components are the `components` field and partition `0..n-1`; the stack is empty and no vertex is on it; `time == n` and the indices are distinct values in `0..n-1`; `lowlink[v] <= index[v]` for every vertex; each component is non-empty, its root (last element) has `lowlink == index`, and no member has a smaller index than the root |
| TarjanScc.TarjanSCC.Reset | src/main/java/graph/scc/TarjanSCC.java:25-32 | fresh arrays, every index -1, counter 0, empty stack and components: the snapshot equals the initial search state, whatever ran before |
| TarjanScc.TarjanSCC.SearchAll | src/main/java/graph/scc/TarjanSCC.java:33-36 | afterwards every vertex is visited (`index[v] != -1`), the stack is empty and the search invariant holds |
| TarjanScc.TarjanSCC.SearchFrom | src/main/java/graph/scc/TarjanSCC.java:34-35 | one turn of that loop: searching from `v` when it is unvisited extends "the first `v` ids are visited, the stack is empty" to `v + 1` |
| TarjanScc.TarjanSCC.Finished | src/main/java/graph/scc/TarjanSCC.java:33-37 | once every vertex is visited and the stack is empty: partition, `time == n`, distinct indices in `0..n-1`, no vertex on the stack, `lowlink <= index`, each component rooted at its last element |
| TarjanScc.TarjanSCC.Dfs | src/main/java/graph/scc/TarjanSCC.java:40-64 | `dfs(v)` on an unvisited `v` visits it, keeps everything below the old stack, and leaves `v` either on the stack above the old stack or emitted as the root of a new component |
| TarjanScc.TarjanSCC.Visit | src/main/java/graph/scc/TarjanSCC.java:41-43 | `index[v]` and `lowlink[v]` take the counter, which goes up by one; `v` is pushed and flagged on-stack |
| TarjanScc.TarjanSCC.ExploreAll | src/main/java/graph/scc/TarjanSCC.java:45-52 | the successor loop keeps the state of `dfs(v)` inside its loop |
| TarjanScc.TarjanSCC.Explore | src/main/java/graph/scc/TarjanSCC.java:45-51 | one successor: recurse into an unvisited one, or fold in the index of an on-stack one, keeping the loop state |
| TarjanScc.TarjanSCC.ExploreChild | src/main/java/graph/scc/TarjanSCC.java:46-48 | recursing into an unvisited successor and folding its low-link into `v`'s keeps the loop state |
| TarjanScc.TarjanSCC.LowerLowlink | src/main/java/graph/scc/TarjanSCC.java:48-50 | `lowlink[v]` becomes the minimum of itself and the value; nothing else changes |
| TarjanScc.TarjanSCC.Conclude | src/main/java/graph/scc/TarjanSCC.java:54-63 | `dfs(v)` ends in the concluded state, popping a component exactly when `lowlink[v] == index[v]` |
| TarjanScc.TarjanSCC.PopRoot | src/main/java/graph/scc/TarjanSCC.java:54-63 | popping down to a root `v` concludes `dfs(v)` |
| TarjanScc.TarjanSCC.PopOne | src/main/java/graph/scc/TarjanSCC.java:58-60 | pops the top of the stack, returns it, clears its flag and numbers it with the new component |
| TarjanScc.TarjanSCC.PopComponent | src/main/java/graph/scc/TarjanSCC.java:55-62 | the do-while loop pops the stack down to and including `v`, clears their on-stack flags, and appends them in pop order as one new component |
| TarjanState.Reversed | src/main/java/graph/scc/TarjanSCC.java:57-61 | the pop order of a stack segment is that segment reversed, element by element |
| TarjanState.InitGood | src/main/java/graph/scc/TarjanSCC.java:25-32 | the reset state satisfies the search invariant |
| TarjanState.VisitGood | src/main/java/graph/scc/TarjanSCC.java:41-43 | visiting an unvisited vertex keeps the search invariant and only moves the search forward |
| TarjanState.LowerGood | src/main/java/graph/scc/TarjanSCC.java:48-50 | lowering an on-stack vertex's low-link to a value not below the stack bottom's index keeps the invariant (so `lowlink <= index` stays true) |
| TarjanState.PopBlock | src/main/java/graph/scc/TarjanSCC.java:57-61 | the popped block is a non-empty, duplicate-free component whose last vertex is `v`, of visited vertices not left on the stack, none with an index below `v`'s |
| TarjanState.PopStep | src/main/java/graph/scc/TarjanSCC.java:57-61 | one pop keeps the pop-loop state, and the popped vertex is the root exactly when the stack is then back to the root's position, so the loop stops there |
| TarjanState.PopDone | src/main/java/graph/scc/TarjanSCC.java:62 | when the loop stops, appending the collected vertices gives exactly the specified popped state |
| TarjanState.PopGood | src/main/java/graph/scc/TarjanSCC.java:54-62 | popping the block above a root with `lowlink == index` keeps the invariant: each vertex emitted exactly once, components numbered and rooted |
| TarjanState.PopKeeps | src/main/java/graph/scc/TarjanSCC.java:54-62 | popping only vertices visited after a given state leaves that state's visited vertices and flags alone |
| TarjanState.ChildReturned | src/main/java/graph/scc/TarjanSCC.java:46-48 | after the recursive call `v` is still on the stack at its place, and the child's low-link is not below the stack bottom's index |
| TarjanState.OnStackSuccessor | src/main/java/graph/scc/TarjanSCC.java:49-50 | an on-stack successor's index is not below the stack bottom's index |
| TarjanState.BottomIsRoot | src/main/java/graph/scc/TarjanSCC.java:54 | the bottom of the stack has `lowlink == index` |
| TarjanState.ExploreStart | src/main/java/graph/scc/TarjanSCC.java:41-45 | visiting `v` enters the successor loop state |
| TarjanState.ChildStep | src/main/java/graph/scc/TarjanSCC.java:46-48 | the recursive-call branch of the loop keeps the loop state |
| TarjanState.OnStackStep | src/main/java/graph/scc/TarjanSCC.java:49-50 | the on-stack branch of the loop keeps the loop state |
| TarjanState.PopConcludes | src/main/java/graph/scc/TarjanSCC.java:54-63 | with `lowlink[v] == index[v]`, popping down to `v` ends `dfs(v)` with `v` emitted |
| TarjanState.StayConcludes | src/main/java/graph/scc/TarjanSCC.java:54 | with `lowlink[v] != index[v]`, `dfs(v)` ends with `v` still on the stack, never at its bottom |
| TarjanState.SearchStep | src/main/java/graph/scc/TarjanSCC.java:33-36 | a top-level `dfs(v)` returns on an empty stack with the invariant kept, every earlier id still visited and `v` visited |
| TarjanState.UnvisitedBound | src/main/java/graph/scc/TarjanSCC.java:41 | while a vertex is unvisited the counter is below `n` (the termination measure of the recursion) |
| TarjanState.TimeBound | src/main/java/graph/scc/TarjanSCC.java:41 | the counter never exceeds `n` |
| TarjanState.FlatDistinct | src/main/java/graph/scc/TarjanSCC.java:54-62 | duplicate-free components whose members carry their own component's number concatenate without duplicates |
| TarjanState.FinalPartition | src/main/java/graph/scc/TarjanSCC.java:33-37 | at the end the components partition `0..n-1` and nothing is on the stack |
| TarjanState.FinalIndices | src/main/java/graph/scc/TarjanSCC.java:25-41 | at the end `time == n`, the indices are distinct values in `0..n-1`, and `lowlink <= index` everywhere |
| DagShortestPaths.DAGShortestPaths.constructor | src/main/java/graph/dagsp/DAGShortestPaths.java:9-13 | `n` vertices with empty out-lists |
| DagShortestPaths.DAGShortestPaths.AddEdge | src/main/java/graph/dagsp/DAGShortestPaths.java:15-17 | appends `(v, w)` to the out-list of `u` only; nothing else changes |
| DagShortestPaths.DAGShortestPaths.ShortestPaths | src/main/java/graph/dagsp/DAGShortestPaths.java:19-34 | a fresh array equal to the shortest-path pass `Solve(Shortest, adj, src, topo)` |
| DagShortestPaths.DAGShortestPaths.LongestPaths | src/main/java/graph/dagsp/DAGShortestPaths.java:36-50 | a fresh array equal to the longest-path pass `Solve(Longest, adj, src, topo)` |
| DagShortestPaths.RelaxOut | src/main/java/graph/dagsp/DAGShortestPaths.java:27-30 | the inner loop leaves the array equal to relaxing the out-edges in order |
| Common.Min | src/main/java/graph/dagsp/DAGShortestPaths.java:29 | `Math.min`: a lower bound of both arguments and one of them |
| Common.Max | src/main/java/graph/dagsp/DAGShortestPaths.java:45 | `Math.max`: an upper bound of both arguments and one of them |
| DagShortestPaths.Better | src/main/java/graph/dagsp/DAGShortestPaths.java:29 | the min (or max) keeps the current value unless the candidate strictly improves on it |
| Relaxation.Start | src/main/java/graph/dagsp/DAGShortestPaths.java:21-23 | every distance is the sentinel except 0 at `src`; no parents; both counters 0 |
| Relaxation.RelaxEdges | src/test/java/BatchJsonTests.java:267-270 | the definition of the inner relaxation loop over a list of out-edges (its contract keeps both arrays' lengths); what it computes is stated by `RelaxEdgesNext`, `RelaxEdgesCounts`, `RelaxEdgesParents`, `RelaxEdgesTracks` and `RelaxEdgesIneq` |
| Relaxation.RelaxEdgesNext | src/main/java/graph/dagsp/DAGShortestPaths.java:27-30 | one more edge changes only its target, to the better of its old value and the candidate through `u` |
| Relaxation.Step | src/test/java/BatchJsonTests.java:265-271 | the definition of one turn of the outer loop: a vertex still at the sentinel is skipped, otherwise its out-edges are relaxed (its contract keeps the state well-sized); its meaning is stated by the `RelaxAll*` and `Solve*` lemmas |
| Relaxation.RelaxAll | src/test/java/BatchJsonTests.java:265-271 | the definition of the whole outer loop over the order (its contract keeps the state well-sized); its meaning is stated by `RelaxAllParents`, `RelaxAllCounts`, `RelaxAllDominated`, `RelaxAllTracks`, `SolveParents`, `SolveReach` and `SolveDominated` |
| Relaxation.RelaxEdgesCounts | src/test/java/BatchJsonTests.java:267-270 | every scanned edge counts one relaxation; at most that many updates |
| Relaxation.RelaxEdgesParents | src/test/java/BatchJsonTests.java:269 | distances only improve, and a vertex has a parent exactly when its distance changed |
| Relaxation.RelaxAllParents | src/test/java/BatchJsonTests.java:265-271 | the same over the whole outer loop |
| Relaxation.RelaxAllCounts | src/test/java/BatchJsonTests.java:265-271 | relaxations grow by at most the out-degree of the order; updates never exceed relaxations |
| Relaxation.SolveParents | src/test/java/BatchJsonTests.java:260-271 | `dist[src]` is no worse than 0; every distance is no worse than the sentinel; apart from `src`, a vertex has a parent exactly when it left the sentinel; `0 <= updated <= relaxations <=` the out-degree of the order |
| Relaxation.RelaxEdgesDominated | src/main/java/graph/dagsp/DAGShortestPaths.java:27-30 | relaxing from a reached vertex keeps every reached distance bounded by a feasible potential |
| Relaxation.RelaxAllDominated | src/main/java/graph/dagsp/DAGShortestPaths.java:25-32 | the same over the whole outer loop |
| Relaxation.SolveDominated | src/main/java/graph/dagsp/DAGShortestPaths.java:25-32 | for any order, a reached distance is no better than any feasible potential: never shorter (longer) than some path cost |
| Reachability.RelaxEdgesTracks | src/main/java/graph/dagsp/DAGShortestPaths.java:27-30 | relaxing a reached vertex's edges adds exactly their targets to the reached set, with distances bounded by the absolute weights |
| Reachability.RelaxAllTracks | src/main/java/graph/dagsp/DAGShortestPaths.java:25-32 | the pass marks exactly the vertices reachable through processed reached vertices |
| Reachability.SolveReach | src/main/java/graph/dagsp/DAGShortestPaths.java:25-32 | a vertex leaves the sentinel exactly when it is reached from `src` through processed vertices; reached distances lie strictly between `-INF` and `INF` |
| Reachability.RelaxEdgesOff | src/main/java/graph/dagsp/DAGShortestPaths.java:27-30 | relaxing a list of out-edges leaves the distance of every vertex that is not a target unchanged |
| Reachability.UnreachedSentinel | src/main/java/graph/dagsp/DAGShortestPaths.java:25-32 | with no bound on the weights, every vertex not reached from `src` through processed vertices keeps the sentinel |
| Reachability.SentinelsAgree | src/main/java/graph/dagsp/DAGShortestPaths.java:19-50 | for the same source and order, `shortestPaths` is `INF` exactly where `longestPaths` is `Integer.MIN_VALUE` |
| OrderedPass.RelaxEdgesLocal | src/main/java/graph/dagsp/DAGShortestPaths.java:27-30 | distances only improve, and non-targets keep distance and parent |
| OrderedPass.RelaxEdgesIneq | src/main/java/graph/dagsp/DAGShortestPaths.java:27-30 | afterwards every scanned edge satisfies the relaxation inequality from `u` |
| OrderedPass.RelaxEdgesTight | src/test/java/BatchJsonTests.java:267-270 | every vertex kept its distance and parent, or got `u` as parent through an edge whose weight is exactly the distance difference |
| OrderedPass.NoBackEdge | src/main/java/graph/dagsp/DAGShortestPaths.java:25 | over a topological order no entry is a target of a later one |
| OrderedPass.StepFrame | src/main/java/graph/dagsp/DAGShortestPaths.java:25-32 | turn `i` keeps the distances and parents of the first `i + 1` entries and only improves the others |
| OrderedPass.StepEdges | src/main/java/graph/dagsp/DAGShortestPaths.java:25-32 | after turn `i`, every out-edge of the first `i + 1` reached entries satisfies the relaxation inequality |
| OrderedPass.StepParents | src/test/java/BatchJsonTests.java:265-271 | after turn `i`, every parent is one of the first `i + 1` entries, reached, with a tight edge |
| OrderedPass.StepCount | src/test/java/BatchJsonTests.java:265-271 | after turn `i`, relaxations equal the out-degree of the reached entries so far |
| OrderedPass.SolveSettled | src/test/java/BatchJsonTests.java:265-271 | after any prefix of a topological order, the edge, parent and counter facts above hold |
| OrderedPass.SolveEdges | src/main/java/graph/dagsp/DAGShortestPaths.java:25-32 | over a topological order, every edge out of a reached entry satisfies `dist[v] <= dist[u] + w` (`>=` for longest) |
| OrderedPass.SolveParentsInOrder | src/test/java/BatchJsonTests.java:265-271 | every parent is reached, ranked before its child in the order, and linked to it by a tight edge |
| OrderedPass.SolveCount | src/test/java/BatchJsonTests.java:264-271 | over a topological order, `relaxations` is the total out-degree of the reached entries |
| GraphScenarios.ChainDistances | src/test/java/GraphTests.java:40-54 | on the chain 4 -> 5 -> 6 -> 7 with weights 2, 5, 1 from 4 over [4, 5, 6, 7] the distances are 0, 2, 7, 8 |
| GraphScenarios.ChainShortestPaths | src/test/java/GraphTests.java:40-54 | building that graph with `addEdge` and calling `shortestPaths` returns 0, 2, 7, 8 at vertices 4 to 7 |
| CondensationSolvers.Best | src/test/java/BatchJsonTests.java:272-273 | the best end is the first position with the best value beating the sentinel, or -1 with the sentinel when none does |
| CondensationSolvers.BestOfUnique | src/test/java/BatchJsonTests.java:272-273 | that description admits only one end and value |
| CondensationSolvers.ScanEdges | src/test/java/BatchJsonTests.java:267-270 | the inner loop leaves distances, parents and both counters equal to the specified edge relaxation |
| CondensationSolvers.ShortestOnDag | src/test/java/BatchJsonTests.java:260-275 | distances, parents and counters are the shortest pass `Solve`; the best end is the first arg-min below `INF` |
| CondensationSolvers.LongestOnDag | src/test/java/BatchJsonTests.java:277-292 | distances, parents and counters are the longest pass `Solve`; the best end is the first arg-max above `MINF` |
| CondensationSolvers.SolveHasBest | src/test/java/BatchJsonTests.java:289-290 | from a valid source some component always beats the sentinel, so the best value is never the sentinel and `max_distance` is never null |
| Paths.RestorePath | src/test/java/BatchJsonTests.java:294-299 | empty for a negative end; otherwise a parent chain from a parentless vertex to `end`, in strictly increasing rank (so without repeats) |
| Paths.RankedNoDup | src/test/java/BatchJsonTests.java:297 | a chain of strictly increasing rank has no repeated vertex |
| Paths.SolveRanked | src/test/java/BatchJsonTests.java:265-271 | the solvers' parents, over a topological order, are ranked by position, so `restorePath` always stops |
| Paths.RootIsSource | src/test/java/BatchJsonTests.java:262-263 | a reached vertex without a parent is the source, at distance 0 |
| Paths.ParentStep | src/test/java/BatchJsonTests.java:269 | a vertex with a parent was reached from it through a tight edge |
| Paths.RestoredPathWitness | src/test/java/BatchJsonTests.java:294-299 | a restored path of a reached end starts at the source and each step is a tight edge, so the end's distance is the path's weight |
| Paths.BestEdgeMinimal | src/test/java/BatchJsonTests.java:308-311 | no best edge exactly when no edge crosses from `c1` to `c2`; otherwise it is a crossing edge and no crossing edge is lexicographically smaller |
| Paths.ScanBestEdge | src/test/java/BatchJsonTests.java:308-311 | the scan yields `bestU == -1` when nothing crosses, else the lexicographically smallest crossing `(u, v)` |
| Paths.ComponentPathToVertexPath | src/test/java/BatchJsonTests.java:301-318 | the result equals the specified walk `VertexPath` |
| Paths.WalkShape | src/test/java/BatchJsonTests.java:306-316 | after `i` pairs the path starts at `src`, has at most `1 + 2i` vertices, each later one in a component of the path, and ends in component `i` when the last pair had an edge |
| Paths.VertexPathShape | src/test/java/BatchJsonTests.java:301-318 | empty exactly for an empty component path; otherwise starts at `src`, has at most `2k - 1` vertices, each later vertex lies in a component of the path, and it ends in the last component when the last pair has a crossing edge |
| Kahn.CountInDegrees | src/test/java/BatchJsonTests.java:243-244 | `indeg[x]` counts the edges into `x` |
| Kahn.InFromEmit | src/test/java/BatchJsonTests.java:251 | emitting `u` lowers each in-degree by the number of edges from `u` |
| Kahn.InFromZero | src/test/java/BatchJsonTests.java:251 | a remaining in-degree is 0 exactly when no edge comes from a vertex not yet emitted |
| Kahn.EmitsAfter | src/test/java/BatchJsonTests.java:249-251 | the polled head is not yet emitted, so emitting it removes exactly its out-edges |
| Kahn.ReleaseBegin | src/test/java/BatchJsonTests.java:249-251 | polling the head leaves the loop over its successors in its starting state |
| Kahn.ReleaseStep | src/test/java/BatchJsonTests.java:251 | decrementing one successor keeps in-degrees exact, and it is queued exactly when its count reaches 0 |
| Kahn.ReleaseEnd | src/test/java/BatchJsonTests.java:251 | after all successors the queue invariant holds with `u` emitted |
| Kahn.Decrement | src/test/java/BatchJsonTests.java:251 | `--indeg[v]` lowers exactly entry `v` by one, and `v` is appended to the queue exactly when that entry reaches 0 (`DropOne`) |
| Kahn.ReleasedSnoc | src/test/java/BatchJsonTests.java:251 | releasing one more successor is one more decrement step |
| Kahn.ReleasedPrefix | src/test/java/BatchJsonTests.java:251 | after any prefix of `u`'s successors the successor loop's state holds: exact in-degrees and the queue extended by the successors that reached 0 |
| Kahn.ReleasedQueued | src/test/java/BatchJsonTests.java:249-251 | polling `u` and releasing all of its successors keeps the queue invariant with `u` emitted |
| Kahn.ReleasedExtends | src/test/java/BatchJsonTests.java:251 | releasing only appends to the queue and keeps the number of in-degrees |
| Kahn.Release | src/test/java/BatchJsonTests.java:249-251 | the array and queue after the successor loop are exactly `Released(dag[u], ...)`; the queue invariant holds with `u` emitted, and the old queue stays a prefix |
| Kahn.ZerosExact | src/test/java/BatchJsonTests.java:246 | the seed scan lists exactly the zero positions, each once, in increasing order |
| Kahn.SeedsQueued | src/test/java/BatchJsonTests.java:245-246 | those seeds satisfy the queue invariant before anything is emitted |
| Kahn.NoEdgesInto | src/test/java/BatchJsonTests.java:246 | no edge enters a vertex of in-degree 0 |
| Kahn.Seeds | src/test/java/BatchJsonTests.java:245-246 | the first queue holds exactly the vertices of in-degree 0, in increasing id order |
| Kahn.PositiveSum | src/test/java/BatchJsonTests.java:255 | the sum of `max(0, x)` is non-negative and 0 exactly when no entry is positive |
| Kahn.ServeStep | src/test/java/BatchJsonTests.java:248-252 | one turn of the loop: the head is emitted and its successors released, with one fuel unit spent |
| Kahn.ServeNext | src/test/java/BatchJsonTests.java:248-252 | from a valid state with a nonempty queue the head is a vertex, fuel remains, and the next state is valid with the old queue as a prefix of `order + [u] + queue` |
| Kahn.QueuePrefix | src/test/java/BatchJsonTests.java:249-251 | polling the head and appending to the rest keeps the old queue as a prefix |
| Kahn.ServeDrains | src/test/java/BatchJsonTests.java:248-252 | with fuel for every vertex not yet emitted, serving empties the queue, keeps the invariant, and emits the current queue next, in queue order |
| Kahn.KahnRunSound | src/test/java/BatchJsonTests.java:241-258 | the FIFO order `KahnRun` is duplicate-free, forward and closed, leaves only stuck vertices out, starts with the in-degree-0 vertices in increasing id order, leaves a positive in-degree exactly at left-out vertices, and emits every vertex exactly when no in-degree stays positive |
| Kahn.KahnRunComplete | src/test/java/BatchJsonTests.java:248-256 | on an acyclic (ranked) graph the FIFO order emits every vertex |
| Kahn.Drained | src/test/java/BatchJsonTests.java:248-256 | an empty queue leaves a duplicate-free, forward, closed order; a vertex is left out exactly when its in-degree stays positive; all in-degrees are `<= 0` exactly when every vertex was emitted |
| Kahn.TopoKahn | src/test/java/BatchJsonTests.java:241-258 | the order is exactly `KahnRun(dag).0`, the one first-in-first-out serving of the queue produces; it has each vertex at most once, every edge between emitted vertices points forward, left-out vertices are blocked by left-out ones, and `indegSum == 0` exactly when all `n` are emitted |
| Kahn.NotStuckAt | src/test/java/BatchJsonTests.java:248-252 | on a graph with an edge ranking, no vertex can be left out with every left-out vertex blocked |
| Kahn.KahnCompleteOnAcyclic | src/test/java/BatchJsonTests.java:248-256 | on an acyclic (ranked) graph, Kahn's order contains every vertex |
| Condensation.Owner | src/test/java/BatchJsonTests.java:38-39 | `compOf[v]` is the last component listing `v`, or 0 when none does |
| Condensation.OwnerOfPartition | src/test/java/BatchJsonTests.java:38-39 | on a partition, `compOf[v] == c` exactly when component `c` holds `v` |
| Condensation.ComponentMap | src/test/java/BatchJsonTests.java:38-39 | the nested loops fill `compOf` with `Owner` for every vertex |
| Condensation.Merge | src/test/java/BatchJsonTests.java:45 | `merge(b, w, Math::min)` adds key `b`, stores the smaller of the old value and `w`, and changes no other key |
| Condensation.CollapseStep | src/test/java/BatchJsonTests.java:43-46 | handling one more edge keeps `mm` collapsed over the edges seen so far |
| Condensation.Collapse | src/test/java/BatchJsonTests.java:41-46 | `mm[a]` maps exactly the components `b != a` some edge leads to, each to the least weight of those edges |
| Condensation.Entries | src/test/java/BatchJsonTests.java:51-55 | one map's entries, in the given iteration order, listed once each with their values |
| Condensation.BuildDag | src/test/java/BatchJsonTests.java:47-55 | `dag[u]` and `dagW[u]` list the keys of `mm[u]` (with weights in `dagW`) in the same order; `dagM` is the total number of keys |
| Condensation.Condensed | src/test/java/BatchJsonTests.java:41-55 | every condensation edge joins distinct components, is crossed by an input edge, has the least such weight, `dag` and `dagW` agree, and every crossing pair is listed |
| Condensation.ForwardIsTopo | src/test/java/BatchJsonTests.java:58-64 | Kahn's forward order over `dag` is a topological order of `dagW` for the solvers |
| Condensation.Clamp | src/test/java/BatchJsonTests.java:61 | the clamped source lies in `0..n-1`, is the source when that is in range, 0 below and `n - 1` above |
| Condensation.InsertSorted | src/test/java/BatchJsonTests.java:77 | inserting into a sorted list keeps it sorted and adds exactly that element |
| Condensation.SortAscSorted | src/test/java/BatchJsonTests.java:77 | the sort is ascending and a permutation of its input |
| Condensation.BlocksSorted | src/test/java/BatchJsonTests.java:74-79 | block `i` is component `order[i]`, sorted ascending, same members |
| Condensation.TopoVertices | src/test/java/BatchJsonTests.java:74-79 | the loop builds the concatenation of the sorted components in topological order |
| Condensation.TopoVerticesCover | src/test/java/BatchJsonTests.java:74-79 | a vertex is listed exactly when a component of the order holds it; for a complete order over a partition, exactly the vertices `0..n-1` |
| Condensation.ShortVertexBoxes | src/test/java/BatchJsonTests.java:81-87 | each vertex takes its component's shortest distance, boxed as null exactly when it is `>= INF` |
| Condensation.LongVertexBoxes | src/test/java/BatchJsonTests.java:89-93 | each vertex takes its component's longest distance, boxed as null exactly when it is `MINF` |
| Condensation.NullsAgree | src/test/java/BatchJsonTests.java:144-157 | without overflow, the shortest and longest outputs are null exactly at the unreached components, and non-null values lie strictly between `-INF` and `INF` |
| Condensation.UnreachedNull | src/test/java/BatchJsonTests.java:81-93 | with no bound on the weights, an unreached component is null in both the shortest and the longest output |
| CsvExport.Digits | src/test/java/ResultsCsvExportTest.java:175 | a non-empty string of decimal digits |
| CsvExport.DecimalString | src/test/java/ResultsCsvExportTest.java:175 | `String.valueOf` gives a non-empty string of a minus sign and digits |
| CsvExport.ParseDigits | src/test/java/ResultsCsvExportTest.java:175 | the digits of `n` read back as `n` |
| CsvExport.ParseDecimal | src/test/java/ResultsCsvExportTest.java:175 | the decimal form of any integer reads back as that integer |
| CsvExport.Split | src/test/java/ResultsCsvExportTest.java:170-178 | splitting yields at least one piece |
| CsvExport.SplitNoSep | src/test/java/ResultsCsvExportTest.java:170-178 | a string without the separator is one piece |
| CsvExport.SplitAfter | src/test/java/ResultsCsvExportTest.java:170-178 | appending a separator and a separator-free piece appends one piece |
| CsvExport.SplitJoin | src/test/java/ResultsCsvExportTest.java:170-178 | splitting a join at a separator no field contains gives the fields back |
| CsvExport.Fields | src/test/java/ResultsCsvExportTest.java:175 | one field per entry: empty for null, the decimal string otherwise |
| CsvExport.JoinInts | src/test/java/ResultsCsvExportTest.java:170-178 | the result is the fields joined with the separator between consecutive entries only |
| CsvExport.JoinIntsRoundTrip | src/test/java/ResultsCsvExportTest.java:170-178 | splitting the output gives one field per entry, empty exactly for nulls, and each number reads back |
| CsvExport.SizeFields | src/test/java/ResultsCsvExportTest.java:184 | one decimal size per component |
| CsvExport.DeriveSccSizes | src/test/java/ResultsCsvExportTest.java:180-187 | the component sizes joined with the separator |
| CsvExport.SccSizesRoundTrip | src/test/java/ResultsCsvExportTest.java:180-187 | splitting gives one field per component, the `i`-th reading back as the `i`-th size |
| CsvExport.SccSizesStr | src/test/java/ResultsCsvExportTest.java:61 | the stored sizes joined with `|` when present, else the derived sizes |
| CsvExport.SizesAgree | src/test/java/ResultsCsvExportTest.java:61 | when the stored sizes are the component sizes, both branches give the same string |
| CsvExport.Escape | src/test/java/ResultsCsvExportTest.java:191 | doubling quotes keeps the presence of quotes, commas and newlines unchanged, and the text grows by exactly one character per quote; with `UndoubleEscape` this pins every quote as doubled |
| CsvExport.UndoubleEscape | src/test/java/ResultsCsvExportTest.java:191 | collapsing doubled quotes undoes the escaping |
| CsvExport.EscapePlain | src/test/java/ResultsCsvExportTest.java:191 | a string without quotes is not changed by escaping |
| CsvExport.CsvRoundTrip | src/test/java/ResultsCsvExportTest.java:189-194 | null gives ""; a string without comma, quote or newline is returned unchanged; otherwise the escaped text is wrapped in quotes; a CSV reader recovers every string |
| CsvExport.Present | src/test/java/ResultsCsvExportTest.java:207-212 | the non-null count is at most the length, equals it exactly when nothing is null, and is 0 exactly when everything is |
| CsvExport.CountNonNull | src/test/java/ResultsCsvExportTest.java:207-212 | 0 for a missing array, otherwise the number of non-null entries, between 0 and the length |
| CsvExport.SccStats | src/test/java/ResultsCsvExportTest.java:53-59 | `sumScc` is the total of the sizes; `maxScc` is at least every size, equals some size when there is a component, and is 0 when there is none |
| CsvExport.PartitionSum | src/test/java/ResultsCsvExportTest.java:55-58 | over a partition of `0..n-1` the sizes add up to `n` |

## Left out

- TarjanScc.TarjanSCC.Run: does not state that each component is strongly connected and maximal. Hence the 8-vertex scenario of src/test/java/GraphTests.java:12-23 (exactly 6 components) is not modelled.
- TarjanScc.TarjanSCC.Run: does not state that two calls return the same components. `Reset` shows instead that every call restarts from the same initial state.
- The test-local copy of `TarjanSCC` (src/test/java/BatchJsonTests.java:366-397) is not modelled. `processGraph` (src/test/java/BatchJsonTests.java:32) creates that copy, not `graph.scc.TarjanSCC`: the test file sits in the default package and does not import `graph.scc`. The copy differs from the main class only in not resetting `time`, the stack and the component list on a second `run()`, so on a fresh instance's single `run()` it behaves like the modelled class.
- TarjanScc.TarjanSCC.constructor: takes `n: nat`. Java accepts a negative `n` (the loop at src/main/java/graph/scc/TarjanSCC.java:17 does not run) and then throws `NegativeArraySizeException` in `run()` at line 26; that error path is not modelled.
- DagShortestPaths.DAGShortestPaths.constructor: takes `n: nat`. Java accepts a negative `n` (the loop at src/main/java/graph/dagsp/DAGShortestPaths.java:12 does not run) and then throws `NegativeArraySizeException` in `shortestPaths` (line 21) or `longestPaths` (line 37); that error path is not modelled.
- TarjanScc.TarjanSCC.AddEdge: requires both endpoints below `n`. Java throws for a bad `u` at once, and for a bad `v` only later, inside `dfs`.
- DagShortestPaths.DAGShortestPaths.AddEdge: requires both endpoints below `n`, for the same reason.
- DagShortestPaths.DAGShortestPaths.ShortestPaths: requires `0 <= src < n` and every entry of `topo` below `n`. Otherwise Java throws `ArrayIndexOutOfBoundsException` at `dist[src]` (src/main/java/graph/dagsp/DAGShortestPaths.java:23) or `dist[u]` (line 26); the exception is not modelled.
- DagShortestPaths.DAGShortestPaths.LongestPaths: requires the same. Otherwise Java throws at `dist[src]` (line 39) or `dist[u]` (line 42).
- CondensationSolvers.ShortestOnDag: requires `0 <= src < n`, every entry of `topo` below `n`, and every edge target below `n`. Otherwise Java throws at `d[src]` (src/test/java/BatchJsonTests.java:262), `d[u]` (line 266) or `d[v]` (line 269).
- CondensationSolvers.LongestOnDag: requires the same. Otherwise Java throws at line 279, 283 or 286.
- Paths.RestorePath: requires `end < |parent|`. Otherwise `parent[v]` throws at src/test/java/BatchJsonTests.java:297.
- Kahn.TopoKahn: requires every successor to be a vertex id (`DagValid`). Otherwise `indeg[v]++` throws at src/test/java/BatchJsonTests.java:244.
- Java call-stack depth (a `StackOverflowError` from deep recursion) is not modelled.
- Reachability.SolveReach: requires the total absolute weight along the order to stay below `INF`. This excludes 32-bit wrap-around in `dist[u] + w` instead of modelling it.
- Reachability.SentinelsAgree and Condensation.NullsAgree carry the same bound. The direction "unreached implies sentinel (null)" needs no bound: `Reachability.UnreachedSentinel` and `Condensation.UnreachedNull` prove it for all weights.
- The solvers and `DAGShortestPaths` use mathematical integers. Their results equal Java's only when no addition overflows.
- Paths.RestorePath: requires a ranking under which parents strictly decrease. On a parent cycle the Java loop does not terminate. `Paths.SolveRanked` proves the solvers' parents ranked over a topological order.
- Condensation.Clamp: requires `n >= 1`. With no vertices, `compOf[...]` at line 61 throws.
- Condensation.BuildDag: the `HashMap` iteration order of line 51 is an input (`keys`). Every property holds for any order.
- Condensation.BuildDag: `dagM` is stated as the total number of map keys. That equals the number of ordered crossing pairs through `Collapsed`, not as a set cardinality.
- Kahn.TopoKahn: completeness on the condensation is not derived from Tarjan's output. That would need a proof that the condensation is acyclic. `Kahn.KahnCompleteOnAcyclic` proves it for any graph given an edge ranking.
- `componentPathToVertexPath` receives the unclamped `g.source` (lines 95-96), and the model passes the source through unchanged.
- SPRes's arrays are modelled as sequences returned by value.
- `graph.topo.TopologicalSort` (used by src/test/java/GraphTests.java:35) is not part of this model.
- src/main/java/graph/GraphIO.java and src/main/java/Main.java are not part of this model: they are JSON and file I/O and entry-point wiring.
- Left out as I/O, clock reads or floating point:
  - JSON result assembly;
  - `loadGraphs` / `writeGraphs`;
  - `System.nanoTime` timing;
  - density, average SCC size and `formatDouble`;
  - the `isDag` / `graph_type` fields read from JSON (ResultsCsvExportTest.java:43-51);
  - CSV file discovery and writing.
