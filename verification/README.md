# graphsearch search strategies, modelled in Dafny

This project models the search-strategy layer of the Rust crate
`graphsearch`. It covers:

- the reverse-cost frontier element;
- the default `path_cost` of a weighted graph;
- breadth-first search;
- recursive depth-first search, depth-limited search and iterative
  deepening;
- the three priority-frontier searchers (Dijkstra, A* and greedy
  best-first) with their visited, parent and distance bookkeeping and the
  `path()` reconstruction;
- the `perft` node counter;
- the example graph the crate's unit tests build.

A graph is a map from each node to its ordered children, plus a goal
predicate, an integer edge weight and an integer heuristic
(`Graphs.Graph`). Nodes are integers; only their identity matters.

## Modules

| file | module | what it holds |
|---|---|---|
| optional.dfy | `Optional` | `Option` |
| graphs.dfy | `Graphs` | the capability surface, paths, reachability, `PathCost` |
| heapelement.dfy | `HeapElements` | `HeapElement` and its ordering; the binary-heap `Pop`; the frontier peak |
| parents.dfy | `Parents` | parent-chain reconstruction (`path()`) and the ranked forest that makes it end at the root |
| bfs.dfy, bfs_trace.dfy | `Bfs`, `BfsTrace` | `bfs` and its proof state |
| dfs.dfy | `DepthFirst` | `dfs`, `depth_limited_dfs`, `iterative_deepening_dfs` |
| perft.dfy | `Perft` | `perft` |
| discovery.dfy, discovery_trace.dfy, discovery_search.dfy | `Discovery`, `DiscoveryTrace`, `DiscoverySearch` | the discovery-time loop Dijkstra and best-first share, parameterised by key, heap order and when the goal gets its parent |
| tracking.dfy | `Tracking` | the state a tracked Dijkstra or best-first searcher keeps |
| dijkstra.dfy, bestfirst.dfy | `Dijkstra`, `BestFirst` | the two searchers over the shared loop |
| relaxation.dfy | `Relaxation` | the A* children loop (strict-improvement relaxation) |
| astar_trace.dfy, astar_step.dfy, astar_search.dfy, astar.dfy | `AStarTrace`, `AStarStep`, `AStarSearch`, `AStar` | the A* invariant, its preservation, the loop, and the searcher |
| examplegraph.dfy | `ExampleGraphs` | `ExampleGraph` with its nodes, edges and goal id |
| fixture.dfy | `Fixture` | the test graph over integer ids, and each searcher's result on it |

## How the model reads the code

- **Visited marks on the graph.** `bfs` and `dfs` call
  `mark_visited`/`is_visited` on the graph, but the `Graph` trait in
  `src/graph.rs` does not declare them. The model threads an explicit
  visited set through the search instead.
  - It takes the marks present before the call as an input.
  - It hands back the marks present after it.
  - Before a run, a node already marked blocks BFS from enqueueing it
    (`BfsTrace.ClearPath`).
  - `dfs` and `depth_limited_dfs` only write the marks; they never read
    them (`DepthFirst.ExploreIgnoresMarks`).
- **The binary heap** is a sequence of entries. `Pop` removes one
  greatest entry under the heap's comparison: either `HeapElement`'s own
  order, or that order flipped again by the standard `Reverse` wrapper.
  Which of several equal entries comes out is not promised.
- **Maps and sets** are Dafny `map` and `set`.
- **Dijkstra, as written**, keys the frontier by the weight of the *last*
  edge, not by the cumulative cost. It goal-tests children when they are
  discovered, and records the goal child's parent before returning.
  Textbook Dijkstra keys by cumulative cost and goal-tests at extraction;
  the model follows the code. Consequences:
  - a goal root is never returned;
  - no optimality is claimed.
- **Greedy best-first, as written**, returns the goal child before
  marking it or giving it a parent.
  - Its tracked run wraps the already-reversed `HeapElement` in `Reverse`,
    so it pops the largest heuristic.
  - Its stateless run pops the smallest.
  - See Findings.
- **A\*** goal-tests at extraction. It relaxes a child only on a strict
  improvement, where an absent distance counts as unbounded.
  - The tracked run keys entries by distance plus heuristic, and relaxes
    from the popped node's recorded distance.
  - The stateless run keys by distance alone, and relaxes from the popped
    entry's key. It is uniform-cost search, so with non-negative weights
    the goal it returns is a cheapest goal (`AStar.Search`).
- **`solution` is not reset.** `search_tracked` clears `visited`/`distances`
  and `parents` and resets `max_frontier` to 1, but leaves `solution` as
  it was. A failed run therefore keeps the previous solution. See
  Findings.
- **`max_frontier`.** Each tracked run returns a ghost list of the
  frontier sizes after every expansion. Its contract states that
  `max_frontier` is the largest of 1 and those sizes
  (`HeapElements.Peak`).

## Model

| member | source | states |
|---|---|---|
| HeapElements.NewThenNode | src/heapelement.rs:7-15 | `new` stores node and cost unchanged, and `node()` returns the stored node |
| HeapElements.EqIgnoresNode | src/heapelement.rs:17-21 | entries with different nodes but equal costs are equal |
| HeapElements.IntCmp | src/heapelement.rs:35 | integer `cmp` answers Less, Equal or Greater exactly when the first argument is smaller, equal or larger |
| HeapElements.Cmp | src/heapelement.rs:32-37 | `cmp(a, b)` is Greater exactly when `a.cost < b.cost` and Less exactly when `a.cost > b.cost`; it is Equal exactly when `eq` holds |
| HeapElements.PartialCmp | src/heapelement.rs:25-30 | `partial_cmp` always returns `Some`, and its value agrees with `cmp` |
| HeapElements.CmpAntisymmetric | src/heapelement.rs:17-37 | swapping the arguments of `cmp` flips its answer |
| HeapElements.CmpTransitive | src/heapelement.rs:32-37 | `cmp` is transitive, so the heap's order is a total preorder |
| HeapElements.Pop | src/dijkstra.rs:53-54 | popping an empty heap gives nothing; otherwise it removes one entry (a multiset difference) that no other entry beats under the heap's comparison: the cheapest under `HeapElement`'s order, the dearest under `Reverse` |
| HeapElements.PeakStep | src/dijkstra.rs:71 | taking `max(max_frontier, frontier.len())` keeps `max_frontier` equal to the largest of 1 and all recorded frontier sizes |
| Graphs.Fresh | src/bfs.rs:13-17 | the children admitted by one expansion are exactly the unvisited ones, with no repeats |
| Graphs.PathCostShort | src/graph.rs:19-21 | an empty or one-node path costs 0 |
| Graphs.PathCostSnoc | src/graph.rs:20 | appending `x` to a non-empty path adds `edge_weight(last, x)` |
| Graphs.PathCostNonNegative | src/graph.rs:19-21 | with non-negative weights every path costs at least 0 |
| Graphs.PathCostJoin | src/graph.rs:20 | two paths joined at a shared node cost the sum of their costs |
| Graphs.PathCostMonotone | src/graph.rs:19-21 | with non-negative weights, extending a path never lowers its cost |
| Parents.Ancestry | src/dijkstra.rs:113-119 | the walk up the parent map yields a non-empty chain ending at the start node, each node the parent of the next, beginning at a node without a parent unless the map is cyclic |
| Parents.Reconstruct | src/dijkstra.rs:110-121 | `path()` is `None` exactly when there is no solution; otherwise it is non-empty, ends at the solution, follows parent links and begins at a node without a parent unless the map is cyclic |
| Parents.AncestryFromRoot | src/dijkstra.rs:113-119 | in a ranked parent forest, the walk back from any node ends at the root, follows parent links and uses real edges |
| Parents.ReconstructFromRoot | src/astar.rs:107-118 | after a success recorded in such a forest, `path()` runs from the root to the solution along parent links that are edges |
| Bfs.Expand | src/bfs.rs:13-18 | a non-goal dequeue marks every child and appends exactly the unvisited ones to the queue, keeping the search invariant |
| Bfs.Search | src/bfs.rs:5-21 | a goal root is returned; a result is a goal at the end of a shortest clear path from the root; `None` means every clear path ends at a visited non-goal; nothing is enqueued twice; visited nodes are old marks or reachable |
| BfsTrace.StartInvariant | src/bfs.rs:6-8 | marking the root and enqueueing it establishes the invariant |
| BfsTrace.ExpandFront | src/bfs.rs:13-18 | one expansion keeps the invariant: queue levels are non-decreasing and differ by at most one, and each level is a shortest distance |
| BfsTrace.GoalDequeued | src/bfs.rs:9-12 | a dequeued goal ends a shortest clear goal path, and it is the root whenever the root is a goal |
| BfsTrace.QueueExhausted | src/bfs.rs:9-20 | once the queue is empty, every clear path from the root ends at a visited non-goal |
| BfsTrace.WitnessesReachable | src/bfs.rs:15 | every node the run marks is reachable from the root |
| DepthFirst.Explore | src/dfs.rs:3-14 | `dfs` returns a goal, returns the start itself when it is a goal, and only adds marks |
| DepthFirst.ExploreChildren | src/dfs.rs:8-13 | the children loop returns a goal or nothing, and only adds marks |
| DepthFirst.Dfs | src/dfs.rs:3-7 | `dfs(root)` returns the root when it is a goal, and any result is a goal |
| DepthFirst.ExploreSound | src/dfs.rs:3-14 | what `dfs` finds is reachable from its start, and every new mark is reachable |
| DepthFirst.ExploreBelowSound | src/dfs.rs:8-13 | from a non-goal, the answer and the new marks come from the children's subtrees, so they are reachable |
| DepthFirst.ExploreChildrenSound | src/dfs.rs:8-13 | answers and marks from the children loop are reachable from the parent |
| DepthFirst.ExploreComplete | src/dfs.rs:3-14 | when `dfs` returns `None`, every path from the start ends at a marked non-goal |
| DepthFirst.ExploreChildrenComplete | src/dfs.rs:8-13 | when the children loop fails, every path from every child ends at a marked non-goal |
| DepthFirst.DfsFindsIff | src/dfs.rs:3-14 | on an acyclic graph `dfs` succeeds exactly when a goal is reachable; a failure marks every reachable node |
| DepthFirst.ExploreIgnoresMarks | src/dfs.rs:4 | the answer of `dfs` does not depend on the marks present before the call |
| DepthFirst.ExploreChildrenFirst | src/dfs.rs:8-12 | the children loop answers what some child subtree answers, and a failure means every child subtree failed |
| DepthFirst.DfsFirstChild | src/dfs.rs:8-12 | from a non-goal root, `dfs` answers what a child subtree answers, and fails only when all of them fail |
| DepthFirst.DepthLimited | src/dfs.rs:16-30 | limit 0 gives `None` even at a goal; at a positive limit a goal is its own answer; any answer is a goal; marks only grow |
| DepthFirst.DepthLimitedChildren | src/dfs.rs:24-28 | the children loop at a reduced limit returns a goal or nothing, and only adds marks |
| DepthFirst.DepthLimitedSound | src/dfs.rs:16-30 | a success at limit `d` ends a goal path of at most `d` nodes (at most `d - 1` edges); marks are reachable |
| DepthFirst.DepthLimitedComplete | src/dfs.rs:16-30 | a failure at limit `d` rules out every goal path of at most `d` nodes |
| DepthFirst.DepthLimitedFindsIff | src/dfs.rs:16-30 | `depth_limited_dfs` succeeds at limit `d` exactly when a goal path of at most `d` nodes exists |
| DepthFirst.DepthLimitedMonotone | src/dfs.rs:16-30 | a success at limit `d` implies a success at `d + 1` |
| DepthFirst.DepthLimitedIgnoresMarks | src/dfs.rs:17 | the answer does not depend on the marks present before the call |
| DepthFirst.IterativeDeepening | src/dfs.rs:32-39 | returns a goal, namely the answer at the first limit that succeeds: every smaller limit fails, and the goal lies at minimum depth |
| Perft.Perft | src/perft.rs:4-12 | the count is at least 1, and is exactly 1 at depth 0 or at a childless node |
| Perft.PerftSum | src/perft.rs:11 | summing over the children counts at least one leaf per child |
| Perft.PerftDepthOne | src/perft.rs:7-11 | `perft(n, 1)` is the number of children, or 1 when there are none |
| Perft.PerftMonotone | src/perft.rs:4-12 | unfolding one level deeper never lowers the count |
| Perft.PerftCountsWalks | src/perft.rs:4-12 | `perft` is the length of the list of walks of the unfolded tree, and every listed walk is a leaf walk: a path of at most `depth` edges that stops early only at a childless node |
| Perft.WalksComplete | src/perft.rs:4-12 | every leaf walk from `n` is in the list |
| Perft.WalksUnique | src/perft.rs:4-12 | when no node lists a child twice, no walk is listed twice |
| Perft.PerftIsLeafWalkCount | src/perft.rs:4-12 | when no node lists a child twice, `perft` is the number of distinct leaf walks, and a sequence is counted exactly when it is a leaf walk |
| Discovery.Scan | src/dijkstra.rs:55-70 | one expansion marks and pushes the fresh children in order, up to the first fresh goal, and returns that goal; parents are recorded as the policy says |
| Discovery.ScanChild | src/dijkstra.rs:56-69 | one child: a visited child changes nothing; a fresh goal stops the loop; otherwise the child is marked, parented and pushed with its key |
| DiscoverySearch.Step | src/dijkstra.rs:53-72 | one pop and expansion either ends the run with a reported success or keeps the invariant and makes progress |
| DiscoverySearch.Run | src/dijkstra.rs:48-73 | the run's result, marks and parents satisfy `Reported`/`Recorded`, and `max_frontier` is the peak frontier size |
| DiscoveryTrace.StartInv | src/dijkstra.rs:50-51 | marking the root and pushing it establishes the loop invariant |
| DiscoveryTrace.Found | src/dijkstra.rs:57-62 | a fresh goal child ends the run as a reachable non-root goal, with the parent map the policy records |
| DiscoveryTrace.Exhausted | src/dijkstra.rs:53-73 | an empty frontier means every reachable node was marked and none but the root is a goal |
| DiscoveryTrace.ReportedIff | src/dijkstra.rs:53-73 | a run succeeds exactly when a non-root goal is reachable, and a failure marks exactly the reachable nodes |
| Tracking.New | src/dijkstra.rs:22-30 | a new searcher has visited nothing, has no path, and reports `max_frontier` 1 |
| Tracking.NodesVisited | src/dijkstra.rs:102-108 | `nodes_visited()` is 0 exactly when `is_visited` answers no for every node |
| Tracking.Path | src/dijkstra.rs:110-121 | `path()` is `None` exactly when there is no solution; otherwise it ends at the solution, follows parent links and begins at a node without a parent unless the map is cyclic |
| Dijkstra.SearchTracked | src/dijkstra.rs:44-74 | succeeds exactly when a non-root goal is reachable; the answer is such a goal and is not marked; `solution` becomes the answer or is kept on failure; after a success `path()` runs from the root to the goal along parent links; parent keys are the visited nodes but the root, plus the goal; every parent link is an edge; visited nodes are the root or reachable non-goals; a failure visits exactly the reachable nodes and `nodes_visited` counts them; no node is pushed twice; `max_frontier` is the peak frontier size |
| Dijkstra.Search | src/dijkstra.rs:76-100 | succeeds exactly when a non-root goal is reachable; the answer is such a goal |
| Dijkstra.SearchTrackedReset | src/dijkstra.rs:44-74 | the corrected run: `solution` is the run's own answer, so `path()` exists exactly after a success and leads from the root to the goal |
| BestFirst.SearchTracked | src/bestfirst.rs:39-67 | succeeds exactly when a non-root goal is reachable; the answer is such a goal and is not marked; `solution` becomes the answer or is kept on failure; after a success `path()` is exactly `[goal]`; parent keys are exactly the visited nodes but the root, and every parent link is an edge; visited nodes are the root or reachable non-goals; a failure visits exactly the reachable nodes and `nodes_visited` counts them; no node is pushed twice; `max_frontier` is the peak frontier size |
| BestFirst.Search | src/bestfirst.rs:69-92 | succeeds exactly when a non-root goal is reachable; the answer is such a goal |
| BestFirst.TrackedPopsDearest | src/bestfirst.rs:46-49 | the tracked frontier hands out the entry with heuristic 5 before the one with heuristic 1 |
| BestFirst.IntendedPopsCheapest | src/bestfirst.rs:74-77 | under the intended (stateless) order the heuristic-1 entry comes out first |
| BestFirst.SearchTrackedIntended | src/bestfirst.rs:39-67 | the corrected tracked run: after a success, `path()` runs from the root to the goal along parent links that are edges |
| Relaxation.RelaxChild | src/astar.rs:62-70 | one more child relaxed: the step-by-step account (distances, parents and the ordered list of changed children) extends to that child, and the frontier grows by the entries of the children that changed |
| Relaxation.RelaxChildren | src/astar.rs:61-71 | after an expansion every child's distance is at most the base cost plus its edge; no distance rises; exactly the strictly improved children take the new cost and `u` as parent, and are pushed with their keys |
| Relaxation.OneEdge | src/astar.rs:62-70 | one edge: afterwards the child's distance is at most the base cost plus the edge and no distance rises; the bookkeeping changes only when the edge strictly improves the child (absent meaning unbounded), and then the child takes that cost, `u` as parent and one frontier entry with its key |
| Relaxation.EffectOf | src/astar.rs:61-71 | the step-by-step account of the children loop (which children changed, in order) implies the outcome-only description of the expansion |
| AStarTrace.StartInv | src/astar.rs:50-53 | pushing the root with cost 0 and `distances[root] = 0` establishes the invariant |
| AStarTrace.Found | src/astar.rs:55-59 | a popped goal is returned with a parent path from the root |
| AStarTrace.Exhausted | src/astar.rs:55-74 | an empty frontier means exactly the reachable nodes got a distance, and none is a goal |
| AStarTrace.PathCostWithin | src/astar.rs:107-118 | the cost of a parent path from the root to `v` is at most `distances[v]` |
| AStarTrace.FrontierBelow | src/astar.rs:84-95 | in the stateless run, with non-negative weights, every goal path from the root has a frontier entry whose key is at most the path's cost |
| AStarTrace.PoppedCheapest | src/astar.rs:84-87 | in the stateless run, an entry no other entry beats has a distance no greater than the cost of any goal path from the root |
| AStarStep.ClosedStep | src/astar.rs:88-94 | expanding a popped non-goal in the stateless run keeps every distance either on the frontier or among the expanded entries, and every expanded entry's children within its key plus the edge |
| AStarStep.Expanded | src/astar.rs:60-72 | relaxing a popped non-goal keeps the invariant (distances sound, parent links a rooted forest of edges, every discovered node on the frontier or expanded), and the run makes progress |
| AStarSearch.Step | src/astar.rs:55-72 | one pop either returns a goal with its outcome, or keeps the invariant and makes progress |
| AStarSearch.Expand | src/astar.rs:60-72 | the children loop with the base cost each variant uses keeps the invariant and makes progress |
| AStarSearch.Run | src/astar.rs:50-97 | with non-negative weights the loop ends, with the A* outcome, a goal root returned at once, and the peak frontier size; in the stateless variant the goal returned has a distance no greater than any goal path's cost |
| AStar.New | src/astar.rs:23-31 | a new searcher has visited nothing, has no path, and reports `max_frontier` 1 |
| AStar.NodesVisited | src/astar.rs:99-105 | `nodes_visited()` is 0 exactly when `is_visited` answers no for every node |
| AStar.Path | src/astar.rs:107-118 | `path()` is `None` exactly when there is no solution; otherwise it ends at the solution, follows parent links and begins at a node without a parent unless the map is cyclic |
| AStar.SearchTracked | src/astar.rs:45-75 | succeeds exactly when a goal is reachable, and a goal root is returned at once; the answer has a distance; `solution` is kept on failure; after a success `path()` runs from the root to the goal along parent links and costs at most the goal's distance; `distances[root] == 0`; nodes with a distance are reachable and their distance is at least 0; a failure gives a distance to exactly the reachable nodes; parent keys are the nodes with a distance but the root; every parent link is an edge, and a node's distance is at least its parent's plus the edge; `max_frontier` is the peak frontier size |
| AStar.Search | src/astar.rs:77-97 | succeeds exactly when a goal is reachable; a goal root is returned at once; the answer is a reachable goal, and with non-negative weights some path from the root to it costs no more than any path from the root to any goal |
| ExampleGraphs.Add | src/examplegraph.rs:58-60 | `add` appends the node and changes nothing else |
| ExampleGraphs.AddEdge | src/examplegraph.rs:63-65 | `add_edge` appends the edge and changes nothing else |
| ExampleGraphs.Empty | src/examplegraph.rs:49-55 | `new()` has no children and no edges at any node, and its only goal is the node with id 0 |
| ExampleGraphs.SetGoal | src/examplegraph.rs:68-70 | after `set_goal(n)`, `n` is the goal and no other node is; nodes and edges are unchanged |
| ExampleGraphs.SingleGoal | src/examplegraph.rs:101-103 | `is_goal` holds for the node with the goal id and for no other node |
| ExampleGraphs.Children | src/examplegraph.rs:81-91 | `children(n)` holds exactly the listed nodes an edge from `n` leads to, in node-insertion order |
| ExampleGraphs.ChildlessWithoutEdges | src/examplegraph.rs:81-91 | a node no edge leaves has no children |
| ExampleGraphs.Edges | src/examplegraph.rs:93-99 | `edges(n)` holds exactly the edges whose tail is `n`, in insertion order |
| Fixture.FixtureIsLiteral | src/examplegraph.rs:119-144 | `get_example_graph()` has the nine nodes and eight edges in insertion order, with goal 7 |
| Fixture.ChildrenOf8 | src/examplegraph.rs:119-144 | `children(8)` is `[3, 10]` |
| Fixture.ChildrenOf3 | src/examplegraph.rs:119-144 | `children(3)` is `[1, 6]` |
| Fixture.ChildrenOf6 | src/examplegraph.rs:119-144 | `children(6)` is `[4, 7]` |
| Fixture.ChildrenOf10 | src/examplegraph.rs:119-144 | `children(10)` is `[14]` |
| Fixture.ChildrenOf14 | src/examplegraph.rs:119-144 | `children(14)` is `[13]` |
| Fixture.ChildlessOthers | src/examplegraph.rs:119-144 | every other node has no children |
| Fixture.RootReachesAll | src/examplegraph.rs:77-79 | `root()` is the first node added, no edge enters it, and every node of the example graph is reachable from it |
| Fixture.UnitCosts | src/examplegraph.rs:106-115 | with every weight 1 a path costs its number of edges, and the constant heuristic never drops by more than an edge's weight |
| Fixture.Agrees | src/examplegraph.rs:73-115 | the integer-id graph has the example graph's root 8, children, goal test, unit weights and unit heuristic |
| Fixture.FixtureAcyclic | src/examplegraph.rs:132-139 | the fixture is acyclic, so the depth-first searches terminate on it |
| Fixture.OnlyGoalPath | src/examplegraph.rs:132-141 | the only path from 8 to a goal is `[8, 3, 6, 7]` |
| Fixture.FixtureWeights | src/examplegraph.rs:106-110 | every edge weight is non-negative |
| Fixture.PerftOnFixture | src/perft.rs:18-23 | `perft(root, 1)` is 2 |
| Fixture.DfsOnFixture | src/dfs.rs:45-50 | `dfs` finds goal 7 from the root, and from the goal itself |
| Fixture.DepthLimitedOnFixture | src/dfs.rs:16-30 | limit 4 finds the goal and limit 3 does not |
| Fixture.IterativeDeepeningOnFixture | src/dfs.rs:52-57 | iterative deepening finds goal 7 from the goal itself, as the test runs it, and from the root |
| Fixture.BfsOnFixture | src/bfs.rs:27-32 | `bfs` finds goal 7 from the goal itself, as the test runs it, and from the root |
| Fixture.DijkstraOnFixture | src/dijkstra.rs:131-147 | the tracked Dijkstra run finds 7, and `path()` is `[8, 3, 6, 7]` |
| Fixture.BestFirstOnFixture | src/bestfirst.rs:48-61 | the tracked best-first run finds 7, but `path()` is `[7]` |
| Fixture.AStarOnFixture | src/astar.rs:128-144 | the tracked A* run finds 7, and `path()` is `[8, 3, 6, 7]` |
| Fixture.StatelessOnFixture | src/dijkstra.rs:76-100 | stateless Dijkstra, best-first and A* all find 7 |
| Fixture.IntendedBestFirstOnFixture | src/bestfirst.rs:39-67 | with the corrected bookkeeping, best-first's `path()` is `[8, 3, 6, 7]` |
| Fixture.StaleSolution | src/dijkstra.rs:44-61 | a success from 8 followed by a failure from 13 still yields a path, where a new searcher's failure from 13 yields none |
| Fixture.ResetOnFixture | src/dijkstra.rs:44-61 | with `solution` reset, the same two runs leave no path |

## Left out

- `i64` and `usize` arithmetic.
  - Costs, keys and counts are unbounded integers, so an overflow of
    `cost + weight` is not modelled.
  - The `i64::MAX` stand-in for an unknown distance is replaced by
    "absent from the map", which relaxes on any cost.
- The internals of `BinaryHeap`, `HashMap` and `HashSet`, and the
  tie-break among equal heap entries. Contracts hold for every choice of
  tie-break.
- Printing and formatting: the `println!` in `perft`, and all
  `Display`/`Debug` impls.
- `src/main.rs`, `src/lib.rs` and `src/graphsearcher.rs`: drivers and
  trait signatures with no behaviour of their own. The searcher queries
  `nodes_visited`, `is_visited`, `max_frontier` and `path` are modelled
  per searcher.
- The trait methods `root()` and `edges()` of `Graph`.
  - The searchers take the root as an argument and use only `children`.
  - `root` and `edges` are modelled for the example graph only.
- DepthFirst.Dfs: requires an acyclic graph, because `dfs` has no visited
  check and recurses forever around a cycle.
- DepthFirst.IterativeDeepening: requires a reachable goal, because
  otherwise the source loops forever. Of the marks, which pile up across
  iterations, it states only that they include the earlier marks and the
  root.
- AStar.SearchTracked: requires non-negative edge weights. It is the
  termination argument. A negative cycle makes the source relax forever
  (until `i64` overflow).
  - It states `PathCost(path) <= distances[goal]` rather than equality:
    a parent's distance can drop after its child was relaxed through it.
  - It claims no optimality. That needs an admissible heuristic, which
    nothing in the crate enforces.
- AStar.Search: requires non-negative edge weights, for the same reason;
  its cheapest-goal clause needs them too.
- Perft.PerftIsLeafWalkCount: requires that no node lists a child twice.
  With repeated children `perft` counts each repetition, so it counts
  walks with multiplicity (`Perft.PerftCountsWalks`), not distinct ones.
- Parents.Ancestry: carries a set of nodes already walked through. It
  stops a cyclic parent map, on which the source's `path()` loops
  forever. `Parents.AncestryFromRoot` shows the runs never build such a
  map, so the guard never fires on them.
- Dijkstra.Search: the stateless runs share the tracked runs' loop. They
  compute the parent map and then discard it. The source keeps no parent
  map there; the answer is the same. This applies equally to
  BestFirst.Search.
- Dijkstra.SearchTracked: states no optimality, because the code keys by
  the last edge only.
- The monotone growth of `nodes_visited` during a run: only the final
  count is stated.

## Findings

| source | as written | input that shows it | evidently intended | confidence | as-written member | corrected member |
|---|---|---|---|---|---|---|
| src/bestfirst.rs:52-58 | the tracked run returns the goal child before recording its parent, so `path()` is the goal alone | the example graph from root 8: `path()` is `[7]` | `path()` leads from the root to the goal, as for Dijkstra and A* | high; not executed | Fixture.BestFirstOnFixture | BestFirst.SearchTrackedIntended |
| src/bestfirst.rs:46 | the tracked frontier wraps the reversed `HeapElement` in `Reverse`, so the largest heuristic comes out first | entries with heuristics 1 and 5: the 5 comes out first | cheapest heuristic first, as the stateless `search` at src/bestfirst.rs:74 does | medium; not executed | BestFirst.TrackedPopsDearest | BestFirst.IntendedPopsCheapest |
| src/dijkstra.rs:45-47 | `search_tracked` clears `visited`, `parents` and `max_frontier` but not `solution` | a success from 8 on the example graph, then a failure from 13: `path()` still answers a path | a failed run leaves no path, as on a new searcher | medium; not executed | Fixture.StaleSolution | Dijkstra.SearchTrackedReset |

The same omission of a `solution` reset appears in `src/astar.rs:46-48` and
`src/bestfirst.rs:40-42`. `AStar.SearchTracked` and
`BestFirst.SearchTracked` state it as "`solution` is kept on failure".
The corrected members use the same loop as the as-written ones:
- `BestFirst.SearchTrackedIntended` runs it with the cheapest-first order
  and records the goal's parent;
- `Dijkstra.SearchTrackedReset` sets `solution` to the run's own answer.

`Fixture.IntendedBestFirstOnFixture` and `Fixture.ResetOnFixture` show
the corrected behaviour on the example graph.
