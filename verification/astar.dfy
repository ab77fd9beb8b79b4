/** The A* searcher as the crate writes it. The goal test happens when an
    entry is popped, so a goal root is its own answer; a child's distance
    and parent change only on a strict improvement. The tracked run keys an
    entry by its distance plus the child's heuristic and relaxes from the
    recorded distance of the popped node; the stateless run keys by the
    distance alone and relaxes from the popped entry's key. */
module AStar {
  import opened Optional
  import opened Graphs
  import opened HeapElements
  import opened Parents
  import opened Relaxation
  import opened AStarTrace
  import opened AStarSearch

  /** `distances` and `parents` describe the last run only; `solution` is
      the last goal any run found, and a failed run leaves it as it was. */
  datatype Searcher = Searcher(distances: map<Node, int>, parents: map<Node, Node>, maxFrontier: nat, solution: Option<Node>)

  /** A fresh searcher has visited nothing, has no path and reports a
      frontier peak of 1. */
  function New(): (s: Searcher)
    ensures NodesVisited(s) == 0 && Path(s) == None && MaxFrontier(s) == 1
    ensures forall n :: !IsVisited(s, n)
  {
    Searcher(map[], map[], 1, None)
  }

  /** `nodes_visited()`: the nodes given a distance, which are the nodes
      `is_visited` answers yes for. */
  function NodesVisited(s: Searcher): (r: nat)
    ensures r == 0 <==> forall n :: !IsVisited(s, n)
  {
    if |s.distances.Keys| == 0 then 0
    else
      assert !forall n :: !IsVisited(s, n) by {
        if forall n :: !IsVisited(s, n) {
          assert forall n :: n in s.distances.Keys <==> IsVisited(s, n);
          assert forall n :: n in s.distances.Keys <==> n in {};
        }
      }
      |s.distances.Keys|
  }

  predicate IsVisited(s: Searcher, n: Node) {
    n in s.distances
  }

  function MaxFrontier(s: Searcher): nat {
    s.maxFrontier
  }

  /** `path()`: nothing before any success; otherwise the parent chain of
      the solution, oldest ancestor first, which begins at a node without a
      parent unless the parent map is cyclic. */
  function Path(s: Searcher): (r: Option<seq<Node>>)
    ensures r.None? <==> s.solution.None?
    ensures r.Some? ==> |r.value| > 0 && Last(r.value) == s.solution.value && FollowsParents(s.parents, r.value)
    ensures r.Some? ==> r.value[0] !in s.parents || r.value[0] in r.value[1..]
  {
    Reconstruct(s.parents, s.solution)
  }

  /** `search_tracked`: a run from `root` that replaces the last run's
      distances and parents; `sizes` is the frontier size after each
      expansion. */
  method SearchTracked(s: Searcher, g: Graph, root: Node) returns (r: Option<Node>, s': Searcher, ghost sizes: seq<nat>)
    requires NonNegativeWeights(g)
    ensures r.Some? <==> exists v :: Reachable(g, root, v) && IsGoal(g, v)
    ensures IsGoal(g, root) ==> r == Some(root)
    ensures r.Some? ==> IsGoal(g, r.value) && Reachable(g, root, r.value) && IsVisited(s', r.value)
    ensures s'.solution == if r.Some? then r else s.solution
    ensures r.Some? ==> Path(s').Some? && PathFrom(g, root, Path(s').value) && Last(Path(s').value) == r.value
    ensures r.Some? ==> FollowsParents(s'.parents, Path(s').value) && PathCost(g, Path(s').value) <= s'.distances[r.value]
    ensures root in s'.distances && s'.distances[root] == 0
    ensures forall v :: IsVisited(s', v) ==> Reachable(g, root, v) && s'.distances[v] >= 0
    ensures r.None? ==> (forall v :: IsVisited(s', v) <==> Reachable(g, root, v)) && NodesVisited(s') == |ReachableSet(g, root)|
    ensures s'.parents.Keys == s'.distances.Keys - {root}
    ensures forall c :: c in s'.parents ==> c in Children(g, s'.parents[c])
    ensures forall c :: c in s'.parents ==>
      (c in s'.distances && s'.parents[c] in s'.distances && s'.distances[c] >= s'.distances[s'.parents[c]] + EdgeWeight(g, s'.parents[c], c))
    ensures Peak(MaxFrontier(s'), sizes)
  {
    var found, dist, parents, maxFrontier;
    found, dist, parents, maxFrontier, sizes := Run(g, root, Tracked);
    r := found;
    s' := Searcher(dist, parents, maxFrontier, if found.Some? then found else s.solution);
    if found.Some? {
      PathCostWithin(g, root, dist, parents, Path(s').value);
    }
  }

  /** `q` runs from `root` to `v` and costs no more than any path from
      `root` to any goal. */
  ghost predicate CheapestPath(g: Graph, root: Node, q: seq<Node>, v: Node) {
    && PathFrom(g, root, q) && Last(q) == v
    && forall p :: PathFrom(g, root, p) && IsGoal(g, Last(p)) ==> PathCost(g, q) <= PathCost(g, p)
  }

  /** `search`: the stateless run, uniform-cost search. Keyed by the cost
      so far and goal-tested when popped, it returns a goal reached by a
      path no dearer than any path from `root` to any goal. */
  method Search(g: Graph, root: Node) returns (r: Option<Node>)
    requires NonNegativeWeights(g)
    ensures r.Some? <==> exists v :: Reachable(g, root, v) && IsGoal(g, v)
    ensures IsGoal(g, root) ==> r == Some(root)
    ensures r.Some? ==> IsGoal(g, r.value) && Reachable(g, root, r.value)
    ensures r.Some? ==> exists q :: CheapestPath(g, root, q, r.value)
  {
    var dist, parents, maxFrontier;
    ghost var sizes;
    r, dist, parents, maxFrontier, sizes := Run(g, root, Stateless);
    if r.Some? {
      ghost var q := Reconstruct(parents, r).value;
      PathCostWithin(g, root, dist, parents, q);
      assert CheapestPath(g, root, q, r.value);
    }
  }
}
