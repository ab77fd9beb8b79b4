/** The state a tracked Dijkstra or greedy best-first searcher keeps
    between runs, and the queries it answers about the last run. */
module Tracking {
  import opened Optional
  import opened Graphs
  import opened Parents

  /** `visited` and `parents` describe the last run only; `solution` is the
      last goal any run found, and a failed run leaves it as it was. */
  datatype Tracker = Tracker(visited: set<Node>, parents: map<Node, Node>, maxFrontier: nat, solution: Option<Node>)

  /** A fresh searcher has visited nothing, has no path and reports a
      frontier peak of 1. */
  function New(): (t: Tracker)
    ensures NodesVisited(t) == 0 && Path(t) == None && MaxFrontier(t) == 1
    ensures forall n :: !IsVisited(t, n)
  {
    Tracker({}, map[], 1, None)
  }

  /** `nodes_visited()`: how many nodes `is_visited` answers yes for. */
  function NodesVisited(t: Tracker): (r: nat)
    ensures r == 0 <==> forall n :: !IsVisited(t, n)
  {
    if |t.visited| == 0 then 0
    else
      assert !forall n :: !IsVisited(t, n) by {
        if forall n :: !IsVisited(t, n) {
          assert forall n :: n in t.visited <==> IsVisited(t, n);
          assert forall n :: n in t.visited <==> n in {};
        }
      }
      |t.visited|
  }

  predicate IsVisited(t: Tracker, n: Node) {
    n in t.visited
  }

  function MaxFrontier(t: Tracker): nat {
    t.maxFrontier
  }

  /** `path()`: nothing before any success; otherwise the parent chain of
      the solution, oldest ancestor first, which begins at a node without a
      parent unless the parent map is cyclic. */
  function Path(t: Tracker): (r: Option<seq<Node>>)
    ensures r.None? <==> t.solution.None?
    ensures r.Some? ==> |r.value| > 0 && Last(r.value) == t.solution.value && FollowsParents(t.parents, r.value)
    ensures r.Some? ==> r.value[0] !in t.parents || r.value[0] in r.value[1..]
  {
    Reconstruct(t.parents, t.solution)
  }
}
