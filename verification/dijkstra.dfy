/** Dijkstra's searcher as the crate writes it: the frontier is keyed by
    the weight of the last edge only and pops the cheapest entry, children
    are goal-tested when discovered, and a goal child is given its parent
    before the run returns. */
module Dijkstra {
  import opened Optional
  import opened Graphs
  import opened HeapElements
  import opened Parents
  import opened Discovery
  import opened DiscoveryTrace
  import opened DiscoverySearch
  import opened Tracking

  const Keys := Policy(LastEdge, Natural, true)

  /** `search_tracked`: a run from `root` that replaces the last run's
      bookkeeping. `pushed` lists the frontier pushes in order and `sizes`
      the frontier size after each expansion. */
  method SearchTracked(t: Tracker, g: Graph, root: Node) returns (r: Option<Node>, t': Tracker, ghost pushed: seq<Node>, ghost sizes: seq<nat>)
    ensures r.Some? <==> exists v :: v != root && Reachable(g, root, v) && IsGoal(g, v)
    ensures r.Some? ==> IsGoal(g, r.value) && r.value != root && Reachable(g, root, r.value) && !IsVisited(t', r.value)
    ensures t'.solution == if r.Some? then r else t.solution
    ensures r.Some? ==> Path(t').Some? && PathFrom(g, root, Path(t').value) && Last(Path(t').value) == r.value
    ensures r.Some? ==> FollowsParents(t'.parents, Path(t').value)
    ensures t'.parents.Keys == t'.visited - {root} + (if r.Some? then {r.value} else {})
    ensures forall c :: c in t'.parents ==> c in Children(g, t'.parents[c])
    ensures IsVisited(t', root)
    ensures forall v :: IsVisited(t', v) ==> Reachable(g, root, v) && (v == root || !IsGoal(g, v))
    ensures r.None? ==> (forall v :: IsVisited(t', v) <==> Reachable(g, root, v)) && NodesVisited(t') == |ReachableSet(g, root)|
    ensures |pushed| > 0 && pushed[0] == root && Distinct(pushed) && t'.visited == Elems(pushed)
    ensures Peak(MaxFrontier(t'), sizes)
  {
    var found, visited, parents, maxFrontier;
    found, visited, parents, maxFrontier, pushed, sizes := Run(g, root, Keys);
    ReportedIff(g, root, found, visited, pushed);
    r := found;
    t' := Tracker(visited, parents, maxFrontier, if found.Some? then found else t.solution);
  }

  /** `search`: the same run without bookkeeping. */
  method Search(g: Graph, root: Node) returns (r: Option<Node>)
    ensures r.Some? <==> exists v :: v != root && Reachable(g, root, v) && IsGoal(g, v)
    ensures r.Some? ==> IsGoal(g, r.value) && r.value != root && Reachable(g, root, r.value)
  {
    var visited, parents, maxFrontier;
    ghost var pushed, sizes;
    r, visited, parents, maxFrontier, pushed, sizes := Run(g, root, Keys);
    ReportedIff(g, root, r, visited, pushed);
  }

  /** `search_tracked` with `solution` cleared along with the rest of the
      bookkeeping, so that `path()` describes the last run alone. */
  method SearchTrackedReset(t: Tracker, g: Graph, root: Node) returns (r: Option<Node>, t': Tracker)
    ensures r.Some? <==> exists v :: v != root && Reachable(g, root, v) && IsGoal(g, v)
    ensures t'.solution == r
    ensures Path(t').Some? <==> r.Some?
    ensures r.Some? ==> PathFrom(g, root, Path(t').value) && Last(Path(t').value) == r.value
    ensures r.Some? ==> FollowsParents(t'.parents, Path(t').value)
  {
    var found, visited, parents, maxFrontier;
    ghost var pushed, sizes;
    found, visited, parents, maxFrontier, pushed, sizes := Run(g, root, Keys);
    ReportedIff(g, root, found, visited, pushed);
    r := found;
    t' := Tracker(visited, parents, maxFrontier, found);
  }
}
