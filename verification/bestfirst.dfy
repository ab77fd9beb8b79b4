/** Greedy best-first search as the crate writes it: the frontier is keyed
    by the child's heuristic, the goal child is returned before it is marked
    or given a parent, and the tracked run's frontier wraps the already
    reversed heap element in a second reversal, so it pops the LARGEST
    heuristic while the stateless run pops the smallest. */
module BestFirst {
  import opened Optional
  import opened Graphs
  import opened HeapElements
  import opened Parents
  import opened Discovery
  import opened DiscoveryTrace
  import opened DiscoverySearch
  import opened Tracking

  /** The tracked run's frontier: heuristic keys, dearest first. */
  const TrackedKeys := Policy(Estimate, Reversed, false)

  /** The stateless run's frontier: heuristic keys, cheapest first. */
  const Keys := Policy(Estimate, Natural, false)

  /** `search_tracked`: a run from `root` that replaces the last run's
      bookkeeping. A success leaves the goal unmarked and parentless, so
      `path()` is the goal alone. */
  method SearchTracked(t: Tracker, g: Graph, root: Node) returns (r: Option<Node>, t': Tracker, ghost pushed: seq<Node>, ghost sizes: seq<nat>)
    ensures r.Some? <==> exists v :: v != root && Reachable(g, root, v) && IsGoal(g, v)
    ensures r.Some? ==> IsGoal(g, r.value) && r.value != root && Reachable(g, root, r.value) && !IsVisited(t', r.value)
    ensures t'.solution == if r.Some? then r else t.solution
    ensures r.Some? ==> Path(t') == Some([r.value])
    ensures t'.parents.Keys == t'.visited - {root}
    ensures forall c :: c in t'.parents ==> c in Children(g, t'.parents[c])
    ensures IsVisited(t', root)
    ensures forall v :: IsVisited(t', v) ==> Reachable(g, root, v) && (v == root || !IsGoal(g, v))
    ensures r.None? ==> (forall v :: IsVisited(t', v) <==> Reachable(g, root, v)) && NodesVisited(t') == |ReachableSet(g, root)|
    ensures |pushed| > 0 && pushed[0] == root && Distinct(pushed) && t'.visited == Elems(pushed)
    ensures Peak(MaxFrontier(t'), sizes)
  {
    var found, visited, parents, maxFrontier;
    found, visited, parents, maxFrontier, pushed, sizes := Run(g, root, TrackedKeys);
    ReportedIff(g, root, found, visited, pushed);
    r := found;
    t' := Tracker(visited, parents, maxFrontier, if found.Some? then found else t.solution);
  }

  /** `search`: the stateless run, on a cheapest-first frontier. */
  method Search(g: Graph, root: Node) returns (r: Option<Node>)
    ensures r.Some? <==> exists v :: v != root && Reachable(g, root, v) && IsGoal(g, v)
    ensures r.Some? ==> IsGoal(g, r.value) && r.value != root && Reachable(g, root, r.value)
  {
    var visited, parents, maxFrontier;
    ghost var pushed, sizes;
    r, visited, parents, maxFrontier, pushed, sizes := Run(g, root, Keys);
    ReportedIff(g, root, r, visited, pushed);
  }

  // ---------------------------------------------------------------------
  // The tracked run as evidently intended
  // ---------------------------------------------------------------------

  /** Two entries with heuristics 1 and 5: the tracked frontier hands out
      the one with heuristic 5 first. */
  method TrackedPopsDearest() returns (top: Option<HeapElement>)
    ensures top == Some(HeapElements.New(2, 5))
  {
    var rest;
    top, rest := Pop([HeapElements.New(1, 1), HeapElements.New(2, 5)], TrackedKeys.order);
  }

  /** The intended tracked frontier: heuristic keys, cheapest first, as in
      the stateless run; and the goal child recorded with its parent, so
      that `path()` leads from the root. */
  const IntendedKeys := Policy(Estimate, Natural, true)

  /** Under the intended order the same two entries come out cheapest first. */
  method IntendedPopsCheapest() returns (top: Option<HeapElement>)
    ensures top == Some(HeapElements.New(1, 1))
  {
    var rest;
    top, rest := Pop([HeapElements.New(1, 1), HeapElements.New(2, 5)], IntendedKeys.order);
  }

  /** `search_tracked` with the intended frontier and parent bookkeeping:
      after a success `path()` runs from the root to the goal. */
  method SearchTrackedIntended(t: Tracker, g: Graph, root: Node) returns (r: Option<Node>, t': Tracker, ghost sizes: seq<nat>)
    ensures r.Some? <==> exists v :: v != root && Reachable(g, root, v) && IsGoal(g, v)
    ensures r.Some? ==> IsGoal(g, r.value) && r.value != root && Reachable(g, root, r.value)
    ensures t'.solution == if r.Some? then r else t.solution
    ensures r.Some? ==> Path(t').Some? && PathFrom(g, root, Path(t').value) && Last(Path(t').value) == r.value
    ensures r.Some? ==> FollowsParents(t'.parents, Path(t').value)
    ensures forall c :: c in t'.parents ==> c in Children(g, t'.parents[c])
    ensures Peak(MaxFrontier(t'), sizes)
  {
    var found, visited, parents, maxFrontier;
    ghost var pushed;
    found, visited, parents, maxFrontier, pushed, sizes := Run(g, root, IntendedKeys);
    ReportedIff(g, root, found, visited, pushed);
    r := found;
    t' := Tracker(visited, parents, maxFrontier, if found.Some? then found else t.solution);
  }
}
