/** Breadth-first search with a FIFO queue. The graph's own visited marks
    are an explicit set here: `marked` holds the marks present before the
    run, and the run returns the marks present after it. A node is marked
    when it is enqueued, and the goal test happens when it is dequeued. */
module Bfs {
  import opened Optional
  import opened Graphs
  import opened BfsTrace

  /** One dequeue of a non-goal: the front node leaves the queue and its
      unmarked children are marked and enqueued behind the rest. */
  method Expand(g: Graph, root: Node, marked: set<Node>, visited: set<Node>, queue: seq<Node>, ghost t: Trace)
    returns (visited': set<Node>, queue': seq<Node>, ghost t': Trace)
    requires Invariant(g, root, marked, visited, queue, t)
    requires queue != [] && !IsGoal(g, queue[0])
    ensures visited' == visited + Elems(Children(g, queue[0]))
    ensures queue' == queue[1..] + Fresh(Children(g, queue[0]), visited)
    ensures Invariant(g, root, marked, visited', queue', t')
    ensures Universe(g, root) + marked - visited' < Universe(g, root) + marked - visited
      || (visited' == visited && |queue'| < |queue|)
  {
    var added := Fresh(Children(g, queue[0]), visited);
    t' := ExpandFront(g, root, marked, visited, queue, t, added);
    visited' := visited + Elems(added);
    queue' := queue[1..] + added;
    FreshMarksAll(Children(g, queue[0]), visited);
    if added == [] {
      assert Elems(added) == {};
    }
  }

  /** `bfs`: the first goal dequeued, or None once the queue runs dry. */
  method Search(g: Graph, root: Node, marked: set<Node>) returns (r: Option<Node>, visited: set<Node>, ghost enqueued: seq<Node>)
    ensures IsGoal(g, root) ==> r == Some(root)
    ensures r.Some? ==> IsGoal(g, r.value)
    ensures r.Some? ==> exists p :: ShortestGoalPath(g, root, marked, p) && Last(p) == r.value
    ensures r.None? ==> forall p :: ClearPath(g, root, marked, p) ==> !IsGoal(g, Last(p)) && Last(p) in visited
    ensures |enqueued| > 0 && enqueued[0] == root && Distinct(enqueued)
    ensures forall i :: 0 < i < |enqueued| ==> enqueued[i] !in marked
    ensures visited == marked + Elems(enqueued)
    ensures forall v :: v in visited ==> v in marked || Reachable(g, root, v)
  {
    visited := marked + {root};
    var queue := [root];
    ghost var t := Start(root);
    StartInvariant(g, root, marked);
    while queue != []
      invariant Invariant(g, root, marked, visited, queue, t)
      decreases Universe(g, root) + marked - visited, |queue|
    {
      var u := queue[0];
      if IsGoal(g, u) {
        GoalDequeued(g, root, marked, visited, queue, t);
        WitnessesReachable(g, root, marked, visited, queue, t);
        return Some(u), visited, t.enq;
      }
      visited, queue, t := Expand(g, root, marked, visited, queue, t);
    }
    QueueExhausted(g, root, marked, visited, t);
    WitnessesReachable(g, root, marked, visited, queue, t);
    return None, visited, t.enq;
  }
}
