/** What holds of an A* run between two turns of its outer loop, and why
    each turn keeps it. */
module AStarTrace {
  import opened Optional
  import opened Graphs
  import opened HeapElements
  import opened Parents
  import opened Relaxation

  /** The bookkeeping only the proof needs: when each distance was last set
      (`stamp`, against the counter `clock`), the nodes already expanded, the
      frontier size after each expansion, and the entries popped and
      expanded so far. */
  datatype Book = Book(stamp: map<Node, nat>, clock: nat, expanded: set<Node>, sizes: seq<nat>, closed: set<HeapElement>)

  /** Every recorded distance belongs to a reachable node and is not
      negative; the root's is 0. */
  ghost predicate Sound(g: Graph, root: Node, dist: map<Node, int>) {
    && root in dist && dist[root] == 0
    && forall v :: v in dist ==> dist[v] >= 0 && v in Universe(g, root) && Reachable(g, root, v)
  }

  function Nat(x: int): nat {
    if x < 0 then 0 else x
  }

  /** A node ranks by its distance, ties broken by when it was last set. */
  ghost function Ranks(dist: map<Node, int>, stamp: map<Node, nat>): map<Node, Rank> {
    map v | v in dist && v in stamp :: Rank(Nat(dist[v]), stamp[v])
  }

  /** Every node but the root has a parent, the parent link is an edge, the
      child's distance is at least its parent's plus that edge, and the links
      form a tree rooted at `root`. */
  ghost predicate Linked(g: Graph, root: Node, dist: map<Node, int>, parents: map<Node, Node>, b: Book) {
    && parents.Keys == dist.Keys - {root}
    && b.stamp.Keys == dist.Keys
    && (forall v :: v in b.stamp ==> b.stamp[v] < b.clock)
    && (forall c :: c in parents ==> parents[c] in dist && dist[c] >= dist[parents[c]] + EdgeWeight(g, parents[c], c))
    && Forest(g, root, parents, Ranks(dist, b.stamp))
  }

  /** Every node with a distance waits on the frontier or has been
      expanded; an expanded node is no goal and all its children have
      distances. */
  ghost predicate Covered(g: Graph, dist: map<Node, int>, heap: seq<HeapElement>, b: Book) {
    && (forall e :: e in heap ==> e.node in dist)
    && b.expanded <= dist.Keys
    && (forall v :: v in dist ==> v in HeapNodes(heap) || v in b.expanded)
    && (forall x :: x in b.expanded ==> !IsGoal(g, x) && forall c :: c in Children(g, x) ==> c in dist)
  }

  /** In the stateless run an entry's key is never below its node's
      distance. */
  ghost predicate Settled(variant: Variant, dist: map<Node, int>, heap: seq<HeapElement>) {
    variant == Stateless ==> forall e :: e in heap ==> e.node in dist && e.cost >= dist[e.node]
  }

  ghost predicate Inv(g: Graph, root: Node, variant: Variant, dist: map<Node, int>, parents: map<Node, Node>, heap: seq<HeapElement>,
                      maxFrontier: nat, b: Book)
  {
    && Sound(g, root, dist)
    && Linked(g, root, dist, parents, b)
    && Covered(g, dist, heap, b)
    && Settled(variant, dist, heap)
    && Peak(maxFrontier, b.sizes)
    && (IsGoal(g, root) ==> heap == [New(root, 0)])
  }

  /** In the stateless run every recorded distance still waits on the
      frontier as an entry keyed by it, or such an entry was popped already;
      and every popped entry was a non-goal whose children all have
      distances within its key plus the edge. */
  ghost predicate Closed(g: Graph, variant: Variant, dist: map<Node, int>, heap: seq<HeapElement>, b: Book) {
    variant == Stateless ==>
      && (forall v :: v in dist ==> New(v, dist[v]) in heap || New(v, dist[v]) in b.closed)
      && (forall x :: x in b.closed ==>
            && !IsGoal(g, x.node)
            && forall c :: c in Children(g, x.node) ==> c in dist && dist[c] <= x.cost + EdgeWeight(g, x.node, c))
  }

  /** `v` has a distance, and it is no greater than the cost of any path
      from `root` to any goal. */
  ghost predicate Cheapest(g: Graph, root: Node, v: Node, dist: map<Node, int>) {
    v in dist && forall p :: PathFrom(g, root, p) && IsGoal(g, Last(p)) ==> dist[v] <= PathCost(g, p)
  }

  /** Along any path from the root, the first `i + 1` nodes either cost at
      least some frontier key, or end at a node whose distance is within
      their cost. */
  lemma {:induction false} Along(g: Graph, root: Node, dist: map<Node, int>, heap: seq<HeapElement>, b: Book, p: seq<Node>, i: nat)
    requires NonNegativeWeights(g) && Sound(g, root, dist) && Closed(g, Stateless, dist, heap, b)
    requires PathFrom(g, root, p) && i < |p|
    ensures || (exists e :: e in heap && e.cost <= PathCost(g, p[..i + 1]))
            || (p[i] in dist && dist[p[i]] <= PathCost(g, p[..i + 1]))
    decreases i
  {
    if i == 0 {
      PathCostShort(g, p[..1]);
    } else {
      Along(g, root, dist, heap, b, p, i - 1);
      var q := p[..i];
      assert p[..i + 1] == q + [p[i]] && Last(q) == p[i - 1];
      PathCostSnoc(g, q, p[i]);
      WeightNonNegative(g, p[i - 1], p[i]);
      assert p[i] in Children(g, p[i - 1]);
      if p[i - 1] in dist && dist[p[i - 1]] <= PathCost(g, q) {
        var x := New(p[i - 1], dist[p[i - 1]]);
        if x !in heap {
          assert x in b.closed;
        }
      }
    }
  }

  /** In the stateless run, every goal path costs at least some frontier
      key: the goal's own entry waits on the frontier unless something
      cheaper is in the way. */
  lemma FrontierBelow(g: Graph, root: Node, dist: map<Node, int>, heap: seq<HeapElement>, b: Book, p: seq<Node>)
    requires NonNegativeWeights(g) && Sound(g, root, dist) && Closed(g, Stateless, dist, heap, b)
    requires PathFrom(g, root, p) && IsGoal(g, Last(p))
    ensures exists e :: e in heap && e.cost <= PathCost(g, p)
  {
    Along(g, root, dist, heap, b, p, |p| - 1);
    assert p[..|p|] == p;
    var v := Last(p);
    if v in dist && dist[v] <= PathCost(g, p) {
      assert New(v, dist[v]) in heap;
    }
  }

  /** A goal popped as the cheapest entry of a stateless run has a distance
      no greater than any goal path's cost. */
  lemma PoppedCheapest(g: Graph, root: Node, dist: map<Node, int>, heap: seq<HeapElement>, b: Book, top: HeapElement)
    requires NonNegativeWeights(g) && Sound(g, root, dist)
    requires Settled(Stateless, dist, heap) && Closed(g, Stateless, dist, heap, b)
    requires top in heap && forall o :: o in heap ==> top.cost <= o.cost
    ensures Cheapest(g, root, top.node, dist)
  {
    forall p | PathFrom(g, root, p) && IsGoal(g, Last(p))
      ensures dist[top.node] <= PathCost(g, p)
    {
      FrontierBelow(g, root, dist, heap, b, p);
    }
  }

  /** Each unit below a recorded distance; relaxing shrinks this set. */
  ghost function Pairs(dist: map<Node, int>): set<(Node, int)> {
    set v, k | v in dist && 0 <= k < dist[v] :: (v, k)
  }

  function Start(root: Node): Book {
    Book(map[root := 0], 1, {}, [], {})
  }

  lemma StartInv(g: Graph, root: Node, variant: Variant)
    ensures Inv(g, root, variant, map[root := 0], map[], [New(root, 0)], 1, Start(root))
  {
    assert PathFrom(g, root, [root]);
    assert Ranks(map[root := 0], map[root := 0]) == map[root := Rank(0, 0)];
  }

  /** What a finished run leaves: the goal it returns and the path to it, or
      the reachable nodes all given distances and none a goal; and the
      distance and parent facts throughout. */
  ghost predicate Outcome(g: Graph, root: Node, found: Option<Node>, dist: map<Node, int>, parents: map<Node, Node>) {
    && Sound(g, root, dist)
    && parents.Keys == dist.Keys - {root}
    && (forall c :: c in parents ==> parents[c] in dist && c in Children(g, parents[c]) && dist[c] >= dist[parents[c]] + EdgeWeight(g, parents[c], c))
    && (found.Some? ==>
          && IsGoal(g, found.value) && found.value in dist
          && Reconstruct(parents, found).Some?
          && PathFrom(g, root, Reconstruct(parents, found).value)
          && Last(Reconstruct(parents, found).value) == found.value
          && FollowsParents(parents, Reconstruct(parents, found).value))
    && (found.None? ==> dist.Keys == ReachableSet(g, root) && forall v :: v in dist ==> !IsGoal(g, v))
  }

  /** A goal popped from the frontier ends the run with a success. */
  lemma Found(g: Graph, root: Node, variant: Variant, dist: map<Node, int>, parents: map<Node, Node>, heap: seq<HeapElement>,
              maxFrontier: nat, b: Book, u: Node)
    requires Inv(g, root, variant, dist, parents, heap, maxFrontier, b)
    requires u in HeapNodes(heap) && IsGoal(g, u)
    ensures Outcome(g, root, Some(u), dist, parents)
  {
    ReconstructFromRoot(g, root, parents, Ranks(dist, b.stamp), u);
  }

  /** An empty frontier ends the run with a failure. */
  lemma Exhausted(g: Graph, root: Node, variant: Variant, dist: map<Node, int>, parents: map<Node, Node>, maxFrontier: nat, b: Book)
    requires Inv(g, root, variant, dist, parents, [], maxFrontier, b)
    ensures Outcome(g, root, None, dist, parents)
  {
    assert HeapNodes([]) == {};
    assert forall v :: v in dist ==> v in b.expanded;
    forall v | Reachable(g, root, v)
      ensures v in dist
    {
      var p :| PathFrom(g, root, p) && Last(p) == v;
      ClosedHoldsReachable(g, root, dist.Keys, p);
    }
    forall v
      ensures v in dist.Keys <==> v in ReachableSet(g, root)
    {
    }
  }

  /** Walking parent links from the root never costs more than the
      distance recorded for where the walk ends. */
  lemma {:induction false} PathCostWithin(g: Graph, root: Node, dist: map<Node, int>, parents: map<Node, Node>, p: seq<Node>)
    requires root in dist && dist[root] == 0 && parents.Keys <= dist.Keys
    requires forall c :: c in parents ==> parents[c] in dist && dist[c] >= dist[parents[c]] + EdgeWeight(g, parents[c], c)
    requires |p| > 0 && p[0] == root && FollowsParents(parents, p)
    ensures Last(p) in dist && PathCost(g, p) <= dist[Last(p)]
    decreases |p|
  {
    if |p| > 1 {
      var q := p[..|p| - 1];
      assert FollowsParents(parents, q);
      PathCostWithin(g, root, dist, parents, q);
      assert q + [Last(p)] == p;
      PathCostSnoc(g, q, Last(p));
      assert Last(p) in parents && parents[Last(p)] == Last(q);
    }
  }
}
