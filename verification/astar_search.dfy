/** The outer loop of an A* run: pop the cheapest frontier entry, stop if
    it is a goal, and otherwise relax the edges out of it. */
module AStarSearch {
  import opened Optional
  import opened Graphs
  import opened HeapElements
  import opened Relaxation
  import opened AStarTrace
  import opened AStarStep

  /** One turn of the outer loop, on a non-empty frontier. */
  method Step(g: Graph, root: Node, variant: Variant, dist: map<Node, int>, parents: map<Node, Node>, heap: seq<HeapElement>,
              maxFrontier: nat, ghost b: Book)
    returns (found: Option<Node>, dist': map<Node, int>, parents': map<Node, Node>, heap': seq<HeapElement>, maxFrontier': nat, ghost b': Book)
    requires NonNegativeWeights(g)
    requires Inv(g, root, variant, dist, parents, heap, maxFrontier, b)
    requires Closed(g, variant, dist, heap, b)
    requires heap != []
    ensures found.Some? ==> Outcome(g, root, found, dist', parents') && maxFrontier' == maxFrontier && b'.sizes == b.sizes
    ensures found.Some? && variant == Stateless ==> Cheapest(g, root, found.value, dist')
    ensures IsGoal(g, root) ==> found == Some(root)
    ensures found.None? ==> Inv(g, root, variant, dist', parents', heap', maxFrontier', b') && Closed(g, variant, dist', heap', b')
    ensures found.None? ==> Progress(g, root, dist, heap, dist', heap')
  {
    var top, rest := Pop(heap, Natural);
    assert Popped(heap, top.value, rest);
    var u := top.value.node;
    if IsGoal(g, u) {
      Found(g, root, variant, dist, parents, heap, maxFrontier, b, u);
      if variant == Stateless {
        PoppedCheapest(g, root, dist, heap, b, top.value);
      }
      return Some(u), dist, parents, rest, maxFrontier, b;
    }
    found := None;
    dist', parents', heap', maxFrontier', b' := Expand(g, root, variant, dist, parents, heap, maxFrontier, b, top.value, rest);
  }

  /** The children loop of a popped non-goal entry, with the frontier's
      peak size updated after it. */
  method Expand(g: Graph, root: Node, variant: Variant, dist: map<Node, int>, parents: map<Node, Node>, heap: seq<HeapElement>,
                maxFrontier: nat, ghost b: Book, top: HeapElement, rest: seq<HeapElement>)
    returns (dist': map<Node, int>, parents': map<Node, Node>, heap': seq<HeapElement>, maxFrontier': nat, ghost b': Book)
    requires NonNegativeWeights(g)
    requires Inv(g, root, variant, dist, parents, heap, maxFrontier, b)
    requires Closed(g, variant, dist, heap, b)
    requires Popped(heap, top, rest) && !IsGoal(g, top.node)
    ensures Inv(g, root, variant, dist', parents', heap', maxFrontier', b')
    ensures Closed(g, variant, dist', heap', b')
    ensures Progress(g, root, dist, heap, dist', heap')
  {
    var u := top.node;
    assert u in dist;
    var base := if variant == Tracked then dist[u] else top.cost;
    ghost var changed;
    dist', parents', heap', changed := RelaxChildren(g, variant, u, base, dist, parents, rest);
    maxFrontier' := if |heap'| > maxFrontier then |heap'| else maxFrontier;
    b' := Expanded(g, root, variant, dist, parents, heap, maxFrontier, b, top, rest, base, dist', parents', changed, heap');
    if variant == Stateless {
      ClosedStep(g, u, dist, parents, heap, b, top, rest, dist', parents', changed, heap', b');
    }
  }

  /** A whole run from `root`, starting from a single distance of 0. */
  method Run(g: Graph, root: Node, variant: Variant) returns (found: Option<Node>, dist: map<Node, int>, parents: map<Node, Node>, maxFrontier: nat, ghost sizes: seq<nat>)
    requires NonNegativeWeights(g)
    ensures Outcome(g, root, found, dist, parents)
    ensures found.Some? && variant == Stateless ==> Cheapest(g, root, found.value, dist)
    ensures IsGoal(g, root) ==> found == Some(root)
    ensures Peak(maxFrontier, sizes)
  {
    dist, parents, maxFrontier := map[root := 0], map[], 1;
    var heap := [New(root, 0)];
    ghost var b := Start(root);
    StartInv(g, root, variant);
    while heap != []
      invariant Inv(g, root, variant, dist, parents, heap, maxFrontier, b)
      invariant Closed(g, variant, dist, heap, b)
      decreases Universe(g, root) - dist.Keys, Pairs(dist), |heap|
    {
      var f;
      ghost var b';
      f, dist, parents, heap, maxFrontier, b' := Step(g, root, variant, dist, parents, heap, maxFrontier, b);
      if f.Some? {
        return f, dist, parents, maxFrontier, b'.sizes;
      }
      b := b';
    }
    Exhausted(g, root, variant, dist, parents, maxFrontier, b);
    return None, dist, parents, maxFrontier, b.sizes;
  }
}
