/** The outer loop of a discovery-time run: pop the best frontier entry,
    scan its children, stop at the first fresh goal, and otherwise record
    the frontier's size. */
module DiscoverySearch {
  import opened Optional
  import opened Graphs
  import opened HeapElements
  import opened Parents
  import opened Discovery
  import opened DiscoveryTrace

  /** One turn of the outer loop, on a non-empty frontier. */
  method Step(g: Graph, root: Node, policy: Policy, visited: set<Node>, parents: map<Node, Node>, heap: seq<HeapElement>, maxFrontier: nat, ghost t: Trace)
    returns (found: Option<Node>, visited': set<Node>, parents': map<Node, Node>, heap': seq<HeapElement>, maxFrontier': nat, ghost t': Trace)
    requires Inv(g, root, visited, parents, heap, maxFrontier, t)
    requires heap != []
    ensures found.Some? ==> Reported(g, root, found, visited', t'.pushed) && Recorded(g, root, policy, found, visited', parents')
    ensures found.Some? ==> maxFrontier' == maxFrontier && t'.sizes == t.sizes
    ensures found.None? ==> Inv(g, root, visited', parents', heap', maxFrontier', t')
    ensures found.None? ==> Universe(g, root) - visited' < Universe(g, root) - visited || (visited' == visited && |heap'| < |heap|)
  {
    var top, rest := Pop(heap, policy.order);
    var u := top.value.node;
    found, visited', parents', heap' := Scan(g, policy, u, visited, parents, rest);
    if found.Some? {
      assert u in HeapNodes(heap);
      ghost var pushed := Found(g, root, policy, visited, parents, heap, maxFrontier, t, u);
      maxFrontier', t' := maxFrontier, t.(pushed := pushed);
      return;
    }
    maxFrontier' := if |heap'| > maxFrontier then |heap'| else maxFrontier;
    t' := Expanded(g, root, policy, visited, parents, heap, maxFrontier, t, top.value, rest);
    if Admitted(g, u, visited) == [] {
      assert Elems(Admitted(g, u, visited)) == {};
    }
  }

  /** A whole run from `root`, starting from empty bookkeeping. */
  method Run(g: Graph, root: Node, policy: Policy)
    returns (found: Option<Node>, visited: set<Node>, parents: map<Node, Node>, maxFrontier: nat, ghost pushed: seq<Node>, ghost sizes: seq<nat>)
    ensures Reported(g, root, found, visited, pushed)
    ensures Recorded(g, root, policy, found, visited, parents)
    ensures Peak(maxFrontier, sizes)
  {
    visited, parents, maxFrontier := {root}, map[], 1;
    var heap := [New(root, 0)];
    ghost var t := Start(root);
    StartInv(g, root);
    while heap != []
      invariant Inv(g, root, visited, parents, heap, maxFrontier, t)
      decreases Universe(g, root) - visited, |heap|
    {
      var f;
      ghost var t';
      f, visited, parents, heap, maxFrontier, t' := Step(g, root, policy, visited, parents, heap, maxFrontier, t);
      if f.Some? {
        return f, visited, parents, maxFrontier, t'.pushed, t'.sizes;
      }
      t := t';
    }
    Exhausted(g, root, policy, visited, parents, maxFrontier, t);
    return None, visited, parents, maxFrontier, t.pushed, t.sizes;
  }
}
