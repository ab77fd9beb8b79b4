/** The capability surface a problem exposes to the searchers: adjacency,
    a goal test, integer edge weights and an integer heuristic, plus the
    derived cost of a path and the vocabulary of paths and reachability
    that the searchers' contracts are stated in. */
module Graphs {

  /** Nodes are opaque identities; only equality is used. */
  type Node = int

  /** A finite graph. A node absent from `adj` has no children. */
  datatype Graph = Graph(
    adj: map<Node, seq<Node>>,
    goal: Node -> bool,
    weight: (Node, Node) -> int,
    heuristic: Node -> int)

  /** Outgoing adjacency, in the order the graph lists it. */
  function Children(g: Graph, n: Node): seq<Node> {
    if n in g.adj then g.adj[n] else []
  }

  predicate IsGoal(g: Graph, n: Node) {
    g.goal(n)
  }

  function EdgeWeight(g: Graph, from: Node, to: Node): int {
    g.weight(from, to)
  }

  function Heuristic(g: Graph, n: Node): int {
    g.heuristic(n)
  }

  /** Every node the adjacency map mentions, as a key or as a child. */
  function Nodes(g: Graph): set<Node> {
    g.adj.Keys + set n, c | n in g.adj && c in g.adj[n] :: c
  }

  /** The nodes a search from `root` can ever touch. */
  function Universe(g: Graph, root: Node): set<Node> {
    Nodes(g) + {root}
  }

  lemma ChildInNodes(g: Graph, n: Node, c: Node)
    requires c in Children(g, n)
    ensures c in Nodes(g)
  {
  }

  ghost predicate NonNegativeWeights(g: Graph) {
    forall a, b :: g.weight(a, b) >= 0
  }

  lemma WeightNonNegative(g: Graph, a: Node, b: Node)
    requires NonNegativeWeights(g)
    ensures EdgeWeight(g, a, b) >= 0
  {
  }

  predicate Distinct(s: seq<Node>) {
    forall i, j :: 0 <= i < j < |s| ==> s[i] != s[j]
  }

  /** The members of a sequence, as a set. */
  function Elems(s: seq<Node>): set<Node> {
    set x | x in s
  }

  function Last(p: seq<Node>): Node
    requires |p| > 0
  {
    p[|p| - 1]
  }

  /** What a search's children loop admits: the children not yet visited,
      each once, in adjacency order (a child listed twice is admitted at its
      first occurrence, which marks it). */
  function Fresh(kids: seq<Node>, visited: set<Node>): (r: seq<Node>)
    ensures forall x :: x in r <==> x in kids && x !in visited
    ensures Distinct(r)
    decreases |kids|
  {
    if kids == [] then []
    else if kids[0] in visited then Fresh(kids[1..], visited)
    else [kids[0]] + Fresh(kids[1..], visited + {kids[0]})
  }

  /** Marking what `Fresh` returns marks every child. */
  lemma FreshMarksAll(kids: seq<Node>, visited: set<Node>)
    ensures visited + Elems(Fresh(kids, visited)) == visited + Elems(kids)
  {
  }

  /** Admitting two runs of children one after the other: the second run
      sees the first run's children as already visited. */
  lemma {:induction false} FreshAppend(a: seq<Node>, b: seq<Node>, visited: set<Node>)
    ensures Fresh(a + b, visited) == Fresh(a, visited) + Fresh(b, visited + Elems(a))
    decreases |a|
  {
    if a == [] {
      assert a + b == b && visited + Elems(a) == visited;
    } else {
      var k, rest := a[0], a[1..];
      assert a + b == [k] + (rest + b);
      assert Elems(a) == {k} + Elems(rest);
      if k in visited {
        FreshAppend(rest, b, visited);
        assert visited + Elems(rest) == visited + Elems(a);
      } else {
        FreshAppend(rest, b, visited + {k});
        assert visited + {k} + Elems(rest) == visited + Elems(a);
        calc {
          Fresh(a + b, visited);
          [k] + Fresh(rest + b, visited + {k});
          [k] + (Fresh(rest, visited + {k}) + Fresh(b, visited + Elems(a)));
          ([k] + Fresh(rest, visited + {k})) + Fresh(b, visited + Elems(a));
        }
      }
    }
  }

  /** One more child in a children loop: it is admitted exactly when the
      marks made so far do not hold it. */
  lemma FreshStep(kids: seq<Node>, i: nat, visited: set<Node>)
    requires i < |kids|
    ensures Fresh(kids[..i + 1], visited) == Fresh(kids[..i], visited)
      + (if kids[i] in visited + Elems(Fresh(kids[..i], visited)) then [] else [kids[i]])
  {
    assert kids[..i + 1] == kids[..i] + [kids[i]];
    FreshAppend(kids[..i], [kids[i]], visited);
    FreshMarksAll(kids[..i], visited);
    assert Fresh([kids[i]], visited + Elems(kids[..i])) == (if kids[i] in visited + Elems(kids[..i]) then [] else [kids[i]]) + Fresh([], visited + Elems(kids[..i]) + {kids[i]});
  }

  /** A non-empty node sequence in which every step follows a real edge. */
  ghost predicate IsPath(g: Graph, p: seq<Node>) {
    |p| > 0 && forall i :: 0 <= i < |p| - 1 ==> p[i + 1] in Children(g, p[i])
  }

  ghost predicate PathFrom(g: Graph, root: Node, p: seq<Node>) {
    IsPath(g, p) && p[0] == root
  }

  ghost predicate Reachable(g: Graph, root: Node, v: Node) {
    exists p :: PathFrom(g, root, p) && Last(p) == v
  }

  /** Every node reachable from `root`, the root included. */
  ghost function ReachableSet(g: Graph, root: Node): (r: set<Node>)
    ensures forall v :: v in r <==> Reachable(g, root, v)
  {
    ReachableInUniverse(g, root);
    set v | v in Universe(g, root) && Reachable(g, root, v)
  }

  lemma ReachableInUniverse(g: Graph, root: Node)
    ensures forall v :: Reachable(g, root, v) ==> v in Universe(g, root)
  {
    forall v | Reachable(g, root, v)
      ensures v in Universe(g, root)
    {
      var p :| PathFrom(g, root, p) && Last(p) == v;
      PathInUniverse(g, root, p);
    }
  }

  /** A node without children reaches itself and nothing else. */
  lemma {:induction false} LeafReachesOnlyItself(g: Graph, n: Node)
    requires Children(g, n) == []
    ensures forall v :: Reachable(g, n, v) <==> v == n
  {
    assert PathFrom(g, n, [n]) && Last([n]) == n;
    forall v | Reachable(g, n, v)
      ensures v == n
    {
      var p :| PathFrom(g, n, p) && Last(p) == v;
      FirstStep(g, p);
    }
  }

  lemma FirstStep(g: Graph, p: seq<Node>)
    requires IsPath(g, p)
    ensures |p| >= 2 ==> p[1] in Children(g, p[0])
  {
  }

  /** No path of the graph visits a node twice. */
  ghost predicate Acyclic(g: Graph) {
    forall p :: IsPath(g, p) ==> Distinct(p)
  }

  lemma PathExtend(g: Graph, root: Node, p: seq<Node>, c: Node)
    requires PathFrom(g, root, p)
    requires c in Children(g, Last(p))
    ensures PathFrom(g, root, p + [c]) && Last(p + [c]) == c
  {
    var q := p + [c];
    forall i | 0 <= i < |q| - 1
      ensures q[i + 1] in Children(g, q[i])
    {
      if i < |p| - 1 {
        assert q[i] == p[i] && q[i + 1] == p[i + 1];
      }
    }
  }

  /** A path can be extended backwards by an edge into its first node. */
  lemma PathCons(g: Graph, n: Node, p: seq<Node>)
    requires IsPath(g, p)
    requires p[0] in Children(g, n)
    ensures PathFrom(g, n, [n] + p) && Last([n] + p) == Last(p)
  {
    var q := [n] + p;
    forall i | 0 <= i < |q| - 1
      ensures q[i + 1] in Children(g, q[i])
    {
      if i > 0 {
        assert q[i] == p[i - 1] && q[i + 1] == p[i];
      }
    }
  }

  lemma PathPrefix(g: Graph, root: Node, p: seq<Node>, k: nat)
    requires PathFrom(g, root, p)
    requires 0 < k <= |p|
    ensures PathFrom(g, root, p[..k])
  {
    var q := p[..k];
    forall i | 0 <= i < |q| - 1
      ensures q[i + 1] in Children(g, q[i])
    {
      assert q[i] == p[i] && q[i + 1] == p[i + 1];
    }
  }

  lemma PathSuffix(g: Graph, p: seq<Node>, k: nat)
    requires IsPath(g, p)
    requires k < |p|
    ensures IsPath(g, p[k..])
  {
    var q := p[k..];
    forall i | 0 <= i < |q| - 1
      ensures q[i + 1] in Children(g, q[i])
    {
      assert q[i] == p[k + i] && q[i + 1] == p[k + i + 1];
    }
  }

  /** A set that holds the root and the children of each of its members
      holds every node reachable from the root. */
  lemma {:induction false} ClosedHoldsReachable(g: Graph, root: Node, s: set<Node>, p: seq<Node>)
    requires root in s
    requires forall v :: v in s ==> forall c :: c in Children(g, v) ==> c in s
    requires PathFrom(g, root, p)
    ensures Last(p) in s
    decreases |p|
  {
    if |p| > 1 {
      PathPrefix(g, root, p, |p| - 1);
      ClosedHoldsReachable(g, root, s, p[..|p| - 1]);
      assert p[|p| - 1] in Children(g, p[|p| - 2]);
    }
  }

  /** A path from the root stays inside the root's universe. */
  lemma {:induction false} PathInUniverse(g: Graph, root: Node, p: seq<Node>)
    requires PathFrom(g, root, p)
    ensures forall i :: 0 <= i < |p| ==> p[i] in Universe(g, root)
  {
    forall i | 0 <= i < |p|
      ensures p[i] in Universe(g, root)
    {
      if i > 0 {
        ChildInNodes(g, p[i - 1], p[i]);
      }
    }
  }

  /** A sequence without repetitions is no longer than the set it ranges over. */
  lemma {:induction false} DistinctLength(s: seq<Node>, u: set<Node>)
    requires Distinct(s)
    requires forall i :: 0 <= i < |s| ==> s[i] in u
    ensures |s| <= |u|
    decreases |s|
  {
    if |s| > 0 {
      var x := s[|s| - 1];
      var t := s[..|s| - 1];
      assert forall i :: 0 <= i < |t| ==> t[i] in u - {x} by {
        forall i | 0 <= i < |t|
          ensures t[i] in u - {x}
        {
          assert t[i] == s[i];
        }
      }
      DistinctLength(t, u - {x});
    }
  }

  // ---------------------------------------------------------------------
  // Path cost (the default `path_cost` of a weighted graph)
  // ---------------------------------------------------------------------

  /** Sum of the weights of consecutive pairs along `p`. */
  function PathCost(g: Graph, p: seq<Node>): int
    decreases |p|
  {
    if |p| < 2 then 0 else EdgeWeight(g, p[0], p[1]) + PathCost(g, p[1..])
  }

  lemma PathCostShort(g: Graph, p: seq<Node>)
    requires |p| <= 1
    ensures PathCost(g, p) == 0
  {
  }

  /** Extending a path by one node adds the weight of the new last edge. */
  lemma {:induction false} PathCostSnoc(g: Graph, p: seq<Node>, x: Node)
    requires |p| > 0
    ensures PathCost(g, p + [x]) == PathCost(g, p) + EdgeWeight(g, Last(p), x)
    decreases |p|
  {
    if |p| == 1 {
      assert (p + [x])[1..] == [x];
    } else {
      assert (p + [x])[1..] == p[1..] + [x];
      PathCostSnoc(g, p[1..], x);
    }
  }

  /** With non-negative weights every path has non-negative cost. */
  lemma {:induction false} PathCostNonNegative(g: Graph, p: seq<Node>)
    requires NonNegativeWeights(g)
    ensures PathCost(g, p) >= 0
    decreases |p|
  {
    if |p| >= 2 {
      PathCostNonNegative(g, p[1..]);
      WeightNonNegative(g, p[0], p[1]);
    }
  }

  /** Two paths joined at a shared node cost the sum of their costs. */
  lemma {:induction false} PathCostJoin(g: Graph, p: seq<Node>, q: seq<Node>)
    requires |p| > 0 && |q| > 0
    requires Last(p) == q[0]
    ensures PathCost(g, p + q[1..]) == PathCost(g, p) + PathCost(g, q)
    decreases |p|
  {
    if |p| == 1 {
      assert p + q[1..] == q;
    } else {
      assert (p + q[1..])[1..] == p[1..] + q[1..];
      PathCostJoin(g, p[1..], q);
    }
  }

  /** With non-negative weights, extending a path never lowers its cost. */
  lemma PathCostMonotone(g: Graph, p: seq<Node>, q: seq<Node>)
    requires NonNegativeWeights(g)
    requires |p| > 0 && |q| > 0 && Last(p) == q[0]
    ensures PathCost(g, p) <= PathCost(g, p + q[1..])
  {
    PathCostJoin(g, p, q);
    PathCostNonNegative(g, q);
  }
}
