/** The example graph every test uses: a list of nodes in insertion order,
    a list of directed edges in insertion order, and the id of the single
    goal. Every edge weighs 1 and every node's heuristic is 1. */
module ExampleGraphs {
  import Graphs

  datatype ExampleNode = ExampleNode(id: nat)

  datatype ExampleEdge = ExampleEdge(fromId: nat, toId: nat)

  datatype ExampleGraph = ExampleGraph(nodes: seq<ExampleNode>, edges: seq<ExampleEdge>, goalId: nat)

  // ---------------------------------------------------------------------
  // Building a graph
  // ---------------------------------------------------------------------

  /** `new()`: no nodes, no edges, goal id 0, so no node has a child or an
      outgoing edge and only the node with id 0 is the goal. */
  function Empty(): (r: ExampleGraph)
    ensures forall n :: Children(r, n) == [] && Edges(r, n) == []
    ensures forall n :: IsGoal(r, n) <==> n == ExampleNode(0)
  {
    ExampleGraph([], [], 0)
  }

  function Add(eg: ExampleGraph, n: ExampleNode): (r: ExampleGraph)
    ensures r.nodes == eg.nodes + [n] && r.edges == eg.edges && r.goalId == eg.goalId
  {
    eg.(nodes := eg.nodes + [n])
  }

  function AddEdge(eg: ExampleGraph, e: ExampleEdge): (r: ExampleGraph)
    ensures r.edges == eg.edges + [e] && r.nodes == eg.nodes && r.goalId == eg.goalId
  {
    eg.(edges := eg.edges + [e])
  }

  function SetGoal(eg: ExampleGraph, n: ExampleNode): (r: ExampleGraph)
    ensures forall m :: IsGoal(r, m) <==> m == n
    ensures r.nodes == eg.nodes && r.edges == eg.edges
  {
    eg.(goalId := n.id)
  }

  // ---------------------------------------------------------------------
  // The Graph, WeightedGraph and HeuristicGraph capabilities
  // ---------------------------------------------------------------------

  function Root(): ExampleNode {
    ExampleNode(8)
  }

  /** Whether some edge runs from `from` to `to` (the `any` over the edge
      list). */
  predicate HasEdge(edges: seq<ExampleEdge>, from: nat, to: nat) {
    ExampleEdge(from, to) in edges
  }

  /** `r` keeps some of the elements of `s`, in their order in `s`. */
  predicate SubsequenceOf<T(==)>(r: seq<T>, s: seq<T>)
    decreases |s|
  {
    if r == [] then true
    else if s == [] then false
    else if r[0] == s[0] then SubsequenceOf(r[1..], s[1..])
    else SubsequenceOf(r, s[1..])
  }

  /** `children(n)`: the filter over the node list, with the `any` over the
      edge list, keeps exactly the nodes an edge from `n` leads to, in the
      order they were added. */
  function Children(eg: ExampleGraph, node: ExampleNode): (r: seq<ExampleNode>)
    ensures forall x :: x in r <==> x in eg.nodes && ExampleEdge(node.id, x.id) in eg.edges
    ensures SubsequenceOf(r, eg.nodes)
  {
    ChildrenFromSpec(eg.nodes, eg.edges, node, 0);
    assert eg.nodes[0..] == eg.nodes;
    ChildrenFrom(eg.nodes, eg.edges, node, 0)
  }

  /** The filter's output from position `i` of the node list on. */
  function ChildrenFrom(nodes: seq<ExampleNode>, edges: seq<ExampleEdge>, node: ExampleNode, i: nat): seq<ExampleNode>
    decreases |nodes| - i
  {
    if i >= |nodes| then []
    else if HasEdge(edges, node.id, nodes[i].id) then [nodes[i]] + ChildrenFrom(nodes, edges, node, i + 1)
    else ChildrenFrom(nodes, edges, node, i + 1)
  }

  lemma {:induction false} ChildrenFromSpec(nodes: seq<ExampleNode>, edges: seq<ExampleEdge>, node: ExampleNode, i: nat)
    requires i <= |nodes|
    ensures forall x :: x in ChildrenFrom(nodes, edges, node, i) <==> x in nodes[i..] && ExampleEdge(node.id, x.id) in edges
    ensures SubsequenceOf(ChildrenFrom(nodes, edges, node, i), nodes[i..])
    decreases |nodes| - i
  {
    if i < |nodes| {
      ChildrenFromSpec(nodes, edges, node, i + 1);
      var s := nodes[i..];
      assert s == [nodes[i]] + nodes[i + 1..] && s[1..] == nodes[i + 1..];
      var r := ChildrenFrom(nodes, edges, node, i);
      if HasEdge(edges, node.id, nodes[i].id) {
        assert r[1..] == ChildrenFrom(nodes, edges, node, i + 1);
      } else {
        SubsequenceSkip(r, s);
      }
    }
  }

  /** A node that no edge leaves has no children. */
  lemma {:induction false} ChildlessWithoutEdges(nodes: seq<ExampleNode>, edges: seq<ExampleEdge>, node: ExampleNode, i: nat)
    requires forall e :: e in edges ==> e.fromId != node.id
    ensures ChildrenFrom(nodes, edges, node, i) == []
    decreases |nodes| - i
  {
    if i < |nodes| {
      ChildlessWithoutEdges(nodes, edges, node, i + 1);
    }
  }

  /** A subsequence of the tail is a subsequence of the whole. */
  lemma {:induction false} SubsequenceSkip<T>(r: seq<T>, s: seq<T>)
    requires s != [] && SubsequenceOf(r, s[1..])
    ensures SubsequenceOf(r, s)
    decreases |s|, 0
  {
    if r != [] && r[0] == s[0] {
      SubsequenceTail(r, s[1..]);
    }
  }

  /** Dropping the first element keeps a subsequence a subsequence. */
  lemma {:induction false} SubsequenceTail<T>(r: seq<T>, s: seq<T>)
    requires r != [] && SubsequenceOf(r, s)
    ensures SubsequenceOf(r[1..], s)
    decreases |s|, 1
  {
    if r[0] != s[0] {
      SubsequenceTail(r, s[1..]);
    }
    if r[1..] != [] {
      SubsequenceSkip(r[1..], s);
    }
  }

  /** `edges(n)` keeps exactly the edges whose tail is `n`, in the order
      they were added. */
  function Edges(eg: ExampleGraph, node: ExampleNode): (r: seq<ExampleEdge>)
    ensures forall e :: e in r <==> e in eg.edges && e.fromId == node.id
    ensures SubsequenceOf(r, eg.edges)
  {
    EdgesSpec(eg.edges, node);
    EdgesAmong(eg.edges, node)
  }

  function EdgesAmong(edges: seq<ExampleEdge>, node: ExampleNode): seq<ExampleEdge>
    decreases |edges|
  {
    if edges == [] then []
    else if edges[0].fromId == node.id then [edges[0]] + EdgesAmong(edges[1..], node)
    else EdgesAmong(edges[1..], node)
  }

  lemma {:induction false} EdgesSpec(edges: seq<ExampleEdge>, node: ExampleNode)
    ensures forall e :: e in EdgesAmong(edges, node) <==> e in edges && e.fromId == node.id
    ensures SubsequenceOf(EdgesAmong(edges, node), edges)
    decreases |edges|
  {
    if edges != [] {
      EdgesSpec(edges[1..], node);
      assert edges == [edges[0]] + edges[1..];
      var r := EdgesAmong(edges, node);
      if edges[0].fromId == node.id {
        assert r[1..] == EdgesAmong(edges[1..], node);
      } else {
        SubsequenceSkip(r, edges);
      }
    }
  }

  predicate IsGoal(eg: ExampleGraph, node: ExampleNode) {
    node.id == eg.goalId
  }

  /** `is_goal` compares ids only, so exactly one node is the goal. */
  lemma SingleGoal(eg: ExampleGraph)
    ensures IsGoal(eg, ExampleNode(eg.goalId))
    ensures forall m, n :: IsGoal(eg, m) && IsGoal(eg, n) ==> m == n
  {
  }

  function EdgeWeight(eg: ExampleGraph, from: ExampleNode, to: ExampleNode): int {
    1
  }

  function Heuristic(eg: ExampleGraph, node: ExampleNode): int {
    1
  }

  // ---------------------------------------------------------------------
  // The fixture, and the same graph over integer node ids
  // ---------------------------------------------------------------------

  /** `get_example_graph()`: the binary search tree 8 -> {3, 10},
      3 -> {1, 6}, 6 -> {4, 7}, 10 -> {14}, 14 -> {13}, with goal 7. */
  function Fixture(): ExampleGraph {
    var g := Empty();
    var g := Add(g, ExampleNode(8));
    var g := Add(g, ExampleNode(3));
    var g := Add(g, ExampleNode(10));
    var g := Add(g, ExampleNode(1));
    var g := Add(g, ExampleNode(6));
    var g := Add(g, ExampleNode(14));
    var g := Add(g, ExampleNode(4));
    var g := Add(g, ExampleNode(7));
    var g := Add(g, ExampleNode(13));
    var g := AddEdge(g, ExampleEdge(8, 3));
    var g := AddEdge(g, ExampleEdge(8, 10));
    var g := AddEdge(g, ExampleEdge(3, 1));
    var g := AddEdge(g, ExampleEdge(3, 6));
    var g := AddEdge(g, ExampleEdge(10, 14));
    var g := AddEdge(g, ExampleEdge(6, 4));
    var g := AddEdge(g, ExampleEdge(6, 7));
    var g := AddEdge(g, ExampleEdge(14, 13));
    SetGoal(g, ExampleNode(7))
  }

  function Ids(ns: seq<ExampleNode>): (r: seq<Graphs.Node>)
    ensures |r| == |ns| && forall i :: 0 <= i < |ns| ==> r[i] == ns[i].id
  {
    seq(|ns|, i requires 0 <= i < |ns| => ns[i].id)
  }
}
