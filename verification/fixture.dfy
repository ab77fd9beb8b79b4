/** The example graph as the searchers see it, and what the tests expect of
    each searcher on it. */
module Fixture {
  import opened Optional
  import opened Graphs
  import EG = ExampleGraphs
  import Perft
  import DepthFirst
  import Bfs
  import BfsTrace
  import Tracking
  import Dijkstra
  import BestFirst
  import AStar

  const Nodes: seq<EG.ExampleNode> := [
    EG.ExampleNode(8), EG.ExampleNode(3), EG.ExampleNode(10), EG.ExampleNode(1), EG.ExampleNode(6),
    EG.ExampleNode(14), EG.ExampleNode(4), EG.ExampleNode(7), EG.ExampleNode(13)]

  const Edges: seq<EG.ExampleEdge> := [
    EG.ExampleEdge(8, 3), EG.ExampleEdge(8, 10), EG.ExampleEdge(3, 1), EG.ExampleEdge(3, 6),
    EG.ExampleEdge(10, 14), EG.ExampleEdge(6, 4), EG.ExampleEdge(6, 7), EG.ExampleEdge(14, 13)]

  /** The fixture over integer node ids: the binary search tree with root 8
      and goal 7, every weight and heuristic 1. */
  function G(): Graph {
    Graph(
      map[8 := [3, 10], 3 := [1, 6], 6 := [4, 7], 10 := [14], 14 := [13]],
      (n: Node) => n == 7,
      (a: Node, b: Node) => 1,
      (n: Node) => 1)
  }

  lemma FixtureIsLiteral()
    ensures EG.Fixture() == EG.ExampleGraph(Nodes, Edges, 7)
  {
  }

  /** `children` on the fixture, for each of the five nodes with edges,
      computed one position of the node list at a time. */
  lemma ChildrenOf8()
    ensures EG.ChildrenFrom(Nodes, Edges, EG.ExampleNode(8), 0) == [EG.ExampleNode(3), EG.ExampleNode(10)]
  {
    var x := EG.ExampleNode(8);
    assert EG.ChildrenFrom(Nodes, Edges, x, 9) == [];
    assert EG.ChildrenFrom(Nodes, Edges, x, 8) == [];
    assert EG.ChildrenFrom(Nodes, Edges, x, 7) == [];
    assert EG.ChildrenFrom(Nodes, Edges, x, 6) == [];
    assert EG.ChildrenFrom(Nodes, Edges, x, 5) == [];
    assert EG.ChildrenFrom(Nodes, Edges, x, 4) == [];
    assert EG.ChildrenFrom(Nodes, Edges, x, 3) == [];
    assert EG.ChildrenFrom(Nodes, Edges, x, 2) == [EG.ExampleNode(10)];
    assert EG.ChildrenFrom(Nodes, Edges, x, 1) == [EG.ExampleNode(3), EG.ExampleNode(10)];
  }

  lemma ChildrenOf3()
    ensures EG.ChildrenFrom(Nodes, Edges, EG.ExampleNode(3), 0) == [EG.ExampleNode(1), EG.ExampleNode(6)]
  {
    var x := EG.ExampleNode(3);
    assert EG.ChildrenFrom(Nodes, Edges, x, 9) == [];
    assert EG.ChildrenFrom(Nodes, Edges, x, 8) == [];
    assert EG.ChildrenFrom(Nodes, Edges, x, 7) == [];
    assert EG.ChildrenFrom(Nodes, Edges, x, 6) == [];
    assert EG.ChildrenFrom(Nodes, Edges, x, 5) == [];
    assert EG.ChildrenFrom(Nodes, Edges, x, 4) == [EG.ExampleNode(6)];
    assert EG.ChildrenFrom(Nodes, Edges, x, 3) == [EG.ExampleNode(1), EG.ExampleNode(6)];
    assert EG.ChildrenFrom(Nodes, Edges, x, 2) == [EG.ExampleNode(1), EG.ExampleNode(6)];
    assert EG.ChildrenFrom(Nodes, Edges, x, 1) == [EG.ExampleNode(1), EG.ExampleNode(6)];
  }

  lemma ChildrenOf6()
    ensures EG.ChildrenFrom(Nodes, Edges, EG.ExampleNode(6), 0) == [EG.ExampleNode(4), EG.ExampleNode(7)]
  {
    var x := EG.ExampleNode(6);
    assert EG.ChildrenFrom(Nodes, Edges, x, 9) == [];
    assert EG.ChildrenFrom(Nodes, Edges, x, 8) == [];
    assert EG.ChildrenFrom(Nodes, Edges, x, 7) == [EG.ExampleNode(7)];
    assert EG.ChildrenFrom(Nodes, Edges, x, 6) == [EG.ExampleNode(4), EG.ExampleNode(7)];
    assert EG.ChildrenFrom(Nodes, Edges, x, 5) == [EG.ExampleNode(4), EG.ExampleNode(7)];
    assert EG.ChildrenFrom(Nodes, Edges, x, 4) == [EG.ExampleNode(4), EG.ExampleNode(7)];
    assert EG.ChildrenFrom(Nodes, Edges, x, 3) == [EG.ExampleNode(4), EG.ExampleNode(7)];
    assert EG.ChildrenFrom(Nodes, Edges, x, 2) == [EG.ExampleNode(4), EG.ExampleNode(7)];
    assert EG.ChildrenFrom(Nodes, Edges, x, 1) == [EG.ExampleNode(4), EG.ExampleNode(7)];
  }

  lemma ChildrenOf10()
    ensures EG.ChildrenFrom(Nodes, Edges, EG.ExampleNode(10), 0) == [EG.ExampleNode(14)]
  {
    var x := EG.ExampleNode(10);
    assert EG.ChildrenFrom(Nodes, Edges, x, 9) == [];
    assert EG.ChildrenFrom(Nodes, Edges, x, 8) == [];
    assert EG.ChildrenFrom(Nodes, Edges, x, 7) == [];
    assert EG.ChildrenFrom(Nodes, Edges, x, 6) == [];
    assert EG.ChildrenFrom(Nodes, Edges, x, 5) == [EG.ExampleNode(14)];
    assert EG.ChildrenFrom(Nodes, Edges, x, 4) == [EG.ExampleNode(14)];
    assert EG.ChildrenFrom(Nodes, Edges, x, 3) == [EG.ExampleNode(14)];
    assert EG.ChildrenFrom(Nodes, Edges, x, 2) == [EG.ExampleNode(14)];
    assert EG.ChildrenFrom(Nodes, Edges, x, 1) == [EG.ExampleNode(14)];
  }

  lemma ChildrenOf14()
    ensures EG.ChildrenFrom(Nodes, Edges, EG.ExampleNode(14), 0) == [EG.ExampleNode(13)]
  {
    var x := EG.ExampleNode(14);
    assert EG.ChildrenFrom(Nodes, Edges, x, 9) == [];
    assert EG.ChildrenFrom(Nodes, Edges, x, 8) == [EG.ExampleNode(13)];
    assert EG.ChildrenFrom(Nodes, Edges, x, 7) == [EG.ExampleNode(13)];
    assert EG.ChildrenFrom(Nodes, Edges, x, 6) == [EG.ExampleNode(13)];
    assert EG.ChildrenFrom(Nodes, Edges, x, 5) == [EG.ExampleNode(13)];
    assert EG.ChildrenFrom(Nodes, Edges, x, 4) == [EG.ExampleNode(13)];
    assert EG.ChildrenFrom(Nodes, Edges, x, 3) == [EG.ExampleNode(13)];
    assert EG.ChildrenFrom(Nodes, Edges, x, 2) == [EG.ExampleNode(13)];
    assert EG.ChildrenFrom(Nodes, Edges, x, 1) == [EG.ExampleNode(13)];
  }

  lemma ChildlessOthers(x: EG.ExampleNode)
    requires x.id !in {8, 3, 6, 10, 14}
    ensures EG.ChildrenFrom(Nodes, Edges, x, 0) == []
  {
    EG.ChildlessWithoutEdges(Nodes, Edges, x, 0);
  }

  lemma FixtureChildren(n: EG.ExampleNode)
    ensures EG.Children(EG.Fixture(), n) == EG.ChildrenFrom(Nodes, Edges, n, 0)
  {
    FixtureIsLiteral();
  }

  /** `G()` is `get_example_graph()` seen through the capability surface:
      the same root, children, goal, weights and heuristic at every node. */
  lemma Agrees(n: EG.ExampleNode)
    ensures EG.Root().id == 8
    ensures Children(G(), n.id) == EG.Ids(EG.Children(EG.Fixture(), n))
    ensures IsGoal(G(), n.id) <==> EG.IsGoal(EG.Fixture(), n)
    ensures forall m: EG.ExampleNode :: EdgeWeight(G(), n.id, m.id) == EG.EdgeWeight(EG.Fixture(), n, m)
    ensures Heuristic(G(), n.id) == EG.Heuristic(EG.Fixture(), n)
  {
    FixtureChildren(n);
    ChildIdsAgree(n);
  }

  lemma ChildIdsAgree(n: EG.ExampleNode)
    ensures Children(G(), n.id) == EG.Ids(EG.ChildrenFrom(Nodes, Edges, n, 0))
  {
    if n.id in {8, 3, 6} {
      InnerChildIdsAgree(n);
    } else if n.id == 10 {
      ChildrenOf10();
    } else if n.id == 14 {
      ChildrenOf14();
    } else {
      ChildlessOthers(n);
    }
  }

  lemma InnerChildIdsAgree(n: EG.ExampleNode)
    requires n.id in {8, 3, 6}
    ensures Children(G(), n.id) == EG.Ids(EG.ChildrenFrom(Nodes, Edges, n, 0))
  {
    if n.id == 8 {
      ChildrenOf8();
    } else if n.id == 3 {
      ChildrenOf3();
    } else {
      ChildrenOf6();
    }
  }

  /** `root()` is the first node added, no edge enters it, and every node
      of the fixture lies below it. */
  lemma RootReachesAll()
    ensures EG.Root() == EG.Fixture().nodes[0]
    ensures forall e :: e in EG.Fixture().edges ==> e.toId != EG.Root().id
    ensures forall n :: n in EG.Fixture().nodes ==> Reachable(G(), EG.Root().id, n.id)
  {
    FixtureIsLiteral();
    ReachFromRoot();
  }

  lemma ReachFromRoot()
    ensures Reachable(G(), 8, 8) && Reachable(G(), 8, 3) && Reachable(G(), 8, 10)
    ensures Reachable(G(), 8, 1) && Reachable(G(), 8, 6) && Reachable(G(), 8, 14)
    ensures Reachable(G(), 8, 4) && Reachable(G(), 8, 7) && Reachable(G(), 8, 13)
  {
    assert PathFrom(G(), 8, [8]) && Last([8]) == 8;
    PathExtend(G(), 8, [8], 3);
    PathExtend(G(), 8, [8], 10);
    PathExtend(G(), 8, [8, 3], 1);
    PathExtend(G(), 8, [8, 3], 6);
    PathExtend(G(), 8, [8, 10], 14);
    PathExtend(G(), 8, [8, 3, 6], 4);
    PathExtend(G(), 8, [8, 3, 6], 7);
    PathExtend(G(), 8, [8, 10, 14], 13);
  }

  /** Every edge weighs 1, so a path costs its number of edges; a constant
      heuristic of 1 never drops by more than an edge's weight. */
  lemma {:induction false} UnitCosts(p: seq<Node>)
    requires |p| > 0
    ensures PathCost(G(), p) == |p| - 1
    ensures forall m, n :: Heuristic(G(), m) <= EdgeWeight(G(), m, n) + Heuristic(G(), n)
    decreases |p|
  {
    if |p| >= 2 {
      UnitCosts(p[1..]);
    }
  }

  // ---------------------------------------------------------------------
  // Shape of the tree
  // ---------------------------------------------------------------------

  /** Depth below the root; every edge goes exactly one level down. */
  function Level(n: Node): nat {
    if n == 8 then 0 else if n == 3 || n == 10 then 1 else if n == 1 || n == 6 || n == 14 then 2 else 3
  }

  lemma EdgesGoDown(n: Node, c: Node)
    requires c in Children(G(), n)
    ensures Level(c) == Level(n) + 1
  {
  }

  lemma {:induction false} LevelAlongPath(p: seq<Node>, i: nat)
    requires IsPath(G(), p) && i < |p|
    ensures Level(p[i]) == Level(p[0]) + i
    decreases i
  {
    if i > 0 {
      LevelAlongPath(p, i - 1);
      EdgesGoDown(p[i - 1], p[i]);
    }
  }

  /** The fixture is a tree, so the depth-first searchers terminate on it. */
  lemma FixtureAcyclic()
    ensures Acyclic(G())
  {
    forall p | IsPath(G(), p)
      ensures Distinct(p)
    {
      forall i, j | 0 <= i < j < |p|
        ensures p[i] != p[j]
      {
        LevelAlongPath(p, i);
        LevelAlongPath(p, j);
      }
    }
  }

  /** The goal is reached from the root along exactly one path. */
  lemma OnlyGoalPath(p: seq<Node>)
    requires PathFrom(G(), 8, p) && IsGoal(G(), Last(p))
    ensures p == [8, 3, 6, 7]
  {
    LevelAlongPath(p, |p| - 1);
    assert |p| == 4;
    assert p[3] in Children(G(), p[2]);
    assert p[2] == 6;
    assert p[2] in Children(G(), p[1]);
    assert p[1] == 3;
  }

  lemma GoalPath()
    ensures PathFrom(G(), 8, [8, 3, 6, 7]) && IsGoal(G(), 7)
  {
    var p := [8, 3, 6, 7];
    assert p[1] in Children(G(), p[0]) && p[2] in Children(G(), p[1]) && p[3] in Children(G(), p[2]);
  }

  // ---------------------------------------------------------------------
  // What the tests expect of each searcher
  // ---------------------------------------------------------------------

  /** One level down from the root there are two leaves, 3 and 10. */
  lemma PerftOnFixture()
    ensures Perft.Perft(G(), 8, 1) == 2
  {
    Perft.PerftDepthOne(G(), 8);
  }

  /** `dfs` finds the goal from the root, and from the goal itself. */
  lemma DfsOnFixture()
    ensures Acyclic(G())
    ensures DepthFirst.Dfs(G(), 8, {}).found == Some(7)
    ensures DepthFirst.Dfs(G(), 7, {}).found == Some(7)
  {
    FixtureAcyclic();
    GoalPath();
    DepthFirst.DfsFindsIff(G(), 8, {});
  }

  /** The goal lies four nodes deep: a limit of four finds it, three does
      not. */
  lemma DepthLimitedOnFixture()
    ensures DepthFirst.DepthLimited(G(), 8, 4, {}).found == Some(7)
    ensures DepthFirst.DepthLimited(G(), 8, 3, {}).found == None
  {
    GoalPath();
    forall p | PathFrom(G(), 8, p) && IsGoal(G(), Last(p))
      ensures |p| == 4
    {
      OnlyGoalPath(p);
    }
    DepthFirst.DepthLimitedFindsIff(G(), 8, 4, {});
    DepthFirst.DepthLimitedFindsIff(G(), 8, 3, {});
  }

  /** `iterative_deepening_dfs` finds the goal from the goal itself, at
      limit one, and from the root, at limit four. */
  method IterativeDeepeningOnFixture() returns (fromGoal: Option<Node>, fromRoot: Option<Node>)
    ensures fromGoal == Some(7) && fromRoot == Some(7)
  {
    assert PathFrom(G(), 7, [7]) && IsGoal(G(), 7);
    var marked;
    ghost var limit;
    fromGoal, marked, limit := DepthFirst.IterativeDeepening(G(), 7, {});
    GoalPath();
    fromRoot, marked, limit := DepthFirst.IterativeDeepening(G(), 8, {});
  }

  /** `bfs` finds the goal from the goal itself, and from the root. */
  method BfsOnFixture() returns (fromGoal: Option<Node>, fromRoot: Option<Node>)
    ensures fromGoal == Some(7) && fromRoot == Some(7)
  {
    var visited;
    ghost var enqueued;
    fromGoal, visited, enqueued := Bfs.Search(G(), 7, {});
    GoalPath();
    assert BfsTrace.ClearPath(G(), 8, {}, [8, 3, 6, 7]);
    fromRoot, visited, enqueued := Bfs.Search(G(), 8, {});
  }

  lemma FixtureWeights()
    ensures NonNegativeWeights(G())
  {
  }

  /** Dijkstra's tracked run finds the goal, and `path()` is 8, 3, 6, 7. */
  method DijkstraOnFixture() returns (r: Option<Node>, p: Option<seq<Node>>)
    ensures r == Some(7) && p == Some([8, 3, 6, 7])
  {
    GoalPath();
    var t;
    ghost var pushed, sizes;
    r, t, pushed, sizes := Dijkstra.SearchTracked(Tracking.New(), G(), 8);
    OnlyGoalPath(Tracking.Path(t).value);
    p := Tracking.Path(t);
  }

  /** Greedy best-first search finds the goal, but `path()` holds the goal
      alone. */
  method BestFirstOnFixture() returns (r: Option<Node>, p: Option<seq<Node>>)
    ensures r == Some(7) && p == Some([7])
  {
    GoalPath();
    var t;
    ghost var pushed, sizes;
    r, t, pushed, sizes := BestFirst.SearchTracked(Tracking.New(), G(), 8);
    p := Tracking.Path(t);
  }

  /** A*'s tracked run finds the goal, and `path()` is 8, 3, 6, 7. */
  method AStarOnFixture() returns (r: Option<Node>, p: Option<seq<Node>>)
    ensures r == Some(7) && p == Some([8, 3, 6, 7])
  {
    GoalPath();
    FixtureWeights();
    var s;
    ghost var sizes;
    r, s, sizes := AStar.SearchTracked(AStar.New(), G(), 8);
    OnlyGoalPath(AStar.Path(s).value);
    p := AStar.Path(s);
  }

  /** Every stateless priority search finds the goal too. */
  method StatelessOnFixture() returns (dijkstra: Option<Node>, bestFirst: Option<Node>, astar: Option<Node>)
    ensures dijkstra == Some(7) && bestFirst == Some(7) && astar == Some(7)
  {
    GoalPath();
    FixtureWeights();
    dijkstra := Dijkstra.Search(G(), 8);
    bestFirst := BestFirst.Search(G(), 8);
    astar := AStar.Search(G(), 8);
  }

  /** With the intended frontier and bookkeeping, best-first search's
      `path()` on the fixture is 8, 3, 6, 7 as well. */
  method IntendedBestFirstOnFixture() returns (r: Option<Node>, p: Option<seq<Node>>)
    ensures r == Some(7) && p == Some([8, 3, 6, 7])
  {
    GoalPath();
    var t;
    ghost var sizes;
    r, t, sizes := BestFirst.SearchTrackedIntended(Tracking.New(), G(), 8);
    OnlyGoalPath(Tracking.Path(t).value);
    p := Tracking.Path(t);
  }

  /** Node 13 is a leaf and not the goal: nothing else is reachable from it. */
  lemma OnlyItselfFrom13()
    ensures forall v :: Reachable(G(), 13, v) ==> v == 13
  {
    assert Children(G(), 13) == [];
    LeafReachesOnlyItself(G(), 13);
  }

  /** A success from 8 followed by a failure from 13 on the same searcher
      still answers `path()` with a path, where a fresh searcher's failure
      from 13 answers nothing. */
  method StaleSolution() returns (stale: Option<seq<Node>>, anew: Option<seq<Node>>)
    ensures stale.Some? && anew.None?
  {
    GoalPath();
    OnlyItselfFrom13();
    var r, t;
    ghost var pushed, sizes;
    r, t, pushed, sizes := Dijkstra.SearchTracked(Tracking.New(), G(), 8);
    r, t, pushed, sizes := Dijkstra.SearchTracked(t, G(), 13);
    stale := Tracking.Path(t);
    r, t, pushed, sizes := Dijkstra.SearchTracked(Tracking.New(), G(), 13);
    anew := Tracking.Path(t);
  }

  /** Clearing `solution` at the start of a run makes the same sequence
      answer nothing, as a fresh searcher does. */
  method ResetOnFixture() returns (after: Option<seq<Node>>)
    ensures after.None?
  {
    GoalPath();
    OnlyItselfFrom13();
    var r, t;
    r, t := Dijkstra.SearchTrackedReset(Tracking.New(), G(), 8);
    r, t := Dijkstra.SearchTrackedReset(t, G(), 13);
    after := Tracking.Path(t);
  }
}
