/** The proof state of a discovery-time run (Dijkstra, greedy best-first):
    the invariant the outer loop keeps, and the lemmas that carry it across
    one expansion. */
module DiscoveryTrace {
  import opened Optional
  import opened Graphs
  import opened HeapElements
  import opened Parents
  import opened Discovery

  /** Ghost history of a run: every node marked so far, in marking order
      and starting with the root; the nodes already expanded; a rank per
      marked node that puts every parent below its children; and the
      frontier size after each completed expansion. */
  datatype Trace = Trace(pushed: seq<Node>, expanded: set<Node>, rank: map<Node, Rank>, sizes: seq<nat>)

  /** The marked nodes: each marked once, all reachable, none but the root
      a goal. */
  ghost predicate Marked(g: Graph, root: Node, visited: set<Node>, t: Trace) {
    && |t.pushed| > 0 && t.pushed[0] == root && Distinct(t.pushed) && visited == Elems(t.pushed)
    && visited <= Universe(g, root)
    && (forall v :: v in visited ==> Reachable(g, root, v))
    && (forall v :: v in visited && v != root ==> !IsGoal(g, v))
  }

  /** Every marked node is still on the frontier or already expanded, and an
      expanded node's children are all marked. */
  ghost predicate Covered(g: Graph, visited: set<Node>, heap: seq<HeapElement>, t: Trace) {
    && HeapNodes(heap) <= visited
    && t.expanded <= visited
    && (forall v :: v in visited ==> v in HeapNodes(heap) || v in t.expanded)
    && (forall x, c :: x in t.expanded && c in Children(g, x) ==> c in visited)
  }

  /** The parent map is a ranked tree over the marked nodes. */
  ghost predicate Tree(g: Graph, root: Node, visited: set<Node>, parents: map<Node, Node>, t: Trace) {
    && Forest(g, root, parents, t.rank)
    && t.rank.Keys == visited
    && parents.Keys == visited - {root}
    && (forall v :: v in t.rank ==> t.rank[v].major == 0 && t.rank[v].minor < |t.pushed|)
  }

  ghost predicate Inv(g: Graph, root: Node, visited: set<Node>, parents: map<Node, Node>, heap: seq<HeapElement>, maxFrontier: nat, t: Trace) {
    && Marked(g, root, visited, t)
    && Covered(g, visited, heap, t)
    && Tree(g, root, visited, parents, t)
    && Peak(maxFrontier, t.sizes)
  }

  ghost function Start(root: Node): Trace {
    Trace([root], {}, map[root := Rank(0, 0)], [])
  }

  lemma StartInv(g: Graph, root: Node)
    ensures Inv(g, root, {root}, map[], [New(root, 0)], 1, Start(root))
  {
    assert PathFrom(g, root, [root]);
    assert HeapNodes([New(root, 0)]) == {root};
  }

  /** The trace after expanding `u`, which marked `a`. */
  ghost function Next(t: Trace, u: Node, a: seq<Node>, size: nat): Trace {
    Trace(t.pushed + a, t.expanded + {u}, t.rank + map c | c in a :: Rank(0, |t.pushed|), t.sizes + [size])
  }

  /** What an expansion of `u` marks, and the goal it stops at. */
  lemma AdmittedFacts(g: Graph, u: Node, visited: set<Node>)
    ensures forall c :: c in Admitted(g, u, visited) ==> c in Children(g, u) && c !in visited && !IsGoal(g, c)
    ensures Distinct(Admitted(g, u, visited))
    ensures Discovered(g, u, visited).Some? ==> var x := Discovered(g, u, visited).value;
      x in Children(g, u) && x !in visited && x !in Admitted(g, u, visited) && IsGoal(g, x)
    ensures Discovered(g, u, visited).None? ==> visited + Elems(Admitted(g, u, visited)) == visited + Elems(Children(g, u))
  {
    var f := Fresh(Children(g, u), visited);
    var j := FirstGoal(g, f);
    FreshMarksAll(Children(g, u), visited);
    if j == |f| {
      assert f[..j] == f;
    }
  }

  lemma MarkedStep(g: Graph, root: Node, visited: set<Node>, t: Trace, u: Node, a: seq<Node>, size: nat)
    requires Marked(g, root, visited, t)
    requires u in visited
    requires forall c :: c in a ==> c in Children(g, u) && c !in visited && !IsGoal(g, c)
    requires Distinct(a)
    ensures Marked(g, root, visited + Elems(a), Next(t, u, a, size))
    ensures a != [] ==> Universe(g, root) - (visited + Elems(a)) < Universe(g, root) - visited
  {
    var p := t.pushed + a;
    forall i, j | 0 <= i < j < |p|
      ensures p[i] != p[j]
    {
      if j >= |t.pushed| && i < |t.pushed| {
        assert p[i] in visited;
      }
    }
    forall c | c in a
      ensures Reachable(g, root, c) && c in Universe(g, root)
    {
      var q :| PathFrom(g, root, q) && Last(q) == u;
      PathExtend(g, root, q, c);
      ChildInNodes(g, u, c);
    }
    if a != [] {
      assert a[0] in a;
      assert a[0] in Universe(g, root) - visited;
    }
  }

  lemma CoveredStep(g: Graph, visited: set<Node>, heap: seq<HeapElement>, t: Trace, top: HeapElement, rest: seq<HeapElement>, a: seq<Node>, pushes: seq<HeapElement>, size: nat)
    requires Covered(g, visited, heap, t)
    requires top in heap
    requires forall o :: o in rest ==> o in heap
    requires forall o :: o in heap ==> o == top || o in rest
    requires visited + Elems(a) == visited + Elems(Children(g, top.node))
    requires HeapNodes(pushes) == Elems(a)
    ensures Covered(g, visited + Elems(a), rest + pushes, Next(t, top.node, a, size))
  {
    var v' := visited + Elems(a);
    var h' := rest + pushes;
    forall v | v in v'
      ensures v in HeapNodes(h') || v in t.expanded + {top.node}
    {
      if v in visited && v !in t.expanded && v != top.node {
        var o :| o in heap && o.node == v;
        assert o in h';
      } else if v !in visited {
        var o :| o in pushes && o.node == v;
        assert o in h';
      }
    }
    forall o | o in h'
      ensures o.node in v'
    {
      if o in rest {
        assert o.node in HeapNodes(heap);
      } else {
        assert o.node in HeapNodes(pushes);
      }
    }
  }

  lemma TreeStep(g: Graph, root: Node, visited: set<Node>, parents: map<Node, Node>, t: Trace, u: Node, a: seq<Node>, size: nat)
    requires Tree(g, root, visited, parents, t)
    requires u in visited
    requires forall c :: c in a ==> c in Children(g, u) && c !in visited
    ensures Tree(g, root, visited + Elems(a), Adopt(parents, a, u), Next(t, u, a, size))
  {
    var t' := Next(t, u, a, size);
    var p' := Adopt(parents, a, u);
    forall c | c in p'
      ensures c in t'.rank && p'[c] in t'.rank && Below(t'.rank[p'[c]], t'.rank[c])
    {
      if c in a {
        assert p'[c] == u;
      } else {
        assert p'[c] == parents[c];
      }
    }
  }

  lemma PushesNodes(g: Graph, policy: Policy, u: Node, a: seq<Node>)
    ensures HeapNodes(Pushes(g, policy, u, a)) == Elems(a)
  {
    var h := Pushes(g, policy, u, a);
    forall c | c in a
      ensures c in HeapNodes(h)
    {
      var i :| 0 <= i < |a| && a[i] == c;
      assert h[i] in h;
    }
  }

  /** An expansion that meets no fresh goal keeps the invariant, and either
      marks something new or shrinks the frontier. */
  lemma Expanded(g: Graph, root: Node, policy: Policy, visited: set<Node>, parents: map<Node, Node>, heap: seq<HeapElement>, maxFrontier: nat, t: Trace,
                 top: HeapElement, rest: seq<HeapElement>) returns (t': Trace)
    requires Inv(g, root, visited, parents, heap, maxFrontier, t)
    requires top in heap && |rest| == |heap| - 1
    requires forall o :: o in rest ==> o in heap
    requires forall o :: o in heap ==> o == top || o in rest
    requires Discovered(g, top.node, visited).None?
    ensures var a := Admitted(g, top.node, visited);
      var h' := rest + Pushes(g, policy, top.node, a);
      && Inv(g, root, visited + Elems(a), Adopt(parents, a, top.node), h', if |h'| > maxFrontier then |h'| else maxFrontier, t')
      && (Universe(g, root) - (visited + Elems(a)) < Universe(g, root) - visited || (a == [] && |h'| < |heap|))
      && t'.sizes == t.sizes + [|h'|]
  {
    var u := top.node;
    var a := Admitted(g, u, visited);
    var pushes := Pushes(g, policy, u, a);
    var h' := rest + pushes;
    assert u in HeapNodes(heap);
    AdmittedFacts(g, u, visited);
    PushesNodes(g, policy, u, a);
    t' := Next(t, u, a, |h'|);
    MarkedStep(g, root, visited, t, u, a, |h'|);
    CoveredStep(g, visited, heap, t, top, rest, a, pushes, |h'|);
    TreeStep(g, root, visited, parents, t, u, a, |h'|);
    PeakStep(maxFrontier, t.sizes, |h'|);
  }

  /** What a run reports about its answer and its marks. */
  ghost predicate Reported(g: Graph, root: Node, found: Option<Node>, visited: set<Node>, pushed: seq<Node>) {
    && (found.Some? ==> IsGoal(g, found.value) && found.value != root && found.value !in visited && Reachable(g, root, found.value))
    && (found.None? ==> forall v :: Reachable(g, root, v) ==> v in visited)
    && (forall v :: v in visited ==> Reachable(g, root, v) && (v == root || !IsGoal(g, v)))
    && |pushed| > 0 && pushed[0] == root && Distinct(pushed) && visited == Elems(pushed)
  }

  /** What a run leaves in its parent map, and the path `path()` rebuilds
      from it. */
  ghost predicate Recorded(g: Graph, root: Node, policy: Policy, found: Option<Node>, visited: set<Node>, parents: map<Node, Node>) {
    && parents.Keys == visited - {root} + (if found.Some? && policy.parentGoal then {found.value} else {})
    && (forall c :: c in parents ==> c in Children(g, parents[c]))
    && (found.Some? && policy.parentGoal ==>
          && Reconstruct(parents, found).Some?
          && PathFrom(g, root, Reconstruct(parents, found).value)
          && Last(Reconstruct(parents, found).value) == found.value
          && FollowsParents(parents, Reconstruct(parents, found).value))
    && (found.Some? && !policy.parentGoal ==> Reconstruct(parents, found) == Some([found.value]))
  }

  /** An expansion that meets a fresh goal ends the run with a success. */
  lemma Found(g: Graph, root: Node, policy: Policy, visited: set<Node>, parents: map<Node, Node>, heap: seq<HeapElement>, maxFrontier: nat, t: Trace,
              u: Node) returns (pushed: seq<Node>)
    requires Inv(g, root, visited, parents, heap, maxFrontier, t)
    requires u in HeapNodes(heap)
    requires Discovered(g, u, visited).Some?
    ensures Reported(g, root, Discovered(g, u, visited), visited + Elems(Admitted(g, u, visited)), pushed)
    ensures Recorded(g, root, policy, Discovered(g, u, visited), visited + Elems(Admitted(g, u, visited)),
                     Adopt(parents, Adopted(g, policy, u, visited), u))
  {
    pushed := FoundReported(g, root, visited, t, u);
    if policy.parentGoal {
      FoundWithParent(g, root, policy, visited, parents, t, u);
    } else {
      FoundWithoutParent(g, root, policy, visited, parents, t, u);
    }
  }

  lemma FoundReported(g: Graph, root: Node, visited: set<Node>, t: Trace, u: Node) returns (pushed: seq<Node>)
    requires Marked(g, root, visited, t)
    requires u in visited
    requires Discovered(g, u, visited).Some?
    ensures Reported(g, root, Discovered(g, u, visited), visited + Elems(Admitted(g, u, visited)), pushed)
  {
    var a := Admitted(g, u, visited);
    var x := Discovered(g, u, visited).value;
    AdmittedFacts(g, u, visited);
    MarkedStep(g, root, visited, t, u, a, 0);
    pushed := t.pushed + a;
    var q :| PathFrom(g, root, q) && Last(q) == u;
    PathExtend(g, root, q, x);
  }

  /** When the goal child is returned before it is given a parent, `path()`
      is the goal alone. */
  lemma FoundWithoutParent(g: Graph, root: Node, policy: Policy, visited: set<Node>, parents: map<Node, Node>, t: Trace, u: Node)
    requires Tree(g, root, visited, parents, t)
    requires u in visited
    requires !policy.parentGoal && Discovered(g, u, visited).Some?
    ensures Recorded(g, root, policy, Discovered(g, u, visited), visited + Elems(Admitted(g, u, visited)),
                     Adopt(parents, Adopted(g, policy, u, visited), u))
  {
    var a := Admitted(g, u, visited);
    AdmittedFacts(g, u, visited);
    assert Adopted(g, policy, u, visited) == a;
    TreeStep(g, root, visited, parents, t, u, a, 0);
  }

  /** When the goal child is given its parent, `path()` leads to it. */
  lemma FoundWithParent(g: Graph, root: Node, policy: Policy, visited: set<Node>, parents: map<Node, Node>, t: Trace, u: Node)
    requires Tree(g, root, visited, parents, t)
    requires u in visited
    requires policy.parentGoal && Discovered(g, u, visited).Some?
    ensures Recorded(g, root, policy, Discovered(g, u, visited), visited + Elems(Admitted(g, u, visited)),
                     Adopt(parents, Adopted(g, policy, u, visited), u))
  {
    var a := Admitted(g, u, visited);
    var x := Discovered(g, u, visited).value;
    AdmittedFacts(g, u, visited);
    assert Adopted(g, policy, u, visited) == a + [x];
    TreeStep(g, root, visited, parents, t, u, a + [x], 0);
    var t' := Next(t, u, a + [x], 0);
    ElemsSnoc(a, x);
    ReconstructFromRoot(g, root, Adopt(parents, a + [x], u), t'.rank, x);
  }

  /** An empty frontier ends the run with a failure that has marked every
      reachable node. */
  lemma Exhausted(g: Graph, root: Node, policy: Policy, visited: set<Node>, parents: map<Node, Node>, maxFrontier: nat, t: Trace)
    requires Inv(g, root, visited, parents, [], maxFrontier, t)
    ensures Reported(g, root, None, visited, t.pushed)
    ensures Recorded(g, root, policy, None, visited, parents)
  {
    forall v | Reachable(g, root, v)
      ensures v in visited
    {
      var p :| PathFrom(g, root, p) && Last(p) == v;
      assert root in Elems(t.pushed);
      ClosedHoldsReachable(g, root, visited, p);
    }
  }

  /** A run succeeds exactly when some node other than the root is a
      reachable goal; when it fails it has marked exactly the reachable
      nodes. */
  lemma ReportedIff(g: Graph, root: Node, found: Option<Node>, visited: set<Node>, pushed: seq<Node>)
    requires Reported(g, root, found, visited, pushed)
    ensures found.Some? <==> exists v :: v != root && Reachable(g, root, v) && IsGoal(g, v)
    ensures found.None? ==> visited == ReachableSet(g, root)
  {
  }
}
