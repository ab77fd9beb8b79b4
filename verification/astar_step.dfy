/** Why one expansion of an A* run keeps the loop invariant and makes
    progress towards an empty frontier. */
module AStarStep {
  import opened Graphs
  import opened HeapElements
  import opened Parents
  import opened Relaxation
  import opened AStarTrace

  /** The frontier just before an expansion, split into the popped entry and
      the rest. */
  ghost predicate Popped(heap: seq<HeapElement>, top: HeapElement, rest: seq<HeapElement>) {
    && top in heap
    && (forall o :: o in heap ==> o == top || o in rest)
    && (forall o :: o in rest ==> o in heap)
    && |rest| == |heap| - 1
  }

  /** The relaxation `d`, `p`, `changed` of the edges out of `u` at cost
      `base`, where `base` is no less than `u`'s distance. */
  ghost predicate Relaxes(g: Graph, root: Node, u: Node, base: int, dist: map<Node, int>, parents: map<Node, Node>,
                          d: map<Node, int>, p: map<Node, Node>, changed: seq<Node>)
  {
    && NonNegativeWeights(g)
    && Sound(g, root, dist)
    && u in dist && base >= dist[u]
    && Relaxed(g, u, base, Children(g, u), dist, parents, d, p, changed)
  }

  /** Neither the expanded node nor the root is ever improved. */
  lemma Untouched(g: Graph, root: Node, u: Node, base: int, dist: map<Node, int>, parents: map<Node, Node>,
                  d: map<Node, int>, p: map<Node, Node>, changed: seq<Node>)
    requires Relaxes(g, root, u, base, dist, parents, d, p, changed)
    ensures u !in changed && u in d && d[u] == dist[u]
    ensures root !in changed && root in d && d[root] == 0
  {
    if u in changed {
      WeightNonNegative(g, u, u);
      assert false;
    }
    if root in changed {
      WeightNonNegative(g, u, root);
      assert false;
    }
  }

  lemma SoundStep(g: Graph, root: Node, u: Node, base: int, dist: map<Node, int>, parents: map<Node, Node>,
                  d: map<Node, int>, p: map<Node, Node>, changed: seq<Node>)
    requires Relaxes(g, root, u, base, dist, parents, d, p, changed)
    ensures Sound(g, root, d)
  {
    Untouched(g, root, u, base, dist, parents, d, p, changed);
    var q :| PathFrom(g, root, q) && Last(q) == u;
    forall v | v in changed
      ensures d[v] >= 0 && v in Universe(g, root) && Reachable(g, root, v)
    {
      WeightNonNegative(g, u, v);
      ChildInNodes(g, u, v);
      PathExtend(g, root, q, v);
    }
  }

  /** The stamps after an expansion: every improved node is stamped with
      the current clock. */
  ghost function Restamp(d: map<Node, int>, changed: seq<Node>, stamp: map<Node, nat>, clock: nat): map<Node, nat> {
    map v | v in d :: if v in changed || v !in stamp then clock else stamp[v]
  }

  lemma LinksStep(g: Graph, root: Node, u: Node, base: int, dist: map<Node, int>, parents: map<Node, Node>, b: Book,
                  d: map<Node, int>, p: map<Node, Node>, changed: seq<Node>)
    requires Relaxes(g, root, u, base, dist, parents, d, p, changed)
    requires Linked(g, root, dist, parents, b)
    ensures p.Keys == d.Keys - {root}
    ensures forall c :: c in p ==> p[c] in d && c in Children(g, p[c]) && d[c] >= d[p[c]] + EdgeWeight(g, p[c], c)
  {
    Untouched(g, root, u, base, dist, parents, d, p, changed);
    forall v
      ensures v in p <==> v in d && v != root
    {
      if v !in changed {
        assert v in p <==> v in parents;
        assert v in d <==> v in dist;
      }
    }
    forall c | c in p
      ensures p[c] in d && c in Children(g, p[c]) && d[c] >= d[p[c]] + EdgeWeight(g, p[c], c)
    {
      if c !in changed {
        assert c in parents && p[c] == parents[c];
        assert c in Children(g, parents[c]);
      }
    }
  }

  lemma RankedStep(g: Graph, root: Node, u: Node, base: int, dist: map<Node, int>, parents: map<Node, Node>, b: Book,
                   d: map<Node, int>, p: map<Node, Node>, changed: seq<Node>)
    requires Relaxes(g, root, u, base, dist, parents, d, p, changed)
    requires Linked(g, root, dist, parents, b)
    requires Sound(g, root, d)
    ensures Ranked(p, Ranks(d, Restamp(d, changed, b.stamp, b.clock)))
  {
    Untouched(g, root, u, base, dist, parents, d, p, changed);
    var stamp' := Restamp(d, changed, b.stamp, b.clock);
    var rank, rank' := Ranks(dist, b.stamp), Ranks(d, stamp');
    forall c | c in p
      ensures c in rank' && p[c] in rank' && Below(rank'[p[c]], rank'[c])
    {
      if c in changed {
        WeightNonNegative(g, u, c);
        assert p[c] == u && rank'[u] == Rank(dist[u], b.stamp[u]);
      } else {
        var q := parents[c];
        assert c in parents && p[c] == q && c in dist && d[c] == dist[c];
        if q in changed {
          WeightNonNegative(g, q, c);
          assert d[q] < dist[q];
        } else {
          assert rank'[q] == rank[q] && rank'[c] == rank[c];
        }
      }
    }
  }

  lemma ForestStep(g: Graph, root: Node, u: Node, base: int, dist: map<Node, int>, parents: map<Node, Node>, b: Book,
                   d: map<Node, int>, p: map<Node, Node>, changed: seq<Node>)
    requires Relaxes(g, root, u, base, dist, parents, d, p, changed)
    requires Linked(g, root, dist, parents, b)
    ensures Linked(g, root, d, p, Book(Restamp(d, changed, b.stamp, b.clock), b.clock + 1, b.expanded + {u}, b.sizes, b.closed))
  {
    SoundStep(g, root, u, base, dist, parents, d, p, changed);
    LinksStep(g, root, u, base, dist, parents, b, d, p, changed);
    RankedStep(g, root, u, base, dist, parents, b, d, p, changed);
  }

  lemma CoveredStep(g: Graph, root: Node, variant: Variant, u: Node, base: int, dist: map<Node, int>, parents: map<Node, Node>,
                    heap: seq<HeapElement>, b: Book, top: HeapElement, rest: seq<HeapElement>,
                    d: map<Node, int>, p: map<Node, Node>, changed: seq<Node>, h': seq<HeapElement>, b': Book)
    requires Relaxes(g, root, u, base, dist, parents, d, p, changed)
    requires Covered(g, dist, heap, b)
    requires Popped(heap, top, rest) && top.node == u && !IsGoal(g, u)
    requires h' == rest + Entries(g, variant, changed, d)
    requires b'.expanded == b.expanded + {u}
    ensures Covered(g, d, h', b')
  {
    var es := Entries(g, variant, changed, d);
    KeysGrow(u, base, g, dist, parents, d, p, changed);
    forall i | 0 <= i < |changed|
      ensures changed[i] in HeapNodes(h')
    {
      assert h'[|rest| + i] == es[i];
    }
    forall v | v in d
      ensures v in HeapNodes(h') || v in b'.expanded
    {
      if v !in changed {
        assert v in dist;
        if v in HeapNodes(heap) {
          var e :| e in heap && e.node == v;
          if e != top {
            assert e in rest && e in h';
          }
        }
      } else {
        var i :| 0 <= i < |changed| && changed[i] == v;
      }
    }
    forall e | e in h'
      ensures e.node in d
    {
      if e !in rest {
        var i :| 0 <= i < |es| && es[i] == e;
      }
    }
  }

  lemma SettledStep(g: Graph, root: Node, variant: Variant, u: Node, base: int, dist: map<Node, int>, parents: map<Node, Node>,
                    heap: seq<HeapElement>, rest: seq<HeapElement>, d: map<Node, int>, p: map<Node, Node>, changed: seq<Node>, h': seq<HeapElement>)
    requires Relaxes(g, root, u, base, dist, parents, d, p, changed)
    requires Settled(variant, dist, heap)
    requires forall o :: o in rest ==> o in heap
    requires h' == rest + Entries(g, variant, changed, d)
    ensures Settled(variant, d, h')
  {
    if variant == Stateless {
      var es := Entries(g, variant, changed, d);
      forall e | e in h'
        ensures e.node in d && e.cost >= d[e.node]
      {
        if e !in rest {
          var i :| 0 <= i < |es| && es[i] == e;
        }
      }
    }
  }

  /** Expanding a popped stateless entry from its own key keeps every
      distance on the frontier or among the popped entries, and closes the
      popped entry over its children. */
  lemma ClosedStep(g: Graph, u: Node, dist: map<Node, int>, parents: map<Node, Node>, heap: seq<HeapElement>, b: Book,
                   top: HeapElement, rest: seq<HeapElement>, d: map<Node, int>, p: map<Node, Node>, changed: seq<Node>,
                   h': seq<HeapElement>, b': Book)
    requires Relaxed(g, u, top.cost, Children(g, u), dist, parents, d, p, changed)
    requires Closed(g, Stateless, dist, heap, b)
    requires Popped(heap, top, rest) && top.node == u && !IsGoal(g, u)
    requires h' == rest + Entries(g, Stateless, changed, d)
    requires b'.closed == b.closed + {top}
    ensures Closed(g, Stateless, d, h', b')
  {
    var es := Entries(g, Stateless, changed, d);
    forall v | v in d
      ensures New(v, d[v]) in h' || New(v, d[v]) in b'.closed
    {
      if v in changed {
        var i :| 0 <= i < |changed| && changed[i] == v;
        assert h'[|rest| + i] == es[i];
      } else {
        assert v in dist && d[v] == dist[v];
        var x := New(v, dist[v]);
        if x in heap && x != top {
          assert x in rest;
        }
      }
    }
    forall x | x in b'.closed
      ensures forall c :: c in Children(g, x.node) ==> c in d && d[c] <= x.cost + EdgeWeight(g, x.node, c)
    {
      if x != top {
        assert x in b.closed;
        forall c | c in Children(g, x.node)
          ensures c in d && d[c] <= x.cost + EdgeWeight(g, x.node, c)
        {
          assert c in dist;
        }
      }
    }
  }

  /** An expansion gives some node its first distance, or lowers some
      distance without adding any, or changes nothing and shrinks the
      frontier. */
  ghost predicate Progress(g: Graph, root: Node, dist: map<Node, int>, heap: seq<HeapElement>, d: map<Node, int>, h': seq<HeapElement>) {
    || Universe(g, root) - d.Keys < Universe(g, root) - dist.Keys
    || (Universe(g, root) - d.Keys == Universe(g, root) - dist.Keys && Pairs(d) < Pairs(dist))
    || (Universe(g, root) - d.Keys == Universe(g, root) - dist.Keys && Pairs(d) == Pairs(dist) && |h'| < |heap|)
  }

  lemma ProgressStep(g: Graph, root: Node, variant: Variant, u: Node, base: int, dist: map<Node, int>, parents: map<Node, Node>,
                     heap: seq<HeapElement>, rest: seq<HeapElement>, d: map<Node, int>, p: map<Node, Node>, changed: seq<Node>, h': seq<HeapElement>)
    requires Relaxes(g, root, u, base, dist, parents, d, p, changed)
    requires Sound(g, root, d)
    requires |rest| == |heap| - 1
    requires h' == rest + Entries(g, variant, changed, d)
    ensures Progress(g, root, dist, heap, d, h')
  {
    KeysGrow(u, base, g, dist, parents, d, p, changed);
    if changed == [] {
      forall v | v in d
        ensures v in dist && d[v] == dist[v]
      {
      }
      assert d == dist;
    } else if exists c :: c in changed && c !in dist {
      var c :| c in changed && c !in dist;
      assert c in Universe(g, root) - dist.Keys && c !in Universe(g, root) - d.Keys;
    } else {
      forall v | v in d.Keys
        ensures v in dist.Keys
      {
      }
      var c := changed[0];
      assert c in dist && d[c] < dist[c];
      assert (c, d[c]) in Pairs(dist);
      assert Pairs(d) <= Pairs(dist);
    }
  }

  lemma KeysGrow(u: Node, base: int, g: Graph, dist: map<Node, int>, parents: map<Node, Node>, d: map<Node, int>, p: map<Node, Node>, changed: seq<Node>)
    requires Relaxed(g, u, base, Children(g, u), dist, parents, d, p, changed)
    ensures dist.Keys <= d.Keys
  {
    forall v | v in dist.Keys
      ensures v in d.Keys
    {
    }
  }

  /** One expansion of a non-goal node keeps the invariant, with the new
      frontier size recorded, and makes progress. */
  lemma Expanded(g: Graph, root: Node, variant: Variant, dist: map<Node, int>, parents: map<Node, Node>, heap: seq<HeapElement>,
                 maxFrontier: nat, b: Book, top: HeapElement, rest: seq<HeapElement>, base: int,
                 d: map<Node, int>, p: map<Node, Node>, changed: seq<Node>, h': seq<HeapElement>)
    returns (b': Book)
    requires NonNegativeWeights(g)
    requires Inv(g, root, variant, dist, parents, heap, maxFrontier, b)
    requires Popped(heap, top, rest) && !IsGoal(g, top.node)
    requires top.node in dist && base == if variant == Tracked then dist[top.node] else top.cost
    requires Relaxed(g, top.node, base, Children(g, top.node), dist, parents, d, p, changed)
    requires h' == rest + Entries(g, variant, changed, d)
    ensures Inv(g, root, variant, d, p, h', if |h'| > maxFrontier then |h'| else maxFrontier, b')
    ensures Progress(g, root, dist, heap, d, h')
    ensures b'.closed == b.closed + {top}
  {
    var u := top.node;
    b' := Book(Restamp(d, changed, b.stamp, b.clock), b.clock + 1, b.expanded + {u}, b.sizes + [|h'|], b.closed + {top});
    ForestStep(g, root, u, base, dist, parents, b, d, p, changed);
    SoundStep(g, root, u, base, dist, parents, d, p, changed);
    CoveredStep(g, root, variant, u, base, dist, parents, heap, b, top, rest, d, p, changed, h', b');
    SettledStep(g, root, variant, u, base, dist, parents, heap, rest, d, p, changed, h');
    ProgressStep(g, root, variant, u, base, dist, parents, heap, rest, d, p, changed, h');
    PeakStep(maxFrontier, b.sizes, |h'|);
  }
}
