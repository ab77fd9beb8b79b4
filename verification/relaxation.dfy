/** The children loop of an A* expansion: every child whose cost through
    the expanded node beats its recorded distance (an absent distance counts
    as infinite) gets that cost as its distance, the expanded node as its
    parent, and a fresh frontier entry. */
module Relaxation {
  import opened Graphs
  import opened HeapElements

  /** The tracked run keys an entry by cost plus heuristic; the stateless
      run by cost alone. */
  datatype Variant = Tracked | Stateless

  function KeyFor(g: Graph, variant: Variant, c: Node, cost: int): int {
    match variant
    case Tracked => cost + Heuristic(g, c)
    case Stateless => cost
  }

  /** `cost` strictly beats what `dist` records for `c`. */
  predicate Improves(dist: map<Node, int>, c: Node, cost: int) {
    c !in dist || cost < dist[c]
  }

  /** The frontier entries for the nodes `cs`, keyed by their distances. */
  function Entries(g: Graph, variant: Variant, cs: seq<Node>, dist: map<Node, int>): (r: seq<HeapElement>)
    requires forall c :: c in cs ==> c in dist
    ensures |r| == |cs| && forall i :: 0 <= i < |cs| ==> r[i] == New(cs[i], KeyFor(g, variant, cs[i], dist[cs[i]]))
  {
    seq(|cs|, i requires 0 <= i < |cs| => New(cs[i], KeyFor(g, variant, cs[i], dist[cs[i]])))
  }

  /** `d` and `p` are `dist` and `parents` after relaxing the edges from `u`
      to each of `kids` at cost `base` plus the edge's weight; `changed`
      lists, in order, the children that were improved. */
  ghost predicate Relaxed(g: Graph, u: Node, base: int, kids: seq<Node>, dist: map<Node, int>, parents: map<Node, Node>,
                          d: map<Node, int>, p: map<Node, Node>, changed: seq<Node>)
  {
    && Lowered(g, u, base, kids, dist, d, changed)
    && Adopted(g, u, base, kids, dist, parents, d, p, changed)
  }

  /** Every child is within `base` plus its edge of `u`, and no distance
      rose or appeared outside `changed`. */
  ghost predicate Lowered(g: Graph, u: Node, base: int, kids: seq<Node>, dist: map<Node, int>, d: map<Node, int>, changed: seq<Node>) {
    && (forall c :: c in kids ==> c in d && d[c] <= base + EdgeWeight(g, u, c))
    && (forall v :: v in dist ==> v in d && d[v] <= dist[v])
    && (forall v :: v in d ==> v in changed || (v in dist && d[v] == dist[v]))
  }

  /** Each improved child took the cost through `u` and `u` as its parent;
      no other parent changed. */
  ghost predicate Adopted(g: Graph, u: Node, base: int, kids: seq<Node>, dist: map<Node, int>, parents: map<Node, Node>,
                          d: map<Node, int>, p: map<Node, Node>, changed: seq<Node>)
  {
    && (forall v :: v in changed ==> v in kids && v in d && d[v] == base + EdgeWeight(g, u, v) && Improves(dist, v, d[v]) && v in p && p[v] == u)
    && (forall v :: v !in changed ==> (v in p <==> v in parents) && (v in parents ==> p[v] == parents[v]))
    && Distinct(changed)
  }

  /** What relaxing the edges from `u` to `kids` does to the bookkeeping, in
      terms of the outcome alone: every child ends within `base` plus its
      edge; no distance rises; a node whose distance changed is a child that
      strictly improved, took the cost through `u` and `u` as its parent,
      and was pushed with its new key; any other parent is as it was; and
      the frontier only grows by entries for improved children. */
  ghost predicate Effect(g: Graph, variant: Variant, u: Node, base: int, kids: seq<Node>,
                         dist: map<Node, int>, parents: map<Node, Node>, heap: seq<HeapElement>,
                         d: map<Node, int>, p: map<Node, Node>, h: seq<HeapElement>)
  {
    && |heap| <= |h| && h[..|heap|] == heap
    && (forall c :: c in kids ==> c in d && d[c] <= base + EdgeWeight(g, u, c))
    && (forall v :: v in dist ==> v in d && d[v] <= dist[v])
    && (forall v :: v in d && !(v in dist && d[v] == dist[v]) ==>
          && v in kids && d[v] == base + EdgeWeight(g, u, v) && Improves(dist, v, d[v])
          && v in p && p[v] == u
          && New(v, KeyFor(g, variant, v, d[v])) in h[|heap|..])
    && (forall v :: v in parents ==> v in p)
    && (forall v :: v in p ==> (v in parents && p[v] == parents[v]) || (v in kids && p[v] == u))
    && (forall i :: |heap| <= i < |h| ==> h[i].node in kids && h[i].node in d && h[i].cost == KeyFor(g, variant, h[i].node, d[h[i].node]))
  }

  lemma EffectOf(g: Graph, variant: Variant, u: Node, base: int, kids: seq<Node>,
                 dist: map<Node, int>, parents: map<Node, Node>, heap: seq<HeapElement>,
                 d: map<Node, int>, p: map<Node, Node>, h: seq<HeapElement>, changed: seq<Node>)
    requires Relaxed(g, u, base, kids, dist, parents, d, p, changed)
    requires h == heap + Entries(g, variant, changed, d)
    ensures Effect(g, variant, u, base, kids, dist, parents, heap, d, p, h)
  {
    var e := Entries(g, variant, changed, d);
    assert h[|heap|..] == e;
    forall v | v in d && !(v in dist && d[v] == dist[v])
      ensures New(v, KeyFor(g, variant, v, d[v])) in h[|heap|..]
    {
      var j :| 0 <= j < |changed| && changed[j] == v;
      assert e[j] == New(v, KeyFor(g, variant, v, d[v]));
    }
    forall i | |heap| <= i < |h|
      ensures h[i].node in kids && h[i].node in d && h[i].cost == KeyFor(g, variant, h[i].node, d[h[i].node])
    {
      assert h[i] == e[i - |heap|];
    }
  }

  /** Relax every edge out of `u`, in children order. */
  method RelaxChildren(g: Graph, variant: Variant, u: Node, base: int, dist: map<Node, int>, parents: map<Node, Node>, heap: seq<HeapElement>)
    returns (dist': map<Node, int>, parents': map<Node, Node>, heap': seq<HeapElement>, ghost changed: seq<Node>)
    ensures Effect(g, variant, u, base, Children(g, u), dist, parents, heap, dist', parents', heap')
    ensures Relaxed(g, u, base, Children(g, u), dist, parents, dist', parents', changed)
    ensures heap' == heap + Entries(g, variant, changed, dist')
  {
    var kids := Children(g, u);
    dist', parents', heap', changed := dist, parents, heap, [];
    var i := 0;
    while i < |kids|
      invariant i <= |kids|
      invariant Relaxed(g, u, base, kids[..i], dist, parents, dist', parents', changed)
      invariant heap' == heap + Entries(g, variant, changed, dist')
      decreases |kids| - i
    {
      dist', parents', heap', changed := RelaxChild(g, variant, u, base, dist, parents, heap, kids, i, dist', parents', heap', changed);
      i := i + 1;
    }
    assert kids[..|kids|] == kids;
    EffectOf(g, variant, u, base, kids, dist, parents, heap, dist', parents', heap', changed);
  }

  /** One edge: `cost_to_child < distances[child]` (absent meaning no bound)
      replaces the child's parent and distance and pushes it. */
  method RelaxChild(g: Graph, variant: Variant, u: Node, base: int, dist: map<Node, int>, parents: map<Node, Node>, heap: seq<HeapElement>,
                    kids: seq<Node>, i: nat, d: map<Node, int>, p: map<Node, Node>, h: seq<HeapElement>, ghost changed: seq<Node>)
    returns (d': map<Node, int>, p': map<Node, Node>, h': seq<HeapElement>, ghost changed': seq<Node>)
    requires i < |kids|
    requires Relaxed(g, u, base, kids[..i], dist, parents, d, p, changed)
    requires h == heap + Entries(g, variant, changed, d)
    ensures Relaxed(g, u, base, kids[..i + 1], dist, parents, d', p', changed')
    ensures h' == heap + Entries(g, variant, changed', d')
  {
    var c := kids[i];
    var cost := base + EdgeWeight(g, u, c);
    if Improves(d, c, cost) {
      d', p', h', changed' := d[c := cost], p[c := u], h + [New(c, KeyFor(g, variant, c, cost))], changed + [c];
    } else {
      d', p', h', changed' := d, p, h, changed;
    }
    StepFacts(g, variant, u, base, dist, parents, heap, kids, i, d, p, h, changed);
  }

  /** The loop-body obligations of `RelaxChild`, for either outcome of the
      improvement test. */
  lemma StepFacts(g: Graph, variant: Variant, u: Node, base: int, dist: map<Node, int>, parents: map<Node, Node>, heap: seq<HeapElement>,
                  kids: seq<Node>, i: nat, d: map<Node, int>, p: map<Node, Node>, h: seq<HeapElement>, changed: seq<Node>)
    requires i < |kids|
    requires Relaxed(g, u, base, kids[..i], dist, parents, d, p, changed)
    requires h == heap + Entries(g, variant, changed, d)
    ensures var c, cost := kids[i], base + EdgeWeight(g, u, kids[i]);
      Improves(d, c, cost) ==>
        && Relaxed(g, u, base, kids[..i + 1], dist, parents, d[c := cost], p[c := u], changed + [c])
        && h + [New(c, KeyFor(g, variant, c, cost))] == heap + Entries(g, variant, changed + [c], d[c := cost])
    ensures var c, cost := kids[i], base + EdgeWeight(g, u, kids[i]);
      !Improves(d, c, cost) ==> Relaxed(g, u, base, kids[..i + 1], dist, parents, d, p, changed)
  {
    var c, cost := kids[i], base + EdgeWeight(g, u, kids[i]);
    if Improves(d, c, cost) {
      ImproveStep(g, u, base, dist, parents, kids, i, d, p, changed);
      ImproveEntries(g, variant, u, base, dist, parents, kids, i, d, p, changed);
    } else {
      SkipStep(g, u, base, dist, parents, kids, i, d, p, changed);
    }
  }

  /** Relaxing a single edge, as `RelaxChild` does, has the effect of an
      expansion with that one child. */
  lemma OneEdge(g: Graph, variant: Variant, u: Node, base: int, d: map<Node, int>, p: map<Node, Node>, h: seq<HeapElement>, c: Node)
    ensures var cost := base + EdgeWeight(g, u, c);
      if Improves(d, c, cost)
      then Effect(g, variant, u, base, [c], d, p, h, d[c := cost], p[c := u], h + [New(c, KeyFor(g, variant, c, cost))])
      else Effect(g, variant, u, base, [c], d, p, h, d, p, h)
  {
    var cost := base + EdgeWeight(g, u, c);
    if Improves(d, c, cost) {
      var h' := h + [New(c, KeyFor(g, variant, c, cost))];
      assert h'[|h|..] == [New(c, KeyFor(g, variant, c, cost))];
    }
  }

  lemma SkipStep(g: Graph, u: Node, base: int, dist: map<Node, int>, parents: map<Node, Node>,
                 kids: seq<Node>, i: nat, d: map<Node, int>, p: map<Node, Node>, changed: seq<Node>)
    requires i < |kids|
    requires Relaxed(g, u, base, kids[..i], dist, parents, d, p, changed)
    requires !Improves(d, kids[i], base + EdgeWeight(g, u, kids[i]))
    ensures Relaxed(g, u, base, kids[..i + 1], dist, parents, d, p, changed)
  {
    assert kids[..i + 1] == kids[..i] + [kids[i]];
    forall v | v in changed
      ensures v in kids[..i + 1]
    {
      assert v in kids[..i];
    }
  }

  lemma ImproveStep(g: Graph, u: Node, base: int, dist: map<Node, int>, parents: map<Node, Node>,
                    kids: seq<Node>, i: nat, d: map<Node, int>, p: map<Node, Node>, changed: seq<Node>)
    requires i < |kids|
    requires Relaxed(g, u, base, kids[..i], dist, parents, d, p, changed)
    requires Improves(d, kids[i], base + EdgeWeight(g, u, kids[i]))
    ensures var c, cost := kids[i], base + EdgeWeight(g, u, kids[i]);
      Relaxed(g, u, base, kids[..i + 1], dist, parents, d[c := cost], p[c := u], changed + [c])
  {
    var c, cost := kids[i], base + EdgeWeight(g, u, kids[i]);
    assert kids[..i + 1] == kids[..i] + [c];
    assert c !in changed;
    assert Improves(dist, c, cost);
    LowerStep(g, u, base, dist, kids[..i], d, changed, c, cost);
    AdoptStep(g, u, base, dist, parents, kids[..i], d, p, changed, c, cost);
  }

  lemma ImproveEntries(g: Graph, variant: Variant, u: Node, base: int, dist: map<Node, int>, parents: map<Node, Node>,
                       kids: seq<Node>, i: nat, d: map<Node, int>, p: map<Node, Node>, changed: seq<Node>)
    requires i < |kids|
    requires Relaxed(g, u, base, kids[..i], dist, parents, d, p, changed)
    requires Improves(d, kids[i], base + EdgeWeight(g, u, kids[i]))
    ensures var c, cost := kids[i], base + EdgeWeight(g, u, kids[i]);
      Entries(g, variant, changed + [c], d[c := cost]) == Entries(g, variant, changed, d) + [New(c, KeyFor(g, variant, c, cost))]
  {
    assert kids[i] !in changed;
    EntriesSnoc(g, variant, changed, d, kids[i], base + EdgeWeight(g, u, kids[i]));
  }

  lemma LowerStep(g: Graph, u: Node, base: int, dist: map<Node, int>, kids: seq<Node>, d: map<Node, int>, changed: seq<Node>, c: Node, cost: int)
    requires Lowered(g, u, base, kids, dist, d, changed)
    requires cost == base + EdgeWeight(g, u, c) && Improves(d, c, cost)
    ensures Lowered(g, u, base, kids + [c], dist, d[c := cost], changed + [c])
  {
  }

  lemma AdoptStep(g: Graph, u: Node, base: int, dist: map<Node, int>, parents: map<Node, Node>,
                  kids: seq<Node>, d: map<Node, int>, p: map<Node, Node>, changed: seq<Node>, c: Node, cost: int)
    requires Adopted(g, u, base, kids, dist, parents, d, p, changed)
    requires c !in changed && cost == base + EdgeWeight(g, u, c) && Improves(dist, c, cost)
    ensures Adopted(g, u, base, kids + [c], dist, parents, d[c := cost], p[c := u], changed + [c])
  {
    var n := changed + [c];
    forall a, b | 0 <= a < b < |n|
      ensures n[a] != n[b]
    {
      assert n[a] == changed[a];
      if b == |changed| {
        assert changed[a] in changed;
      }
    }
  }

  lemma EntriesSnoc(g: Graph, variant: Variant, changed: seq<Node>, d: map<Node, int>, c: Node, cost: int)
    requires forall v :: v in changed ==> v in d
    requires c !in changed
    ensures Entries(g, variant, changed + [c], d[c := cost]) == Entries(g, variant, changed, d) + [New(c, KeyFor(g, variant, c, cost))]
  {
    var n := changed + [c];
    forall j | 0 <= j < |changed|
      ensures n[j] == changed[j] && changed[j] != c
    {
      assert changed[j] in changed;
    }
  }
}
