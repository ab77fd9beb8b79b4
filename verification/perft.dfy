/** `perft`: the number of leaves of the search tree unfolded from a node
    to a given depth, where a node without children is a leaf at any depth.
    Counts are unbounded here. */
module Perft {
  import opened Graphs

  function Perft(g: Graph, n: Node, depth: nat): (r: nat)
    ensures r >= 1
    ensures depth == 0 || Children(g, n) == [] ==> r == 1
    decreases depth, 1
  {
    var kids := Children(g, n);
    if depth == 0 || |kids| == 0 then 1 else PerftSum(g, kids, depth - 1)
  }

  /** The sum of `perft(c, depth)` over `kids`. */
  function PerftSum(g: Graph, kids: seq<Node>, depth: nat): (r: nat)
    ensures r >= |kids|
    decreases depth, 2, |kids|
  {
    if kids == [] then 0 else Perft(g, kids[0], depth) + PerftSum(g, kids[1..], depth)
  }

  /** One level down, every child is a leaf: `perft(n, 1)` is the number of
      children, or 1 for a childless node. */
  lemma PerftDepthOne(g: Graph, n: Node)
    ensures Perft(g, n, 1) == if |Children(g, n)| == 0 then 1 else |Children(g, n)|
  {
    if |Children(g, n)| > 0 {
      PerftSumDepthZero(g, Children(g, n));
    }
  }

  lemma {:induction false} PerftSumDepthZero(g: Graph, kids: seq<Node>)
    ensures PerftSum(g, kids, 0) == |kids|
    decreases |kids|
  {
    if kids != [] {
      PerftSumDepthZero(g, kids[1..]);
    }
  }

  /** Unfolding one level deeper never loses a leaf. */
  lemma {:induction false} PerftMonotone(g: Graph, n: Node, depth: nat)
    ensures Perft(g, n, depth) <= Perft(g, n, depth + 1)
    decreases depth, 1
  {
    if depth > 0 && |Children(g, n)| > 0 {
      PerftSumMonotone(g, Children(g, n), depth - 1);
    }
  }

  lemma {:induction false} PerftSumMonotone(g: Graph, kids: seq<Node>, depth: nat)
    ensures PerftSum(g, kids, depth) <= PerftSum(g, kids, depth + 1)
    decreases depth, 2, |kids|
  {
    if kids != [] {
      PerftMonotone(g, kids[0], depth);
      PerftSumMonotone(g, kids[1..], depth);
    }
  }

  // ---------------------------------------------------------------------
  // What perft counts
  // ---------------------------------------------------------------------

  /** The leaves of the unfolded search tree, each as the walk from `n` down
      to it, in the order the recursion visits them. */
  ghost function Walks(g: Graph, n: Node, depth: nat): seq<seq<Node>>
    decreases depth, 1
  {
    var kids := Children(g, n);
    if depth == 0 || |kids| == 0 then [[n]] else Prefixed(n, WalksFrom(g, kids, depth - 1))
  }

  ghost function WalksFrom(g: Graph, kids: seq<Node>, depth: nat): seq<seq<Node>>
    decreases depth, 2, |kids|
  {
    if kids == [] then [] else Walks(g, kids[0], depth) + WalksFrom(g, kids[1..], depth)
  }

  ghost function Prefixed(n: Node, ws: seq<seq<Node>>): (r: seq<seq<Node>>)
    ensures |r| == |ws| && forall i :: 0 <= i < |ws| ==> r[i] == [n] + ws[i]
  {
    seq(|ws|, i requires 0 <= i < |ws| => [n] + ws[i])
  }

  /** A leaf walk: a path of at most `depth` edges that stops early only at
      a childless node. */
  ghost predicate LeafWalk(g: Graph, n: Node, depth: nat, w: seq<Node>) {
    && PathFrom(g, n, w)
    && |w| <= depth + 1
    && (|w| == depth + 1 || Children(g, Last(w)) == [])
  }

  /** `perft` counts exactly the leaf walks the unfolding produces. */
  lemma {:induction false} PerftCountsWalks(g: Graph, n: Node, depth: nat)
    ensures Perft(g, n, depth) == |Walks(g, n, depth)|
    ensures forall i :: 0 <= i < |Walks(g, n, depth)| ==> LeafWalk(g, n, depth, Walks(g, n, depth)[i])
    decreases depth, 1
  {
    var kids := Children(g, n);
    if depth == 0 || |kids| == 0 {
      assert PathFrom(g, n, [n]);
    } else {
      PerftCountsWalksFrom(g, n, kids, depth - 1);
      var ws := WalksFrom(g, kids, depth - 1);
      forall i | 0 <= i < |Walks(g, n, depth)|
        ensures LeafWalk(g, n, depth, Walks(g, n, depth)[i])
      {
        var w := ws[i];
        PathCons(g, n, w);
      }
    }
  }

  lemma {:induction false} PerftCountsWalksFrom(g: Graph, n: Node, kids: seq<Node>, depth: nat)
    requires forall c :: c in kids ==> c in Children(g, n)
    ensures PerftSum(g, kids, depth) == |WalksFrom(g, kids, depth)|
    ensures forall i :: 0 <= i < |WalksFrom(g, kids, depth)| ==>
      IsPath(g, WalksFrom(g, kids, depth)[i]) && WalksFrom(g, kids, depth)[i][0] in Children(g, n)
      && |WalksFrom(g, kids, depth)[i]| <= depth + 1
      && (|WalksFrom(g, kids, depth)[i]| == depth + 1 || Children(g, Last(WalksFrom(g, kids, depth)[i])) == [])
    decreases depth, 2, |kids|
  {
    if kids != [] {
      PerftCountsWalks(g, kids[0], depth);
      PerftCountsWalksFrom(g, n, kids[1..], depth);
      var a, b := Walks(g, kids[0], depth), WalksFrom(g, kids[1..], depth);
      forall i | 0 <= i < |a + b|
        ensures IsPath(g, (a + b)[i]) && (a + b)[i][0] in Children(g, n)
          && |(a + b)[i]| <= depth + 1
          && (|(a + b)[i]| == depth + 1 || Children(g, Last((a + b)[i])) == [])
      {
        if i < |a| {
          assert (a + b)[i] == a[i];
          assert LeafWalk(g, kids[0], depth, a[i]);
        } else {
          assert (a + b)[i] == b[i - |a|];
        }
      }
    }
  }

  /** Every leaf walk is one the unfolding lists. */
  lemma {:induction false} WalksComplete(g: Graph, n: Node, depth: nat, w: seq<Node>)
    requires LeafWalk(g, n, depth, w)
    ensures w in Walks(g, n, depth)
    decreases depth
  {
    var kids := Children(g, n);
    FirstStep(g, w);
    if depth == 0 || |kids| == 0 {
      assert w == [n];
    } else {
      var t := w[1..];
      PathSuffix(g, w, 1);
      assert Last(t) == Last(w);
      WalksComplete(g, w[1], depth - 1, t);
      InWalksFrom(g, kids, w[1], depth - 1, t);
      var ws := WalksFrom(g, kids, depth - 1);
      var i :| 0 <= i < |ws| && ws[i] == t;
      assert Walks(g, n, depth)[i] == [n] + t == w;
    }
  }

  /** A walk listed for one of `kids` is listed for them all. */
  lemma {:induction false} InWalksFrom(g: Graph, kids: seq<Node>, c: Node, depth: nat, w: seq<Node>)
    requires c in kids && w in Walks(g, c, depth)
    ensures w in WalksFrom(g, kids, depth)
    decreases |kids|
  {
    if kids[0] != c {
      InWalksFrom(g, kids[1..], c, depth, w);
    }
  }

  /** No walk is listed twice. */
  ghost predicate Unique(ws: seq<seq<Node>>) {
    forall i, j :: 0 <= i < j < |ws| ==> ws[i] != ws[j]
  }

  /** Every walk the unfolding lists from one of `kids` starts there. */
  lemma {:induction false} WalksFromHeads(g: Graph, kids: seq<Node>, depth: nat)
    ensures forall w :: w in WalksFrom(g, kids, depth) ==> |w| > 0 && w[0] in kids
    decreases |kids|
  {
    if kids != [] {
      PerftCountsWalks(g, kids[0], depth);
      WalksFromHeads(g, kids[1..], depth);
      var a, b := Walks(g, kids[0], depth), WalksFrom(g, kids[1..], depth);
      forall w | w in a + b
        ensures |w| > 0 && w[0] in kids
      {
        if w in a {
          var i :| 0 <= i < |a| && a[i] == w;
          assert LeafWalk(g, kids[0], depth, a[i]);
        }
      }
    }
  }

  /** When no node lists a child twice, the unfolding lists no walk twice. */
  lemma {:induction false} WalksUnique(g: Graph, n: Node, depth: nat)
    requires forall m :: Distinct(Children(g, m))
    ensures Unique(Walks(g, n, depth))
    decreases depth, 1
  {
    var kids := Children(g, n);
    if depth > 0 && |kids| > 0 {
      WalksFromUnique(g, kids, depth - 1);
      var ws := WalksFrom(g, kids, depth - 1);
      var r := Walks(g, n, depth);
      forall i, j | 0 <= i < j < |r|
        ensures r[i] != r[j]
      {
        assert r[i][1..] == ws[i] && r[j][1..] == ws[j];
      }
    }
  }

  lemma {:induction false} WalksFromUnique(g: Graph, kids: seq<Node>, depth: nat)
    requires forall m :: Distinct(Children(g, m))
    requires Distinct(kids)
    ensures Unique(WalksFrom(g, kids, depth))
    decreases depth, 2, |kids|
  {
    if kids != [] {
      WalksUnique(g, kids[0], depth);
      assert Distinct(kids[1..]);
      WalksFromUnique(g, kids[1..], depth);
      WalksFromHeads(g, kids[1..], depth);
      PerftCountsWalks(g, kids[0], depth);
      var a, b := Walks(g, kids[0], depth), WalksFrom(g, kids[1..], depth);
      var r := a + b;
      forall i, j | 0 <= i < j < |r|
        ensures r[i] != r[j]
      {
        if i < |a| && j >= |a| {
          assert r[i] == a[i] && LeafWalk(g, kids[0], depth, a[i]);
          assert r[j] == b[j - |a|] && r[j] in b;
          assert r[j][0] in kids[1..];
        } else if j < |a| {
          assert r[i] == a[i] && r[j] == a[j];
        } else {
          assert r[i] == b[i - |a|] && r[j] == b[j - |a|];
        }
      }
    }
  }

  lemma {:induction false} UniqueCard(ws: seq<seq<Node>>)
    requires Unique(ws)
    ensures |set w | w in ws| == |ws|
    decreases |ws|
  {
    if ws != [] {
      var t := ws[1..];
      assert Unique(t);
      UniqueCard(t);
      assert (set w | w in ws) == (set w | w in t) + {ws[0]};
      assert ws[0] !in t;
    }
  }

  /** The leaf walks from `n` to `depth`, as a set. */
  ghost function LeafWalks(g: Graph, n: Node, depth: nat): set<seq<Node>> {
    set w | w in Walks(g, n, depth)
  }

  /** `perft` is the number of leaf walks of the graph, provided no node
      lists a child twice (otherwise a repeated child's walks count twice). */
  lemma PerftIsLeafWalkCount(g: Graph, n: Node, depth: nat)
    requires forall m :: Distinct(Children(g, m))
    ensures forall w :: w in LeafWalks(g, n, depth) <==> LeafWalk(g, n, depth, w)
    ensures Perft(g, n, depth) == |LeafWalks(g, n, depth)|
  {
    PerftCountsWalks(g, n, depth);
    forall w
      ensures w in LeafWalks(g, n, depth) <==> LeafWalk(g, n, depth, w)
    {
      if LeafWalk(g, n, depth, w) {
        WalksComplete(g, n, depth, w);
      }
    }
    WalksUnique(g, n, depth);
    UniqueCard(Walks(g, n, depth));
  }
}
