/** Parent-pointer bookkeeping shared by the priority-frontier searchers,
    and the `path()` reconstruction that walks it back from the solution. */
module Parents {
  import opened Optional
  import opened Graphs

  /** The chain of parents ending at `n`, oldest ancestor first. The walk
      stops at a node without a parent; `seen` (the nodes already walked
      through) cuts off a cyclic parent map, which the searchers never build
      (see `AncestryFromRoot`). */
  function Ancestry(parents: map<Node, Node>, n: Node, seen: set<Node>): (p: seq<Node>)
    ensures |p| > 0 && Last(p) == n
    ensures FollowsParents(parents, p)
    ensures p[0] !in parents || p[0] in seen || p[0] in p[1..]
    decreases parents.Keys - seen
  {
    if n in parents && n !in seen then
      var q := Ancestry(parents, parents[n], seen + {n});
      assert (q + [n])[1..] == q[1..] + [n];
      q + [n]
    else [n]
  }

  /** `path()`: nothing until a run has succeeded, then the parent chain of
      the solution, root first. */
  function Reconstruct(parents: map<Node, Node>, solution: Option<Node>): (r: Option<seq<Node>>)
    ensures r.None? <==> solution.None?
    ensures r.Some? ==> |r.value| > 0 && Last(r.value) == solution.value
    ensures r.Some? ==> FollowsParents(parents, r.value)
    ensures r.Some? ==> r.value[0] !in parents || r.value[0] in r.value[1..]
  {
    match solution
    case None => None
    case Some(n) => Some(Ancestry(parents, n, {}))
  }

  /** A lexicographic rank; every parent ranks strictly below its child. */
  datatype Rank = Rank(major: nat, minor: nat)

  predicate Below(a: Rank, b: Rank) {
    a.major < b.major || (a.major == b.major && a.minor < b.minor)
  }

  ghost predicate Ranked(parents: map<Node, Node>, rank: map<Node, Rank>) {
    forall c :: c in parents ==> c in rank && parents[c] in rank && Below(rank[parents[c]], rank[c])
  }

  /** The parent map is a tree over the ranked nodes, rooted at `root`,
      whose every link is an edge of the graph. */
  ghost predicate Forest(g: Graph, root: Node, parents: map<Node, Node>, rank: map<Node, Rank>) {
    && Ranked(parents, rank)
    && root in rank
    && root !in parents
    && (forall v :: v in rank && v !in parents ==> v == root)
    && (forall c :: c in parents ==> c in Children(g, parents[c]))
  }

  /** Every consecutive pair of `p` is a parent link. */
  ghost predicate FollowsParents(parents: map<Node, Node>, p: seq<Node>) {
    forall i :: 0 < i < |p| ==> p[i] in parents && parents[p[i]] == p[i - 1]
  }

  /** In a ranked forest the walk back from a ranked node ends at the root,
      never meets `seen` and follows real edges. */
  lemma {:induction false} AncestryFromRoot(g: Graph, root: Node, parents: map<Node, Node>, rank: map<Node, Rank>, n: Node, seen: set<Node>)
    requires Forest(g, root, parents, rank)
    requires n in rank
    requires forall s :: s in seen ==> s in rank && Below(rank[n], rank[s])
    ensures PathFrom(g, root, Ancestry(parents, n, seen))
    ensures FollowsParents(parents, Ancestry(parents, n, seen))
    decreases rank[n].major, rank[n].minor
  {
    if n in parents {
      assert n !in seen;
      var m := parents[n];
      assert Below(rank[m], rank[n]);
      AncestryFromRoot(g, root, parents, rank, m, seen + {n});
      var q := Ancestry(parents, m, seen + {n});
      assert Ancestry(parents, n, seen) == q + [n];
      PathExtend(g, root, q, n);
      var p := q + [n];
      forall i | 0 < i < |p|
        ensures p[i] in parents && parents[p[i]] == p[i - 1]
      {
        if i < |q| {
          assert p[i] == q[i] && p[i - 1] == q[i - 1];
        }
      }
    } else {
      assert n == root;
    }
  }

  /** After a success recorded in a ranked forest, `path()` runs from the
      root to the solution along parent links that are edges. */
  lemma ReconstructFromRoot(g: Graph, root: Node, parents: map<Node, Node>, rank: map<Node, Rank>, solution: Node)
    requires Forest(g, root, parents, rank)
    requires solution in rank
    ensures Reconstruct(parents, Some(solution)).Some?
    ensures PathFrom(g, root, Reconstruct(parents, Some(solution)).value)
    ensures Last(Reconstruct(parents, Some(solution)).value) == solution
    ensures FollowsParents(parents, Reconstruct(parents, Some(solution)).value)
  {
    AncestryFromRoot(g, root, parents, rank, solution, {});
  }
}
