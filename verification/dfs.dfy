/** Recursive depth-first search, its depth-limited variant and iterative
    deepening. None of them consults the graph's visited marks; they only
    set them, so the marks are an explicit set threaded through the
    recursion and handed back beside the answer. */
module DepthFirst {
  import opened Optional
  import opened Graphs

  /** What a run returns, together with the marks present after it. */
  datatype Outcome = Outcome(found: Option<Node>, marked: set<Node>)

  /** A goal path from `n` of at most `len` nodes. */
  ghost predicate GoalWithin(g: Graph, n: Node, len: nat) {
    exists p :: PathFrom(g, n, p) && |p| <= len && IsGoal(g, Last(p))
  }

  // ---------------------------------------------------------------------
  // dfs
  // ---------------------------------------------------------------------

  /** How many more nodes the path `s` can grow by before it must repeat
      one: the search's termination measure on an acyclic graph. */
  ghost function Slack(g: Graph, s: seq<Node>): int
    requires |s| > 0
  {
    |Universe(g, s[0])| - |s|
  }

  lemma SlackNonNegative(g: Graph, s: seq<Node>)
    requires Acyclic(g) && IsPath(g, s)
    ensures Slack(g, s) >= 0
  {
    PathInUniverse(g, s[0], s);
    DistinctLength(s, Universe(g, s[0]));
  }

  /** `dfs` from `n`, reached along the ghost path `trail + [n]`: mark `n`,
      answer `n` if it is a goal, otherwise try the children in order. */
  function Explore(g: Graph, n: Node, visited: set<Node>, ghost trail: seq<Node>): (r: Outcome)
    requires Acyclic(g) && IsPath(g, trail + [n])
    ensures r.found.Some? ==> IsGoal(g, r.found.value)
    ensures IsGoal(g, n) ==> r.found == Some(n)
    ensures visited + {n} <= r.marked
    decreases Slack(g, trail + [n]), 1
  {
    SlackNonNegative(g, trail + [n]);
    var v := visited + {n};
    if IsGoal(g, n) then Outcome(Some(n), v)
    else ExploreChildren(g, Children(g, n), v, trail + [n])
  }

  /** The `for neighbor in children` loop of `dfs`: the first child whose
      subtree succeeds wins; the marks of failed subtrees carry over. */
  function ExploreChildren(g: Graph, kids: seq<Node>, visited: set<Node>, ghost trail: seq<Node>): (r: Outcome)
    requires Acyclic(g) && IsPath(g, trail)
    requires forall c :: c in kids ==> c in Children(g, Last(trail))
    ensures r.found.Some? ==> IsGoal(g, r.found.value)
    ensures visited <= r.marked
    decreases Slack(g, trail), 0, |kids|
  {
    if kids == [] then Outcome(None, visited)
    else
      PathExtend(g, trail[0], trail, kids[0]);
      SlackNonNegative(g, trail + [kids[0]]);
      var o := Explore(g, kids[0], visited, trail);
      if o.found.Some? then o else ExploreChildren(g, kids[1..], o.marked, trail)
  }

  /** `dfs(graph, root)`. Its loop has no visited check, so only an
      acyclic graph guarantees it returns. */
  function Dfs(g: Graph, root: Node, visited: set<Node>): (r: Outcome)
    requires Acyclic(g)
    ensures IsGoal(g, root) ==> r.found == Some(root)
    ensures r.found.Some? ==> IsGoal(g, r.found.value)
    ensures visited + {root} <= r.marked
  {
    Explore(g, root, visited, [])
  }

  /** What `dfs` finds is reachable, and it marks only reachable nodes. */
  lemma {:induction false} ExploreSound(g: Graph, n: Node, visited: set<Node>, trail: seq<Node>)
    requires Acyclic(g) && IsPath(g, trail + [n])
    ensures Explore(g, n, visited, trail).found.Some? ==> Reachable(g, n, Explore(g, n, visited, trail).found.value)
    ensures forall v :: v in Explore(g, n, visited, trail).marked ==> v in visited || Reachable(g, n, v)
    decreases Slack(g, trail + [n]), 2
  {
    assert PathFrom(g, n, [n]) && Last([n]) == n;
    assert Reachable(g, n, n);
    if IsGoal(g, n) {
      SlackNonNegative(g, trail + [n]);
      assert Explore(g, n, visited, trail) == Outcome(Some(n), visited + {n});
    } else {
      ExploreBelowSound(g, n, visited, trail);
    }
  }

  /** A non-goal node answers what its children loop answers. */
  lemma {:induction false} ExploreBelowSound(g: Graph, n: Node, visited: set<Node>, trail: seq<Node>)
    requires Acyclic(g) && IsPath(g, trail + [n]) && !IsGoal(g, n)
    ensures Explore(g, n, visited, trail).found.Some? ==> Reachable(g, n, Explore(g, n, visited, trail).found.value)
    ensures forall v :: v in Explore(g, n, visited, trail).marked ==> v in visited || v == n || Reachable(g, n, v)
    decreases Slack(g, trail + [n]), 1
  {
    var s := trail + [n];
    assert Last(s) == n;
    assert Explore(g, n, visited, trail) == ExploreChildren(g, Children(g, n), visited + {n}, s) by {
      SlackNonNegative(g, s);
    }
    ExploreChildrenSound(g, Children(g, n), visited + {n}, s);
  }

  lemma {:induction false} ExploreChildrenSound(g: Graph, kids: seq<Node>, visited: set<Node>, trail: seq<Node>)
    requires Acyclic(g) && IsPath(g, trail)
    requires forall c :: c in kids ==> c in Children(g, Last(trail))
    ensures ExploreChildren(g, kids, visited, trail).found.Some? ==> Reachable(g, Last(trail), ExploreChildren(g, kids, visited, trail).found.value)
    ensures forall v :: v in ExploreChildren(g, kids, visited, trail).marked ==> v in visited || Reachable(g, Last(trail), v)
    decreases Slack(g, trail), 0, |kids|
  {
    if kids != [] {
      var n := Last(trail);
      var k := kids[0];
      PathExtend(g, trail[0], trail, k);
      SlackNonNegative(g, trail + [k]);
      ExploreSound(g, k, visited, trail);
      var o := Explore(g, k, visited, trail);
      forall v | Reachable(g, k, v)
        ensures Reachable(g, n, v)
      {
        var p :| PathFrom(g, k, p) && Last(p) == v;
        PathCons(g, n, p);
      }
      if o.found.None? {
        ExploreChildrenSound(g, kids[1..], o.marked, trail);
      }
    }
  }

  /** When `dfs` comes back empty-handed it has marked every node reachable
      from its start, and none of them is a goal. */
  lemma {:induction false} ExploreComplete(g: Graph, n: Node, visited: set<Node>, trail: seq<Node>)
    requires Acyclic(g) && IsPath(g, trail + [n])
    ensures Explore(g, n, visited, trail).found.None? ==>
      forall p :: PathFrom(g, n, p) ==> !IsGoal(g, Last(p)) && Last(p) in Explore(g, n, visited, trail).marked
    decreases Slack(g, trail + [n]), 1
  {
    SlackNonNegative(g, trail + [n]);
    var r := Explore(g, n, visited, trail);
    if r.found.None? {
      var kids := Children(g, n);
      ExploreChildrenComplete(g, kids, visited + {n}, trail + [n]);
      forall p | PathFrom(g, n, p)
        ensures !IsGoal(g, Last(p)) && Last(p) in r.marked
      {
        if |p| > 1 {
          assert p[1] in kids;
          var i :| 0 <= i < |kids| && kids[i] == p[1];
          PathSuffix(g, p, 1);
          assert Last(p[1..]) == Last(p);
        }
      }
    }
  }

  lemma {:induction false} ExploreChildrenComplete(g: Graph, kids: seq<Node>, visited: set<Node>, trail: seq<Node>)
    requires Acyclic(g) && IsPath(g, trail)
    requires forall c :: c in kids ==> c in Children(g, Last(trail))
    ensures ExploreChildren(g, kids, visited, trail).found.None? ==>
      forall i, p :: 0 <= i < |kids| && PathFrom(g, kids[i], p) ==>
        !IsGoal(g, Last(p)) && Last(p) in ExploreChildren(g, kids, visited, trail).marked
    decreases Slack(g, trail), 0, |kids|
  {
    var r := ExploreChildren(g, kids, visited, trail);
    if kids != [] && r.found.None? {
      var k := kids[0];
      PathExtend(g, trail[0], trail, k);
      SlackNonNegative(g, trail + [k]);
      var o := Explore(g, k, visited, trail);
      ExploreComplete(g, k, visited, trail);
      ExploreChildrenComplete(g, kids[1..], o.marked, trail);
      assert r == ExploreChildren(g, kids[1..], o.marked, trail);
      forall i, p | 0 <= i < |kids| && PathFrom(g, kids[i], p)
        ensures !IsGoal(g, Last(p)) && Last(p) in r.marked
      {
        if i > 0 {
          assert kids[i] == kids[1..][i - 1];
        }
      }
    }
  }

  /** On an acyclic graph `dfs` succeeds exactly when a goal is reachable;
      what it finds is a reachable goal, and when it fails every reachable
      node ends up marked. */
  lemma DfsFindsIff(g: Graph, root: Node, visited: set<Node>)
    requires Acyclic(g)
    ensures Dfs(g, root, visited).found.Some? <==> exists p :: PathFrom(g, root, p) && IsGoal(g, Last(p))
    ensures Dfs(g, root, visited).found.Some? ==> Reachable(g, root, Dfs(g, root, visited).found.value)
    ensures Dfs(g, root, visited).found.None? ==> forall v :: Reachable(g, root, v) ==> v in Dfs(g, root, visited).marked
    ensures forall v :: v in Dfs(g, root, visited).marked ==> v in visited || Reachable(g, root, v)
  {
    ExploreSound(g, root, visited, []);
    ExploreComplete(g, root, visited, []);
    var r := Dfs(g, root, visited);
    if r.found.Some? {
      var p :| PathFrom(g, root, p) && Last(p) == r.found.value;
    }
  }

  /** The marks are written, never read: what `dfs` finds does not depend
      on them. */
  lemma {:induction false} ExploreIgnoresMarks(g: Graph, n: Node, v1: set<Node>, v2: set<Node>, trail: seq<Node>)
    requires Acyclic(g) && IsPath(g, trail + [n])
    ensures Explore(g, n, v1, trail).found == Explore(g, n, v2, trail).found
    decreases Slack(g, trail + [n]), 1
  {
    SlackNonNegative(g, trail + [n]);
    if !IsGoal(g, n) {
      ExploreChildrenIgnoresMarks(g, Children(g, n), v1 + {n}, v2 + {n}, trail + [n]);
    }
  }

  lemma {:induction false} ExploreChildrenIgnoresMarks(g: Graph, kids: seq<Node>, v1: set<Node>, v2: set<Node>, trail: seq<Node>)
    requires Acyclic(g) && IsPath(g, trail)
    requires forall c :: c in kids ==> c in Children(g, Last(trail))
    ensures ExploreChildren(g, kids, v1, trail).found == ExploreChildren(g, kids, v2, trail).found
    decreases Slack(g, trail), 0, |kids|
  {
    if kids != [] {
      PathExtend(g, trail[0], trail, kids[0]);
      SlackNonNegative(g, trail + [kids[0]]);
      ExploreIgnoresMarks(g, kids[0], v1, v2, trail);
      var o1 := Explore(g, kids[0], v1, trail);
      var o2 := Explore(g, kids[0], v2, trail);
      if o1.found.None? {
        ExploreChildrenIgnoresMarks(g, kids[1..], o1.marked, o2.marked, trail);
      }
    }
  }

  /** The children loop returns what the first successful child subtree
      returns, trying the children in adjacency order, and fails only when
      every child subtree fails. */
  lemma {:induction false} ExploreChildrenFirst(g: Graph, kids: seq<Node>, visited: set<Node>, trail: seq<Node>)
    requires Acyclic(g) && IsPath(g, trail)
    requires forall c :: c in kids ==> c in Children(g, Last(trail))
    ensures forall c :: c in kids ==> IsPath(g, trail + [c])
    ensures ExploreChildren(g, kids, visited, trail).found.Some? ==>
      exists i :: 0 <= i < |kids| && Explore(g, kids[i], {}, trail).found == ExploreChildren(g, kids, visited, trail).found
        && forall j :: 0 <= j < i ==> Explore(g, kids[j], {}, trail).found.None?
    ensures ExploreChildren(g, kids, visited, trail).found.None? ==>
      forall j :: 0 <= j < |kids| ==> Explore(g, kids[j], {}, trail).found.None?
    decreases |kids|
  {
    forall c | c in kids
      ensures IsPath(g, trail + [c])
    {
      PathExtend(g, trail[0], trail, c);
    }
    if kids != [] {
      SlackNonNegative(g, trail + [kids[0]]);
      var o := Explore(g, kids[0], visited, trail);
      ExploreIgnoresMarks(g, kids[0], visited, {}, trail);
      if o.found.None? {
        ExploreChildrenFirst(g, kids[1..], o.marked, trail);
        var r := ExploreChildren(g, kids, visited, trail);
        assert r == ExploreChildren(g, kids[1..], o.marked, trail);
        if r.found.Some? {
          var i :| 0 <= i < |kids[1..]| && Explore(g, kids[1..][i], {}, trail).found == r.found
            && forall j :: 0 <= j < i ==> Explore(g, kids[1..][j], {}, trail).found.None?;
          FailuresShift(g, kids, trail, i + 1);
          assert kids[i + 1] == kids[1..][i];
        } else {
          FailuresShift(g, kids, trail, |kids|);
        }
      }
    }
  }

  /** Failures of the first `n - 1` subtrees after the first child, and of
      the first child's own, are failures of the first `n` subtrees. */
  lemma FailuresShift(g: Graph, kids: seq<Node>, trail: seq<Node>, n: nat)
    requires Acyclic(g) && forall c :: c in kids ==> IsPath(g, trail + [c])
    requires 0 < n <= |kids| && Explore(g, kids[0], {}, trail).found.None?
    requires forall j :: 0 <= j < n - 1 ==> Explore(g, kids[1..][j], {}, trail).found.None?
    ensures forall j :: 0 <= j < n ==> Explore(g, kids[j], {}, trail).found.None?
  {
    forall j | 0 < j < n
      ensures Explore(g, kids[j], {}, trail).found.None?
    {
      assert kids[j] == kids[1..][j - 1];
    }
  }

  /** `dfs` from a non-goal root answers what the first child subtree that
      succeeds answers, in adjacency order. */
  lemma DfsFirstChild(g: Graph, root: Node, visited: set<Node>)
    requires Acyclic(g) && !IsGoal(g, root)
    ensures forall c :: c in Children(g, root) ==> IsPath(g, [root] + [c])
    ensures Dfs(g, root, visited).found.Some? ==>
      exists i :: 0 <= i < |Children(g, root)| && Explore(g, Children(g, root)[i], {}, [root]).found == Dfs(g, root, visited).found
        && forall j :: 0 <= j < i ==> Explore(g, Children(g, root)[j], {}, [root]).found.None?
    ensures Dfs(g, root, visited).found.None? ==>
      forall j :: 0 <= j < |Children(g, root)| ==> Explore(g, Children(g, root)[j], {}, [root]).found.None?
  {
    assert [] + [root] == [root];
    ExploreChildrenFirst(g, Children(g, root), visited + {root}, [root]);
  }

  // ---------------------------------------------------------------------
  // depth_limited_dfs
  // ---------------------------------------------------------------------

  /** `depth_limited_dfs(graph, n, depth)`: mark `n`; at depth 0 give up
      before the goal test; otherwise answer `n` if it is a goal, else try
      the children one level shallower. */
  function DepthLimited(g: Graph, n: Node, depth: nat, visited: set<Node>): (r: Outcome)
    ensures depth == 0 ==> r.found.None?
    ensures depth > 0 && IsGoal(g, n) ==> r.found == Some(n)
    ensures r.found.Some? ==> IsGoal(g, r.found.value)
    ensures visited + {n} <= r.marked
    decreases depth, 1
  {
    var v := visited + {n};
    if depth == 0 then Outcome(None, v)
    else if IsGoal(g, n) then Outcome(Some(n), v)
    else DepthLimitedChildren(g, Children(g, n), depth - 1, v)
  }

  function DepthLimitedChildren(g: Graph, kids: seq<Node>, depth: nat, visited: set<Node>): (r: Outcome)
    ensures r.found.Some? ==> IsGoal(g, r.found.value)
    ensures visited <= r.marked
    decreases depth, 2, |kids|
  {
    if kids == [] then Outcome(None, visited)
    else
      var o := DepthLimited(g, kids[0], depth, visited);
      if o.found.Some? then o else DepthLimitedChildren(g, kids[1..], depth, o.marked)
  }

  /** A success at limit `depth` names the end of a goal path of at most
      `depth` nodes (`depth - 1` edges); the marks are reachable nodes. */
  lemma {:induction false} DepthLimitedSound(g: Graph, n: Node, depth: nat, visited: set<Node>)
    ensures DepthLimited(g, n, depth, visited).found.Some? ==>
      exists p :: PathFrom(g, n, p) && |p| <= depth && Last(p) == DepthLimited(g, n, depth, visited).found.value
    ensures forall v :: v in DepthLimited(g, n, depth, visited).marked ==> v in visited || Reachable(g, n, v)
    decreases depth, 1
  {
    assert PathFrom(g, n, [n]);
    if depth > 0 && !IsGoal(g, n) {
      DepthLimitedChildrenSound(g, n, Children(g, n), depth - 1, visited + {n});
    }
  }

  lemma {:induction false} DepthLimitedChildrenSound(g: Graph, n: Node, kids: seq<Node>, depth: nat, visited: set<Node>)
    requires forall c :: c in kids ==> c in Children(g, n)
    ensures DepthLimitedChildren(g, kids, depth, visited).found.Some? ==>
      exists p :: PathFrom(g, n, p) && |p| <= depth + 1 && Last(p) == DepthLimitedChildren(g, kids, depth, visited).found.value
    ensures forall v :: v in DepthLimitedChildren(g, kids, depth, visited).marked ==> v in visited || Reachable(g, n, v)
    decreases depth, 2, |kids|
  {
    if kids != [] {
      var k := kids[0];
      DepthLimitedSound(g, k, depth, visited);
      var o := DepthLimited(g, k, depth, visited);
      forall v | Reachable(g, k, v)
        ensures Reachable(g, n, v)
      {
        var p :| PathFrom(g, k, p) && Last(p) == v;
        PathCons(g, n, p);
      }
      if o.found.Some? {
        var p :| PathFrom(g, k, p) && |p| <= depth && Last(p) == o.found.value;
        PathCons(g, n, p);
      } else {
        DepthLimitedChildrenSound(g, n, kids[1..], depth, o.marked);
      }
    }
  }

  /** A failure at limit `depth` rules out every goal path of at most
      `depth` nodes. */
  lemma {:induction false} DepthLimitedComplete(g: Graph, n: Node, depth: nat, visited: set<Node>)
    ensures DepthLimited(g, n, depth, visited).found.None? ==> !GoalWithin(g, n, depth)
    decreases depth, 1
  {
    if DepthLimited(g, n, depth, visited).found.None? && depth > 0 {
      var kids := Children(g, n);
      DepthLimitedChildrenComplete(g, kids, depth - 1, visited + {n});
      forall p | PathFrom(g, n, p) && |p| <= depth
        ensures !IsGoal(g, Last(p))
      {
        if |p| > 1 {
          assert p[1] in kids;
          var i :| 0 <= i < |kids| && kids[i] == p[1];
          PathSuffix(g, p, 1);
          assert Last(p[1..]) == Last(p);
        }
      }
    }
  }

  lemma {:induction false} DepthLimitedChildrenComplete(g: Graph, kids: seq<Node>, depth: nat, visited: set<Node>)
    ensures DepthLimitedChildren(g, kids, depth, visited).found.None? ==>
      forall i :: 0 <= i < |kids| ==> !GoalWithin(g, kids[i], depth)
    decreases depth, 2, |kids|
  {
    var r := DepthLimitedChildren(g, kids, depth, visited);
    if kids != [] && r.found.None? {
      var o := DepthLimited(g, kids[0], depth, visited);
      DepthLimitedComplete(g, kids[0], depth, visited);
      DepthLimitedChildrenComplete(g, kids[1..], depth, o.marked);
      forall i | 0 <= i < |kids|
        ensures !GoalWithin(g, kids[i], depth)
      {
        if i > 0 {
          assert kids[i] == kids[1..][i - 1];
        }
      }
    }
  }

  /** `depth_limited_dfs` succeeds at limit `depth` exactly when a goal path
      of at most `depth` nodes exists. */
  lemma DepthLimitedFindsIff(g: Graph, n: Node, depth: nat, visited: set<Node>)
    ensures DepthLimited(g, n, depth, visited).found.Some? <==> GoalWithin(g, n, depth)
  {
    DepthLimitedSound(g, n, depth, visited);
    DepthLimitedComplete(g, n, depth, visited);
  }

  /** Raising the limit never turns a success into a failure. */
  lemma DepthLimitedMonotone(g: Graph, n: Node, depth: nat, v1: set<Node>, v2: set<Node>)
    requires DepthLimited(g, n, depth, v1).found.Some?
    ensures DepthLimited(g, n, depth + 1, v2).found.Some?
  {
    DepthLimitedFindsIff(g, n, depth, v1);
    DepthLimitedFindsIff(g, n, depth + 1, v2);
  }

  /** The marks never influence the answer of `depth_limited_dfs`. */
  lemma {:induction false} DepthLimitedIgnoresMarks(g: Graph, n: Node, depth: nat, v1: set<Node>, v2: set<Node>)
    ensures DepthLimited(g, n, depth, v1).found == DepthLimited(g, n, depth, v2).found
    decreases depth, 1
  {
    if depth > 0 && !IsGoal(g, n) {
      DepthLimitedChildrenIgnoresMarks(g, Children(g, n), depth - 1, v1 + {n}, v2 + {n});
    }
  }

  lemma {:induction false} DepthLimitedChildrenIgnoresMarks(g: Graph, kids: seq<Node>, depth: nat, v1: set<Node>, v2: set<Node>)
    ensures DepthLimitedChildren(g, kids, depth, v1).found == DepthLimitedChildren(g, kids, depth, v2).found
    decreases depth, 2, |kids|
  {
    if kids != [] {
      DepthLimitedIgnoresMarks(g, kids[0], depth, v1, v2);
      var o1 := DepthLimited(g, kids[0], depth, v1);
      var o2 := DepthLimited(g, kids[0], depth, v2);
      if o1.found.None? {
        DepthLimitedChildrenIgnoresMarks(g, kids[1..], depth, o1.marked, o2.marked);
      }
    }
  }

  // ---------------------------------------------------------------------
  // iterative_deepening_dfs
  // ---------------------------------------------------------------------

  /** `iterative_deepening_dfs`: run `depth_limited_dfs` with limits 0, 1,
      2, ... on the same graph, so the marks pile up across runs, and
      return the first success. The source loops forever when no goal is
      reachable, so a reachable goal is required. The answer is the one
      `depth_limited_dfs` gives at the returned `limit`; every smaller limit
      fails, and the goal lies on a goal path no longer than any other. */
  method IterativeDeepening(g: Graph, root: Node, visited: set<Node>) returns (r: Option<Node>, marked: set<Node>, ghost limit: nat)
    requires exists p :: PathFrom(g, root, p) && IsGoal(g, Last(p))
    ensures r.Some? && IsGoal(g, r.value)
    ensures limit > 0 && r == DepthLimited(g, root, limit, visited).found
    ensures forall d :: 0 <= d < limit ==> DepthLimited(g, root, d, visited).found.None?
    ensures exists p :: PathFrom(g, root, p) && |p| == limit && Last(p) == r.value
    ensures forall q :: PathFrom(g, root, q) && IsGoal(g, Last(q)) ==> limit <= |q|
    ensures visited + {root} <= marked
  {
    ghost var w :| PathFrom(g, root, w) && IsGoal(g, Last(w));
    var depth: nat := 0;
    var o := DepthLimited(g, root, 0, visited);
    marked := o.marked;
    while o.found.None?
      invariant o.found == DepthLimited(g, root, depth, visited).found
      invariant forall d :: 0 <= d < depth ==> DepthLimited(g, root, d, visited).found.None?
      invariant o.found.None? ==> !GoalWithin(g, root, depth)
      invariant visited + {root} <= marked
      decreases |w| - depth
    {
      DepthLimitedComplete(g, root, depth, visited);
      depth := depth + 1;
      DepthLimitedIgnoresMarks(g, root, depth, marked, visited);
      o := DepthLimited(g, root, depth, marked);
      marked := o.marked;
      DepthLimitedComplete(g, root, depth, visited);
    }
    r := o.found;
    limit := depth;
    DepthLimitedSound(g, root, depth, visited);
    ghost var p :| PathFrom(g, root, p) && |p| <= depth && Last(p) == r.value;
    if depth > 0 {
      DepthLimitedComplete(g, root, depth - 1, visited);
    }
  }
}
