/** The search loop Dijkstra and greedy best-first share: a priority
    frontier seeded with the root, where each popped node's unvisited
    children are goal-tested as they are discovered, and every non-goal
    child is marked, given a parent and pushed once. The two searchers
    differ only in what they key the frontier by, which way the heap pops,
    and whether a goal child is given its parent before the return. */
module Discovery {
  import opened Optional
  import opened Graphs
  import opened HeapElements
  import opened Parents

  /** `LastEdge`: `edge_weight(parent, child)`, the last edge only.
      `Estimate`: `heuristic(child)`. */
  datatype Key = LastEdge | Estimate

  datatype Policy = Policy(key: Key, order: HeapOrder, parentGoal: bool)

  function KeyOf(g: Graph, policy: Policy, parent: Node, child: Node): int {
    match policy.key
    case LastEdge => EdgeWeight(g, parent, child)
    case Estimate => Heuristic(g, child)
  }

  /** The frontier entries for children `cs` of `u`. */
  function Pushes(g: Graph, policy: Policy, u: Node, cs: seq<Node>): (r: seq<HeapElement>)
    ensures |r| == |cs| && forall i :: 0 <= i < |cs| ==> r[i] == New(cs[i], KeyOf(g, policy, u, cs[i]))
  {
    seq(|cs|, i requires 0 <= i < |cs| => New(cs[i], KeyOf(g, policy, u, cs[i])))
  }

  /** `parents` after `u` is recorded as the parent of each of `cs`. */
  function Adopt(parents: map<Node, Node>, cs: seq<Node>, u: Node): (r: map<Node, Node>)
    ensures r.Keys == parents.Keys + Elems(cs)
    ensures forall c :: c in r ==> r[c] == if c in cs then u else parents[c]
  {
    parents + map c | c in cs :: u
  }

  /** The position of the first goal in `s`, or `|s|` when there is none. */
  function FirstGoal(g: Graph, s: seq<Node>): (j: nat)
    ensures j <= |s|
    ensures forall i :: 0 <= i < j ==> !IsGoal(g, s[i])
    ensures j < |s| ==> IsGoal(g, s[j])
    decreases |s|
  {
    if s == [] || IsGoal(g, s[0]) then 0 else 1 + FirstGoal(g, s[1..])
  }

  lemma FirstGoalAt(g: Graph, s: seq<Node>, j: nat)
    requires j <= |s|
    requires forall i :: 0 <= i < j ==> !IsGoal(g, s[i])
    requires j < |s| ==> IsGoal(g, s[j])
    ensures FirstGoal(g, s) == j
  {
  }

  /** What one expansion of `u` discovers: the fresh children in adjacency
      order, up to (not including) the first goal among them. */
  function Admitted(g: Graph, u: Node, visited: set<Node>): seq<Node> {
    var f := Fresh(Children(g, u), visited);
    f[..FirstGoal(g, f)]
  }

  /** The goal child an expansion of `u` stops at, if any. */
  function Discovered(g: Graph, u: Node, visited: set<Node>): Option<Node> {
    var f := Fresh(Children(g, u), visited);
    var j := FirstGoal(g, f);
    if j < |f| then Some(f[j]) else None
  }

  /** The children an expansion records `u` as the parent of. */
  function Adopted(g: Graph, policy: Policy, u: Node, visited: set<Node>): seq<Node> {
    var a := Admitted(g, u, visited);
    match Discovered(g, u, visited)
    case Some(c) => if policy.parentGoal then a + [c] else a
    case None => a
  }

  /** The children loop of one expansion. */
  method Scan(g: Graph, policy: Policy, u: Node, visited: set<Node>, parents: map<Node, Node>, heap: seq<HeapElement>)
    returns (found: Option<Node>, visited': set<Node>, parents': map<Node, Node>, heap': seq<HeapElement>)
    ensures found == Discovered(g, u, visited)
    ensures visited' == visited + Elems(Admitted(g, u, visited))
    ensures heap' == heap + Pushes(g, policy, u, Admitted(g, u, visited))
    ensures parents' == Adopt(parents, Adopted(g, policy, u, visited), u)
  {
    var kids := Children(g, u);
    found, visited', parents', heap' := None, visited, parents, heap;
    var i := 0;
    while i < |kids|
      invariant found.None?
      invariant Scanned(g, policy, u, visited, parents, heap, i, visited', parents', heap')
      decreases |kids| - i
    {
      var stop;
      stop, found, visited', parents', heap' := ScanChild(g, policy, u, visited, parents, heap, i, visited', parents', heap');
      if stop {
        return;
      }
      i := i + 1;
    }
    ScanEnd(g, u, visited);
  }

  /** The state of the children loop after the first `i` children, none of
      them a fresh goal. */
  ghost predicate Scanned(g: Graph, policy: Policy, u: Node, visited: set<Node>, parents: map<Node, Node>, heap: seq<HeapElement>,
                          i: nat, visited': set<Node>, parents': map<Node, Node>, heap': seq<HeapElement>)
  {
    && i <= |Children(g, u)|
    && var a := Fresh(Children(g, u)[..i], visited);
    && FirstGoal(g, a) == |a|
    && visited' == visited + Elems(a)
    && heap' == heap + Pushes(g, policy, u, a)
    && parents' == Adopt(parents, a, u)
  }

  /** One turn of the children loop: skip a visited child; stop at a fresh
      goal (recording its parent first when the policy says so); otherwise
      mark the child, record its parent and push it. */
  method ScanChild(g: Graph, policy: Policy, u: Node, visited: set<Node>, parents: map<Node, Node>, heap: seq<HeapElement>,
                   i: nat, v: set<Node>, p: map<Node, Node>, h: seq<HeapElement>)
    returns (stop: bool, found: Option<Node>, v': set<Node>, p': map<Node, Node>, h': seq<HeapElement>)
    requires i < |Children(g, u)|
    requires Scanned(g, policy, u, visited, parents, heap, i, v, p, h)
    ensures stop ==> found == Discovered(g, u, visited) && found.Some?
    ensures stop ==> v' == visited + Elems(Admitted(g, u, visited))
    ensures stop ==> h' == heap + Pushes(g, policy, u, Admitted(g, u, visited))
    ensures stop ==> p' == Adopt(parents, Adopted(g, policy, u, visited), u)
    ensures !stop ==> found.None? && Scanned(g, policy, u, visited, parents, heap, i + 1, v', p', h')
  {
    var c := Children(g, u)[i];
    stop, found, v', p', h' := false, None, v, p, h;
    if c !in v {
      if policy.parentGoal {
        p' := p'[c := u];
      }
      if IsGoal(g, c) {
        stop, found := true, Some(c);
        StopAtGoal(g, policy, u, visited, i, parents, p');
        return;
      }
      v' := v' + {c};
      if !policy.parentGoal {
        p' := p'[c := u];
      }
      h' := h' + [New(c, KeyOf(g, policy, u, c))];
      AdmitStep(g, policy, u, visited, parents, heap, i, v, p, h);
    } else {
      SkipStep(g, policy, u, visited, parents, heap, i, v, p, h);
    }
  }

  lemma SkipStep(g: Graph, policy: Policy, u: Node, visited: set<Node>, parents: map<Node, Node>, heap: seq<HeapElement>,
                 i: nat, v: set<Node>, p: map<Node, Node>, h: seq<HeapElement>)
    requires i < |Children(g, u)|
    requires Scanned(g, policy, u, visited, parents, heap, i, v, p, h)
    requires Children(g, u)[i] in v
    ensures Scanned(g, policy, u, visited, parents, heap, i + 1, v, p, h)
  {
    FreshStep(Children(g, u), i, visited);
  }

  lemma AdmitStep(g: Graph, policy: Policy, u: Node, visited: set<Node>, parents: map<Node, Node>, heap: seq<HeapElement>,
                  i: nat, v: set<Node>, p: map<Node, Node>, h: seq<HeapElement>)
    requires i < |Children(g, u)|
    requires Scanned(g, policy, u, visited, parents, heap, i, v, p, h)
    requires Children(g, u)[i] !in v && !IsGoal(g, Children(g, u)[i])
    ensures var c := Children(g, u)[i];
      Scanned(g, policy, u, visited, parents, heap, i + 1, v + {c}, p[c := u], h + [New(c, KeyOf(g, policy, u, c))])
  {
    var c := Children(g, u)[i];
    var a := Fresh(Children(g, u)[..i], visited);
    FreshStep(Children(g, u), i, visited);
    PushesSnoc(g, policy, u, a, c);
    AdoptSnoc(parents, a, c, u);
    ElemsSnoc(a, c);
    FirstGoalAt(g, a + [c], |a + [c]|);
  }

  lemma PushesSnoc(g: Graph, policy: Policy, u: Node, cs: seq<Node>, c: Node)
    ensures Pushes(g, policy, u, cs + [c]) == Pushes(g, policy, u, cs) + [New(c, KeyOf(g, policy, u, c))]
  {
  }

  lemma AdoptSnoc(parents: map<Node, Node>, cs: seq<Node>, c: Node, u: Node)
    ensures Adopt(parents, cs + [c], u) == Adopt(parents, cs, u)[c := u]
  {
  }

  lemma ElemsSnoc(cs: seq<Node>, c: Node)
    ensures Elems(cs + [c]) == Elems(cs) + {c}
  {
  }

  /** A fresh goal at position `i` of the children is the first goal the
      expansion meets, and what came before it is what the expansion admits. */
  lemma GoalPosition(g: Graph, kids: seq<Node>, i: nat, visited: set<Node>)
    requires i < |kids|
    requires FirstGoal(g, Fresh(kids[..i], visited)) == |Fresh(kids[..i], visited)|
    requires kids[i] !in visited + Elems(Fresh(kids[..i], visited))
    requires IsGoal(g, kids[i])
    ensures var f, a := Fresh(kids, visited), Fresh(kids[..i], visited);
      |a| < |f| && f[..|a|] == a && f[|a|] == kids[i] && FirstGoal(g, f) == |a|
  {
    var a := Fresh(kids[..i], visited);
    FreshStep(kids, i, visited);
    assert kids == kids[..i + 1] + kids[i + 1..];
    FreshAppend(kids[..i + 1], kids[i + 1..], visited);
    var f := Fresh(kids, visited);
    assert f[..|a|] == a && f[|a|] == kids[i];
    FirstGoalAt(g, f, |a|);
  }

  lemma StopAtGoal(g: Graph, policy: Policy, u: Node, visited: set<Node>, i: nat, parents: map<Node, Node>, parents': map<Node, Node>)
    requires i < |Children(g, u)|
    requires FirstGoal(g, Fresh(Children(g, u)[..i], visited)) == |Fresh(Children(g, u)[..i], visited)|
    requires Children(g, u)[i] !in visited + Elems(Fresh(Children(g, u)[..i], visited))
    requires IsGoal(g, Children(g, u)[i])
    requires parents' == if policy.parentGoal then Adopt(parents, Fresh(Children(g, u)[..i], visited), u)[Children(g, u)[i] := u]
      else Adopt(parents, Fresh(Children(g, u)[..i], visited), u)
    ensures Discovered(g, u, visited) == Some(Children(g, u)[i])
    ensures Admitted(g, u, visited) == Fresh(Children(g, u)[..i], visited)
    ensures parents' == Adopt(parents, Adopted(g, policy, u, visited), u)
  {
    var kids := Children(g, u);
    var a := Fresh(kids[..i], visited);
    GoalPosition(g, kids, i, visited);
    if policy.parentGoal {
      AdoptSnoc(parents, a, kids[i], u);
    }
  }

  lemma ScanEnd(g: Graph, u: Node, visited: set<Node>)
    requires FirstGoal(g, Fresh(Children(g, u)[..|Children(g, u)|], visited)) == |Fresh(Children(g, u)[..|Children(g, u)|], visited)|
    ensures Discovered(g, u, visited) == None
    ensures Admitted(g, u, visited) == Fresh(Children(g, u)[..|Children(g, u)|], visited)
  {
    assert Children(g, u)[..|Children(g, u)|] == Children(g, u);
  }
}
