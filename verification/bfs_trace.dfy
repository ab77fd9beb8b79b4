/** The proof state of breadth-first search: the ghost history of a run,
    the invariant it keeps, and the lemmas that carry the invariant from one
    dequeue to the next and to the two ways a run ends. */
module BfsTrace {
  import opened Optional
  import opened Graphs

  /** A path from the root whose nodes after the first carry no earlier
      mark: the only paths a run starting from `marked` can follow. */
  ghost predicate ClearPath(g: Graph, root: Node, marked: set<Node>, p: seq<Node>) {
    PathFrom(g, root, p) && forall i :: 0 < i < |p| ==> p[i] !in marked
  }

  /** `p` reaches a goal in as few edges as any clear path can. */
  ghost predicate ShortestGoalPath(g: Graph, root: Node, marked: set<Node>, p: seq<Node>) {
    && ClearPath(g, root, marked, p)
    && IsGoal(g, Last(p))
    && forall q :: ClearPath(g, root, marked, q) && IsGoal(g, Last(q)) ==> |p| <= |q|
  }

  /** Ghost history of a run: every node ever enqueued, in order; how many
      of them have been dequeued; the level (edge distance) each was
      enqueued at; and a clear path of that many edges reaching it. */
  datatype Trace = Trace(enq: seq<Node>, head: nat, lvl: map<Node, nat>, wit: map<Node, seq<Node>>)


  ghost predicate Shape(root: Node, marked: set<Node>, visited: set<Node>, queue: seq<Node>, t: Trace) {
    && 0 < |t.enq|
    && t.head <= |t.enq|
    && t.enq[0] == root
    && queue == t.enq[t.head..]
    && Distinct(t.enq)
    && (forall i :: 0 < i < |t.enq| ==> t.enq[i] !in marked)
    && visited == marked + Elems(t.enq)
  }

  ghost predicate Witnessed(g: Graph, root: Node, marked: set<Node>, t: Trace) {
    && t.lvl.Keys == Elems(t.enq)
    && (forall v :: v in t.lvl ==>
          && v in t.wit
          && ClearPath(g, root, marked, t.wit[v])
          && Last(t.wit[v]) == v
          && |t.wit[v]| == t.lvl[v] + 1)
  }

  /** Levels never decrease along the queue, and the queue spans at most
      two consecutive levels. */
  ghost predicate Layered(t: Trace) {
    && (forall i :: 0 <= i < |t.enq| ==> t.enq[i] in t.lvl)
    && (forall i, j :: 0 <= i <= j < |t.enq| ==> t.lvl[t.enq[i]] <= t.lvl[t.enq[j]])
    && (t.head < |t.enq| ==> t.lvl[t.enq[|t.enq| - 1]] <= t.lvl[t.enq[t.head]] + 1)
  }

  /** Every dequeued node failed the goal test and has all children marked. */
  ghost predicate Expanded(g: Graph, visited: set<Node>, t: Trace) {
    forall i :: 0 <= i < t.head && i < |t.enq| ==>
      && !IsGoal(g, t.enq[i])
      && forall c :: c in Children(g, t.enq[i]) ==> c in visited
  }

  /** Every clear path shorter than the level at the queue's front ends at
      a node already dequeued. */
  ghost predicate Behind(g: Graph, root: Node, marked: set<Node>, t: Trace) {
    t.head < |t.enq| && t.enq[t.head] in t.lvl ==>
      forall p :: ClearPath(g, root, marked, p) && |p| - 1 < t.lvl[t.enq[t.head]] ==> Last(p) in t.enq[..t.head]
  }

  /** A recorded level is never longer than any clear path to that node. */
  ghost predicate Shortest(g: Graph, root: Node, marked: set<Node>, t: Trace) {
    forall p :: ClearPath(g, root, marked, p) && Last(p) in t.lvl ==> t.lvl[Last(p)] <= |p| - 1
  }

  ghost predicate Invariant(g: Graph, root: Node, marked: set<Node>, visited: set<Node>, queue: seq<Node>, t: Trace) {
    && Shape(root, marked, visited, queue, t)
    && Witnessed(g, root, marked, t)
    && Layered(t)
    && Expanded(g, visited, t)
    && Behind(g, root, marked, t)
    && Shortest(g, root, marked, t)
    && visited <= Universe(g, root) + marked
  }

  /** One pass of the loop: the front `u` is dequeued, is not a goal, and
      `added` lists its unmarked children. */
  ghost predicate Step(g: Graph, visited: set<Node>, t: Trace, added: seq<Node>) {
    && t.head < |t.enq|
    && t.enq[t.head] in t.lvl
    && t.enq[t.head] in t.wit
    && !IsGoal(g, t.enq[t.head])
    && (forall x :: x in added <==> x in Children(g, t.enq[t.head]) && x !in visited)
    && Distinct(added)
  }

  /** The ghost history after dequeuing the front and enqueuing `added`. */
  ghost function Advance(t: Trace, added: seq<Node>): Trace
    requires t.head < |t.enq|
    requires t.enq[t.head] in t.lvl && t.enq[t.head] in t.wit
  {
    var u := t.enq[t.head];
    Trace(
      t.enq + added,
      t.head + 1,
      t.lvl + map c | c in added :: t.lvl[u] + 1,
      t.wit + map c | c in added :: t.wit[u] + [c])
  }

  /** What `Advance` does, stated member by member. */
  ghost predicate Advanced(t: Trace, added: seq<Node>, t': Trace) {
    && t.head < |t.enq|
    && t.enq[t.head] in t.lvl
    && t.enq[t.head] in t.wit
    && t'.enq == t.enq + added
    && t'.head == t.head + 1
    && t'.lvl.Keys == t.lvl.Keys + Elems(added)
    && t'.wit.Keys == t.wit.Keys + Elems(added)
    && (forall v :: v in t.lvl && v !in added ==> t'.lvl[v] == t.lvl[v])
    && (forall v :: v in t.wit && v !in added ==> t'.wit[v] == t.wit[v])
    && (forall c :: c in added ==> t'.lvl[c] == t.lvl[t.enq[t.head]] + 1)
    && (forall c :: c in added ==> t'.wit[c] == t.wit[t.enq[t.head]] + [c])
  }

  lemma AdvanceIsAdvanced(t: Trace, added: seq<Node>)
    requires t.head < |t.enq|
    requires t.enq[t.head] in t.lvl && t.enq[t.head] in t.wit
    ensures Advanced(t, added, Advance(t, added))
  {
  }

  lemma ClearPathPrefix(g: Graph, root: Node, marked: set<Node>, p: seq<Node>)
    requires ClearPath(g, root, marked, p)
    requires |p| > 1
    ensures ClearPath(g, root, marked, p[..|p| - 1])
    ensures Last(p) in Children(g, Last(p[..|p| - 1]))
    ensures Last(p) !in marked
  {
    PathPrefix(g, root, p, |p| - 1);
  }

  lemma StepShape(root: Node, marked: set<Node>, visited: set<Node>, queue: seq<Node>, t: Trace, g: Graph, added: seq<Node>, t': Trace)
    requires Advanced(t, added, t')
    requires Shape(root, marked, visited, queue, t)
    requires Step(g, visited, t, added)
    ensures Shape(root, marked, visited + Elems(added), queue[1..] + added, t')
  {
    assert t'.enq[t'.head..] == queue[1..] + added;
    forall i, j | 0 <= i < j < |t'.enq|
      ensures t'.enq[i] != t'.enq[j]
    {
      if j >= |t.enq| && i < |t.enq| {
        assert t'.enq[i] in visited;
        assert t'.enq[j] in added;
      } else if j >= |t.enq| {
        assert t'.enq[i] == added[i - |t.enq|] && t'.enq[j] == added[j - |t.enq|];
      }
    }
    forall i | 0 < i < |t'.enq|
      ensures t'.enq[i] !in marked
    {
      if i >= |t.enq| {
        assert t'.enq[i] in added;
      }
    }
    assert Elems(t'.enq) == Elems(t.enq) + Elems(added);
  }

  lemma StepWitnessed(root: Node, marked: set<Node>, visited: set<Node>, queue: seq<Node>, t: Trace, g: Graph, added: seq<Node>, t': Trace)
    requires Advanced(t, added, t')
    requires Shape(root, marked, visited, queue, t)
    requires Witnessed(g, root, marked, t)
    requires Step(g, visited, t, added)
    ensures Witnessed(g, root, marked, t')
  {
    var u := t.enq[t.head];
    assert Elems(t'.enq) == Elems(t.enq) + Elems(added);
    forall c | c in added
      ensures ClearPath(g, root, marked, t'.wit[c]) && Last(t'.wit[c]) == c && |t'.wit[c]| == t'.lvl[c] + 1
    {
      PathExtend(g, root, t.wit[u], c);
      var p := t.wit[u] + [c];
      assert c !in marked;
      forall i | 0 < i < |p|
        ensures p[i] !in marked
      {
        if i < |t.wit[u]| {
          assert p[i] == t.wit[u][i];
        }
      }
    }
    forall v | v in t'.lvl && v !in added
      ensures t'.wit[v] == t.wit[v] && t'.lvl[v] == t.lvl[v]
    {
    }
  }

  lemma StepExpanded(root: Node, marked: set<Node>, visited: set<Node>, queue: seq<Node>, t: Trace, g: Graph, added: seq<Node>, t': Trace)
    requires Advanced(t, added, t')
    requires Shape(root, marked, visited, queue, t)
    requires Expanded(g, visited, t)
    requires Step(g, visited, t, added)
    ensures Expanded(g, visited + Elems(added), t')
    ensures visited <= Universe(g, root) + marked ==> visited + Elems(added) <= Universe(g, root) + marked
  {
    forall i | 0 <= i < t'.head && i < |t'.enq|
      ensures !IsGoal(g, t'.enq[i]) && forall c :: c in Children(g, t'.enq[i]) ==> c in visited + Elems(added)
    {
      assert t'.enq[i] == t.enq[i];
    }
    forall c | c in added
      ensures c in Universe(g, root)
    {
      ChildInNodes(g, t.enq[t.head], c);
    }
  }

  /** What the step lemmas below may assume of the history before a step. */
  ghost predicate StepFacts(root: Node, marked: set<Node>, visited: set<Node>, queue: seq<Node>, t: Trace, g: Graph, added: seq<Node>, t': Trace) {
    && Advanced(t, added, t')
    && Step(g, visited, t, added)
    && Shape(root, marked, visited, queue, t)
    && t.lvl.Keys == Elems(t.enq)
    && Expanded(g, visited, t)
    && Behind(g, root, marked, t)
    && Shortest(g, root, marked, t)
  }

  lemma StepLayered(root: Node, marked: set<Node>, visited: set<Node>, queue: seq<Node>, t: Trace, g: Graph, added: seq<Node>, t': Trace)
    requires Advanced(t, added, t')
    requires Shape(root, marked, visited, queue, t)
    requires Layered(t)
    requires Step(g, visited, t, added)
    ensures Layered(t')
  {
    var u := t.enq[t.head];
    var d := t.lvl[u];
    assert forall i :: 0 <= i < |t.enq| ==> t'.lvl[t.enq[i]] == t.lvl[t.enq[i]] by {
      forall i | 0 <= i < |t.enq|
        ensures t'.lvl[t.enq[i]] == t.lvl[t.enq[i]]
      {
        assert t.enq[i] in visited;
      }
    }
    assert forall i :: 0 <= i < |t.enq| ==> t.lvl[t.enq[i]] <= d + 1 by {
      forall i | 0 <= i < |t.enq|
        ensures t.lvl[t.enq[i]] <= d + 1
      {
        assert t.lvl[t.enq[i]] <= t.lvl[t.enq[|t.enq| - 1]];
      }
    }
    forall i | 0 <= i < |t'.enq|
      ensures t'.enq[i] in t'.lvl
    {
      if i >= |t.enq| {
        assert t'.enq[i] == added[i - |t.enq|];
      }
    }
    forall i, j | 0 <= i <= j < |t'.enq|
      ensures t'.lvl[t'.enq[i]] <= t'.lvl[t'.enq[j]]
    {
      if j < |t.enq| {
        assert t'.enq[i] == t.enq[i] && t'.enq[j] == t.enq[j];
      } else if i < |t.enq| {
        assert t'.enq[i] == t.enq[i];
        assert t'.enq[j] == added[j - |t.enq|];
      } else {
        assert t'.enq[i] == added[i - |t.enq|] && t'.enq[j] == added[j - |t.enq|];
      }
    }
    if t'.head < |t'.enq| {
      var last := t'.enq[|t'.enq| - 1];
      assert t'.lvl[last] <= d + 1 by {
        if |added| > 0 {
          assert last == added[|added| - 1];
        } else {
          assert last == t.enq[|t.enq| - 1];
        }
      }
      assert t'.enq[t.head] == u;
      assert d <= t'.lvl[t'.enq[t'.head]];
    }
  }

  lemma StepShortest(root: Node, marked: set<Node>, visited: set<Node>, queue: seq<Node>, t: Trace, g: Graph, added: seq<Node>, t': Trace)
    requires StepFacts(root, marked, visited, queue, t, g, added, t')
    ensures Shortest(g, root, marked, t')
  {
    var u := t.enq[t.head];
    forall p | ClearPath(g, root, marked, p) && Last(p) in t'.lvl
      ensures t'.lvl[Last(p)] <= |p| - 1
    {
      var v := Last(p);
      if v in t.lvl {
        assert v in visited;
        assert t'.lvl[v] == t.lvl[v];
      } else {
        assert v in added;
        if |p| - 1 < t'.lvl[v] {
          assert root in visited;
          assert |p| > 1;
          ClearPathPrefix(g, root, marked, p);
          assert false;
        }
      }
    }
  }

  lemma BehindFront(root: Node, marked: set<Node>, visited: set<Node>, queue: seq<Node>, t: Trace, g: Graph, added: seq<Node>, t': Trace)
    requires StepFacts(root, marked, visited, queue, t, g, added, t')
    requires Layered(t')
    requires t'.head < |t'.enq|
    requires t'.lvl[t'.enq[t.head + 1]] <= t.lvl[t.enq[t.head]] + 1
    ensures Behind(g, root, marked, t')
  {
    assert t'.enq[..t'.head] == t.enq[..t.head + 1];
    forall p | ClearPath(g, root, marked, p) && |p| - 1 < t'.lvl[t'.enq[t.head + 1]]
      ensures Last(p) in t.enq[..t.head + 1]
    {
      BehindOne(root, marked, visited, queue, t, g, added, t', p);
    }
  }

  /** After a step the queue's front is at most one level past the node
      just dequeued. */
  lemma FrontBound(root: Node, marked: set<Node>, visited: set<Node>, queue: seq<Node>, t: Trace, g: Graph, added: seq<Node>, t': Trace)
    requires StepFacts(root, marked, visited, queue, t, g, added, t')
    requires Layered(t)
    requires Layered(t')
    requires t'.head < |t'.enq|
    ensures t'.lvl[t'.enq[t'.head]] <= t.lvl[t.enq[t.head]] + 1
  {
    var u := t.enq[t.head];
    var front := t'.enq[t'.head];
    if t'.head < |t.enq| {
      assert front == t.enq[t'.head];
      assert t.lvl[front] <= t.lvl[t.enq[|t.enq| - 1]];
      assert front in visited;
    } else {
      assert front == added[0];
    }
  }

  /** The heart of `StepBehind`, for one clear path of length at most the
      dequeued node's level. */
  lemma BehindOne(root: Node, marked: set<Node>, visited: set<Node>, queue: seq<Node>, t: Trace, g: Graph, added: seq<Node>, t': Trace, p: seq<Node>)
    requires StepFacts(root, marked, visited, queue, t, g, added, t')
    requires Layered(t')
    requires t'.head < |t'.enq|
    requires ClearPath(g, root, marked, p)
    requires |p| - 1 < t'.lvl[t'.enq[t.head + 1]]
    requires t'.lvl[t'.enq[t.head + 1]] <= t.lvl[t.enq[t.head]] + 1
    ensures Last(p) in t.enq[..t.head + 1]
  {
    var u := t.enq[t.head];
    var d := t.lvl[u];
    var v := Last(p);
    if |p| - 1 < d {
      assert v in t.enq[..t.head];
    } else if |p| == 1 {
      assert v == t.enq[0];
    } else {
      ClearPathPrefix(g, root, marked, p);
      var w := Last(p[..|p| - 1]);
      assert w in t.enq[..t.head];
      var i :| 0 <= i < t.head && t.enq[i] == w;
      assert v in visited;
      var k :| 0 <= k < |t.enq| && t.enq[k] == v;
      assert t.lvl[v] <= |p| - 1;
      assert t'.enq[k] == v;
      assert t'.lvl[v] == t.lvl[v];
      if k > t.head {
        assert false;
      }
    }
  }

  /** When the queue has run dry, every clear path ends at an enqueued node. */
  lemma {:induction false} ClearPathsEnqueued(g: Graph, root: Node, marked: set<Node>, visited: set<Node>, t: Trace, p: seq<Node>)
    requires Shape(root, marked, visited, [], t)
    requires Expanded(g, visited, t)
    requires ClearPath(g, root, marked, p)
    ensures Last(p) in t.enq
    decreases |p|
  {
    if |p| > 1 {
      ClearPathPrefix(g, root, marked, p);
      ClearPathsEnqueued(g, root, marked, visited, t, p[..|p| - 1]);
      var w := Last(p[..|p| - 1]);
      var i :| 0 <= i < |t.enq| && t.enq[i] == w;
      assert Last(p) in visited;
    }
  }

  lemma WitnessesReachable(g: Graph, root: Node, marked: set<Node>, visited: set<Node>, queue: seq<Node>, t: Trace)
    requires Shape(root, marked, visited, queue, t)
    requires Witnessed(g, root, marked, t)
    ensures forall v :: v in visited ==> v in marked || Reachable(g, root, v)
  {
    forall v | v in visited && v !in marked
      ensures Reachable(g, root, v)
    {
      assert v in t.lvl;
      assert PathFrom(g, root, t.wit[v]);
    }
  }

  /** The history of a run that has only enqueued the root. */
  ghost function Start(root: Node): Trace {
    Trace([root], 0, map[root := 0], map[root := [root]])
  }

  lemma StartInvariant(g: Graph, root: Node, marked: set<Node>)
    ensures Invariant(g, root, marked, marked + {root}, [root], Start(root))
  {
    assert Elems([root]) == {root};
  }

  /** Expanding the node at the queue's front, enqueueing `added`, keeps
      the invariant for the history `t'` extended by `added`; the unvisited
      part of the universe shrinks unless nothing was enqueued. */
  lemma ExpandFront(g: Graph, root: Node, marked: set<Node>, visited: set<Node>, queue: seq<Node>, t: Trace, added: seq<Node>) returns (t': Trace)
    requires Invariant(g, root, marked, visited, queue, t)
    requires queue != [] && !IsGoal(g, queue[0])
    requires forall x :: x in added <==> x in Children(g, queue[0]) && x !in visited
    requires Distinct(added)
    ensures Invariant(g, root, marked, visited + Elems(added), queue[1..] + added, t')
    ensures added != [] ==> Universe(g, root) + marked - (visited + Elems(added)) < Universe(g, root) + marked - visited
  {
    t' := Advance(t, added);
    assert queue[0] == t.enq[t.head];
    assert Step(g, visited, t, added);
    AdvanceIsAdvanced(t, added);
    StepShape(root, marked, visited, queue, t, g, added, t');
    StepWitnessed(root, marked, visited, queue, t, g, added, t');
    StepExpanded(root, marked, visited, queue, t, g, added, t');
    StepLayered(root, marked, visited, queue, t, g, added, t');
    assert StepFacts(root, marked, visited, queue, t, g, added, t');
    StepShortest(root, marked, visited, queue, t, g, added, t');
    if t'.head < |t'.enq| {
      FrontBound(root, marked, visited, queue, t, g, added, t');
      BehindFront(root, marked, visited, queue, t, g, added, t');
    }
    if added != [] {
      var c := added[0];
      ChildInNodes(g, queue[0], c);
      assert c in Universe(g, root) + marked - visited;
    }
  }

  /** A goal at the queue's front is the end of a shortest clear path, and
      is the root whenever the root is a goal. */
  lemma GoalDequeued(g: Graph, root: Node, marked: set<Node>, visited: set<Node>, queue: seq<Node>, t: Trace)
    requires Invariant(g, root, marked, visited, queue, t)
    requires queue != [] && IsGoal(g, queue[0])
    ensures ShortestGoalPath(g, root, marked, t.wit[queue[0]]) && Last(t.wit[queue[0]]) == queue[0]
    ensures IsGoal(g, root) ==> queue[0] == root
  {
    var u := queue[0];
    assert u == t.enq[t.head];
    var p := t.wit[u];
    forall q | ClearPath(g, root, marked, q) && IsGoal(g, Last(q))
      ensures |p| <= |q|
    {
      if |q| - 1 < t.lvl[u] {
        assert false;
      }
    }
    if t.head > 0 {
      assert !IsGoal(g, t.enq[0]);
    }
  }

  /** Once the queue is empty, every clear path ends at a marked non-goal. */
  lemma QueueExhausted(g: Graph, root: Node, marked: set<Node>, visited: set<Node>, t: Trace)
    requires Invariant(g, root, marked, visited, [], t)
    ensures forall p :: ClearPath(g, root, marked, p) ==> !IsGoal(g, Last(p)) && Last(p) in visited
    ensures !IsGoal(g, root)
  {
    forall p | ClearPath(g, root, marked, p)
      ensures !IsGoal(g, Last(p)) && Last(p) in visited
    {
      ClearPathsEnqueued(g, root, marked, visited, t, p);
    }
    assert !IsGoal(g, t.enq[0]);
  }
}
