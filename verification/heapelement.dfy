/** A frontier entry: a node paired with an integer priority. Its ordering
    is the reverse of the cost order, so that a max-heap of entries hands
    out the cheapest entry first. Equality looks at the cost alone. */
module HeapElements {
  import opened Optional
  import opened Graphs

  datatype HeapElement = HeapElement(node: Node, cost: int)

  datatype Ordering = Less | Equal | Greater

  /** The ordering with both sides exchanged. */
  function Flip(o: Ordering): Ordering {
    match o
    case Less => Greater
    case Equal => Equal
    case Greater => Less
  }

  /** Total order on (unbounded) integers. */
  function IntCmp(a: int, b: int): (o: Ordering)
    ensures o == Less <==> a < b
    ensures o == Equal <==> a == b
    ensures o == Greater <==> a > b
  {
    if a < b then Less else if a == b then Equal else Greater
  }

  function New(node: Node, cost: int): HeapElement {
    HeapElement(node, cost)
  }

  function NodeOf(e: HeapElement): Node {
    e.node
  }

  /** `new` keeps both fields and `node()` gives the stored node back. */
  lemma NewThenNode(n: Node, c: int)
    ensures NodeOf(New(n, c)) == n && New(n, c).cost == c
  {
  }

  /** Equality compares the costs only. */
  predicate Eq(a: HeapElement, b: HeapElement) {
    a.cost == b.cost
  }

  /** Entries for different nodes with the same cost are equal. */
  lemma EqIgnoresNode(a: HeapElement, b: HeapElement)
    requires a.node != b.node && a.cost == b.cost
    ensures Eq(a, b)
  {
  }

  /** The reversed cost order: the cheaper entry is the greater one. */
  function Cmp(a: HeapElement, b: HeapElement): (o: Ordering)
    ensures o == Greater <==> a.cost < b.cost
    ensures o == Less <==> a.cost > b.cost
    ensures o == Equal <==> Eq(a, b)
  {
    IntCmp(b.cost, a.cost)
  }

  /** `partial_cmp` is total and agrees with `cmp`. */
  function PartialCmp(a: HeapElement, b: HeapElement): (r: Option<Ordering>)
    ensures r.Some? && r.value == Cmp(a, b)
  {
    Some(IntCmp(b.cost, a.cost))
  }

  /** `cmp` is antisymmetric: exchanging the arguments flips the answer. */
  lemma CmpAntisymmetric(a: HeapElement, b: HeapElement)
    ensures Cmp(a, b) == Flip(Cmp(b, a))
  {
  }

  /** `cmp` never answers Greater both ways, and is transitive. */
  lemma CmpTransitive(a: HeapElement, b: HeapElement, c: HeapElement)
    requires Cmp(a, b) != Less && Cmp(b, c) != Less
    ensures Cmp(a, c) != Less
  {
  }

  // ---------------------------------------------------------------------
  // The binary heap the searchers use as their frontier
  // ---------------------------------------------------------------------

  /** How the heap compares its entries: by `HeapElement`'s own order, or
      through the standard `Reverse` wrapper, which flips it again. */
  datatype HeapOrder = Natural | Reversed

  function Compare(order: HeapOrder, a: HeapElement, b: HeapElement): Ordering {
    match order
    case Natural => Cmp(a, b)
    case Reversed => Cmp(b, a)
  }

  /** The node of each entry. */
  function HeapNodes(heap: seq<HeapElement>): set<Node> {
    set e | e in heap :: e.node
  }

  /** Pop the greatest entry of a max-heap: under the natural order the
      cheapest, under the reversed order the dearest. An empty heap yields
      nothing. Which of several equally great entries comes out is not
      specified. */
  method Pop(heap: seq<HeapElement>, order: HeapOrder) returns (top: Option<HeapElement>, rest: seq<HeapElement>)
    ensures heap == [] <==> top.None?
    ensures top.None? ==> rest == []
    ensures top.Some? ==> top.value in heap && |rest| == |heap| - 1
    ensures top.Some? ==> multiset(rest) + multiset{top.value} == multiset(heap)
    ensures top.Some? ==> forall o :: o in rest ==> o in heap
    ensures top.Some? ==> forall o :: o in heap ==> o == top.value || o in rest
    ensures top.Some? ==> forall o :: o in heap ==> Compare(order, top.value, o) != Less
    ensures top.Some? && order == Natural ==> forall o :: o in heap ==> top.value.cost <= o.cost
    ensures top.Some? && order == Reversed ==> forall o :: o in heap ==> top.value.cost >= o.cost
  {
    if |heap| == 0 {
      return None, [];
    }
    var best := 0;
    var i := 1;
    while i < |heap|
      invariant 0 <= best < i <= |heap|
      invariant forall j :: 0 <= j < i ==> Compare(order, heap[best], heap[j]) != Less
    {
      if Compare(order, heap[best], heap[i]) == Less {
        best := i;
      }
      i := i + 1;
    }
    top := Some(heap[best]);
    rest := heap[..best] + heap[best + 1..];
    assert heap == heap[..best] + [heap[best]] + heap[best + 1..];
    assert forall o :: o in rest ==> o in heap by {
      forall o | o in rest
        ensures o in heap
      {
        assert o in multiset(rest);
      }
    }
  }

  /** `m` is the largest of 1 and the recorded frontier sizes. */
  predicate Peak(m: nat, sizes: seq<nat>) {
    && m >= 1
    && (forall i :: 0 <= i < |sizes| ==> sizes[i] <= m)
    && (m == 1 || m in sizes)
  }

  lemma PeakStep(m: nat, sizes: seq<nat>, size: nat)
    requires Peak(m, sizes)
    ensures Peak(if size > m then size else m, sizes + [size])
  {
    var m' := if size > m then size else m;
    if m' != 1 {
      if size > m {
        assert (sizes + [size])[|sizes|] == size;
      } else {
        assert m in sizes;
      }
    }
  }
}
