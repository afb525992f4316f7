/** The entries of simclist's lists: doubly linked nodes between two sentinels, seen through the
    sequence of the nodes from one sentinel to the other. */
module ListNodes {
  /** A datum is a pointer that the lists only store and hand back. */
  type Elem = int
  const NULL: Elem := 0

  /** struct list_entry_s */
  class Node {
    var data: Elem
    var next: Node?
    var prev: Node?

    constructor (data: Elem)
      ensures this.data == data && next == null && prev == null
    {
      this.data, next, prev := data, null, null;
    }
  }

  predicate Distinct(ns: seq<Node>) {
    forall i, j :: 0 <= i < j < |ns| ==> ns[i] != ns[j]
  }

  /** next and prev are inverse along ns. */
  ghost predicate Chain(ns: seq<Node>)
    reads ns`next, ns`prev
  {
    forall i, j :: 0 <= i && j == i + 1 && j < |ns| ==> ns[i].next == ns[j] && ns[j].prev == ns[i]
  }

  /** ns is a whole list, from head sentinel to tail sentinel. */
  ghost predicate Linked(ns: seq<Node>)
    reads ns`next, ns`prev
  {
    && |ns| >= 2 && Distinct(ns) && Chain(ns)
    && ns[0].prev == null && ns[|ns| - 1].next == null
  }

  /** The nodes between the sentinels hold elems, and the sentinels nothing. */
  ghost predicate Holds(ns: seq<Node>, elems: seq<Elem>)
    reads ns`data
  {
    && |ns| == |elems| + 2 && ns[0].data == NULL && ns[|ns| - 1].data == NULL
    && forall i {:trigger elems[i]} :: 0 <= i < |elems| ==> ns[i + 1].data == elems[i]
  }

  /** s with x at position p. */
  function Inserted<T>(s: seq<T>, p: nat, x: T): (r: seq<T>)
    requires p <= |s|
    ensures |r| == |s| + 1
    ensures forall i {:trigger r[i]} :: 0 <= i < |r| ==> r[i] == if i < p then s[i] else if i == p then x else s[i - 1]
  {
    s[..p] + [x] + s[p..]
  }

  /** s without positions from..to. */
  function Without<T>(s: seq<T>, from: nat, to: nat): (r: seq<T>)
    requires from <= to <= |s|
    ensures |r| == |s| - (to - from)
    ensures forall i {:trigger r[i]} :: 0 <= i < |r| ==> r[i] == if i < from then s[i] else s[i + (to - from)]
  {
    s[..from] + s[to..]
  }

  lemma NextOf(ns: seq<Node>, i: nat)
    requires Linked(ns) && i < |ns|
    ensures ns[i].next == if i + 1 < |ns| then ns[i + 1] else null
    ensures ns[i].prev == if i > 0 then ns[i - 1] else null
  {
  }

  lemma DistinctInserted(ns: seq<Node>, p: nat, x: Node)
    requires Distinct(ns) && p <= |ns| && x !in ns
    ensures Distinct(Inserted(ns, p, x))
  {
  }

  lemma DistinctWithout(ns: seq<Node>, from: nat, to: nat)
    requires Distinct(ns) && from <= to <= |ns|
    ensures Distinct(Without(ns, from, to))
    ensures forall x :: x in ns[from..to] ==> x !in Without(ns, from, to)
  {
  }

  lemma InsertedFacts<T>(s: seq<T>, p: nat, x: T)
    requires p <= |s|
    ensures |Inserted(s, p, x)| == |s| + 1 && Inserted(s, p, x)[p] == x
    ensures p < |s| ==> Inserted(s, p, x)[|s|] == s[|s| - 1]
    ensures p > 0 ==> Inserted(s, p, x)[0] == s[0]
    ensures Without(Inserted(s, p, x), p, p + 1) == s
    ensures forall y :: y in Inserted(s, p, x) <==> y in s || y == x
  {
  }

  lemma HeldAt(ns: seq<Node>, elems: seq<Elem>, i: nat)
    requires Holds(ns, elems) && i < |elems|
    ensures ns[i + 1].data == elems[i]
  {
  }

  lemma HeldLength(ns: seq<Node>, elems: seq<Elem>)
    requires Holds(ns, elems)
    ensures |ns| == |elems| + 2
  {
  }

  lemma SameNode(ns: seq<Node>, i: nat, j: nat)
    requires Linked(ns) && i < |ns| && j < |ns|
    ensures ns[i] == ns[j] <==> i == j
  {
  }

  lemma HoldsInserted(ns: seq<Node>, elems: seq<Elem>, p: nat, x: Node)
    requires Holds(ns, elems) && p <= |elems|
    ensures Holds(Inserted(ns, p + 1, x), Inserted(elems, p, x.data))
  {
    hide Inserted;
  }

  lemma HoldsWithout(ns: seq<Node>, elems: seq<Elem>, from: nat, to: nat)
    requires Holds(ns, elems) && from <= to <= |elems|
    ensures Holds(Without(ns, from + 1, to + 1), Without(elems, from, to))
  {
    hide Without;
  }

  /** Hooking a node in between ns[p - 1] and ns[p]. */
  method LinkIn(prec: Node, succ: Node, lent: Node, ghost ns: seq<Node>, ghost p: nat)
    requires Linked(ns) && 1 <= p < |ns| && prec == ns[p - 1] && succ == ns[p] && lent !in ns
    modifies prec`next, lent`prev, lent`next, succ`prev
    ensures Linked(Inserted(ns, p, lent))
  {
    prec.next := lent;
    lent.prev := prec;
    lent.next := succ;
    succ.prev := lent;
    DistinctInserted(ns, p, lent);
  }

  /** Unhooking the nodes from..to. */
  method LinkOut(before: Node, after: Node, ghost ns: seq<Node>, ghost from: nat, ghost to: nat)
    requires Linked(ns) && 1 <= from <= to < |ns| && before == ns[from - 1] && after == ns[to]
    modifies before`next, after`prev
    ensures Linked(Without(ns, from, to))
  {
    before.next := after;
    after.prev := before;
    DistinctWithout(ns, from, to);
  }

  /** Following next from index i to index to; the head sentinel has index -1. */
  method Rightward(from: Node, i: int, to: int, ghost ns: seq<Node>) returns (ptr: Node)
    requires Linked(ns) && -1 <= i <= to < |ns| - 1 && from == ns[i + 1]
    ensures ptr == ns[to + 1]
  {
    var k := i;
    ptr := from;
    while k < to
      invariant i <= k <= to && ptr == ns[k + 1]
    {
      assert ns[k + 1].next == ns[k + 2];
      ptr := ptr.next;
      k := k + 1;
    }
  }

  /** Following prev from index i to index to. */
  method Leftward(from: Node, i: int, to: int, ghost ns: seq<Node>) returns (ptr: Node)
    requires Linked(ns) && -1 <= to <= i < |ns| - 1 && from == ns[i + 1]
    ensures ptr == ns[to + 1]
  {
    var k := i;
    ptr := from;
    while k > to
      invariant to <= k <= i && ptr == ns[k + 1]
    {
      assert ns[k + 1].prev == ns[k];
      ptr := ptr.prev;
      k := k - 1;
    }
  }
}
