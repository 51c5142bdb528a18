/**
 * The doubly linked LIST macros. An element's back link is not a pointer to its predecessor but to the
 * pointer that points at the element: the head's first field or the predecessor's next field.
 */
module ListQueue {
  import opened Sequences

  /** The address of a head's first field or of a node's next field. */
  datatype Link = FromHead(head: Head) | FromNode(node: Node)

  class Head {
    var first: Node?

    constructor ()
      ensures first == null
    {
      first := null;
    }
  }

  /** One intrusive element; socket_state_t. */
  class Node {
    var next: Node?
    var prev: Link
    const fd: int

    constructor (fd: int, home: Head)
      ensures this.fd == fd
    {
      this.fd := fd;
      next := null;
      prev := FromHead(home);
    }
  }

  /** The node at position k, or null past the end. */
  ghost function At(ns: seq<Node>, k: nat): Node? {
    if k < |ns| then ns[k] else null
  }

  /** The address of the pointer that leads to position k. */
  ghost function Slot(h: Head, ns: seq<Node>, k: nat): Link
    requires k <= |ns|
  {
    if k == 0 then FromHead(h) else FromNode(ns[k - 1])
  }

  /** The node at position i points forward at its successor and back at the pointer leading to it. */
  ghost predicate Linked(h: Head, ns: seq<Node>, i: nat)
    requires i < |ns|
    reads ns
  {
    ns[i].next == At(ns, i + 1) && ns[i].prev == Slot(h, ns, i)
  }

  /** The list headed by h consists of exactly the nodes ns, in this order. */
  ghost predicate Chain(h: Head, ns: seq<Node>)
    reads h, ns
  {
    && h.first == At(ns, 0)
    && (forall i {:trigger Linked(h, ns, i)} :: 0 <= i < |ns| ==> Linked(h, ns, i))
    && Distinct(ns)
  }

  /** The pointer a link addresses. */
  function Target(l: Link): Node?
    reads match l case FromHead(h) => {h as object} case FromNode(n) => {n as object}
  {
    match l
    case FromHead(h) => h.first
    case FromNode(n) => n.next
  }

  method Store(l: Link, value: Node?)
    modifies (if l.FromHead? then {l.head} else {})`first, (if l.FromNode? then {l.node} else {})`next
    ensures Target(l) == value
  {
    match l {
      case FromHead(h) => h.first := value;
      case FromNode(n) => n.next := value;
    }
  }

  method ListInsertHead(h: Head, elm: Node, ghost ns: seq<Node>)
    requires Chain(h, ns) && elm !in ns
    modifies h`first, elm`next, elm`prev, ns`prev
    ensures Chain(h, [elm] + ns)
  {
    ghost var r := [elm] + ns;
    assert ns != [] ==> Linked(h, ns, 0);
    elm.next := h.first;
    if elm.next != null {
      h.first.prev := FromNode(elm);
    }
    h.first := elm;
    elm.prev := FromHead(h);
    forall j | 0 <= j < |r| ensures Linked(h, r, j) {
      if j > 0 { assert old(Linked(h, ns, j - 1)); }
    }
  }

  /** What stands at position j, and leads to it, once the node at i is left out. */
  lemma WithoutAt(h: Head, ns: seq<Node>, i: nat, j: nat)
    requires i < |ns|
    ensures At(Without(ns, i), j) == At(ns, if j < i then j else j + 1)
    ensures j < |Without(ns, i)| ==> Slot(h, Without(ns, i), j) == Slot(h, ns, if j <= i then j else j + 1)
  {
  }

  /** Removal needs no head: the back link reaches whatever points at the element. */
  method ListRemove(elm: Node, ghost h: Head, ghost ns: seq<Node>, ghost i: nat)
    requires Chain(h, ns) && i < |ns| && ns[i] == elm
    modifies h`first, ns`next, ns`prev
    ensures Chain(h, Without(ns, i))
  {
    ghost var r := Without(ns, i);
    assert Linked(h, ns, i) && (i > 0 ==> Linked(h, ns, i - 1)) && (i + 1 < |ns| ==> Linked(h, ns, i + 1));
    WithoutDistinct(ns, i);
    WithoutAt(h, ns, i, 0);
    assert forall j :: 0 <= j < |r| ==> r[j] == ns[if j < i then j else j + 1];
    hide Without;
    if elm.next != null {
      elm.next.prev := elm.prev;
    }
    Store(elm.prev, elm.next);
    forall j | 0 <= j < |r| ensures Linked(h, r, j) {
      var k := if j < i then j else j + 1;
      assert old(Linked(h, ns, k));
      WithoutAt(h, ns, i, j);
      WithoutAt(h, ns, i, j + 1);
      assert r[j] == ns[k] && (k != i - 1 ==> ns[k].next == old(ns[k].next));
      assert k != i + 1 ==> ns[k].prev == old(ns[k].prev);
    }
  }

  /** Each back link addresses a pointer at its own element. */
  lemma PrevAddressesSelf(h: Head, ns: seq<Node>, i: nat)
    requires Chain(h, ns) && i < |ns|
    ensures Target(ns[i].prev) == ns[i]
  {
    assert Linked(h, ns, i) && (i > 0 ==> Linked(h, ns, i - 1));
  }

  lemma {:induction false} SameAt(h: Head, ns: seq<Node>, ms: seq<Node>, k: nat)
    requires Chain(h, ns) && Chain(h, ms)
    ensures At(ns, k) == At(ms, k)
  {
    if k > 0 {
      SameAt(h, ns, ms, k - 1);
      if k - 1 < |ns| {
        assert Linked(h, ns, k - 1) && Linked(h, ms, k - 1);
      }
    }
  }

  /** A head determines its list: no two sequences of nodes fit the same pointers. */
  lemma ChainUnique(h: Head, ns: seq<Node>, ms: seq<Node>)
    requires Chain(h, ns) && Chain(h, ms)
    ensures ns == ms
  {
    SameAt(h, ns, ms, |ns|);
    SameAt(h, ns, ms, |ms|);
    forall k | 0 <= k < |ns| ensures ns[k] == ms[k] {
      SameAt(h, ns, ms, k);
    }
  }
}
