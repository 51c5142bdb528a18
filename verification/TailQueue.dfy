/**
 * The TAILQ macros: doubly linked tail queues. Back links and the tail pointer address next fields, so
 * every operation but the walks is a constant number of pointer updates, and a head and an element lay
 * out their two words alike: a pointer first, a link second. The backward macros read the second word
 * of whatever a link addresses.
 */
module TailQueue {

  /** The address of a head's first field or of a node's next field; Unset before initialisation. */
  datatype Link = Unset | FromHead(head: Head) | FromNode(node: Node)

  class Head {
    var first: Node?
    var last: Link

    constructor ()
      ensures Queue(this, [])
    {
      first, last := null, Unset;
      new;
      last := FromHead(this);
    }
  }

  class Node {
    var next: Node?
    var prev: Link

    constructor ()
    {
      next, prev := null, Unset;
    }
  }

  // ----- The invariant

  ghost function At(ns: seq<Node>, k: nat): Node? {
    if k < |ns| then ns[k] else null
  }

  /** The address of the pointer that leads to position k. */
  ghost function Slot(h: Head, ns: seq<Node>, k: nat): Link
    requires k <= |ns|
  {
    if k == 0 then FromHead(h) else FromNode(ns[k - 1])
  }

  ghost predicate Linked(h: Head, ns: seq<Node>, i: nat)
    requires i < |ns|
    reads ns
  {
    ns[i].next == At(ns, i + 1) && ns[i].prev == Slot(h, ns, i)
  }

  ghost predicate Distinct(ns: seq<Node>) {
    forall i, j :: 0 <= i < j < |ns| ==> ns[i] != ns[j]
  }

  /** The queue headed by h is exactly ns, and its tail pointer addresses the final next field. */
  ghost predicate Queue(h: Head, ns: seq<Node>)
    reads h, ns
  {
    && h.first == At(ns, 0)
    && h.last == Slot(h, ns, |ns|)
    && (forall i {:trigger Linked(h, ns, i)} :: 0 <= i < |ns| ==> Linked(h, ns, i))
    && Distinct(ns)
  }

  // ----- The invariant determines the sequence

  lemma {:induction false} SameAt(h: Head, ns: seq<Node>, ms: seq<Node>, k: nat)
    requires Queue(h, ns) && Queue(h, ms)
    ensures At(ns, k) == At(ms, k)
  {
    if k > 0 {
      SameAt(h, ns, ms, k - 1);
      if k - 1 < |ns| {
        assert Linked(h, ns, k - 1) && Linked(h, ms, k - 1);
      }
    }
  }

  lemma QueueUnique(h: Head, ns: seq<Node>, ms: seq<Node>)
    requires Queue(h, ns) && Queue(h, ms)
    ensures ns == ms
  {
    SameAt(h, ns, ms, |ns|);
    SameAt(h, ns, ms, |ms|);
    forall k | 0 <= k < |ns| ensures ns[k] == ms[k] {
      SameAt(h, ns, ms, k);
    }
  }

  /** No element is linked from two queues. */
  lemma QueuesApart(h1: Head, h2: Head, ns: seq<Node>, ms: seq<Node>)
    requires h1 != h2 && Queue(h1, ns) && Queue(h2, ms)
    ensures forall i, j :: 0 <= i < |ns| && 0 <= j < |ms| ==> ns[i] != ms[j]
  {
    forall i, j | 0 <= i < |ns| && 0 <= j < |ms| ensures ns[i] != ms[j] {
      DifferentElements(h1, h2, ns, ms, i, j);
    }
  }

  lemma {:induction false} DifferentElements(h1: Head, h2: Head, ns: seq<Node>, ms: seq<Node>, i: nat, j: nat)
    requires h1 != h2 && Queue(h1, ns) && Queue(h2, ms) && i < |ns| && j < |ms|
    ensures ns[i] != ms[j]
  {
    assert Linked(h1, ns, i) && Linked(h2, ms, j);
    if i > 0 && j > 0 {
      DifferentElements(h1, h2, ns, ms, i - 1, j - 1);
    }
  }

  // ----- Addresses

  /** The record a link points into. */
  ghost function Record(l: Link): set<object> {
    match l
    case Unset => {}
    case FromHead(h) => {h}
    case FromNode(n) => {n}
  }

  method Store(l: Link, value: Node?)
    requires !l.Unset?
    modifies (if l.FromHead? then {l.head} else {})`first, (if l.FromNode? then {l.node} else {})`next
    ensures l.FromHead? ==> l.head.first == value
    ensures l.FromNode? ==> l.node.next == value
  {
    match l {
      case FromHead(h) => h.first := value;
      case FromNode(n) => n.next := value;
    }
  }

  /** The first word behind an address. */
  function Load(l: Link): Node?
    requires !l.Unset?
    reads Record(l)
  {
    if l.FromHead? then l.head.first else l.node.next
  }

  /** The second word behind an address, whichever of the two records it lies in. */
  function SecondWord(l: Link): Link
    requires !l.Unset?
    reads Record(l)
  {
    if l.FromHead? then l.head.last else l.node.prev
  }

  // ----- Insertion

  method Init(h: Head)
    modifies h
    ensures Queue(h, [])
  {
    h.first := null;
    h.last := FromHead(h);
  }

  method InsertHead(h: Head, elm: Node, ghost ns: seq<Node>)
    requires Queue(h, ns) && elm !in ns
    modifies h, elm, ns`prev
    ensures Queue(h, [elm] + ns)
  {
    ghost var r := [elm] + ns;
    assert ns != [] ==> Linked(h, ns, 0);
    elm.next := h.first;
    if elm.next != null {
      h.first.prev := FromNode(elm);
    } else {
      h.last := FromNode(elm);
    }
    h.first := elm;
    elm.prev := FromHead(h);
    forall j | 0 <= j < |r| ensures Linked(h, r, j) {
      if j > 0 { assert old(Linked(h, ns, j - 1)); }
    }
  }

  method InsertTail(h: Head, elm: Node, ghost ns: seq<Node>)
    requires Queue(h, ns) && elm !in ns
    modifies h, elm, ns`next
    ensures Queue(h, ns + [elm])
  {
    ghost var r := ns + [elm];
    elm.next := null;
    elm.prev := h.last;
    Store(h.last, elm);
    h.last := FromNode(elm);
    forall j | 0 <= j < |r| ensures Linked(h, r, j) {
      if j < |ns| { assert old(Linked(h, ns, j)); }
    }
  }

  function Inserted(ns: seq<Node>, k: nat, elm: Node): seq<Node>
    requires k <= |ns|
  {
    ns[..k] + [elm] + ns[k..]
  }

  method InsertAfter(h: Head, listelm: Node, elm: Node, ghost ns: seq<Node>, ghost i: nat)
    requires Queue(h, ns) && i < |ns| && ns[i] == listelm && elm !in ns
    modifies h`last, elm, ns
    ensures Queue(h, Inserted(ns, i + 1, elm))
  {
    ghost var r := Inserted(ns, i + 1, elm);
    assert Linked(h, ns, i) && (i + 1 < |ns| ==> Linked(h, ns, i + 1));
    elm.next := listelm.next;
    if elm.next != null {
      elm.next.prev := FromNode(elm);
    } else {
      h.last := FromNode(elm);
    }
    listelm.next := elm;
    elm.prev := FromNode(listelm);
    forall j | 0 <= j < |r| ensures Linked(h, r, j) {
      if j <= i { assert old(Linked(h, ns, j)); }
      if j > i + 1 { assert old(Linked(h, ns, j - 1)); }
    }
  }

  /** Needs no head: the tail pointer cannot change. */
  method InsertBefore(listelm: Node, elm: Node, ghost h: Head, ghost ns: seq<Node>, ghost i: nat)
    requires Queue(h, ns) && i < |ns| && ns[i] == listelm && elm !in ns
    modifies h`first, elm, ns
    ensures Queue(h, Inserted(ns, i, elm))
  {
    ghost var r := Inserted(ns, i, elm);
    assert Linked(h, ns, i) && (i > 0 ==> Linked(h, ns, i - 1));
    elm.prev := listelm.prev;
    elm.next := listelm;
    Store(listelm.prev, elm);
    listelm.prev := FromNode(elm);
    forall j | 0 <= j < |r| ensures Linked(h, r, j) {
      if j < i { assert old(Linked(h, ns, j)); }
      if j > i { assert old(Linked(h, ns, j - 1)); }
    }
  }

  // ----- Removal, concatenation, swap

  method Remove(h: Head, elm: Node, ghost ns: seq<Node>, ghost i: nat)
    requires Queue(h, ns) && i < |ns| && ns[i] == elm
    modifies h, ns
    ensures Queue(h, ns[..i] + ns[i + 1..])
  {
    ghost var r := ns[..i] + ns[i + 1..];
    assert Linked(h, ns, i) && (i > 0 ==> Linked(h, ns, i - 1)) && (i + 1 < |ns| ==> Linked(h, ns, i + 1));
    if elm.next != null {
      elm.next.prev := elm.prev;
    } else {
      h.last := elm.prev;
    }
    Store(elm.prev, elm.next);
    forall j | 0 <= j < |r| ensures Linked(h, r, j) {
      assert old(Linked(h, ns, if j < i then j else j + 1));
    }
  }

  /** Constant time: the second queue moves behind the first, and is empty afterwards. */
  method Concat(h1: Head, h2: Head, ghost ns: seq<Node>, ghost ms: seq<Node>)
    requires h1 != h2 && Queue(h1, ns) && Queue(h2, ms)
    modifies h1, h2, ns`next, ms`prev
    ensures Queue(h1, ns + ms) && Queue(h2, [])
  {
    ghost var r := ns + ms;
    QueuesApart(h1, h2, ns, ms);
    if h2.first != null {
      assert Linked(h2, ms, 0);
      Store(h1.last, h2.first);
      h2.first.prev := h1.last;
      h1.last := h2.last;
      Init(h2);
      forall j | 0 <= j < |r| ensures Linked(h1, r, j) {
        if j < |ns| {
          assert old(Linked(h1, ns, j));
        } else {
          assert old(Linked(h2, ms, j - |ns|));
        }
      }
    } else {
      assert r == ns && ms == [];
    }
  }

  /** Two queues exchange their contents. */
  method Swap(h1: Head, h2: Head, ghost ns: seq<Node>, ghost ms: seq<Node>)
    requires h1 != h2 && Queue(h1, ns) && Queue(h2, ms)
    modifies h1, h2, ns`prev, ms`prev
    ensures Queue(h1, ms) && Queue(h2, ns)
  {
    QueuesApart(h1, h2, ns, ms);
    assert ms != [] ==> Linked(h2, ms, 0);
    assert ns != [] ==> Linked(h1, ns, 0);
    var swapFirst := h1.first;
    var swapLast := h1.last;
    h1.first := h2.first;
    h1.last := h2.last;
    h2.first := swapFirst;
    h2.last := swapLast;
    swapFirst := h1.first;
    if swapFirst != null {
      swapFirst.prev := FromHead(h1);
    } else {
      h1.last := FromHead(h1);
    }
    swapFirst := h2.first;
    if swapFirst != null {
      swapFirst.prev := FromHead(h2);
    } else {
      h2.last := FromHead(h2);
    }
    forall j | 0 <= j < |ms| ensures Linked(h1, ms, j) {
      assert old(Linked(h2, ms, j));
    }
    forall j | 0 <= j < |ns| ensures Linked(h2, ns, j) {
      assert old(Linked(h1, ns, j));
    }
  }

  // ----- Backwards through the layout trick

  /** The last element: the second word behind the tail pointer leads back to the pointer at it. */
  method Last(h: Head, ghost ns: seq<Node>) returns (r: Node?)
    requires Queue(h, ns)
    ensures r == if ns == [] then null else ns[|ns| - 1]
  {
    assert ns != [] ==> Linked(h, ns, |ns| - 1);
    assert |ns| > 1 ==> Linked(h, ns, |ns| - 2);
    r := Load(SecondWord(h.last));
  }

  /** The predecessor; in front of the first element the same two loads end in the final null. */
  method Prev(elm: Node, ghost h: Head, ghost ns: seq<Node>, ghost i: nat) returns (r: Node?)
    requires Queue(h, ns) && i < |ns| && ns[i] == elm
    ensures r == if i == 0 then null else ns[i - 1]
  {
    assert Linked(h, ns, i) && Linked(h, ns, |ns| - 1);
    assert i > 0 ==> Linked(h, ns, i - 1);
    assert i > 1 ==> Linked(h, ns, i - 2);
    r := Load(SecondWord(elm.prev));
  }

  function Reversed(ns: seq<Node>): seq<Node> {
    seq(|ns|, i requires 0 <= i < |ns| => ns[|ns| - 1 - i])
  }

  method Foreach(h: Head, ghost ns: seq<Node>) returns (visited: seq<Node>)
    requires Queue(h, ns)
    ensures visited == ns
  {
    visited := [];
    var v := h.first;
    while v != null
      invariant |visited| <= |ns| && visited == ns[..|visited|] && v == At(ns, |visited|)
      decreases |ns| - |visited|
    {
      assert Linked(h, ns, |visited|);
      visited := visited + [v];
      v := v.next;
    }
  }

  /** The backward walk visits the exact reverse of the forward one. */
  method ForeachReverse(h: Head, ghost ns: seq<Node>) returns (visited: seq<Node>)
    requires Queue(h, ns)
    ensures visited == Reversed(ns)
  {
    visited := [];
    var v := Last(h, ns);
    while v != null
      invariant |visited| <= |ns| && visited == Reversed(ns)[..|visited|]
      invariant v == if |visited| < |ns| then ns[|ns| - 1 - |visited|] else null
      decreases |ns| - |visited|
    {
      ghost var i := |ns| - 1 - |visited|;
      visited := visited + [v];
      v := Prev(v, h, ns, i);
    }
  }
}
