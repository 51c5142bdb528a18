/**
 * The STAILQ macros: singly linked tail queues, whose head also keeps the address of the final next
 * field (or of its own first field when the queue is empty).
 */
module STailQueue {

  /** The address of a head's first field or of a node's next field; Unset before initialisation. */
  datatype Link = Unset | FromHead(head: Head) | FromNode(node: Node)

  class Head {
    var first: Node?
    var last: Link

    constructor ()
      ensures Queue(this, [])
    {
      first, last := null, Unset;
      new;
      last := FromHead(this);
    }
  }

  class Node {
    var next: Node?

    constructor ()
    {
      next := null;
    }
  }

  // ----- The invariant

  ghost function At(ns: seq<Node>, k: nat): Node? {
    if k < |ns| then ns[k] else null
  }

  /** The address of the pointer that leads to position k. */
  ghost function Slot(h: Head, ns: seq<Node>, k: nat): Link
    requires k <= |ns|
  {
    if k == 0 then FromHead(h) else FromNode(ns[k - 1])
  }

  ghost predicate Linked(ns: seq<Node>, i: nat)
    requires i < |ns|
    reads ns
  {
    ns[i].next == At(ns, i + 1)
  }

  ghost predicate Distinct(ns: seq<Node>) {
    forall i, j :: 0 <= i < j < |ns| ==> ns[i] != ns[j]
  }

  ghost predicate Queue(h: Head, ns: seq<Node>)
    reads h, ns
  {
    && h.first == At(ns, 0)
    && h.last == Slot(h, ns, |ns|)
    && (forall i {:trigger Linked(ns, i)} :: 0 <= i < |ns| ==> Linked(ns, i))
    && Distinct(ns)
  }

  /** Two queues may share no element; with one-way links the pointers alone do not rule it out. */
  ghost predicate Apart(ns: seq<Node>, ms: seq<Node>) {
    forall i, j :: 0 <= i < |ns| && 0 <= j < |ms| ==> ns[i] != ms[j]
  }

  // ----- Insertion

  method Store(l: Link, value: Node?)
    requires !l.Unset?
    modifies (if l.FromHead? then {l.head} else {})`first, (if l.FromNode? then {l.node} else {})`next
    ensures l.FromHead? ==> l.head.first == value
    ensures l.FromNode? ==> l.node.next == value
  {
    match l {
      case FromHead(h) => h.first := value;
      case FromNode(n) => n.next := value;
    }
  }

  method Init(h: Head)
    modifies h
    ensures Queue(h, [])
  {
    h.first := null;
    h.last := FromHead(h);
  }

  method InsertHead(h: Head, elm: Node, ghost ns: seq<Node>)
    requires Queue(h, ns) && elm !in ns
    modifies h, elm
    ensures Queue(h, [elm] + ns)
  {
    ghost var r := [elm] + ns;
    elm.next := h.first;
    if elm.next == null {
      h.last := FromNode(elm);
    }
    h.first := elm;
    forall j | 0 <= j < |r| ensures Linked(r, j) {
      if j > 0 { assert old(Linked(ns, j - 1)); }
    }
  }

  method InsertTail(h: Head, elm: Node, ghost ns: seq<Node>)
    requires Queue(h, ns) && elm !in ns
    modifies h, elm, ns
    ensures Queue(h, ns + [elm])
  {
    ghost var r := ns + [elm];
    elm.next := null;
    Store(h.last, elm);
    h.last := FromNode(elm);
    forall j | 0 <= j < |r| ensures Linked(r, j) {
      if j < |ns| { assert old(Linked(ns, j)); }
    }
  }

  method InsertAfter(h: Head, tqelm: Node, elm: Node, ghost ns: seq<Node>, ghost i: nat)
    requires Queue(h, ns) && i < |ns| && ns[i] == tqelm && elm !in ns
    modifies h`last, elm, ns
    ensures Queue(h, ns[..i + 1] + [elm] + ns[i + 1..])
  {
    ghost var r := ns[..i + 1] + [elm] + ns[i + 1..];
    assert Linked(ns, i);
    elm.next := tqelm.next;
    if elm.next == null {
      h.last := FromNode(elm);
    }
    tqelm.next := elm;
    forall j | 0 <= j < |r| ensures Linked(r, j) {
      if j <= i { assert old(Linked(ns, j)); }
      if j > i + 1 { assert old(Linked(ns, j - 1)); }
    }
  }

  // ----- Removal

  method RemoveHead(h: Head, ghost ns: seq<Node>)
    requires Queue(h, ns) && ns != []
    modifies h
    ensures Queue(h, ns[1..])
  {
    ghost var r := ns[1..];
    assert Linked(ns, 0);
    h.first := h.first.next;
    if h.first == null {
      h.last := FromHead(h);
    }
    forall j | 0 <= j < |r| ensures Linked(r, j) {
      assert old(Linked(ns, j + 1));
    }
  }

  method RemoveAfter(h: Head, elm: Node, ghost ns: seq<Node>, ghost i: nat)
    requires Queue(h, ns) && i + 1 < |ns| && ns[i] == elm
    modifies h`last, ns
    ensures Queue(h, ns[..i + 1] + ns[i + 2..])
  {
    ghost var r := ns[..i + 1] + ns[i + 2..];
    assert Linked(ns, i) && Linked(ns, i + 1);
    elm.next := elm.next.next;
    if elm.next == null {
      h.last := FromNode(elm);
    }
    forall j | 0 <= j < |r| ensures Linked(r, j) {
      assert old(Linked(ns, if j <= i then j else j + 1));
    }
  }

  /** Any member can be removed: the search for its predecessor ends before the queue does. */
  method Remove(h: Head, elm: Node, ghost ns: seq<Node>, ghost i: nat)
    requires Queue(h, ns) && i < |ns| && ns[i] == elm
    modifies h, ns
    ensures Queue(h, ns[..i] + ns[i + 1..])
  {
    if h.first == elm {
      assert i == 0;
      RemoveHead(h, ns);
      assert ns[..i] + ns[i + 1..] == ns[1..];
    } else {
      var curelm := h.first;
      ghost var k := 0;
      assert Linked(ns, 0);
      while curelm.next != elm
        invariant k < i && curelm == ns[k]
        decreases i - k
      {
        assert Linked(ns, k) && Linked(ns, k + 1);
        curelm := curelm.next;
        k := k + 1;
      }
      assert Linked(ns, k);
      RemoveAfter(h, curelm, ns, k);
    }
  }

  // ----- Concatenation, swap, last element

  method Concat(h1: Head, h2: Head, ghost ns: seq<Node>, ghost ms: seq<Node>)
    requires h1 != h2 && Queue(h1, ns) && Queue(h2, ms) && Apart(ns, ms)
    modifies h1, h2, ns
    ensures Queue(h1, ns + ms) && Queue(h2, [])
  {
    ghost var r := ns + ms;
    if h2.first != null {
      Store(h1.last, h2.first);
      h1.last := h2.last;
      Init(h2);
      forall j | 0 <= j < |r| ensures Linked(r, j) {
        if j < |ns| {
          assert old(Linked(ns, j));
        } else {
          assert old(Linked(ms, j - |ns|));
        }
      }
    } else {
      assert r == ns && ms == [];
    }
  }

  method Swap(h1: Head, h2: Head, ghost ns: seq<Node>, ghost ms: seq<Node>)
    requires h1 != h2 && Queue(h1, ns) && Queue(h2, ms)
    modifies h1, h2
    ensures Queue(h1, ms) && Queue(h2, ns)
  {
    var swapFirst := h1.first;
    var swapLast := h1.last;
    h1.first := h2.first;
    h1.last := h2.last;
    h2.first := swapFirst;
    h2.last := swapLast;
    if h1.first == null {
      h1.last := FromHead(h1);
    }
    if h2.first == null {
      h2.last := FromHead(h2);
    }
    forall j | 0 <= j < |ms| ensures Linked(ms, j) {
      assert old(Linked(ms, j));
    }
    forall j | 0 <= j < |ns| ensures Linked(ns, j) {
      assert old(Linked(ns, j));
    }
  }

  /** The element around the final next field. */
  method Last(h: Head, ghost ns: seq<Node>) returns (r: Node?)
    requires Queue(h, ns)
    ensures r == if ns == [] then null else ns[|ns| - 1]
  {
    r := if h.first == null then null else h.last.node;
  }

  // ----- The invariant determines the sequence

  lemma {:induction false} SameAt(h: Head, ns: seq<Node>, ms: seq<Node>, k: nat)
    requires Queue(h, ns) && Queue(h, ms)
    ensures At(ns, k) == At(ms, k)
  {
    if k > 0 {
      SameAt(h, ns, ms, k - 1);
      if k - 1 < |ns| {
        assert Linked(ns, k - 1) && Linked(ms, k - 1);
      }
    }
  }

  lemma QueueUnique(h: Head, ns: seq<Node>, ms: seq<Node>)
    requires Queue(h, ns) && Queue(h, ms)
    ensures ns == ms
  {
    SameAt(h, ns, ms, |ns|);
    SameAt(h, ns, ms, |ms|);
    forall k | 0 <= k < |ns| ensures ns[k] == ms[k] {
      SameAt(h, ns, ms, k);
    }
  }
}
