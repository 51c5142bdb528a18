/**
 * The two views of the socket table agree: whatever the bucket lists of the sequential table hold, the
 * concurrent protocol's buckets hold their addresses, and each critical section changes both alike.
 */
module TableRefinement {
  import opened Buckets
  import opened ListQueue
  import opened Sequences
  import opened SocketTable
  import P = TableProtocol

  /** Where malloc has put the nodes. */
  type Addresses = map<Node, P.Ptr>

  ghost predicate Addressed(ns: seq<Node>, addr: Addresses) {
    forall i :: 0 <= i < |ns| ==> ns[i] in addr
  }

  ghost function Image(ns: seq<Node>, addr: Addresses): (ps: seq<P.Ptr>)
    requires Addressed(ns, addr)
    ensures |ps| == |ns| && forall i :: 0 <= i < |ns| ==> ps[i] == addr[ns[i]]
  {
    seq(|ns|, i requires 0 <= i < |ns| => addr[ns[i]])
  }

  ghost predicate Apart(nodes: set<Node>, addr: Addresses)
    requires nodes <= addr.Keys
  {
    forall n, m :: n in nodes && m in nodes && addr[n] == addr[m] ==> n == m
  }

  /** The protocol's bucket holds the addresses of the table's. */
  ghost predicate SameBucket(s: P.State, buckets: seq<seq<Node>>, addr: Addresses, b: nat)
    requires |s.buckets| == |buckets| == NUM_BUCKETS && b < NUM_BUCKETS
  {
    Addressed(buckets[b], addr) && s.buckets[b] == Image(buckets[b], addr)
  }

  ghost predicate Represents(s: P.State, buckets: seq<seq<Node>>, nodes: set<Node>, addr: Addresses) {
    && Placed(buckets, nodes) && nodes <= addr.Keys && Apart(nodes, addr)
    && |s.buckets| == |buckets| == NUM_BUCKETS
    && (forall b :: 0 <= b < NUM_BUCKETS ==> SameBucket(s, buckets, addr, b))
    && (forall n :: n in nodes ==> addr[n] in s.live && s.live[addr[n]] == n.fd)
  }

  /** After step a of the protocol, without a fault, the state represents these buckets and nodes. */
  ghost predicate StepsTo(s: P.State, a: P.Action, buckets: seq<seq<Node>>, nodes: set<Node>, addr: Addresses) {
    && P.Enabled(s, a) && |s.buckets| == NUM_BUCKETS
    && Represents(P.Next(s, a), buckets, nodes, addr) && P.Next(s, a).fault == s.fault
  }

  // ----- Linking a state

  lemma ImageCons(n: Node, ns: seq<Node>, addr: Addresses)
    requires n in addr && Addressed(ns, addr)
    ensures Addressed([n] + ns, addr) && Image([n] + ns, addr) == [addr[n]] + Image(ns, addr)
  {
  }

  lemma InsertRefines(s: P.State, t: P.Tid, buckets: seq<seq<Node>>, nodes: set<Node>, addr: Addresses, n: Node)
    requires Represents(s, buckets, nodes, addr) && n !in nodes && n.fd >= 0 && n in addr
    requires forall m :: m in nodes ==> m.fd != n.fd && addr[m] != addr[n]
    requires P.PcOf(s, t) == P.Filled(n.fd, addr[n]) && addr[n] in s.live && s.live[addr[n]] == n.fd
    ensures StepsTo(s, P.Insert(t), buckets[Hash(n.fd) := [n] + buckets[Hash(n.fd)]], nodes + {n}, addr)
  {
    var hash := Hash(n.fd);
    var r := P.Next(s, P.Insert(t));
    var after := buckets[hash := [n] + buckets[hash]];
    PlacedInsert(buckets, nodes, n);
    hide Placed;
    assert SameBucket(s, buckets, addr, hash);
    ImageCons(n, buckets[hash], addr);
    forall b | 0 <= b < NUM_BUCKETS ensures SameBucket(r, after, addr, b) {
      if b != hash { assert SameBucket(s, buckets, addr, b); }
    }
  }

  // ----- Unlinking one

  lemma {:induction false} DropImage(ns: seq<Node>, i: nat, addr: Addresses)
    requires Addressed(ns, addr) && i < |ns| && forall j, k :: 0 <= j < k < |ns| ==> addr[ns[j]] != addr[ns[k]]
    ensures Addressed(Without(ns, i), addr) && Image(Without(ns, i), addr) == P.Drop(Image(ns, addr), addr[ns[i]])
  {
    hide Image;
    var ps := Image(ns, addr);
    assert ps[1..] == Image(ns[1..], addr);
    if i == 0 {
      assert Without(ns, 0) == ns[1..];
      DropNothing(ps[1..], ps[0]);
    } else {
      DropImage(ns[1..], i - 1, addr);
      assert Without(ns, i) == [ns[0]] + Without(ns[1..], i - 1);
      ImageCons(ns[0], Without(ns[1..], i - 1), addr);
    }
  }

  lemma {:induction false} DropNothing(ps: seq<P.Ptr>, p: P.Ptr)
    requires p !in ps
    ensures P.Drop(ps, p) == ps
  {
    if ps != [] {
      DropNothing(ps[1..], p);
      assert ps == [ps[0]] + ps[1..];
    }
  }

  /** The nodes of one bucket have different addresses. */
  lemma BucketApart(ns: seq<Node>, b: nat, nodes: set<Node>, addr: Addresses)
    requires Bucket(ns, b, nodes) && nodes <= addr.Keys && Apart(nodes, addr)
    ensures Addressed(ns, addr) && forall j, k :: 0 <= j < k < |ns| ==> addr[ns[j]] != addr[ns[k]]
  {
  }

  lemma UnlinkRefines(s: P.State, t: P.Tid, buckets: seq<seq<Node>>, nodes: set<Node>, addr: Addresses, n: Node, i: nat)
    requires Represents(s, buckets, nodes, addr) && n in nodes && n.fd >= 0
    requires i < |buckets[Hash(n.fd)]| && buckets[Hash(n.fd)][i] == n
    requires var pc := P.PcOf(s, t); pc.Found? && pc.fd == n.fd && pc.p == addr[n]
    ensures StepsTo(s, P.Unlink(t), buckets[Hash(n.fd) := Without(buckets[Hash(n.fd)], i)], nodes - {n}, addr)
  {
    var hash := Hash(n.fd);
    var ns := buckets[hash];
    assert Bucket(ns, hash, nodes) && SameBucket(s, buckets, addr, hash);
    BucketApart(ns, hash, nodes, addr);
    DropImage(ns, i, addr);
    PlacedRemove(buckets, nodes, hash, i);
    assert s.buckets[hash][i] == addr[n];
    assert P.Home(s, addr[n]) == hash;
    hide Placed, Bucket, P.Drop, P.Home;
    var r := P.Next(s, P.Unlink(t));
    var after := buckets[hash := Without(ns, i)];
    forall b | 0 <= b < NUM_BUCKETS ensures SameBucket(r, after, addr, b) {
      if b != hash { assert SameBucket(s, buckets, addr, b); }
    }
  }

  // ----- Looking one up

  /** The protocol's search over a bucket's addresses finds what a search over its nodes does. */
  lemma {:induction false} SearchImage(live: map<P.Ptr, P.Fd>, ns: seq<Node>, addr: Addresses, fd: P.Fd)
    requires Addressed(ns, addr)
    requires forall i :: 0 <= i < |ns| ==> addr[ns[i]] in live && live[addr[ns[i]]] == ns[i].fd
    ensures match P.Search(live, Image(ns, addr), fd)
            case Hit(p) => exists i :: 0 <= i < |ns| && ns[i].fd == fd && p == addr[ns[i]]
            case NotThere => forall i :: 0 <= i < |ns| ==> ns[i].fd != fd
            case Touched => false
  {
    if ns != [] {
      assert Image(ns, addr)[1..] == Image(ns[1..], addr);
      if ns[0].fd != fd {
        SearchImage(live, ns[1..], addr, fd);
      }
    }
  }

  /** The protocol's search of a descriptor's bucket is the table's map. */
  lemma SearchRefines(s: P.State, buckets: seq<seq<Node>>, nodes: set<Node>, addr: Addresses, fd: P.Fd)
    requires Represents(s, buckets, nodes, addr) && OnePerDescriptor(nodes)
    ensures P.Search(s.live, s.buckets[Hash(fd)], fd)
            == if fd in StatesOf(nodes) then P.Hit(addr[StatesOf(nodes)[fd]]) else P.NotThere
  {
    var ns := buckets[Hash(fd)];
    assert Bucket(ns, Hash(fd), nodes) && SameBucket(s, buckets, addr, Hash(fd));
    SearchImage(s.live, ns, addr, fd);
    SearchIsLookup(buckets, nodes, fd);
    hide P.Search, Placed, Bucket, OnePerDescriptor;
  }

  lemma RepresentsStill(s: P.State, r: P.State, buckets: seq<seq<Node>>, nodes: set<Node>, addr: Addresses)
    requires Represents(s, buckets, nodes, addr) && r.buckets == s.buckets && r.live == s.live
    ensures Represents(r, buckets, nodes, addr)
  {
    hide Placed;
    forall b | 0 <= b < NUM_BUCKETS ensures SameBucket(r, buckets, addr, b) {
      assert SameBucket(s, buckets, addr, b);
    }
  }

  lemma LookupRefines(s: P.State, t: P.Tid, buckets: seq<seq<Node>>, nodes: set<Node>, addr: Addresses,
                      fd: P.Fd, closing: bool)
    requires Represents(s, buckets, nodes, addr) && P.Enabled(s, P.Lookup(t, fd, closing))
    requires OnePerDescriptor(nodes)
    ensures var r := P.Next(s, P.Lookup(t, fd, closing));
            && P.PcOf(r, t) == (if fd in StatesOf(nodes) then P.Found(fd, addr[StatesOf(nodes)[fd]], closing)
                                else P.Missing(fd, closing))
            && Represents(r, buckets, nodes, addr) && r.fault == s.fault
  {
    SearchRefines(s, buckets, nodes, addr, fd);
    assert |s.buckets| == NUM_BUCKETS && nodes <= addr.Keys;
    hide P.Search, Represents, OnePerDescriptor;
    RepresentsStill(s, P.Next(s, P.Lookup(t, fd, closing)), buckets, nodes, addr);
  }

  /** A descriptor of the map is that of exactly one node of its bucket. */
  lemma SearchIsLookup(buckets: seq<seq<Node>>, nodes: set<Node>, fd: nat)
    requires Placed(buckets, nodes) && OnePerDescriptor(nodes)
    ensures forall n :: n in buckets[Hash(fd)] && n.fd == fd ==> fd in StatesOf(nodes) && StatesOf(nodes)[fd] == n
    ensures fd in StatesOf(nodes) ==> StatesOf(nodes)[fd] in buckets[Hash(fd)]
  {
    assert Bucket(buckets[Hash(fd)], Hash(fd), nodes);
  }

  // ----- Everything else leaves the lists alone

  lemma InitRepresents(addr: Addresses)
    ensures Represents(P.Init(), seq(NUM_BUCKETS, _ => []), {}, addr)
  {
  }

  /** The table's states are linked at their addresses. */
  lemma NodesAreTracked(s: P.State, buckets: seq<seq<Node>>, nodes: set<Node>, addr: Addresses, n: Node)
    requires Represents(s, buckets, nodes, addr) && n in nodes
    ensures P.Tracked(s, addr[n])
  {
    var b := Hash(n.fd);
    assert SameBucket(s, buckets, addr, b);
    var i :| 0 <= i < |buckets[b]| && buckets[b][i] == n;
    assert s.buckets[b][i] == addr[n];
  }

  /** malloc gives new memory, free takes none that is linked, and no other step touches either. */
  lemma OtherStepsRefine(s: P.State, a: P.Action, buckets: seq<seq<Node>>, nodes: set<Node>, addr: Addresses)
    requires Represents(s, buckets, nodes, addr) && P.Enabled(s, a) && !a.Insert? && !a.Unlink?
    ensures Represents(P.Next(s, a), buckets, nodes, addr)
  {
    var r := P.Next(s, a);
    assert r.buckets == s.buckets;
    forall n | n in nodes ensures addr[n] in r.live && r.live[addr[n]] == n.fd {
      NodesAreTracked(s, buckets, nodes, addr, n);
    }
    hide Placed, P.Search, P.Tracked, P.Enabled, P.Next;
    forall b | 0 <= b < NUM_BUCKETS ensures SameBucket(r, buckets, addr, b) {
      assert SameBucket(s, buckets, addr, b);
    }
  }

  // ----- The table's own methods, in step with the protocol

  method InsertInStep(table: Table, state: Node, ghost s: P.State, ghost t: P.Tid, ghost addr: Addresses)
    requires table.Valid() && state !in table.nodes && state.fd >= 0 && state.fd !in table.States()
    requires Represents(s, table.buckets, table.nodes, addr)
    requires state in addr && forall m :: m in table.nodes ==> addr[m] != addr[state]
    requires P.PcOf(s, t) == P.Filled(state.fd, addr[state]) && addr[state] in s.live && s.live[addr[state]] == state.fd
    modifies table`buckets, table`nodes, table.heads, table.nodes, state
    ensures table.Valid() && StepsTo(s, P.Insert(t), table.buckets, table.nodes, addr)
  {
    hide StepsTo, Placed;
    PlacedOnePerDescriptor(table.buckets, table.nodes);
    assert forall m :: m in table.nodes ==> m.fd != state.fd;
    InsertRefines(s, t, table.buckets, table.nodes, addr, state);
    table.Insert(state);
  }

  method UnlinkInStep(table: Table, state: Node, ghost s: P.State, ghost t: P.Tid, ghost addr: Addresses)
    requires table.Valid() && state in table.nodes && Represents(s, table.buckets, table.nodes, addr)
    requires var pc := P.PcOf(s, t); pc.Found? && pc.fd == state.fd && pc.p == addr[state]
    modifies table`buckets, table`nodes, table.heads, table.nodes
    ensures table.Valid() && StepsTo(s, P.Unlink(t), table.buckets, table.nodes, addr)
  {
    ghost var hash, i := table.WhereIs(state);
    hide StepsTo, Placed;
    UnlinkRefines(s, t, table.buckets, table.nodes, addr, state, i);
    table.Remove(state, hash, i);
  }

  method LookupInStep(table: Table, fd: nat, ghost s: P.State, ghost t: P.Tid, ghost closing: bool, ghost addr: Addresses)
    returns (ret: Node?)
    requires table.Valid() && Represents(s, table.buckets, table.nodes, addr) && P.Enabled(s, P.Lookup(t, fd, closing))
    ensures var r := P.Next(s, P.Lookup(t, fd, closing));
            && (ret != null ==> ret in addr)
            && P.PcOf(r, t) == (if ret == null then P.Missing(fd, closing) else P.Found(fd, addr[ret], closing))
            && Represents(r, table.buckets, table.nodes, addr) && r.fault == s.fault
  {
    PlacedOnePerDescriptor(table.buckets, table.nodes);
    LookupRefines(s, t, table.buckets, table.nodes, addr, fd, closing);
    hide P.Next, P.Enabled, Placed;
    ret := table.Lookup(fd);
  }
}
