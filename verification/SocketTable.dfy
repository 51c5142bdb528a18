/** The shape of the client's hash table. */
module Buckets {
  const NUM_BUCKETS := 1024

  function Hash(fd: nat): nat {
    fd % NUM_BUCKETS
  }
}

/**
 * The client's table of sockets waiting for the converter's reply: 1024 buckets of intrusive lists,
 * refining a map from file descriptor to state.
 */
module SocketTable {
  import opened Buckets
  import opened ListQueue
  import opened Sequences

  // ----- Which node sits in which bucket; descriptors never change, so this part needs no heap

  /** Bucket b holds nodes of the table, all of them hashing to b, no descriptor twice. */
  ghost predicate Bucket(ns: seq<Node>, b: nat, nodes: set<Node>) {
    && (forall i :: 0 <= i < |ns| ==> ns[i] in nodes && ns[i].fd >= 0 && Hash(ns[i].fd) == b)
    && (forall i, j :: 0 <= i < j < |ns| ==> ns[i].fd != ns[j].fd)
  }

  ghost predicate Placed(buckets: seq<seq<Node>>, nodes: set<Node>) {
    && |buckets| == NUM_BUCKETS
    && (forall b :: 0 <= b < NUM_BUCKETS ==> Bucket(buckets[b], b, nodes))
    && (forall n :: n in nodes ==> n.fd >= 0 && n in buckets[Hash(n.fd)])
  }

  ghost predicate InNodes(buckets: seq<seq<Node>>, nodes: set<Node>, b: nat)
    requires b < |buckets|
  {
    forall i :: 0 <= i < |buckets[b]| ==> buckets[b][i] in nodes
  }

  lemma PlacedInNodes(buckets: seq<seq<Node>>, nodes: set<Node>)
    requires Placed(buckets, nodes)
    ensures forall b :: 0 <= b < NUM_BUCKETS ==> InNodes(buckets, nodes, b)
  {
    forall b | 0 <= b < NUM_BUCKETS ensures InNodes(buckets, nodes, b) {
      assert Bucket(buckets[b], b, nodes);
    }
  }

  ghost predicate OnePerDescriptor(nodes: set<Node>) {
    forall n, m :: n in nodes && m in nodes && n.fd == m.fd ==> n == m
  }

  lemma PlacedOnePerDescriptor(buckets: seq<seq<Node>>, nodes: set<Node>)
    requires Placed(buckets, nodes)
    ensures OnePerDescriptor(nodes)
  {
    forall n, m | n in nodes && m in nodes && n.fd == m.fd
      ensures n == m
    {
      var b := Hash(n.fd);
      assert Bucket(buckets[b], b, nodes);
      var i :| 0 <= i < |buckets[b]| && buckets[b][i] == n;
      var j :| 0 <= j < |buckets[b]| && buckets[b][j] == m;
    }
  }

  /** The map a set of nodes stands for. */
  ghost function StatesOf(nodes: set<Node>): (m: map<int, Node>)
    requires OnePerDescriptor(nodes)
    ensures forall n :: n in nodes ==> n.fd in m && m[n.fd] == n
    ensures forall fd :: fd in m ==> m[fd] in nodes && m[fd].fd == fd
  {
    map n | n in nodes :: n.fd := n
  }

  lemma StatesOfInsert(nodes: set<Node>, n: Node)
    requires OnePerDescriptor(nodes) && n.fd !in StatesOf(nodes)
    ensures OnePerDescriptor(nodes + {n}) && StatesOf(nodes + {n}) == StatesOf(nodes)[n.fd := n]
  {
  }

  lemma StatesOfRemove(nodes: set<Node>, n: Node)
    requires OnePerDescriptor(nodes) && n in nodes
    ensures OnePerDescriptor(nodes - {n}) && StatesOf(nodes - {n}) == StatesOf(nodes) - {n.fd}
  {
  }

  lemma BucketsApart(buckets: seq<seq<Node>>, nodes: set<Node>, b: nat, c: nat)
    requires Placed(buckets, nodes) && b < NUM_BUCKETS && c < NUM_BUCKETS && b != c
    ensures forall n :: n in buckets[b] ==> n !in buckets[c]
  {
    assert Bucket(buckets[b], b, nodes) && Bucket(buckets[c], c, nodes);
  }

  lemma PlacedInsert(buckets: seq<seq<Node>>, nodes: set<Node>, n: Node)
    requires Placed(buckets, nodes) && n !in nodes && n.fd >= 0
    requires forall m :: m in nodes ==> m.fd != n.fd
    ensures Placed(buckets[Hash(n.fd) := [n] + buckets[Hash(n.fd)]], nodes + {n})
  {
    var hash := Hash(n.fd);
    var after := buckets[hash := [n] + buckets[hash]];
    forall b | 0 <= b < NUM_BUCKETS ensures Bucket(after[b], b, nodes + {n}) {
      assert Bucket(buckets[b], b, nodes);
    }
  }

  lemma PlacedRemove(buckets: seq<seq<Node>>, nodes: set<Node>, hash: nat, i: nat)
    requires Placed(buckets, nodes) && hash < NUM_BUCKETS && i < |buckets[hash]|
    ensures Placed(buckets[hash := Without(buckets[hash], i)], nodes - {buckets[hash][i]})
  {
  }

  // ----- The table

  class Table {
    const heads: seq<Head>
    ghost var buckets: seq<seq<Node>>
    ghost var nodes: set<Node>

    ghost predicate Valid()
      reads this, heads, nodes
    {
      && Placed(buckets, nodes)
      && |heads| == |buckets| == NUM_BUCKETS
      && (forall b, c :: 0 <= b < c < NUM_BUCKETS ==> heads[b] != heads[c])
      && (forall b :: 0 <= b < NUM_BUCKETS ==> InNodes(buckets, nodes, b) && Chain(heads[b], buckets[b]))
    }

    /** The map the table stands for. */
    ghost function States(): (m: map<int, Node>)
      requires Valid()
      reads this, heads, nodes
    {
      PlacedOnePerDescriptor(buckets, nodes);
      StatesOf(nodes)
    }

    constructor ()
      ensures Valid() && States() == map[] && fresh(heads) && fresh(nodes)
    {
      var hs: seq<Head> := [];
      while |hs| < NUM_BUCKETS
        invariant |hs| <= NUM_BUCKETS && fresh(hs)
        invariant forall b, c :: 0 <= b < c < |hs| ==> hs[b] != hs[c]
        invariant forall b :: 0 <= b < |hs| ==> hs[b].first == null
      {
        var h := new Head();
        hs := hs + [h];
      }
      heads := hs;
      buckets := seq(NUM_BUCKETS, _ => []);
      nodes := {};
    }

    method Lookup(fd: nat) returns (ret: Node?)
      requires Valid()
      ensures ret == if fd in States() then States()[fd] else null
      ensures ret != null ==> ret in nodes && ret.fd == fd
    {
      var hash := Hash(fd);
      ghost var ns := buckets[hash];
      ghost var i := 0;
      assert Bucket(ns, hash, nodes) && Chain(heads[hash], ns);
      ret := null;
      var state := heads[hash].first;
      while state != null
        invariant i <= |ns|
        invariant state == At(ns, i)
        invariant forall j :: 0 <= j < i ==> ns[j].fd != fd
        decreases |ns| - i
      {
        if state.fd == fd {
          ret := state;
          return;
        }
        assert Linked(heads[hash], ns, i);
        state := state.next;
        i := i + 1;
      }
    }

    method Insert(state: Node)
      requires Valid() && state !in nodes && state.fd >= 0 && state.fd !in States()
      modifies this`buckets, this`nodes, heads, nodes, state
      ensures Valid() && nodes == old(nodes) + {state}
      ensures buckets == old(buckets)[Hash(state.fd) := [state] + old(buckets)[Hash(state.fd)]]
    {
      hide Placed, Bucket, Linked;
      var hash := Hash(state.fd);
      ghost var ns := buckets[hash];
      assert InNodes(buckets, nodes, hash) && Chain(heads[hash], ns);
      PlacedInsert(buckets, nodes, state);
      ListInsertHead(heads[hash], state, ns);
      buckets := buckets[hash := [state] + ns];
      nodes := nodes + {state};
      PlacedInNodes(buckets, nodes);
      forall c | 0 <= c < NUM_BUCKETS ensures Chain(heads[c], buckets[c]) {
        if c != hash {
          BucketsApart(old(buckets), old(nodes), hash, c);
          assert old(Chain(heads[c], buckets[c])) && InNodes(old(buckets), old(nodes), c);
          assert forall n :: n in buckets[c] ==> n in old(nodes) && unchanged(n);
        }
      }
    }

    /** malloc may fail, and then the socket simply is not tracked. */
    method Alloc(fd: nat, mallocFails: bool)
      requires Valid() && fd !in States()
      modifies this`buckets, this`nodes, heads, nodes
      ensures Valid() && fresh(nodes - old(nodes))
      ensures mallocFails ==> States() == old(States())
      ensures !mallocFails ==> fd in States() && States() == old(States())[fd := States()[fd]]
      ensures forall b :: 0 <= b < NUM_BUCKETS && b != Hash(fd) ==> buckets[b] == old(buckets[b])
    {
      if mallocFails { return; }
      hide Placed;
      var state := new Node(fd, heads[Hash(fd)]);
      StatesOfInsert(nodes, state);
      Insert(state);
    }

    method FreeState(state: Node)
      requires Valid() && state in nodes
      modifies this`buckets, this`nodes, heads, nodes
      ensures Valid() && nodes == old(nodes) - {state}
      ensures States() == old(States()) - {state.fd}
      ensures forall b :: 0 <= b < NUM_BUCKETS && b != Hash(state.fd) ==> buckets[b] == old(buckets[b])
    {
      ghost var hash, i := WhereIs(state);
      PlacedRemove(buckets, nodes, hash, i);
      StatesOfRemove(nodes, state);
      Remove(state, hash, i);
    }

    lemma WhereIs(state: Node) returns (hash: nat, i: nat)
      requires Valid() && state in nodes
      ensures hash == Hash(state.fd) && i < |buckets[hash]| && buckets[hash][i] == state
    {
      hash := Hash(state.fd);
      i :| 0 <= i < |buckets[hash]| && buckets[hash][i] == state;
    }

    method Remove(state: Node, ghost hash: nat, ghost i: nat)
      requires Valid() && hash < NUM_BUCKETS && i < |buckets[hash]| && buckets[hash][i] == state
      modifies this`buckets, this`nodes, heads, nodes
      ensures Valid() && nodes == old(nodes) - {state}
      ensures buckets == old(buckets)[hash := Without(old(buckets)[hash], i)]
    {
      hide Placed, Bucket, Linked, Without;
      ghost var ns := buckets[hash];
      assert InNodes(buckets, nodes, hash) && Chain(heads[hash], ns);
      PlacedRemove(buckets, nodes, hash, i);
      buckets := buckets[hash := Without(ns, i)];
      nodes := nodes - {state};
      ListRemove(state, heads[hash], ns, i);
      PlacedInNodes(buckets, nodes);
      forall c | 0 <= c < NUM_BUCKETS ensures Chain(heads[c], buckets[c]) {
        if c != hash {
          BucketsApart(old(buckets), old(nodes), hash, c);
          assert old(Chain(heads[c], buckets[c])) && InNodes(old(buckets), old(nodes), c);
          assert forall n :: n in buckets[c] ==> n in old(nodes) && unchanged(n);
        }
      }
    }

    method Free(fd: nat)
      requires Valid()
      modifies this`buckets, this`nodes, heads, nodes
      ensures Valid() && nodes <= old(nodes)
      ensures States() == old(States()) - {fd}
    {
      var state := Lookup(fd);
      if state != null {
        FreeState(state);
      }
    }
  }
}
