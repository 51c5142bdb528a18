/**
 * The converter's event loop on values: which sockets it watches, how they are paired, and every byte it
 * has moved. A socket is an object with an identity of its own; the map that routes is keyed by its
 * descriptor, and the kernel reuses descriptors.
 */
module Converter {
  import opened Bytes
  import opened PyCodec
  import opened Sequences

  type Fd = nat

  datatype Conv<S> = Conv(
    listener: S,
    fileno: map<S, Fd>,         // the open sockets
    inputs: seq<S>,             // what select watches
    forward: map<Fd, S>,        // descriptor -> the other socket of its pair
    recvd: map<S, seq<byte>>,   // per socket ever opened: bytes read from it for forwarding
    sent: map<S, seq<byte>>,    // and bytes sent on it
    pairs: set<(S, S)>,         // every (client, destination) ever paired
    crashed: bool)              // an exception left the loop

  // ----- Requests

  /** What one element of a request comes to. */
  datatype TlvOutcome<S> =
    | Ignored                   // a known type that is not Connect
    | Unknown                   // a type missing from the table of types: KeyError
    | ConnectFails
    | ConnectOk(d: S, dfd: Fd)  // the destination answered on a new socket

  datatype Incoming<S> = NoRequest | Tlvs(outcomes: seq<TlvOutcome<S>>)

  function AddSocket<S>(s: Conv<S>, x: S, fd: Fd): Conv<S> {
    s.(fileno := s.fileno[x := fd], recvd := s.recvd[x := []], sent := s.sent[x := []])
  }

  function CloseSocket<S>(s: Conv<S>, x: S): Conv<S> {
    s.(fileno := s.fileno - {x})
  }

  /** Reply to the client, then watch and route both ends. */
  function Pair<S>(s: Conv<S>, c: S, d: S): Conv<S>
    requires c in s.fileno && d in s.fileno && c in s.sent
  {
    s.(sent := s.sent[c := s.sent[c] + REPLY],
       inputs := s.inputs + [d, c],
       forward := s.forward[s.fileno[c] := d][s.fileno[d] := c],
       pairs := s.pairs + {(c, d)})
  }

  /** A new socket and a descriptor that is not open. */
  predicate Fresh<S>(s: Conv<S>, x: S, fd: Fd) {
    x !in s.recvd && x !in s.sent && x !in s.fileno && fd !in s.fileno.Values
  }

  ghost predicate Feasible<S>(s: Conv<S>, c: S, outcomes: seq<TlvOutcome<S>>)
    decreases |outcomes|
  {
    c in s.sent &&
    (outcomes != [] ==>
      match outcomes[0]
      case Ignored => Feasible(s, c, outcomes[1..])
      case Unknown => true
      case ConnectFails => Feasible(CloseSocket(s, c), c, outcomes[1..])
      case ConnectOk(d, dfd) =>
        Fresh(s, d, dfd) && d != c && (c in s.fileno ==> Feasible(Pair(AddSocket(s, d, dfd), c, d), c, outcomes[1..])))
  }

  /** The loop over the elements, and whether an exception ended it. */
  function HandleTlvs<S>(s: Conv<S>, c: S, outcomes: seq<TlvOutcome<S>>): (Conv<S>, bool)
    requires Feasible(s, c, outcomes)
    decreases |outcomes|
  {
    if outcomes == [] then (s, false)
    else
      match outcomes[0]
      case Ignored => HandleTlvs(s, c, outcomes[1..])
      case Unknown => (s, true)
      case ConnectFails => HandleTlvs(CloseSocket(s, c), c, outcomes[1..])
      case ConnectOk(d, dfd) =>
        // replying on a socket that an earlier failure closed raises, and the new socket is dropped
        if c !in s.fileno then (s, true)
        else HandleTlvs(Pair(AddSocket(s, d, dfd), c, d), c, outcomes[1..])
  }

  ghost predicate CanAccept<S>(s: Conv<S>, c: S, cfd: Fd, req: Incoming<S>) {
    Fresh(s, c, cfd) && (req.Tlvs? ==> Feasible(AddSocket(s, c, cfd), c, req.outcomes))
  }

  /** One accepted connection, from accept to the end of its request. */
  function Accept<S>(s: Conv<S>, c: S, cfd: Fd, req: Incoming<S>): Conv<S>
    requires CanAccept(s, c, cfd, req)
  {
    var s0 := AddSocket(s, c, cfd);
    match req
    case NoRequest => CloseSocket(s0, c)
    case Tlvs(outcomes) =>
      var (s1, raised) := HandleTlvs(s0, c, outcomes);
      if raised then CloseSocket(s1, c) else s1
  }

  // ----- Forwarding

  datatype Event = Data(data: seq<byte>) | Eof | RecvFails

  /** The peer has closed, or the receive failed. */
  predicate Ends(e: Event) {
    !(e.Data? && e.data != [])
  }

  function RemoveFirst<S(==)>(xs: seq<S>, x: S): seq<S> {
    if xs == [] then [] else if xs[0] == x then xs[1..] else [xs[0]] + RemoveFirst(xs[1..], x)
  }

  function Crash<S>(s: Conv<S>): Conv<S> {
    s.(crashed := true)
  }

  /** Removing what is not there raises, and nothing catches it. */
  function Cleanup<S(==)>(s: Conv<S>, x: S, y: S): Conv<S> {
    if x !in s.inputs || x !in s.fileno || s.fileno[x] !in s.forward then Crash(s)
    else
      var forward1 := s.forward - {s.fileno[x]};
      if y !in s.fileno || s.fileno[y] !in forward1 then Crash(s)
      else
        var inputs1 := RemoveFirst(s.inputs, x);
        if y !in inputs1 then Crash(s)
        else
          s.(inputs := RemoveFirst(inputs1, y), forward := forward1 - {s.fileno[y]}, fileno := s.fileno - {x, y})
  }

  function ReadAndForward<S(==)>(s: Conv<S>, x: S, e: Event): Conv<S> {
    if x !in s.fileno || s.fileno[x] !in s.forward || x !in s.recvd then Crash(s)
    else
      var y := s.forward[s.fileno[x]];
      if y !in s.fileno || y !in s.sent then Crash(s)
      else if e.Data? && e.data != [] then
        s.(recvd := s.recvd[x := s.recvd[x] + e.data], sent := s.sent[y := s.sent[y] + e.data])
      else Cleanup(s, x, y)
  }

  // ----- The invariant

  predicate Routed<S>(s: Conv<S>, x: S) {
    x in s.fileno && s.fileno[x] in s.forward
  }

  function Partner<S>(s: Conv<S>, x: S): S
    requires Routed(s, x)
  {
    s.forward[s.fileno[x]]
  }

  /** Partners are open, distinct and each other's partner. */
  ghost predicate Mutual<S>(s: Conv<S>, x: S)
    requires Routed(s, x)
  {
    Routed(s, Partner(s, x)) && Partner(s, x) != x && Partner(s, Partner(s, x)) == x
  }

  /** A key of the map is the descriptor of an open socket, the partner of the one it maps to. */
  ghost predicate KeyOk<S>(s: Conv<S>, fd: Fd)
    requires fd in s.forward
  {
    Routed(s, s.forward[fd]) && Partner(s, s.forward[fd]) in s.fileno && s.fileno[Partner(s, s.forward[fd])] == fd
  }

  ghost predicate RoutesOk<S>(s: Conv<S>) {
    && (forall x, y :: x in s.fileno && y in s.fileno && s.fileno[x] == s.fileno[y] ==> x == y)
    && (forall x {:trigger Mutual(s, x)} :: x in s.fileno && Routed(s, x) ==> Mutual(s, x))
    && (forall fd {:trigger KeyOk(s, fd)} :: fd in s.forward ==> KeyOk(s, fd))
  }

  /** select watches the listener and exactly the routed sockets, each once. */
  ghost predicate InputsOk<S>(s: Conv<S>) {
    && s.listener in s.fileno && !Routed(s, s.listener)
    && |s.inputs| > 0 && s.inputs[0] == s.listener && Distinct(s.inputs)
    && (forall x :: x in s.inputs ==> x == s.listener || Routed(s, x))
    && (forall x :: x in s.fileno && Routed(s, x) ==> x in s.inputs)
  }

  ghost predicate Conserved<S>(s: Conv<S>, c: S, d: S) {
    && c in s.recvd && d in s.recvd && c in s.sent && d in s.sent && c != d
    && s.sent[d] == s.recvd[c] && s.sent[c] == REPLY + s.recvd[d]
  }

  /** For every pair there ever was, each side was sent what the other side gave, the client first the reply. */
  ghost predicate PairsOk<S>(s: Conv<S>) {
    && (forall p :: p in s.pairs ==> Conserved(s, p.0, p.1))
    && (forall p, q :: p in s.pairs && q in s.pairs && (p.0 == q.0 || p.0 == q.1 || p.1 == q.0 || p.1 == q.1) ==> p == q)
    && (forall x :: x in s.fileno && Routed(s, x) ==> (x, Partner(s, x)) in s.pairs || (Partner(s, x), x) in s.pairs)
  }

  ghost predicate LogsOk<S>(s: Conv<S>) {
    s.fileno.Keys <= s.recvd.Keys && s.recvd.Keys == s.sent.Keys
  }

  ghost predicate Inv<S>(s: Conv<S>) {
    !s.crashed && RoutesOk(s) && InputsOk(s) && PairsOk(s) && LogsOk(s)
  }

  function Start<S>(listener: S, fd: Fd): Conv<S> {
    Conv(listener, map[listener := fd], [listener], map[], map[listener := []], map[listener := []], {}, false)
  }

  // ----- Each step keeps it

  /** r has the routes of s and possibly more or fewer unrouted sockets. */
  lemma SameRoutes<S>(s: Conv<S>, r: Conv<S>)
    requires RoutesOk(s) && r.forward == s.forward
    requires forall x :: x in s.fileno && Routed(s, x) ==> x in r.fileno && r.fileno[x] == s.fileno[x]
    requires forall x :: x in r.fileno && x !in s.fileno ==> r.fileno[x] !in s.fileno.Values
    requires forall x :: x in r.fileno && x in s.fileno ==> r.fileno[x] == s.fileno[x]
    requires forall x, y :: x in r.fileno && y in r.fileno && x !in s.fileno && y !in s.fileno ==> x == y
    ensures RoutesOk(r)
    ensures forall x :: x in r.fileno && Routed(r, x) ==> x in s.fileno && Routed(s, x) && Partner(r, x) == Partner(s, x)
    ensures forall x :: x in s.fileno && Routed(s, x) ==> Routed(r, x)
  {
    forall x | x in r.fileno && x !in s.fileno ensures !Routed(r, x) {
      NotAKey(s, r.fileno[x]);
    }
    forall x | x in r.fileno && Routed(r, x) ensures Mutual(r, x) {
      assert Mutual(s, x);
    }
    forall fd | fd in r.forward ensures KeyOk(r, fd) {
      assert KeyOk(s, fd) && Mutual(s, s.forward[fd]);
    }
  }

  lemma AddSocketKeeps<S>(s: Conv<S>, x: S, fd: Fd)
    requires Inv(s) && Fresh(s, x, fd)
    ensures Inv(AddSocket(s, x, fd)) && !Routed(AddSocket(s, x, fd), x)
  {
    var r := AddSocket(s, x, fd);
    SameRoutes(s, r);
    hide RoutesOk;
    forall p | p in r.pairs ensures Conserved(r, p.0, p.1) {
      assert Conserved(s, p.0, p.1);
    }
  }

  lemma NotAKey<S>(s: Conv<S>, fd: Fd)
    requires RoutesOk(s) && fd !in s.fileno.Values
    ensures fd !in s.forward
  {
    assert fd in s.forward ==> KeyOk(s, fd);
  }

  lemma CloseUnroutedKeeps<S>(s: Conv<S>, x: S)
    requires Inv(s) && !Routed(s, x) && x != s.listener
    ensures Inv(CloseSocket(s, x))
  {
    var r := CloseSocket(s, x);
    SameRoutes(s, r);
    hide RoutesOk;
    forall p | p in r.pairs ensures Conserved(r, p.0, p.1) {
      assert Conserved(s, p.0, p.1);
    }
  }

  lemma PairKeepsRoutes<S>(s: Conv<S>, c: S, d: S)
    requires Inv(s) && c in s.fileno && d in s.fileno && c != d
    requires !Routed(s, c) && !Routed(s, d) && c in s.sent
    ensures RoutesOk(Pair(s, c, d))
    ensures var r := Pair(s, c, d);
            && Routed(r, c) && Routed(r, d) && Partner(r, c) == d && Partner(r, d) == c
            && (forall x :: x in s.fileno ==> (Routed(r, x) <==> x == c || x == d || Routed(s, x)))
            && (forall x :: x in s.fileno && Routed(s, x) ==> Partner(r, x) == Partner(s, x))
  {
    var r := Pair(s, c, d);
    assert s.fileno[c] != s.fileno[d];
    forall x | x in s.fileno && Routed(s, x) ensures Partner(r, x) == Partner(s, x) && Mutual(r, x) {
      assert Mutual(s, x);
    }
    forall fd | fd in r.forward
      ensures KeyOk(r, fd)
    {
      assert fd in s.forward ==> KeyOk(s, fd);
    }
  }

  lemma PairKeeps<S>(s: Conv<S>, c: S, d: S)
    requires Inv(s) && c in s.fileno && d in s.fileno && c != d && c != s.listener && d != s.listener
    requires !Routed(s, c) && !Routed(s, d) && c in s.sent
    requires forall p :: p in s.pairs ==> p.0 != c && p.1 != c && p.0 != d && p.1 != d
    requires s.recvd[c] == s.sent[c] == s.recvd[d] == s.sent[d] == []
    ensures Inv(Pair(s, c, d)) && Routed(Pair(s, c, d), c) && Partner(Pair(s, c, d), c) == d
  {
    PairKeepsRoutes(s, c, d);
    var r := Pair(s, c, d);
    assert c !in s.inputs && d !in s.inputs;
    hide RoutesOk;
    PairKeepsInputs(s, c, d);
    PairKeepsPairs(s, c, d);
    hide InputsOk, PairsOk;
  }

  /** c and d are routed to each other in Pair(s, c, d), and nothing else about routes changes. */
  ghost predicate NewRoute<S>(s: Conv<S>, r: Conv<S>, c: S, d: S) {
    && Routed(r, c) && Routed(r, d) && Partner(r, c) == d && Partner(r, d) == c
    && (forall x :: x in s.fileno ==> (Routed(r, x) <==> x == c || x == d || Routed(s, x)))
    && (forall x :: x in s.fileno && Routed(s, x) ==> Partner(r, x) == Partner(s, x))
  }

  lemma PairKeepsInputs<S>(s: Conv<S>, c: S, d: S)
    requires c in s.fileno && d in s.fileno && c != d && c in s.sent && NewRoute(s, Pair(s, c, d), c, d)
    requires InputsOk(s) && c !in s.inputs && d !in s.inputs && c != s.listener && d != s.listener
    ensures InputsOk(Pair(s, c, d))
  {
  }

  lemma PairKeepsPairs<S>(s: Conv<S>, c: S, d: S)
    requires c in s.fileno && d in s.fileno && c != d && c in s.sent && NewRoute(s, Pair(s, c, d), c, d)
    requires PairsOk(s) && LogsOk(s)
    requires forall p :: p in s.pairs ==> p.0 != c && p.1 != c && p.0 != d && p.1 != d
    requires s.recvd[c] == s.sent[c] == s.recvd[d] == s.sent[d] == []
    ensures PairsOk(Pair(s, c, d))
  {
    var r := Pair(s, c, d);
    assert REPLY + [] == REPLY && [] + REPLY == REPLY;
    forall p | p in r.pairs ensures Conserved(r, p.0, p.1) {
      if p != (c, d) { assert Conserved(s, p.0, p.1); }
    }
    forall x | x in r.fileno && Routed(r, x) ensures (x, Partner(r, x)) in r.pairs || (Partner(r, x), x) in r.pairs {
      if x != c && x != d { assert Routed(s, x); }
    }
  }

  lemma ForwardKeeps<S>(s: Conv<S>, x: S, e: Event)
    requires Inv(s) && Routed(s, x) && e.Data? && e.data != []
    ensures Inv(ReadAndForward(s, x, e))
    ensures ReadAndForward(s, x, e).forward == s.forward && ReadAndForward(s, x, e).fileno == s.fileno
  {
    var r := ReadAndForward(s, x, e);
    assert Mutual(s, x);
    SameRoutes(s, r);
    ForwardKeepsPairs(s, r, x, Partner(s, x), e.data);
    hide RoutesOk, Mutual, PairsOk;
  }

  /** More bytes received on one half of a pair and sent on the other. */
  lemma ForwardKeepsPairs<S>(s: Conv<S>, r: Conv<S>, x: S, y: S, data: seq<byte>)
    requires PairsOk(s) && Routed(s, x) && Partner(s, x) == y && x in s.recvd && y in s.sent
    requires r == s.(recvd := s.recvd[x := s.recvd[x] + data], sent := s.sent[y := s.sent[y] + data])
    ensures PairsOk(r)
  {
    forall p | p in s.pairs ensures Conserved(r, p.0, p.1) {
      assert Conserved(s, p.0, p.1);
      if p.0 == x || p.1 == x || p.0 == y || p.1 == y {
        assert p == (x, y) || p == (y, x);
        assert REPLY + s.recvd[p.1] + data == REPLY + (s.recvd[p.1] + data);
      }
    }
  }

  lemma {:induction false} RemoveFirstSet<S>(xs: seq<S>, x: S)
    requires Distinct(xs)
    ensures Distinct(RemoveFirst(xs, x))
    ensures forall y :: y in RemoveFirst(xs, x) <==> y in xs && y != x
    ensures xs != [] && xs[0] != x ==> RemoveFirst(xs, x) != [] && RemoveFirst(xs, x)[0] == xs[0]
  {
    if xs != [] {
      assert xs[0] !in xs[1..];
      assert xs == [xs[0]] + xs[1..];
      if xs[0] != x {
        RemoveFirstSet(xs[1..], x);
      }
    }
  }

  /** Under the invariant a cleanup removes the pair, and raises nothing. */
  lemma CleanupResult<S>(s: Conv<S>, x: S)
    requires Inv(s) && Routed(s, x)
    ensures Mutual(s, x)
    ensures var y := Partner(s, x);
            Cleanup(s, x, y) == s.(inputs := RemoveFirst(RemoveFirst(s.inputs, x), y),
                                   forward := s.forward - {s.fileno[x], s.fileno[y]},
                                   fileno := s.fileno - {x, y})
    ensures var xs := RemoveFirst(RemoveFirst(s.inputs, x), Partner(s, x));
            && Distinct(xs) && xs != [] && xs[0] == s.listener
            && forall z :: z in xs <==> z in s.inputs && z != x && z != Partner(s, x)
  {
    var y := Partner(s, x);
    assert Mutual(s, x);
    RemoveFirstSet(s.inputs, x);
    RemoveFirstSet(RemoveFirst(s.inputs, x), y);
    assert s.forward - {s.fileno[x]} - {s.fileno[y]} == s.forward - {s.fileno[x], s.fileno[y]};
  }

  lemma CleanupRoutes<S>(s: Conv<S>, x: S)
    requires Inv(s) && Routed(s, x) && Mutual(s, x)
    ensures var y := Partner(s, x);
            var r := s.(forward := s.forward - {s.fileno[x], s.fileno[y]}, fileno := s.fileno - {x, y});
            && RoutesOk(r)
            && (forall z :: z in r.fileno ==> (Routed(r, z) <==> Routed(s, z)))
            && (forall z :: z in r.fileno && Routed(r, z) ==> Partner(r, z) == Partner(s, z))
  {
    var y := Partner(s, x);
    var r := s.(forward := s.forward - {s.fileno[x], s.fileno[y]}, fileno := s.fileno - {x, y});
    forall z | z in r.fileno && Routed(r, z) ensures Mutual(r, z) {
      assert Mutual(s, z);
    }
    forall fd | fd in r.forward ensures KeyOk(r, fd) {
      assert KeyOk(s, fd) && Mutual(s, s.forward[fd]);
    }
  }

  lemma CleanupKeeps<S>(s: Conv<S>, x: S)
    requires Inv(s) && Routed(s, x)
    ensures Inv(Cleanup(s, x, Partner(s, x)))
    ensures Cleanup(s, x, Partner(s, x)).fileno == s.fileno - {x, Partner(s, x)}
  {
    CleanupResult(s, x);
    CleanupRoutes(s, x);
    var y := Partner(s, x);
    var m := s.(forward := s.forward - {s.fileno[x], s.fileno[y]}, fileno := s.fileno - {x, y});
    var r := Cleanup(s, x, y);
    hide Cleanup, RemoveFirst;
    SameRoutes(m, r);
    hide RoutesOk;
    assert InputsOk(r);
    forall z | z in r.fileno && Routed(r, z)
      ensures (z, Partner(r, z)) in r.pairs || (Partner(r, z), z) in r.pairs
    {
      assert Routed(m, z) && Routed(s, z);
    }
    forall p | p in r.pairs ensures Conserved(r, p.0, p.1) {
      assert Conserved(s, p.0, p.1);
    }
    assert PairsOk(r) && LogsOk(r);
  }

  lemma ReadAndForwardKeeps<S>(s: Conv<S>, x: S, e: Event)
    requires Inv(s) && Routed(s, x)
    ensures Inv(ReadAndForward(s, x, e))
  {
    assert Mutual(s, x);
    if e.Data? && e.data != [] {
      ForwardKeeps(s, x, e);
    } else {
      CleanupKeeps(s, x);
    }
  }

  /** The two ways a watched socket is served under the invariant. */
  lemma ReadAndForwardCases<S>(s: Conv<S>, x: S, e: Event)
    requires Inv(s) && x in s.inputs && x != s.listener
    ensures Routed(s, x) && Inv(ReadAndForward(s, x, e))
    ensures var y := Partner(s, x);
            && x != y && x in s.recvd && y in s.sent
            && ReadAndForward(s, x, e) ==
               if Ends(e) then Cleanup(s, x, y)
               else s.(recvd := s.recvd[x := s.recvd[x] + e.data], sent := s.sent[y := s.sent[y] + e.data])
  {
    ReadAndForwardKeeps(s, x, e);
    assert Mutual(s, x);
  }

  // ----- Accepting, exactly

  /** After a successful Connect nothing but ignorable elements may follow. */
  predicate Benign<S>(outcomes: seq<TlvOutcome<S>>) {
    outcomes == [] ||
    match outcomes[0]
    case Ignored => Benign(outcomes[1..])
    case Unknown => true
    case ConnectFails => true
    case ConnectOk(_, _) => AllIgnored(outcomes[1..])
  }

  predicate Harmless<S>(req: Incoming<S>) {
    req.NoRequest? || Benign(req.outcomes)
  }

  predicate AllIgnored<S>(outcomes: seq<TlvOutcome<S>>) {
    forall i :: 0 <= i < |outcomes| ==> outcomes[i].Ignored?
  }

  /** c is watched although it is closed, or watched twice. */
  ghost predicate Broken<S>(s: Conv<S>, c: S) {
    c in s.inputs && c != s.listener && (c !in s.fileno || !Distinct(s.inputs))
  }

  lemma BrokenIsBad<S>(s: Conv<S>, c: S)
    requires Broken(s, c)
    ensures !Inv(s)
  {
  }

  lemma {:induction false} IgnoredAll<S>(s: Conv<S>, c: S, outcomes: seq<TlvOutcome<S>>)
    requires Feasible(s, c, outcomes) && AllIgnored(outcomes)
    ensures HandleTlvs(s, c, outcomes) == (s, false)
    decreases |outcomes|
  {
    if outcomes != [] {
      IgnoredAll(s, c, outcomes[1..]);
    }
  }

  /** The loop goes on from where the elements so far have left it. */
  lemma {:induction false} HandleSnoc<S>(s: Conv<S>, c: S, outcomes: seq<TlvOutcome<S>>, next: TlvOutcome<S>)
    requires Feasible(s, c, outcomes) && !HandleTlvs(s, c, outcomes).1
    requires Feasible(HandleTlvs(s, c, outcomes).0, c, [next])
    ensures Feasible(s, c, outcomes + [next])
    ensures HandleTlvs(s, c, outcomes + [next]) == HandleTlvs(HandleTlvs(s, c, outcomes).0, c, [next])
    decreases |outcomes|
  {
    var all := outcomes + [next];
    if outcomes == [] {
      assert all == [next];
    } else {
      assert all[1..] == outcomes[1..] + [next] && all[0] == outcomes[0];
      match outcomes[0] {
        case Ignored => HandleSnoc(s, c, outcomes[1..], next);
        case ConnectFails => HandleSnoc(CloseSocket(s, c), c, outcomes[1..], next);
        case Unknown =>
        case ConnectOk(d, dfd) =>
          if c in s.fileno {
            HandleSnoc(Pair(AddSocket(s, d, dfd), c, d), c, outcomes[1..], next);
          }
      }
    }
  }

  /** A client closed by a failed Connect stays out of everything; any later Connect raises. */
  lemma {:induction false} ClosedStaysOut<S>(s: Conv<S>, c: S, outcomes: seq<TlvOutcome<S>>)
    requires Feasible(s, c, outcomes) && c !in s.fileno
    ensures HandleTlvs(s, c, outcomes).0 == s
    decreases |outcomes|
  {
    if outcomes != [] {
      assert s.fileno - {c} == s.fileno;
      match outcomes[0] {
        case Ignored => ClosedStaysOut(s, c, outcomes[1..]);
        case ConnectFails => ClosedStaysOut(s, c, outcomes[1..]);
        case _ =>
      }
    }
  }

  lemma PairAgainBreaks<S>(s: Conv<S>, c: S, d: S)
    requires c in s.inputs && c != s.listener && c in s.fileno && d in s.fileno && c in s.sent
    ensures Broken(Pair(s, c, d), c)
  {
    var xs := Pair(s, c, d).inputs;
    var i :| 0 <= i < |s.inputs| && s.inputs[i] == c;
    assert xs[i] == c && xs[|xs| - 1] == c;
  }

  lemma {:induction false} BrokenStaysBroken<S>(s: Conv<S>, c: S, outcomes: seq<TlvOutcome<S>>)
    requires Feasible(s, c, outcomes) && Broken(s, c)
    ensures Broken(HandleTlvs(s, c, outcomes).0, c)
    decreases |outcomes|
  {
    if outcomes != [] {
      match outcomes[0] {
        case Ignored => BrokenStaysBroken(s, c, outcomes[1..]);
        case ConnectFails => BrokenStaysBroken(CloseSocket(s, c), c, outcomes[1..]);
        case Unknown =>
        case ConnectOk(d, dfd) =>
          if c in s.fileno {
            var s1 := AddSocket(s, d, dfd);
            PairAgainBreaks(s1, c, d);
            BrokenStaysBroken(Pair(s1, c, d), c, outcomes[1..]);
          }
      }
    }
  }

  /** Once paired, the first element that is not ignorable breaks the pair. */
  lemma {:induction false} PairedThenMore<S>(s: Conv<S>, c: S, outcomes: seq<TlvOutcome<S>>)
    requires Feasible(s, c, outcomes) && !AllIgnored(outcomes)
    requires c in s.inputs && c != s.listener && c in s.fileno
    ensures var (r, raised) := HandleTlvs(s, c, outcomes); Broken(if raised then CloseSocket(r, c) else r, c)
    decreases |outcomes|
  {
    match outcomes[0] {
      case Ignored => PairedThenMore(s, c, outcomes[1..]);
      case Unknown =>
      case ConnectFails => BrokenStaysBroken(CloseSocket(s, c), c, outcomes[1..]);
      case ConnectOk(d, dfd) =>
        var s1 := AddSocket(s, d, dfd);
        PairAgainBreaks(s1, c, d);
        BrokenStaysBroken(Pair(s1, c, d), c, outcomes[1..]);
    }
  }

  /** A client that has not been paired yet. */
  ghost predicate Waiting<S>(s: Conv<S>, c: S) {
    && Inv(s) && c in s.fileno && !Routed(s, c) && c != s.listener
    && s.recvd[c] == s.sent[c] == []
    && (forall p :: p in s.pairs ==> p.0 != c && p.1 != c)
  }

  lemma {:induction false} HandleKeepsExactly<S>(s: Conv<S>, c: S, outcomes: seq<TlvOutcome<S>>)
    requires Waiting(s, c) && Feasible(s, c, outcomes)
    ensures var (r, raised) := HandleTlvs(s, c, outcomes);
            var end := if raised then CloseSocket(r, c) else r;
            if Benign(outcomes) then Inv(end) else Broken(end, c)
    decreases |outcomes|
  {
    if outcomes != [] {
      match outcomes[0] {
        case Ignored => HandleKeepsExactly(s, c, outcomes[1..]);
        case Unknown => CloseUnroutedKeeps(s, c);
        case ConnectFails =>
          CloseUnroutedKeeps(s, c);
          var s1 := CloseSocket(s, c);
          ClosedStaysOut(s1, c, outcomes[1..]);
          assert CloseSocket(s1, c) == s1;
        case ConnectOk(d, dfd) =>
          ConnectKeepsExactly(s, c, d, dfd, outcomes[1..]);
      }
    }
  }

  lemma ConnectKeepsExactly<S>(s: Conv<S>, c: S, d: S, dfd: Fd, rest: seq<TlvOutcome<S>>)
    requires Waiting(s, c) && Fresh(s, d, dfd) && d != c && Feasible(Pair(AddSocket(s, d, dfd), c, d), c, rest)
    ensures var (r, raised) := HandleTlvs(Pair(AddSocket(s, d, dfd), c, d), c, rest);
            var end := if raised then CloseSocket(r, c) else r;
            if AllIgnored(rest) then Inv(end) else Broken(end, c)
  {
    AddSocketKeeps(s, d, dfd);
    var s1 := AddSocket(s, d, dfd);
    assert forall p :: p in s.pairs ==> Conserved(s, p.0, p.1);
    assert !Routed(s1, c) by { NotAKey(s, dfd); }
    PairKeeps(s1, c, d);
    var s2 := Pair(s1, c, d);
    if AllIgnored(rest) {
      IgnoredAll(s2, c, rest);
    } else {
      PairedThenMore(s2, c, rest);
    }
  }

  /**
   * Accepting a connection keeps the pairing invariant exactly when nothing but ignorable elements follows
   * a successful Connect: a second Connect or an unknown type after it leaves the client watched although it
   * is closed, or watched twice.
   */
  lemma AcceptKeepsExactly<S>(s: Conv<S>, c: S, cfd: Fd, req: Incoming<S>)
    requires Inv(s) && CanAccept(s, c, cfd, req)
    ensures if Harmless(req) then Inv(Accept(s, c, cfd, req)) else Broken(Accept(s, c, cfd, req), c)
    ensures Inv(Accept(s, c, cfd, req)) <==> Harmless(req)
  {
    AddSocketKeeps(s, c, cfd);
    var s0 := AddSocket(s, c, cfd);
    assert forall p :: p in s.pairs ==> Conserved(s, p.0, p.1);
    match req {
      case NoRequest => CloseUnroutedKeeps(s0, c);
      case Tlvs(outcomes) =>
        HandleKeepsExactly(s0, c, outcomes);
        if !Benign(outcomes) { BrokenIsBad(Accept(s, c, cfd, req), c); }
    }
  }

  // ----- Who stays, exactly

  /** Every element was ignored or connected. */
  predicate Served<S>(outcomes: seq<TlvOutcome<S>>) {
    forall i :: 0 <= i < |outcomes| ==> outcomes[i].Ignored? || outcomes[i].ConnectOk?
  }

  lemma ServedCons<S>(outcomes: seq<TlvOutcome<S>>)
    requires outcomes != []
    ensures Served(outcomes) <==> (outcomes[0].Ignored? || outcomes[0].ConnectOk?) && Served(outcomes[1..])
  {
    assert outcomes == [outcomes[0]] + outcomes[1..];
  }

  /** An open client stays open through its request, and nothing raises, exactly if every element is served. */
  lemma {:induction false} HandledStaysOpen<S>(s: Conv<S>, c: S, outcomes: seq<TlvOutcome<S>>)
    requires Feasible(s, c, outcomes) && c in s.fileno
    ensures var (r, raised) := HandleTlvs(s, c, outcomes);
            && (c in r.fileno && !raised <==> Served(outcomes))
            && (c in r.fileno ==> r.fileno[c] == s.fileno[c])
    decreases |outcomes|
  {
    if outcomes != [] {
      ServedCons(outcomes);
      hide Served;
      match outcomes[0] {
        case Ignored => HandledStaysOpen(s, c, outcomes[1..]);
        case Unknown =>
        case ConnectFails => ClosedStaysOut(CloseSocket(s, c), c, outcomes[1..]);
        case ConnectOk(d, dfd) => HandledStaysOpen(Pair(AddSocket(s, d, dfd), c, d), c, outcomes[1..]);
      }
    }
  }

  /**
   * Whatever it asked for, an accepted client is left open, on the descriptor accept gave it, exactly if its request
   * was read and every element of it ignored or connected; otherwise it is closed.
   */
  lemma AcceptClosesExactly<S>(s: Conv<S>, c: S, cfd: Fd, req: Incoming<S>)
    requires CanAccept(s, c, cfd, req)
    ensures var r := Accept(s, c, cfd, req);
            && (c in r.fileno <==> req.Tlvs? && Served(req.outcomes))
            && (c in r.fileno ==> r.fileno[c] == cfd)
  {
    if req.Tlvs? {
      HandledStaysOpen(AddSocket(s, c, cfd), c, req.outcomes);
    }
  }

  /** Whether element i is a successful Connect that the loop gets to on an open client. */
  predicate Connects<S>(outcomes: seq<TlvOutcome<S>>, i: nat) {
    i < |outcomes| && outcomes[i].ConnectOk? && Served(outcomes[..i])
  }

  lemma ConnectsCons<S>(outcomes: seq<TlvOutcome<S>>, i: nat)
    requires outcomes != []
    ensures i > 0 ==> (Connects(outcomes, i) <==>
                         (outcomes[0].Ignored? || outcomes[0].ConnectOk?) && Connects(outcomes[1..], i - 1))
    ensures Connects(outcomes, 0) <==> outcomes[0].ConnectOk?
  {
    if 0 < i < |outcomes| {
      assert outcomes[..i][1..] == outcomes[1..][..i - 1];
      ServedCons(outcomes[..i]);
    }
  }

  /** p is the pair of such a Connect. */
  ghost predicate Makes<S>(c: S, outcomes: seq<TlvOutcome<S>>, p: (S, S)) {
    exists i: nat :: Connects(outcomes, i) && p == (c, outcomes[i].d)
  }

  lemma MakesCons<S>(c: S, outcomes: seq<TlvOutcome<S>>, p: (S, S))
    requires outcomes != []
    ensures Makes(c, outcomes, p)
            <==> || (outcomes[0].ConnectOk? && p == (c, outcomes[0].d))
                 || ((outcomes[0].Ignored? || outcomes[0].ConnectOk?) && Makes(c, outcomes[1..], p))
  {
    var rest := outcomes[1..];
    ConnectsCons(outcomes, 0);
    if Makes(c, outcomes, p) {
      var i: nat :| Connects(outcomes, i) && p == (c, outcomes[i].d);
      ConnectsCons(outcomes, i);
      assert i > 0 ==> Connects(rest, i - 1) && rest[i - 1] == outcomes[i];
    }
    if Makes(c, rest, p) {
      var i: nat :| Connects(rest, i) && p == (c, rest[i].d);
      ConnectsCons(outcomes, i + 1);
      assert outcomes[i + 1] == rest[i];
    }
  }

  /** The pairs a request makes are those of its successful Connects, and all of them. */
  lemma {:induction false} HandlePairsExactly<S>(s: Conv<S>, c: S, outcomes: seq<TlvOutcome<S>>, p: (S, S))
    requires Feasible(s, c, outcomes) && c in s.fileno
    ensures p in HandleTlvs(s, c, outcomes).0.pairs <==> p in s.pairs || Makes(c, outcomes, p)
    decreases |outcomes|
  {
    if outcomes != [] {
      MakesCons(c, outcomes, p);
      hide Makes;
      match outcomes[0] {
        case Ignored => HandlePairsExactly(s, c, outcomes[1..], p);
        case Unknown =>
        case ConnectFails => ClosedStaysOut(CloseSocket(s, c), c, outcomes[1..]);
        case ConnectOk(d, dfd) => HandlePairsExactly(Pair(AddSocket(s, d, dfd), c, d), c, outcomes[1..], p);
      }
    }
  }

  lemma AcceptPairsExactly<S>(s: Conv<S>, c: S, cfd: Fd, req: Incoming<S>, p: (S, S))
    requires CanAccept(s, c, cfd, req)
    ensures p in Accept(s, c, cfd, req).pairs <==> p in s.pairs || (req.Tlvs? && Makes(c, req.outcomes, p))
  {
    if req.Tlvs? {
      HandlePairsExactly(AddSocket(s, c, cfd), c, req.outcomes, p);
    }
  }

  /** A benign request's Connect that is answered routes the client to its destination. */
  lemma {:induction false} HandleRoutes<S>(s: Conv<S>, c: S, outcomes: seq<TlvOutcome<S>>, i: nat)
    requires Waiting(s, c) && Feasible(s, c, outcomes) && Benign(outcomes) && Connects(outcomes, i)
    ensures var (r, raised) := HandleTlvs(s, c, outcomes);
            && !raised && Routed(r, c) && Partner(r, c) == outcomes[i].d
            && c in r.inputs && outcomes[i].d in r.inputs
    decreases |outcomes|
  {
    hide Inv, Served;
    ConnectsCons(outcomes, i);
    if i > 0 && outcomes[0].Ignored? {
      HandleRoutes(s, c, outcomes[1..], i - 1);
    } else if outcomes[0].ConnectOk? {
      var d, rest := outcomes[0].d, outcomes[1..];
      assert forall j :: 0 <= j < |rest| ==> rest[j] == outcomes[j + 1];
      ConnectRoutes(s, c, d, outcomes[0].dfd);
      IgnoredAll(Pair(AddSocket(s, d, outcomes[0].dfd), c, d), c, rest);
    }
  }

  lemma ConnectRoutes<S>(s: Conv<S>, c: S, d: S, dfd: Fd)
    requires Waiting(s, c) && Fresh(s, d, dfd) && d != c
    ensures var s2 := Pair(AddSocket(s, d, dfd), c, d); Routed(s2, c) && Partner(s2, c) == d
  {
    AddSocketKeeps(s, d, dfd);
    var s1 := AddSocket(s, d, dfd);
    assert forall p :: p in s.pairs ==> Conserved(s, p.0, p.1);
    assert !Routed(s1, c) by { NotAKey(s, dfd); }
    PairKeeps(s1, c, d);
  }

  ghost predicate AnyConnects<S>(outcomes: seq<TlvOutcome<S>>) {
    exists i: nat :: Connects(outcomes, i)
  }

  /**
   * A client whose accept keeps the pairs in order is routed exactly if one of its Connects was answered; then it
   * is routed to that destination, the destination to it, and both are watched.
   */
  lemma AcceptRoutesExactly<S>(s: Conv<S>, c: S, cfd: Fd, req: Incoming<S>)
    requires Inv(s) && CanAccept(s, c, cfd, req) && Harmless(req)
    ensures var r := Accept(s, c, cfd, req);
            && (Routed(r, c) <==> req.Tlvs? && AnyConnects(req.outcomes))
            && forall i: nat :: req.Tlvs? && Connects(req.outcomes, i) ==>
                 var d := req.outcomes[i].d;
                 && Routed(r, c) && Partner(r, c) == d && Routed(r, d) && Partner(r, d) == c
                 && c in r.inputs && d in r.inputs
  {
    var r := Accept(s, c, cfd, req);
    AcceptKeepsExactly(s, c, cfd, req);
    NewIsWaiting(s, c, cfd);
    RoutedIsPaired(r, c);
    assert c !in s.fileno;
    hide Inv, Waiting, Feasible, Connects, Makes, Benign, Fresh;
    if req.Tlvs? {
      forall i: nat | Connects(req.outcomes, i)
        ensures Routed(r, c) && Partner(r, c) == req.outcomes[i].d && c in r.inputs && req.outcomes[i].d in r.inputs
      {
        HandleRoutes(AddSocket(s, c, cfd), c, req.outcomes, i);
      }
      if Routed(r, c) {
        AcceptPairsExactly(s, c, cfd, req, (c, Partner(r, c)));
        AcceptPairsExactly(s, c, cfd, req, (Partner(r, c), c));
        MakesOne(c, req.outcomes, (c, Partner(r, c)));
        MakesOne(c, req.outcomes, (Partner(r, c), c));
      }
    }
  }

  lemma MakesOne<S>(c: S, outcomes: seq<TlvOutcome<S>>, p: (S, S))
    ensures Makes(c, outcomes, p) ==> AnyConnects(outcomes)
  {
  }

  lemma NewIsWaiting<S>(s: Conv<S>, c: S, cfd: Fd)
    requires Inv(s) && Fresh(s, c, cfd)
    ensures Waiting(AddSocket(s, c, cfd), c) && forall y :: (c, y) !in s.pairs && (y, c) !in s.pairs
  {
    AddSocketKeeps(s, c, cfd);
    assert forall p :: p in s.pairs ==> Conserved(s, p.0, p.1);
    hide Inv;
    forall y ensures (c, y) !in s.pairs && (y, c) !in s.pairs {
      assert (c, y) in s.pairs ==> Conserved(s, (c, y).0, (c, y).1);
      assert (y, c) in s.pairs ==> Conserved(s, (y, c).0, (y, c).1);
    }
  }

  lemma RoutedIsPaired<S>(s: Conv<S>, x: S)
    requires Inv(s)
    ensures Routed(s, x) ==> Mutual(s, x) && ((x, Partner(s, x)) in s.pairs || (Partner(s, x), x) in s.pairs)
  {
    assert Routed(s, x) ==> Mutual(s, x);
  }

  /** Apart from the client, the open sockets are those from before and the ones its Connects opened. */
  lemma {:induction false} HandleOpensExactly<S>(s: Conv<S>, c: S, outcomes: seq<TlvOutcome<S>>, z: S)
    requires Feasible(s, c, outcomes) && c in s.fileno && z != c
    ensures z in HandleTlvs(s, c, outcomes).0.fileno <==> z in s.fileno || Makes(c, outcomes, (c, z))
    decreases |outcomes|
  {
    if outcomes != [] {
      MakesCons(c, outcomes, (c, z));
      hide Makes;
      match outcomes[0] {
        case Ignored => HandleOpensExactly(s, c, outcomes[1..], z);
        case Unknown =>
        case ConnectFails => ClosedStaysOut(CloseSocket(s, c), c, outcomes[1..]);
        case ConnectOk(d, dfd) => HandleOpensExactly(Pair(AddSocket(s, d, dfd), c, d), c, outcomes[1..], z);
      }
    }
  }

  lemma AcceptOpensExactly<S>(s: Conv<S>, c: S, cfd: Fd, req: Incoming<S>, z: S)
    requires CanAccept(s, c, cfd, req) && z != c
    ensures z in Accept(s, c, cfd, req).fileno <==> z in s.fileno || (req.Tlvs? && Makes(c, req.outcomes, (c, z)))
  {
    if req.Tlvs? {
      HandleOpensExactly(AddSocket(s, c, cfd), c, req.outcomes, z);
    }
  }

  lemma NothingAdded<S>(log: map<S, seq<byte>>, x: S)
    requires x in log
    ensures log[x := log[x] + []] == log
  {
    assert log[x] + [] == log[x];
  }

  /**
   * A watched socket served, by what its receive gave: bytes go to the partner and nothing else changes; an end
   * or a failure closes both halves and stops watching and routing them, and moves nothing. Nobody else is touched.
   */
  lemma ServedExactly<S>(s: Conv<S>, x: S, e: Event)
    requires Inv(s) && x in s.inputs && x != s.listener
    ensures Routed(s, x) && Partner(s, x) != x && x in s.recvd && Partner(s, x) in s.sent
    ensures var y, r := Partner(s, x), ReadAndForward(s, x, e);
            var data := match e case Data(d) => d case Eof => [] case RecvFails => [];
            && !r.crashed && r.listener == s.listener && r.pairs == s.pairs
            && r.recvd == s.recvd[x := s.recvd[x] + data] && r.sent == s.sent[y := s.sent[y] + data]
            && r.fileno == (if data != [] then s.fileno else s.fileno - {x, y})
            && r.forward == (if data != [] then s.forward else s.forward - {s.fileno[x], s.fileno[y]})
            && (data != [] ==> r.inputs == s.inputs)
            && forall z :: z in r.inputs <==> z in s.inputs && (data != [] || (z != x && z != y))
  {
    ReadAndForwardCases(s, x, e);
    var y := Partner(s, x);
    if Ends(e) {
      CleanupResult(s, x);
      NothingAdded(s.recvd, x);
      NothingAdded(s.sent, y);
    }
    assert !s.crashed && Routed(s, x);
    hide ReadAndForward, Cleanup, RemoveFirst, Inv, Mutual, Distinct;
  }

  // ----- Runs of the loop, one ready socket at a time

  datatype Action<S> =
    | DoAccept(c: S, cfd: Fd, req: Incoming<S>)
    | DoReady(x: S, e: Event)
    | DoCollect(x: S)   // an open socket nothing refers to any more is closed

  ghost predicate Enabled<S>(s: Conv<S>, a: Action<S>) {
    match a
    case DoAccept(c, cfd, req) => !s.crashed && CanAccept(s, c, cfd, req)
    case DoReady(x, e) => !s.crashed && x in s.inputs && x != s.listener
    case DoCollect(x) => x in s.fileno && x !in s.inputs
  }

  predicate BenignAction<S>(a: Action<S>) {
    a.DoAccept? ==> Harmless(a.req)
  }

  predicate BenignRun<S>(run: seq<Action<S>>) {
    forall i :: 0 <= i < |run| ==> BenignAction(run[i])
  }

  function Step<S(==)>(s: Conv<S>, a: Action<S>): Conv<S>
    requires Enabled(s, a)
  {
    match a
    case DoAccept(c, cfd, req) => Accept(s, c, cfd, req)
    case DoReady(x, e) => ReadAndForward(s, x, e)
    case DoCollect(x) => CloseSocket(s, x)
  }

  lemma StepKeeps<S>(s: Conv<S>, a: Action<S>)
    requires Inv(s) && Enabled(s, a)
    ensures s.pairs <= Step(s, a).pairs
    ensures if BenignAction(a) then Inv(Step(s, a)) else Broken(Step(s, a), a.c)
  {
    match a {
      case DoAccept(c, cfd, req) =>
        AcceptKeepsExactly(s, c, cfd, req);
        AcceptPairsFresh(s, c, cfd, req);
      case DoReady(x, e) => ReadAndForwardKeeps(s, x, e);
      case DoCollect(x) => CloseUnroutedKeeps(s, x);
    }
  }

  ghost predicate ValidRun<S>(s: Conv<S>, run: seq<Action<S>>)
    decreases |run|
  {
    run != [] ==> Enabled(s, run[0]) && ValidRun(Step(s, run[0]), run[1..])
  }

  function Exec<S(==)>(s: Conv<S>, run: seq<Action<S>>): Conv<S>
    requires ValidRun(s, run)
    decreases |run|
  {
    if run == [] then s else Exec(Step(s, run[0]), run[1..])
  }

  lemma {:induction false} ExecKeeps<S>(s: Conv<S>, run: seq<Action<S>>)
    requires Inv(s) && ValidRun(s, run) && BenignRun(run)
    ensures Inv(Exec(s, run)) && s.pairs <= Exec(s, run).pairs
    decreases |run|
  {
    if run != [] {
      StepKeeps(s, run[0]);
      assert BenignAction(run[0]);
      ExecKeeps(Step(s, run[0]), run[1..]);
    }
  }

  /** What the invariant says in terms of descriptors. */
  lemma PairingByDescriptor<S>(s: Conv<S>)
    requires Inv(s)
    ensures forall fd :: fd in s.forward ==>
              && fd in s.fileno.Values && s.forward[fd] in s.fileno
              && var back := s.fileno[s.forward[fd]];
                 back != fd && back in s.forward && s.forward[back] in s.fileno && s.fileno[s.forward[back]] == fd
  {
    forall fd | fd in s.forward
      ensures fd in s.fileno.Values && s.forward[fd] in s.fileno
      ensures var back := s.fileno[s.forward[fd]];
              back != fd && back in s.forward && s.forward[back] in s.fileno && s.fileno[s.forward[back]] == fd
    {
      assert KeyOk(s, fd) && Mutual(s, s.forward[fd]);
      assert s.fileno[Partner(s, s.forward[fd])] in s.fileno.Values;
    }
  }

  /**
   * Nothing has crashed, the routing map is a fixed-point-free involution between open descriptors, select
   * watches the listener and exactly the routed sockets once each, and for every pair there ever was the
   * bytes sent on one side are those received on the other, the client's preceded by the reply.
   */
  ghost predicate InOrder<S>(s: Conv<S>) {
    && !s.crashed
    && (forall fd :: fd in s.forward ==>
          && fd in s.fileno.Values && s.forward[fd] in s.fileno
          && var back := s.fileno[s.forward[fd]];
             back != fd && back in s.forward && s.forward[back] in s.fileno && s.fileno[s.forward[back]] == fd)
    && Distinct(s.inputs)
    && s.listener in s.inputs && (forall x :: x in s.inputs ==> x == s.listener || Routed(s, x))
    && (forall x :: x in s.fileno && Routed(s, x) ==> x in s.inputs)
    && (forall p :: p in s.pairs ==> Conserved(s, p.0, p.1))
  }

  ghost predicate InOrderThroughout<S>(s: Conv<S>, run: seq<Action<S>>)
    requires ValidRun(s, run)
    decreases |run|
  {
    InOrder(s) && (run != [] ==> InOrderThroughout(Step(s, run[0]), run[1..]))
  }

  lemma InvIsInOrder<S>(s: Conv<S>)
    requires Inv(s)
    ensures InOrder(s)
  {
    PairingByDescriptor(s);
  }

  lemma BrokenIsNotInOrder<S>(s: Conv<S>, c: S)
    requires Broken(s, c)
    ensures !InOrder(s)
  {
  }

  lemma BenignCons<S>(run: seq<Action<S>>)
    requires run != []
    ensures BenignRun(run) <==> BenignAction(run[0]) && BenignRun(run[1..])
  {
    hide BenignAction;
    assert run == [run[0]] + run[1..];
  }

  lemma {:induction false} InOrderExactly<S>(s: Conv<S>, run: seq<Action<S>>)
    requires Inv(s) && ValidRun(s, run)
    ensures InOrderThroughout(s, run) <==> BenignRun(run)
    decreases |run|
  {
    InvIsInOrder(s);
    if run != [] {
      BenignCons(run);
      hide Inv, InOrder, Broken, Step, Enabled, BenignAction, BenignRun;
      StepKeeps(s, run[0]);
      var r := Step(s, run[0]);
      if BenignAction(run[0]) {
        InOrderExactly(r, run[1..]);
      } else {
        BrokenIsNotInOrder(r, run[0].c);
      }
    }
  }

  /** From an idle listener on, every state is in order exactly when every request accepted is benign. */
  lemma RunsKeepPairingAndBytes<S>(listener: S, lfd: Fd, run: seq<Action<S>>)
    requires ValidRun(Start(listener, lfd), run)
    ensures InOrderThroughout(Start(listener, lfd), run) <==> BenignRun(run)
  {
    var s0 := Start(listener, lfd);
    assert Inv(s0);
    InOrderExactly(s0, run);
  }

  /** A reissued descriptor inherits nothing: as long as a socket is routed, it is routed to its first partner. */
  lemma RouteNeverChanges<S>(s: Conv<S>, run: seq<Action<S>>, x: S)
    requires Inv(s) && ValidRun(s, run) && BenignRun(run) && Routed(s, x) && Routed(Exec(s, run), x)
    ensures Partner(Exec(s, run), x) == Partner(s, x)
  {
    ExecKeeps(s, run);
    var r := Exec(s, run);
    assert Mutual(s, x) && Mutual(r, x);
    var y, z := Partner(s, x), Partner(r, x);
    var p := if (x, y) in s.pairs then (x, y) else (y, x);
    var q := if (x, z) in r.pairs then (x, z) else (z, x);
    assert p in r.pairs && q in r.pairs;
  }

  // ----- A whole batch of ready sockets

  /** A ready socket is the listener, which accepts, or a connected one, which is read. */
  datatype Ready<S> =
    | Listen(c: S, cfd: Fd, req: Incoming<S>)
    | Serve(x: S, e: Event)

  ghost predicate CanTake<S>(s: Conv<S>, ready: Ready<S>) {
    ready.Listen? ==> CanAccept(s, ready.c, ready.cfd, ready.req)
  }

  function Take<S(==)>(s: Conv<S>, ready: Ready<S>): Conv<S>
    requires CanTake(s, ready)
  {
    match ready
    case Listen(c, cfd, req) => Accept(s, c, cfd, req)
    case Serve(x, e) => ReadAndForward(s, x, e)
  }

  ghost predicate BatchFeasible<S>(s: Conv<S>, batch: seq<Ready<S>>)
    decreases |batch|
  {
    batch == [] || s.crashed || (CanTake(s, batch[0]) && BatchFeasible(Take(s, batch[0]), batch[1..]))
  }

  /** All sockets one select returned, in turn, whatever the earlier ones have done to the later ones. */
  function RunBatch<S(==)>(s: Conv<S>, batch: seq<Ready<S>>): Conv<S>
    requires BatchFeasible(s, batch)
    decreases |batch|
  {
    if batch == [] || s.crashed then s else RunBatch(Take(s, batch[0]), batch[1..])
  }

  ghost predicate Stale<S>(s: Conv<S>, batch: seq<Ready<S>>) {
    exists j :: 0 <= j < |batch| && batch[j].Serve? && !Routed(s, batch[j].x)
  }

  ghost predicate EndsPair<S>(s: Conv<S>, first: Ready<S>, later: Ready<S>) {
    first.Serve? && later.Serve? && Routed(s, first.x) && Ends(first.e) && later.x == Partner(s, first.x)
  }

  /** A socket comes after the end of its own partner. */
  ghost predicate Clash<S>(s: Conv<S>, batch: seq<Ready<S>>) {
    exists i, j :: 0 <= i < j < |batch| && EndsPair(s, batch[i], batch[j])
  }

  ghost predicate OnceEach<S>(batch: seq<Ready<S>>) {
    forall i, j :: 0 <= i < j < |batch| && batch[i].Serve? && batch[j].Serve? ==> batch[i].x != batch[j].x
  }

  ghost predicate AllKnown<S>(batch: seq<Ready<S>>, known: set<S>) {
    forall i :: 0 <= i < |batch| && batch[i].Serve? ==> batch[i].x in known
  }

  /** The sockets known when select returned are routed in pairs, and the routed ones are watched. */
  ghost predicate SoundOn<S>(s: Conv<S>, known: set<S>) {
    && !s.crashed && known <= s.recvd.Keys && known <= s.sent.Keys
    && (forall x, y :: x in known && y in known && x in s.fileno && y in s.fileno && s.fileno[x] == s.fileno[y] ==>
          x == y)
    && (forall x {:trigger Mutual(s, x)} :: x in known && Routed(s, x) ==>
          Mutual(s, x) && Partner(s, x) in known && x in s.inputs)
  }

  lemma InvIsSound<S>(s: Conv<S>)
    requires Inv(s)
    ensures SoundOn(s, s.recvd.Keys)
  {
    forall x | x in s.recvd && Routed(s, x) ensures Mutual(s, x) && Partner(s, x) in s.recvd && x in s.inputs {
      assert x in s.fileno && Mutual(s, x);
      assert Routed(s, Partner(s, x));
    }
  }

  /** r routes the known sockets as s does, but for a pair that has ended. */
  ghost predicate SameButEnded<S>(s: Conv<S>, r: Conv<S>, known: set<S>, ended: set<S>) {
    && (forall z :: z in known ==> (Routed(r, z) <==> Routed(s, z) && z !in ended))
    && (forall z :: z in known && Routed(r, z) ==> Routed(s, z) && Partner(r, z) == Partner(s, z))
  }

  lemma {:induction false} RemoveFirstKeepsOthers<S>(xs: seq<S>, x: S, z: S)
    requires z in xs && z != x
    ensures z in RemoveFirst(xs, x)
  {
    if xs[0] != x && xs[0] != z {
      assert xs == [xs[0]] + xs[1..];
      RemoveFirstKeepsOthers(xs[1..], x, z);
    }
  }

  /** The ends of a routed pair: the first half cleans both up. */
  lemma EndStep<S>(s: Conv<S>, known: set<S>, x: S)
    requires SoundOn(s, known) && x in known && Routed(s, x)
    ensures Mutual(s, x)
    ensures var y := Partner(s, x); var r := Cleanup(s, x, y); SoundOn(r, known) && SameButEnded(s, r, known, {x, y})
  {
    assert Mutual(s, x);
    var y := Partner(s, x);
    assert Mutual(s, y);
    RemoveFirstKeepsOthers(s.inputs, x, y);
    var r := Cleanup(s, x, y);
    assert !r.crashed && r.inputs == RemoveFirst(RemoveFirst(s.inputs, x), y) && r.fileno == s.fileno - {x, y};
    assert r.forward == s.forward - {s.fileno[x]} - {s.fileno[y]};
    assert r.recvd == s.recvd && r.sent == s.sent;
    hide Cleanup, RemoveFirst;
    forall z | z in known && Routed(r, z)
      ensures Mutual(r, z) && Routed(s, z) && z !in {x, y} && z in r.inputs
      ensures Partner(r, z) == Partner(s, z) && Partner(s, z) in known
    {
      assert Mutual(s, z);
      RemoveFirstKeepsOthers(s.inputs, x, z);
      RemoveFirstKeepsOthers(RemoveFirst(s.inputs, x), y, z);
    }
  }

  lemma ServeStep<S>(s: Conv<S>, known: set<S>, x: S, e: Event)
    requires SoundOn(s, known) && x in known && Routed(s, x)
    ensures var r := ReadAndForward(s, x, e);
            SoundOn(r, known) && SameButEnded(s, r, known, if Ends(e) then {x, Partner(s, x)} else {})
  {
    assert Mutual(s, x);
    if Ends(e) {
      EndStep(s, known, x);
      assert ReadAndForward(s, x, e) == Cleanup(s, x, Partner(s, x));
      hide Cleanup, SoundOn, Mutual;
    } else {
      var r := ReadAndForward(s, x, e);
      forall z | z in known && Routed(r, z) ensures Mutual(r, z) && Partner(r, z) in known && z in r.inputs {
        assert Mutual(s, z);
      }
    }
  }

  /** Handling a request leaves the routes of every other socket alone. */
  lemma {:induction false} HandleKeepsOthers<S>(s: Conv<S>, c: S, outcomes: seq<TlvOutcome<S>>, z: S)
    requires Feasible(s, c, outcomes) && z in s.recvd && z != c
    requires c in s.fileno && z in s.fileno ==> s.fileno[c] != s.fileno[z]
    ensures var r := HandleTlvs(s, c, outcomes).0;
            && z in r.recvd && r.recvd[z] == s.recvd[z] && (z in s.sent ==> z in r.sent && r.sent[z] == s.sent[z])
            && (z in r.fileno <==> z in s.fileno) && (z in s.fileno ==> r.fileno[z] == s.fileno[z])
            && (Routed(r, z) <==> Routed(s, z)) && (Routed(s, z) ==> Partner(r, z) == Partner(s, z))
            && (z in s.inputs ==> z in r.inputs)
    decreases |outcomes|
  {
    if outcomes != [] {
      match outcomes[0] {
        case Ignored => HandleKeepsOthers(s, c, outcomes[1..], z);
        case Unknown =>
        case ConnectFails => HandleKeepsOthers(CloseSocket(s, c), c, outcomes[1..], z);
        case ConnectOk(d, dfd) =>
          if c in s.fileno {
            HandleKeepsOthers(Pair(AddSocket(s, d, dfd), c, d), c, outcomes[1..], z);
          }
      }
    }
  }

  lemma AcceptKeepsOthers<S>(s: Conv<S>, c: S, cfd: Fd, req: Incoming<S>, z: S)
    requires CanAccept(s, c, cfd, req) && z in s.recvd
    ensures var r := Accept(s, c, cfd, req);
            && z in r.recvd && r.recvd[z] == s.recvd[z] && (z in s.sent ==> z in r.sent && r.sent[z] == s.sent[z])
            && (z in r.fileno <==> z in s.fileno) && (z in s.fileno ==> r.fileno[z] == s.fileno[z])
            && (Routed(r, z) <==> Routed(s, z)) && (Routed(s, z) ==> Partner(r, z) == Partner(s, z))
            && (z in s.inputs ==> z in r.inputs)
  {
    if req.Tlvs? {
      HandleKeepsOthers(AddSocket(s, c, cfd), c, req.outcomes, z);
    }
  }

  /** The pairs a request makes are of its own client and new sockets. */
  lemma {:induction false} HandlePairsFresh<S>(s: Conv<S>, c: S, outcomes: seq<TlvOutcome<S>>)
    requires Feasible(s, c, outcomes)
    ensures var r := HandleTlvs(s, c, outcomes).0;
            && s.recvd.Keys <= r.recvd.Keys && s.pairs <= r.pairs
            && forall p :: p in r.pairs && p !in s.pairs ==> p.0 == c && p.1 !in s.recvd
    decreases |outcomes|
  {
    if outcomes != [] {
      match outcomes[0] {
        case Ignored => HandlePairsFresh(s, c, outcomes[1..]);
        case ConnectFails => HandlePairsFresh(CloseSocket(s, c), c, outcomes[1..]);
        case Unknown =>
        case ConnectOk(d, dfd) =>
          if c in s.fileno {
            HandlePairsFresh(Pair(AddSocket(s, d, dfd), c, d), c, outcomes[1..]);
          }
      }
    }
  }

  lemma AcceptPairsFresh<S>(s: Conv<S>, c: S, cfd: Fd, req: Incoming<S>)
    requires CanAccept(s, c, cfd, req)
    ensures var r := Accept(s, c, cfd, req);
            && s.recvd.Keys <= r.recvd.Keys && s.pairs <= r.pairs
            && forall p :: p in r.pairs && p !in s.pairs ==> p.0 !in s.recvd && p.1 !in s.recvd
  {
    if req.Tlvs? {
      HandlePairsFresh(AddSocket(s, c, cfd), c, req.outcomes);
    }
  }

  lemma ListenStep<S>(s: Conv<S>, known: set<S>, c: S, cfd: Fd, req: Incoming<S>)
    requires SoundOn(s, known) && CanAccept(s, c, cfd, req)
    ensures SoundOn(Accept(s, c, cfd, req), known) && SameButEnded(s, Accept(s, c, cfd, req), known, {})
  {
    var r := Accept(s, c, cfd, req);
    hide Accept, CanAccept;
    forall z | z in known
      ensures z in r.recvd && z in r.sent && (z in r.fileno <==> z in s.fileno)
      ensures (z in s.fileno ==> r.fileno[z] == s.fileno[z])
      ensures (Routed(r, z) <==> Routed(s, z)) && (Routed(s, z) ==> Partner(r, z) == Partner(s, z))
      ensures Routed(s, z) ==> Mutual(s, z) && Partner(s, z) in known && z in s.inputs && z in r.inputs
    {
      AcceptKeepsOthers(s, c, cfd, req, z);
      if Routed(s, z) { assert Mutual(s, z); }
    }
    NeverCrashes(s, c, cfd, req);
  }

  lemma NeverCrashes<S>(s: Conv<S>, c: S, cfd: Fd, req: Incoming<S>)
    requires CanAccept(s, c, cfd, req)
    ensures Accept(s, c, cfd, req).crashed == s.crashed
  {
    if req.Tlvs? {
      HandleNeverCrashes(AddSocket(s, c, cfd), c, req.outcomes);
    }
  }

  lemma {:induction false} HandleNeverCrashes<S>(s: Conv<S>, c: S, outcomes: seq<TlvOutcome<S>>)
    requires Feasible(s, c, outcomes)
    ensures HandleTlvs(s, c, outcomes).0.crashed == s.crashed
    decreases |outcomes|
  {
    if outcomes != [] {
      match outcomes[0] {
        case Ignored => HandleNeverCrashes(s, c, outcomes[1..]);
        case Unknown =>
        case ConnectFails => HandleNeverCrashes(CloseSocket(s, c), c, outcomes[1..]);
        case ConnectOk(d, dfd) =>
          if c in s.fileno {
            HandleNeverCrashes(Pair(AddSocket(s, d, dfd), c, d), c, outcomes[1..]);
          }
      }
    }
  }

  lemma {:induction false} BatchCrashes<S>(s: Conv<S>, known: set<S>, batch: seq<Ready<S>>)
    requires SoundOn(s, known) && OnceEach(batch) && AllKnown(batch, known) && BatchFeasible(s, batch)
    ensures RunBatch(s, batch).crashed <==> Stale(s, batch) || Clash(s, batch)
    decreases |batch|
  {
    hide SoundOn, SameButEnded, Mutual, Stale, Clash, Accept, CanAccept;
    SoundIsUp(s, known);
    if batch == [] {
      EmptyBatch(s, known);
    } else if batch[0].Serve? && !Routed(s, batch[0].x) {
      StaleNow(s, batch);
    } else {
      var rest := batch[1..];
      var r := Take(s, batch[0]);
      ghost var ended := if batch[0].Serve? && Ends(batch[0].e) then {batch[0].x, Partner(s, batch[0].x)} else {};
      if batch[0].Serve? {
        ServeStep(s, known, batch[0].x, batch[0].e);
      } else {
        ListenStep(s, known, batch[0].c, batch[0].cfd, batch[0].req);
      }
      hide ReadAndForward, Take;
      BatchCrashes(r, known, rest);
      RestOfBatch(s, r, known, batch, ended);
    }
  }

  lemma SoundIsUp<S>(s: Conv<S>, known: set<S>)
    requires SoundOn(s, known)
    ensures !s.crashed
  {
  }

  lemma EmptyBatch<S>(s: Conv<S>, known: set<S>)
    requires SoundOn(s, known)
    ensures !s.crashed && !Stale(s, []) && !Clash(s, [])
  {
  }

  lemma StaleNow<S>(s: Conv<S>, batch: seq<Ready<S>>)
    requires batch != [] && batch[0].Serve? && !Routed(s, batch[0].x)
    ensures Stale(s, batch)
  {
  }

  /** What is wrong with the rest of a batch after its first is what was wrong before. */
  lemma RestOfBatch<S>(s: Conv<S>, r: Conv<S>, known: set<S>, batch: seq<Ready<S>>, ended: set<S>)
    requires batch != [] && OnceEach(batch) && AllKnown(batch, known) && SameButEnded(s, r, known, ended)
    requires batch[0].Serve? ==> Routed(s, batch[0].x)
    requires ended == if batch[0].Serve? && Ends(batch[0].e) then {batch[0].x, Partner(s, batch[0].x)} else {}
    ensures Stale(s, batch) || Clash(s, batch) <==> Stale(r, batch[1..]) || Clash(r, batch[1..])
  {
    var rest := batch[1..];
    if Stale(s, batch) {
      var j :| 0 <= j < |batch| && batch[j].Serve? && !Routed(s, batch[j].x);
      assert rest[j - 1] == batch[j];
    } else if Clash(s, batch) {
      var i, j :| 0 <= i < j < |batch| && EndsPair(s, batch[i], batch[j]);
      assert rest[j - 1] == batch[j];
      if i > 0 {
        assert rest[i - 1] == batch[i];
        if Routed(r, batch[i].x) { assert EndsPair(r, rest[i - 1], rest[j - 1]); }
      }
    }
    if Stale(r, rest) {
      var j :| 0 <= j < |rest| && rest[j].Serve? && !Routed(r, rest[j].x);
      assert batch[j + 1] == rest[j];
      if Routed(s, rest[j].x) { assert EndsPair(s, batch[0], batch[j + 1]); }
    } else if Clash(r, rest) {
      var i, j :| 0 <= i < j < |rest| && EndsPair(r, rest[i], rest[j]);
      assert batch[i + 1] == rest[i] && batch[j + 1] == rest[j];
      assert EndsPair(s, batch[i + 1], batch[j + 1]);
    }
  }

  lemma {:induction false} BatchKeeps<S>(s: Conv<S>, batch: seq<Ready<S>>)
    requires Inv(s) && BatchFeasible(s, batch) && !RunBatch(s, batch).crashed
    requires forall i :: 0 <= i < |batch| && batch[i].Listen? ==> Harmless(batch[i].req)
    ensures Inv(RunBatch(s, batch))
    decreases |batch|
  {
    hide Inv, Accept, CanAccept, Harmless;
    if batch != [] {
      NotCrashed(s);
      match batch[0] {
        case Listen(c, cfd, req) => AcceptKeepsExactly(s, c, cfd, req);
        case Serve(x, e) =>
          assert Routed(s, x);
          ReadAndForwardKeeps(s, x, e);
      }
      BatchKeeps(Take(s, batch[0]), batch[1..]);
    }
  }

  lemma NotCrashed<S>(s: Conv<S>)
    requires Inv(s)
    ensures !s.crashed
  {
  }

  /**
   * One batch of everything select watches, listener included, crashes the loop exactly when it holds both
   * halves of a pair and the earlier half ends the connection. Otherwise, and if the requests it accepts are
   * benign, the loop's invariant holds after it.
   */
  lemma BatchCrashesExactly<S>(s: Conv<S>, batch: seq<Ready<S>>)
    requires Inv(s) && OnceEach(batch) && BatchFeasible(s, batch)
    requires forall i :: 0 <= i < |batch| && batch[i].Serve? ==> batch[i].x in s.inputs && batch[i].x != s.listener
    ensures RunBatch(s, batch).crashed <==> Clash(s, batch)
    ensures !Clash(s, batch) && (forall i :: 0 <= i < |batch| && batch[i].Listen? ==> Harmless(batch[i].req)) ==>
              Inv(RunBatch(s, batch))
  {
    InvIsSound(s);
    WatchedRouted(s);
    BatchCrashes(s, s.recvd.Keys, batch);
    hide Inv, Harmless, SoundOn, Clash;
    if !RunBatch(s, batch).crashed && forall i :: 0 <= i < |batch| && batch[i].Listen? ==> Harmless(batch[i].req) {
      BatchKeeps(s, batch);
    }
  }

  lemma WatchedRouted<S>(s: Conv<S>)
    requires Inv(s)
    ensures forall x :: x in s.inputs && x != s.listener ==> Routed(s, x) && x in s.recvd
  {
  }
}
