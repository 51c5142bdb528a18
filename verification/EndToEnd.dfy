/**
 * The whole path: any number of client processes with the library preloaded, the converter, and the
 * destinations, under every interleaving, with clients of other kinds beside them. The client side is
 * Redirect's Life per socket, the converter is Converter's state, and the bytes in between are cut and
 * delayed as the network likes.
 */
module EndToEnd {
  import opened Bytes
  import opened Wire
  import opened Parser
  import opened Writer
  import opened RoundTrip
  import opened ReadOpts
  import opened PyCodec
  import opened AddressText
  import opened Redirect
  import C = Converter

  /** What the converter has made of a client's connection. */
  datatype Srv =
    | Waiting                      // not accepted
    | Turned(c: nat)               // accepted, no destination behind it
    | Joined(c: nat, d: nat)       // its Connect was accepted: client socket c paired with d

  /** The host and port of the server's connect call. */
  datatype Dial = NoDial | Dialed(host: string, port: Port)

  datatype Conn = Conn(
    life: Life,
    dest: Dest,                    // what the application asked for
    cookie: CookieSetting,
    again: bool,                   // it has connected again while its reply was outstanding
    srv: Srv,
    taken: nat,                    // bytes the converter's two receives took as the request
    dialed: Dial,                  // what the converter connected to, the destination
    dstSent: seq<byte>,            // bytes the destination wrote
    dstGot: seq<byte>)             // bytes delivered to the destination

  /** Which connection a socket of the converter belongs to, and which end of it; foreign ones have no side. */
  datatype Side = ClientSide(i: nat) | DestSide(i: nat)

  datatype World = World(
    conns: seq<Conn>,              // every connection ever opened
    cli: map<(nat, nat), nat>,     // open client sockets, by process and descriptor
    conv: C.Conv<nat>,
    owner: map<nat, Side>)

  function Begin(lfd: nat): World {
    World([], map[], C.Start(0, lfd), map[])
  }

  // ----- Steps

  datatype Action =
    | CliSocket(key: (nat, nat), tracked: bool)
    | CliConnect(key: (nat, nat), dest: Dest, cookie: CookieSetting, link: Redirect.Link)
    | CliSend(key: (nat, nat), data: seq<byte>, fault: Fault)
    | CliRecv(key: (nat, nat), n: nat, fault: Fault)
    | CliClose(key: (nat, nat))
    | CliArrive(i: nat, n: nat)
    | SrvAccept(i: nat, first: nat, second: nat, c: nat, cfd: nat, answer: C.TlvOutcome<nat>)
    | SrvRead(x: nat, n: nat)
    | SrvEnd(x: nat, e: C.Event)
    | SrvCollect(x: nat)
    | ForeignAccept(c: nat, cfd: nat, req: C.Incoming<nat>)   // a client without the library
    | ForeignRead(x: nat, data: seq<byte>)
    | DstSend(i: nat, data: seq<byte>)
    | DstArrive(i: nat, n: nat)

  /** The converter's end of connection k is closed and everything it sent has arrived. */
  predicate AtEof(v: C.Conv<nat>, k: Conn) {
    !k.srv.Waiting? && k.srv.c !in v.fileno && k.srv.c in v.sent && k.life.inbound == v.sent[k.srv.c]
  }

  /** A blocking read of the reply can return: a whole message is there, or no more will come. */
  predicate ReadReturns(v: C.Conv<nat>, k: Conn) {
    var rx := k.life.k.rx;
    (|rx| >= HEADER_LEN && |rx| >= rx[1] * PADDING) || AtEof(v, k)
  }

  /** The socket call of connection k does not block: it is direct, its first receive fails, or the reply is there. */
  predicate CallReturns(v: C.Conv<nat>, k: Conn, fault: Fault) {
    !k.life.k.tracked || fault == FirstFails || (k.life.request != [] && ReadReturns(v, k))
  }

  /** The bytes a socket of the converter has still to read. */
  function Unread(w: World, x: nat): seq<byte>
    requires x in w.owner && w.owner[x].i < |w.conns| && x in w.conv.recvd
  {
    var k := w.conns[w.owner[x].i];
    var stream := if w.owner[x].ClientSide? then k.life.k.tx else k.dstSent;
    var from := |w.conv.recvd[x]| + if w.owner[x].ClientSide? then k.taken else 0;
    if from <= |stream| then stream[from..] else []
  }

  function Open(w: World, key: (nat, nat)): Conn
    requires key in w.cli && w.cli[key] < |w.conns|
  {
    w.conns[w.cli[key]]
  }

  /** How the elements of a request come out when every Connect gets the same answer. */
  function Outcome(t: PyTlv, answer: C.TlvOutcome<nat>): C.TlvOutcome<nat> {
    match t
    case PyConnect(_, _, _) => answer
    case PyOther(kind, _) =>
      if kind in CONVERT_TLVS then C.Ignored else C.Unknown
  }

  function OutcomesOf(tlvs: seq<PyTlv>, answer: C.TlvOutcome<nat>): seq<C.TlvOutcome<nat>> {
    seq(|tlvs|, i requires 0 <= i < |tlvs| => Outcome(tlvs[i], answer))
  }

  function IncomingOf(r: Request, answer: C.TlvOutcome<nat>): C.Incoming<nat> {
    if r.Found? then C.Tlvs(OutcomesOf(r.tlvs, answer)) else C.NoRequest
  }

  /**
   * The converter can take on pending connection k: whatever part of what was sent has come in, it neither hangs
   * the converter nor breaks its pairs.
   */
  ghost predicate Acceptable(v: C.Conv<nat>, k: Conn, first: nat, second: nat, c: nat, cfd: nat,
                             answer: C.TlvOutcome<nat>)
  {
    && k.srv.Waiting? && k.life.request != [] && (answer.ConnectOk? || answer.ConnectFails?)
    && var r := ReadRequest(k.life.k.tx, first, second).0;
       !r.NeverEnds? && C.Harmless(IncomingOf(r, answer)) && C.CanAccept(v, c, cfd, IncomingOf(r, answer))
  }

  ghost predicate Enabled(w: World, a: Action) {
    match a
    case CliSocket(key, _) => key !in w.cli
    case CliConnect(key, dest, cookie, link) =>
      && key in w.cli && w.cli[key] < |w.conns|
      && Possible(Open(w, key).life, CallConnect(dest, cookie, link, FirstFails))
    case CliSend(key, _, fault) => key in w.cli && w.cli[key] < |w.conns| && CallReturns(w.conv, Open(w, key), fault)
    case CliRecv(key, _, fault) => key in w.cli && w.cli[key] < |w.conns| && CallReturns(w.conv, Open(w, key), fault)
    case CliClose(key) => key in w.cli
    case CliArrive(i, _) => i < |w.conns| && !w.conns[i].srv.Waiting? && w.conns[i].srv.c in w.conv.sent
    case SrvAccept(i, first, second, c, cfd, answer) =>
      i < |w.conns| && Acceptable(w.conv, w.conns[i], first, second, c, cfd, answer)
    case SrvRead(x, n) =>
      && x in w.conv.inputs && x != w.conv.listener
      && x in w.owner && w.owner[x].i < |w.conns| && x in w.conv.recvd && Front(Unread(w, x), n) != []
    case SrvEnd(x, e) => x in w.conv.inputs && x != w.conv.listener && C.Ends(e)
    case SrvCollect(x) => x in w.conv.fileno && x !in w.conv.inputs
    case ForeignAccept(c, cfd, req) => C.Harmless(req) && C.CanAccept(w.conv, c, cfd, req)
    case ForeignRead(x, data) => x in w.conv.inputs && x != w.conv.listener && x !in w.owner && data != []
    case DstSend(i, _) => i < |w.conns| && w.conns[i].srv.Joined?
    case DstArrive(i, _) => i < |w.conns| && w.conns[i].srv.Joined? && w.conns[i].srv.d in w.conv.sent
  }

  /** The next n bytes of `all` behind its first `done`. */
  function NextBytes(all: seq<byte>, done: nat, n: nat): seq<byte> {
    if done <= |all| then Front(all[done..], n) else []
  }

  function WithConn(w: World, i: nat, k: Conn): World
    requires i < |w.conns|
  {
    w.(conns := w.conns[i := k])
  }

  /** A connect up to the request; only a tracked socket's is redirected, and only its first one goes out. */
  function Connected(k: Conn, dest: Dest, cookie: CookieSetting, link: Redirect.Link): Conn {
    var op := CallConnect(dest, cookie, link, FirstFails);
    var k1 := k.(life := Perform(k.life, op));
    if Reconnects(k.life, op) then k1.(again := true)
    else if k.life.k.tracked then k1.(dest := dest, cookie := cookie)
    else k1
  }

  function DialOf(t: PyCodec.Target): Dial {
    match t
    case NoTarget => NoDial
    case To(port, addr) => Dialed(HostOf(addr), port)
  }

  function CallOn(w: World, key: (nat, nat), op: Op): World
    requires key in w.cli && w.cli[key] < |w.conns|
  {
    var k := Open(w, key);
    WithConn(w, w.cli[key], k.(life := Perform(k.life, op)))
  }

  function Step(w: World, a: Action): World
    requires Enabled(w, a)
  {
    match a
    case CliSocket(key, tracked) =>
      w.(conns := w.conns + [Conn(NewLife(tracked), OtherFamily, NoCookie, false, Waiting, 0, NoDial, [], [])],
         cli := w.cli[key := |w.conns|])
    case CliConnect(key, dest, cookie, link) =>
      // the wait for the reply is a read of its own
      var k := Open(w, key);
      WithConn(w, w.cli[key], Connected(k, dest, cookie, link))
    case CliSend(key, data, fault) => CallOn(w, key, CallSend(data, fault))
    case CliRecv(key, n, fault) => CallOn(w, key, CallRecv(n, fault))
    case CliClose(key) => w.(cli := w.cli - {key})
    case CliArrive(i, n) =>
      var k := w.conns[i];
      WithConn(w, i, k.(life := Perform(k.life, Arrive(NextBytes(w.conv.sent[k.srv.c], |k.life.inbound|, n)))))
    case SrvAccept(i, first, second, c, cfd, answer) =>
      var tx := w.conns[i].life.k.tx;
      var (r, rest) := ReadRequest(tx, first, second);
      var v := C.Accept(w.conv, c, cfd, IncomingOf(r, answer));
      var paired := answer.ConnectOk? && (c, answer.d) in v.pairs;
      var srv := if paired then Joined(c, answer.d) else Turned(c);
      var dialed := if paired && r.Found? then DialOf(LastConnect(r.tlvs)) else NoDial;
      var owner := w.owner[c := ClientSide(i)];
      WithConn(w.(conv := v, owner := if paired then owner[answer.d := DestSide(i)] else owner),
               i, w.conns[i].(srv := srv, dialed := dialed, taken := |tx| - |rest|))
    case SrvRead(x, n) => w.(conv := C.ReadAndForward(w.conv, x, C.Data(Front(Unread(w, x), n))))
    case SrvEnd(x, e) => w.(conv := C.ReadAndForward(w.conv, x, e))
    case SrvCollect(x) => w.(conv := C.CloseSocket(w.conv, x))
    case ForeignAccept(c, cfd, req) => w.(conv := C.Accept(w.conv, c, cfd, req))
    case ForeignRead(x, data) => w.(conv := C.ReadAndForward(w.conv, x, C.Data(data)))
    case DstSend(i, data) => WithConn(w, i, w.conns[i].(dstSent := w.conns[i].dstSent + data))
    case DstArrive(i, n) =>
      var k := w.conns[i];
      WithConn(w, i, k.(dstGot := k.dstGot + NextBytes(w.conv.sent[k.srv.d], |k.dstGot|, n)))
  }

  // ----- The invariant

  /** The target a client's request names. */
  function Wanted(d: Dest): PyCodec.Target {
    if !Addressable(d) then NoTarget else To(d.port, if d.V4? then ToV4Mapped(d.a) else d.addr)
  }

  ghost predicate ConnOk(v: C.Conv<nat>, k: Conn) {
    && Orderly(k.life)
    && (k.life.request != [] ==> RequestWritten(k.dest, k.cookie) && k.life.request == RequestBytes(k.dest, k.cookie))
    && (k.life.k.tracked || k.again ==> k.life.removed == [])
    && (k.again ==> !k.life.k.tracked && k.life.request != [])
    && (match k.srv
        case Waiting =>
          k.life.inbound == [] && k.dstSent == k.dstGot == [] && (k.life.request != [] ==> k.life.k.tracked || k.again)
        case Turned(c) => k.life.request != [] && c in v.sent && v.sent[c] == [] && k.life.inbound == []
        case Joined(c, d) =>
          && k.life.request != [] && CutAt(k) && (c, d) in v.pairs && C.Conserved(v, c, d)
          && v.recvd[c] <= Onward(k) && v.recvd[d] <= k.dstSent
          && k.dstGot <= v.sent[d] && k.life.inbound <= v.sent[c]
          && (!k.life.k.tracked && !k.again ==> k.life.removed == REPLY)
          && k.dialed == DialOf(Wanted(k.dest)))
  }

  /**
   * The converter took the whole request, or all but the cookie, or cut inside the cookie; or it took the whole
   * request and a word of data behind it that passes for an element to be ignored.
   */
  predicate CutAt(k: Conn) {
    && (k.taken == 24 || k.taken >= 28)
    && (k.taken > |k.life.request| ==>
          && k.again && k.taken == |k.life.request| + 4 && |k.life.sent| >= 4
          && k.life.sent[0] in CONVERT_TLVS - {TYPE_CONNECT} && k.life.sent[1] > 0)
  }

  /** What is left on the client's connection once the converter has taken its request. */
  function Onward(k: Conn): seq<byte> {
    if k.taken <= |k.life.k.tx| then k.life.k.tx[k.taken..] else []
  }

  ghost predicate OwnersOk(w: World) {
    && (forall key :: key in w.cli ==> w.cli[key] < |w.conns|)
    && w.owner.Keys <= w.conv.recvd.Keys
    && (forall x :: x in w.owner ==> w.owner[x].i < |w.conns| && Owns(w.conns[w.owner[x].i], w.owner[x], x))
    && (forall i :: 0 <= i < |w.conns| ==> Owned(w.owner, w.conns[i], i))
    && (forall p :: p in w.conv.pairs ==> PairOwned(w, p.0, p.1))
  }

  /** The two ends of one connection, or of none. */
  predicate PairOwned(w: World, c: nat, d: nat) {
    if c in w.owner then w.owner[c].i < |w.conns| && w.conns[w.owner[c].i].srv == Joined(c, d) else d !in w.owner
  }

  predicate Owns(k: Conn, side: Side, x: nat) {
    match side
    case ClientSide(_) => !k.srv.Waiting? && k.srv.c == x
    case DestSide(_) => k.srv.Joined? && k.srv.d == x
  }

  predicate Owned(owner: map<nat, Side>, k: Conn, i: nat) {
    match k.srv
    case Waiting => true
    case Turned(c) => c in owner && owner[c] == ClientSide(i)
    case Joined(c, d) => c in owner && owner[c] == ClientSide(i) && d in owner && owner[d] == DestSide(i)
  }

  ghost predicate Inv(w: World) {
    && C.Inv(w.conv) && OwnersOk(w)
    && (forall i :: 0 <= i < |w.conns| ==> ConnOk(w.conv, w.conns[i]))
  }

  // ----- The client's steps

  /** Reading the reply: an empty stream at its end gives the socket up, a joined one gives exactly the reply. */
  lemma ReadStep(v: C.Conv<nat>, k: Conn, fault: Fault)
    requires ConnOk(v, k) && k.life.k.tracked && CallReturns(v, k, fault)
    ensures var (verdict, l) := AfterRead(k.life, fault);
            && ConnOk(v, k.(life := l)) && (verdict == Proceed ==> !l.k.tracked && !k.srv.Waiting?)
            && l.request == k.life.request && l.sent == k.life.sent && l.got == k.life.got
  {
    hide RequestBytes, RequestWritten;
    ReadKeepsOrder(k.life, fault);
    if fault == FirstFails {
      assert ReadReply(k.life.k, fault) == (Skip, k.life.k);
      assert k.life.removed + [] == k.life.removed;
    } else {
      match k.srv {
        case Waiting =>
          assert false;
        case Turned(c) =>
          assert k.life.k.rx == [];
          EmptyStream(fault);
        case Joined(c, d) =>
          assert k.life.k.rx == k.life.inbound;
          JoinedReply(v, k, fault);
      }
    }
  }

  lemma EmptyStream(fault: Fault)
    requires fault != FirstFails
    ensures Read([], false, fault) == (Malformed, [])
  {
  }

  lemma JoinedReply(v: C.Conv<nat>, k: Conn, fault: Fault)
    requires k.srv.Joined? && C.Conserved(v, k.srv.c, k.srv.d) && k.life.k.rx <= v.sent[k.srv.c]
    requires fault != FirstFails && (|k.life.k.rx| >= HEADER_LEN || k.life.k.rx == v.sent[k.srv.c])
    ensures ReadReply(k.life.k, fault) == (Proceed, k.life.k.(tracked := false, rx := k.life.k.rx[HEADER_LEN..]))
    ensures k.life.k.rx[..HEADER_LEN] == REPLY
  {
  }

  lemma SendStep(v: C.Conv<nat>, k: Conn, data: seq<byte>, fault: Fault)
    requires ConnOk(v, k) && CallReturns(v, k, fault)
    ensures ConnOk(v, k.(life := Perform(k.life, CallSend(data, fault))))
  {
    hide RequestBytes, RequestWritten;
    OpKeepsOrder(k.life, CallSend(data, fault));
    if k.life.k.tracked {
      ReadStep(v, k, fault);
      hide ReadReply;
    }
  }

  lemma RecvStep(v: C.Conv<nat>, k: Conn, n: nat, fault: Fault)
    requires ConnOk(v, k) && CallReturns(v, k, fault)
    ensures ConnOk(v, k.(life := Perform(k.life, CallRecv(n, fault))))
  {
    hide RequestBytes, RequestWritten;
    OpKeepsOrder(k.life, CallRecv(n, fault));
    if k.life.k.tracked {
      ReadStep(v, k, fault);
      hide ReadReply;
    }
  }

  lemma ConnectStep(v: C.Conv<nat>, k: Conn, dest: Dest, cookie: CookieSetting, link: Redirect.Link)
    requires ConnOk(v, k) && Possible(k.life, CallConnect(dest, cookie, link, FirstFails))
    ensures ConnOk(v, Connected(k, dest, cookie, link)) && Connected(k, dest, cookie, link).srv == k.srv
  {
    var op := CallConnect(dest, cookie, link, FirstFails);
    OpKeepsOrder(k.life, op);
    if Reconnects(k.life, op) {
      ReconnectEffect(k.life, op);
    } else if k.life.k.tracked {
      FirstConnectEffect(k.life, op);
    }
    hide RequestBytes, RequestWritten, Perform, Orderly, CutAt, Onward, DialOf, Wanted, C.Conserved;
  }

  /** A second connect on a redirected socket gives it up and touches nothing else. */
  lemma ReconnectEffect(l: Life, op: Op)
    requires Reconnects(l, op) && Possible(l, op)
    ensures Perform(l, op) == l.(k := l.k.(tracked := false))
  {
  }

  /** The first one sends the request, or gives the socket up. */
  lemma FirstConnectEffect(l: Life, op: Op)
    requires op.CallConnect? && op.fault == FirstFails && l.k.tracked && l.request == [] && Orderly(l)
    ensures var r := Perform(l, op);
            if RequestWritten(op.d, op.c) && op.link.Up?
            then && r.request == RequestBytes(op.d, op.c) && r.k == l.k.(tx := l.k.tx + r.request)
                 && r == l.(k := r.k, request := r.request)
            else r == l.(k := l.k.(tracked := false))
  {
    hide RequestBytes;
    var (sent, k1) := SendRequest(l.k, op.d, op.c, op.link);
    if sent {
      assert ReadReply(k1, FirstFails) == (Skip, k1);
      assert l.removed + [] == l.removed;
    }
  }

  lemma ArriveStep(v: C.Conv<nat>, k: Conn, n: nat)
    requires ConnOk(v, k) && !k.srv.Waiting? && k.srv.c in v.sent
    ensures ConnOk(v, k.(life := Perform(k.life, Arrive(NextBytes(v.sent[k.srv.c], |k.life.inbound|, n)))))
  {
    hide RequestBytes, RequestWritten;
    var data := NextBytes(v.sent[k.srv.c], |k.life.inbound|, n);
    OpKeepsOrder(k.life, Arrive(data));
  }

  // ----- The converter's steps

  /** r knows every socket of v with the same logs, and every pair. */
  ghost predicate Extends(v: C.Conv<nat>, r: C.Conv<nat>) {
    && (forall x :: x in v.recvd ==> x in r.recvd && r.recvd[x] == v.recvd[x])
    && (forall x :: x in v.sent ==> x in r.sent && r.sent[x] == v.sent[x])
    && v.pairs <= r.pairs
  }

  lemma ConnOkExtends(v: C.Conv<nat>, r: C.Conv<nat>, k: Conn)
    requires ConnOk(v, k) && Extends(v, r)
    ensures ConnOk(r, k)
  {
  }

  /** One Connect, and elements of other types behind it; or nothing at all. */
  predicate RequestForm(tlvs: seq<PyTlv>, dest: Dest) {
    tlvs != [] ==>
      && |tlvs| <= 3 && tlvs[0].PyConnect? && To(tlvs[0].port, tlvs[0].addr) == Wanted(dest)
      && forall i :: 1 <= i < |tlvs| ==> tlvs[i].PyOther?
  }

  predicate OthersKnown(tlvs: seq<PyTlv>) {
    forall i :: 1 <= i < |tlvs| ==> tlvs[i].PyOther? && tlvs[i].kind in CONVERT_TLVS
  }

  /** The second receive went on into the data and took a word of it that hangs the walk. */
  predicate HangsAt(m: nat, data: seq<byte>, n: nat)
    requires n <= m + |data|
  {
    m <= MAX_MESSAGE && n == m + 4 && data[0] != TYPE_CONNECT && data[1] == 0
  }

  /** How n bytes of an m-byte request for dest, and of data behind it, are read. */
  ghost predicate ReadsAs(m: nat, data: seq<byte>, dest: Dest, n: nat, r: Request) {
    && n <= m + |data|
    && (r.Found? ==> RequestForm(r.tlvs, dest))
    && (Names(r) <==> m <= MAX_MESSAGE && ConnectComesIn(m, data, n))
    && (Names(r) ==> (OthersKnown(r.tlvs) <==> n <= m || data[0] in CONVERT_TLVS))
    && (r.NeverEnds? <==> HangsAt(m, data, n))
    && (m > MAX_MESSAGE && n >= HEADER_LEN ==> r == Found([]))
  }

  /** How many bytes of connection k the two receives take, given how much has come in. */
  function Taking(k: Conn, first: nat, second: nat): nat {
    Received(|k.life.request|, |k.life.sent|, first, second)
  }

  /**
   * What the converter reads of a pending client, however much has come in: one Connect for the wanted target
   * and maybe a cookie, exactly when the request fits its length byte and 24 or at least 28 bytes came in;
   * otherwise no Connect at all. Data is behind the request only after a second connect, and a word of it is
   * read as an element if the second receive reaches that far.
   */
  lemma PendingRequest(v: C.Conv<nat>, k: Conn, first: nat, second: nat)
    requires ConnOk(v, k) && k.srv.Waiting? && k.life.request != []
    ensures k.life.k.tx == k.life.request + k.life.sent && (k.life.sent != [] ==> k.again)
    ensures var (r, rest) := ReadRequest(k.life.k.tx, first, second);
            var n := Taking(k, first, second);
            && ReadsAs(|k.life.request|, k.life.sent, k.dest, n, r)
            && (Names(r) ==> rest == k.life.k.tx[n..])
  {
    assert RequestWritten(k.dest, k.cookie) && k.life.request == RequestBytes(k.dest, k.cookie);
    hide RequestBytes, RequestWritten, ReadRequest, Received, ReadsAs;
    ClientReads(k.dest, k.cookie, k.life.sent, first, second);
  }

  lemma ClientReads(dest: Dest, cookie: CookieSetting, data: seq<byte>, first: nat, second: nat)
    requires RequestWritten(dest, cookie)
    ensures var m := RequestBytes(dest, cookie);
            var (r, rest) := ReadRequest(m + data, first, second);
            var n := Received(|m|, |data|, first, second);
            ReadsAs(|m|, data, dest, n, r) && (Names(r) ==> rest == (m + data)[n..])
  {
    var o := RequestOpts(dest, cookie);
    ClientSize(dest, cookie);
    hide ReadRequest, Message, MessageSize, Received, ReadsAs, ReadAs, Names, ConnectComesIn;
    ReceivedBounds(|Message(o)|, |data|, first, second);
    if MessageSize(o) <= MAX_MESSAGE {
      ClientMessage(o);
      RequestInPieces(o, data, first, second);
      ReadAsReads(dest, cookie, data, Received(|Message(o)|, |data|, first, second));
    } else {
      OversizedRequest(o, data, first, second);
      OversizedReads(|Message(o)|, data, dest, first, second);
    }
  }

  lemma ClientSize(dest: Dest, cookie: CookieSetting)
    requires RequestWritten(dest, cookie)
    ensures var o := RequestOpts(dest, cookie);
            && Supported(o) && |Message(o)| == MessageSize(o) >= HEADER_LEN
            && (MessageSize(o) <= MAX_MESSAGE ==> ClientRequest(o))
            && (MessageSize(o) > MAX_MESSAGE ==> MessageSize(o) == REQUEST_BUFFER)
  {
    var o := RequestOpts(dest, cookie);
    MessageSizeIsLength(o);
    WholeWords(o);
    hide Body;
  }

  lemma ReadAsReads(dest: Dest, cookie: CookieSetting, data: seq<byte>, n: nat)
    requires Addressable(dest)
    requires var o := RequestOpts(dest, cookie);
             && Supported(o) && MessageSize(o) <= MAX_MESSAGE && n <= |Message(o)| + |data| && n <= |Message(o)| + 4
             && if F_COOKIE in o.flags then |Message(o)| >= 28 && 4 + |o.cookie| <= MAX_MESSAGE else |Message(o)| == 24
    ensures var o := RequestOpts(dest, cookie);
            |Message(o)| <= MAX_MESSAGE ==> ReadsAs(|Message(o)|, data, dest, n, ReadAs(o, data, n))
  {
    hide Message, MessageSize;
    var o := RequestOpts(dest, cookie);
    if n > |Message(o)| {
      var x := data[..n - |Message(o)|];
      if |x| == 4 {
        var tlvs := ClientViews(o) + [PyOther(x[0], x[1])];
        assert tlvs[|tlvs| - 1] == PyOther(x[0], x[1]) && x[0] == data[0] && x[1] == data[1];
        assert OthersKnown(tlvs) <==> x[0] in CONVERT_TLVS;
      }
    }
  }

  lemma OversizedReads(m: nat, data: seq<byte>, dest: Dest, first: nat, second: nat)
    requires m > MAX_MESSAGE
    ensures ReadsAs(m, data, dest, Received(m, |data|, first, second), if first < HEADER_LEN then NoHeader else Found([]))
  {
  }

  /** A request that fills the whole buffer has a length byte of zero, and no element is read. */
  lemma OversizedRequest(o: Opts, data: seq<byte>, first: nat, second: nat)
    requires Supported(o) && MessageSize(o) == REQUEST_BUFFER
    ensures ReadRequest(Message(o) + data, first, second).0 == if first < HEADER_LEN then NoHeader else Found([])
  {
    hide Body, MessageSize;
    MessageSizeIsLength(o);
    var q := Message(o) + data;
    assert WordByte(REQUEST_BUFFER) == 0;
    if first >= HEADER_LEN {
      assert Front(Front(q, first), HEADER_LEN)[1] == q[1] == 0;
      assert Front(Front(q[HEADER_LEN..], second), 0) == [];
    }
  }

  /** Accepting a pending client, by cases on its request. */
  lemma AcceptCases(v: C.Conv<nat>, q: Request, dest: Dest, c: nat, cfd: nat, answer: C.TlvOutcome<nat>)
    requires C.Inv(v) && (q.Found? ==> RequestForm(q.tlvs, dest)) && (answer.ConnectOk? || answer.ConnectFails?)
    requires C.CanAccept(v, c, cfd, IncomingOf(q, answer)) && C.Harmless(IncomingOf(q, answer))
    ensures var r := C.Accept(v, c, cfd, IncomingOf(q, answer));
            && C.Inv(r) && Extends(v, r) && c !in v.recvd && c in r.recvd && c in r.sent
            && if Names(q) && answer.ConnectOk?
               then && LastConnect(q.tlvs) == Wanted(dest) && r.pairs == v.pairs + {(c, answer.d)}
                    && answer.d !in v.recvd && answer.d != c && answer.d in r.recvd
                    && r.recvd[c] == r.recvd[answer.d] == []
               else r.pairs == v.pairs && r.sent[c] == []
  {
    if Names(q) { OutcomesShape(q.tlvs, answer); }
    C.AcceptKeepsExactly(v, c, cfd, IncomingOf(q, answer));
    LogKeys(v);
    hide C.Inv, C.Benign, OutcomesOf, C.Accept, C.CanAccept;
    if Names(q) {
      LastOfRequest(q.tlvs);
      hide LastConnect, RequestForm;
      NamedCases(v, OutcomesOf(q.tlvs, answer), c, cfd, answer);
    } else {
      hide RequestForm;
      UnnamedCases(v, IncomingOf(q, answer), c, cfd);
    }
  }

  lemma NamedCases(v: C.Conv<nat>, outcomes: seq<C.TlvOutcome<nat>>, c: nat, cfd: nat, answer: C.TlvOutcome<nat>)
    requires v.recvd.Keys == v.sent.Keys && (answer.ConnectOk? || answer.ConnectFails?)
    requires outcomes != [] && outcomes[0] == answer && (answer.ConnectOk? ==> C.AllIgnored(outcomes[1..]))
    requires C.CanAccept(v, c, cfd, C.Tlvs(outcomes))
    ensures var r := C.Accept(v, c, cfd, C.Tlvs(outcomes));
            && Extends(v, r) && c !in v.recvd && c in r.recvd && c in r.sent
            && if answer.ConnectOk?
               then && r.pairs == v.pairs + {(c, answer.d)}
                    && answer.d !in v.recvd && answer.d != c && answer.d in r.recvd
                    && r.recvd[c] == r.recvd[answer.d] == []
               else r.pairs == v.pairs && r.sent[c] == []
  {
    assert outcomes == [answer] + outcomes[1..];
    AcceptFirst(v, c, cfd, answer, outcomes[1..]);
    hide C.Accept, C.CanAccept, C.AllIgnored;
    if answer.ConnectOk? {
      PairedExtends(v, c, cfd, answer.d, answer.dfd);
    }
  }

  lemma UnnamedCases(v: C.Conv<nat>, req: C.Incoming<nat>, c: nat, cfd: nat)
    requires C.CanAccept(v, c, cfd, req) && (req.Tlvs? ==> req.outcomes == [])
    ensures var r := C.Accept(v, c, cfd, req);
            && Extends(v, r) && c !in v.recvd && c in r.recvd && c in r.sent
            && r.pairs == v.pairs && r.sent[c] == []
  {
  }

  lemma OutcomesShape(tlvs: seq<PyTlv>, answer: C.TlvOutcome<nat>)
    requires answer.ConnectOk? || answer.ConnectFails?
    requires tlvs != [] && tlvs[0].PyConnect? && forall i :: 1 <= i < |tlvs| ==> tlvs[i].PyOther?
    ensures var outcomes := OutcomesOf(tlvs, answer);
            && |outcomes| == |tlvs| && outcomes[0] == answer && NoConnects(outcomes[1..])
            && (C.AllIgnored(outcomes[1..]) <==> OthersKnown(tlvs))
            && (C.Benign(outcomes) <==> answer.ConnectFails? || OthersKnown(tlvs))
  {
    var outcomes := OutcomesOf(tlvs, answer);
    assert forall i :: 1 <= i < |tlvs| ==> outcomes[1..][i - 1] == Outcome(tlvs[i], answer);
  }

  predicate NoConnects(outcomes: seq<C.TlvOutcome<nat>>) {
    forall i :: 0 <= i < |outcomes| ==> outcomes[i].Ignored? || outcomes[i].Unknown?
  }

  lemma PairedExtends(v: C.Conv<nat>, c: nat, cfd: nat, d: nat, dfd: nat)
    requires c !in v.recvd && d !in v.recvd && c != d && v.recvd.Keys == v.sent.Keys
    ensures var s1 := C.AddSocket(C.AddSocket(v, c, cfd), d, dfd);
            var r := C.Pair(s1, c, d);
            && Extends(v, r) && r.pairs == v.pairs + {(c, d)}
            && c in r.recvd && c in r.sent && d in r.recvd && r.recvd[c] == r.recvd[d] == []
  {
  }

  lemma LogKeys(v: C.Conv<nat>)
    requires C.Inv(v)
    ensures v.recvd.Keys == v.sent.Keys && v.fileno.Keys <= v.recvd.Keys && !v.crashed
    ensures forall p :: p in v.pairs ==> p.0 in v.recvd && p.1 in v.recvd && C.Conserved(v, p.0, p.1)
  {
  }

  lemma LastOfRequest(tlvs: seq<PyTlv>)
    requires 1 <= |tlvs| <= 3 && tlvs[0].PyConnect? && forall i :: 1 <= i < |tlvs| ==> tlvs[i].PyOther?
    ensures LastConnect(tlvs) == To(tlvs[0].port, tlvs[0].addr)
  {
    assert |tlvs| > 1 ==> LastConnect(tlvs) == LastConnect(tlvs[..|tlvs| - 1]);
    assert |tlvs| > 2 ==> tlvs[..2][..1] == tlvs[..1];
  }

  lemma AcceptFirst(v: C.Conv<nat>, c: nat, cfd: nat, answer: C.TlvOutcome<nat>, rest: seq<C.TlvOutcome<nat>>)
    requires answer.ConnectOk? || answer.ConnectFails?
    requires (answer.ConnectOk? ==> C.AllIgnored(rest)) && C.CanAccept(v, c, cfd, C.Tlvs([answer] + rest))
    ensures var s0 := C.AddSocket(v, c, cfd);
            C.Accept(v, c, cfd, C.Tlvs([answer] + rest))
            == if answer.ConnectOk? then C.Pair(C.AddSocket(s0, answer.d, answer.dfd), c, answer.d)
               else C.CloseSocket(s0, c)
    ensures answer.ConnectOk? ==> answer.d !in v.recvd && answer.d != c
  {
    var outcomes := [answer] + rest;
    assert outcomes[1..] == rest;
    var s0 := C.AddSocket(v, c, cfd);
    if answer.ConnectOk? {
      C.IgnoredAll(C.Pair(C.AddSocket(s0, answer.d, answer.dfd), c, answer.d), c, rest);
    } else {
      C.ClosedStaysOut(C.CloseSocket(s0, c), c, rest);
      assert C.CloseSocket(C.CloseSocket(s0, c), c) == C.CloseSocket(s0, c);
    }
  }

  // ----- Every step keeps the invariant

  lemma ConnReplaced(w: World, i: nat, k: Conn)
    requires Inv(w) && i < |w.conns| && ConnOk(w.conv, k) && k.srv == w.conns[i].srv
    ensures Inv(WithConn(w, i, k))
  {
    hide ConnOk, C.Inv;
    var r := WithConn(w, i, k);
    forall j | 0 <= j < |r.conns| ensures Owned(r.owner, r.conns[j], j) {
      assert Owned(w.owner, w.conns[j], j);
    }
    forall x | x in r.owner ensures r.owner[x].i < |r.conns| && Owns(r.conns[r.owner[x].i], r.owner[x], x) {
      assert Owns(w.conns[w.owner[x].i], w.owner[x], x);
    }
  }

  /** The converter has moved on without touching any log or pair. */
  lemma ConvReplaced(w: World, v: C.Conv<nat>)
    requires Inv(w) && C.Inv(v) && v.recvd == w.conv.recvd && v.sent == w.conv.sent && v.pairs == w.conv.pairs
    ensures Inv(w.(conv := v))
  {
    hide C.Inv, ConnOk;
    OwnersKeep(w, v);
    forall i | 0 <= i < |w.conns| ensures ConnOk(v, w.conns[i]) {
      ConnOkExtends(w.conv, v, w.conns[i]);
    }
  }

  lemma SocketStep(w: World, key: (nat, nat), tracked: bool)
    requires Inv(w) && Enabled(w, CliSocket(key, tracked))
    ensures Inv(Step(w, CliSocket(key, tracked)))
  {
    var r := Step(w, CliSocket(key, tracked));
    var k := r.conns[|w.conns|];
    assert ConnOk(w.conv, k);
    hide C.Inv, ConnOk, OwnersOk, Perform;
    OwnersAdded(w, r, key, k);
    forall i | 0 <= i < |r.conns| ensures ConnOk(r.conv, r.conns[i]) {
      if i < |w.conns| { assert r.conns[i] == w.conns[i]; }
    }
  }

  lemma OwnersAdded(w: World, r: World, key: (nat, nat), k: Conn)
    requires OwnersOk(w) && k.srv.Waiting? && r == w.(conns := w.conns + [k], cli := w.cli[key := |w.conns|])
    ensures OwnersOk(r)
  {
    forall i | 0 <= i < |r.conns| ensures Owned(r.owner, r.conns[i], i) {
      if i < |w.conns| { assert Owned(w.owner, w.conns[i], i); }
    }
    forall x | x in r.owner ensures r.owner[x].i < |r.conns| && Owns(r.conns[r.owner[x].i], r.owner[x], x) {
      assert Owns(w.conns[w.owner[x].i], w.owner[x], x);
    }
  }

  /** What accepting does to the world, case by case. */
  lemma AcceptResult(w: World, i: nat, first: nat, second: nat, c: nat, cfd: nat, answer: C.TlvOutcome<nat>)
    requires Inv(w) && Enabled(w, SrvAccept(i, first, second, c, cfd, answer))
    ensures var r := Step(w, SrvAccept(i, first, second, c, cfd, answer));
            var m := r.conns[i];
            && C.Inv(r.conv) && Extends(w.conv, r.conv) && c !in w.conv.recvd && c in r.conv.recvd && c in r.conv.sent
            && r.cli == w.cli && r.conns == w.conns[i := m]
            && m == w.conns[i].(srv := m.srv, dialed := m.dialed, taken := m.taken)
            && (m.srv == Turned(c) || m.srv == Joined(c, answer.d))
            && (m.srv.Turned? ==>
                  r.conv.pairs == w.conv.pairs && r.conv.sent[c] == [] && r.owner == w.owner[c := ClientSide(i)])
            && (m.srv.Joined? ==>
                  && m.dialed == DialOf(Wanted(m.dest)) && CutAt(m)
                  && r.conv.pairs == w.conv.pairs + {(c, m.srv.d)}
                  && m.srv.d !in w.conv.recvd && m.srv.d != c && m.srv.d in r.conv.recvd
                  && r.conv.recvd[c] == r.conv.recvd[m.srv.d] == []
                  && r.owner == w.owner[c := ClientSide(i)][m.srv.d := DestSide(i)])
  {
    hide C.Inv, C.Accept, C.CanAccept, OutcomesOf, ReadRequest, RequestForm, LastConnect;
    hide OwnersOk, ConnOk, DialOf, Wanted;
    var k := w.conns[i];
    PendingRequest(w.conv, k, first, second);
    var r := ReadRequest(k.life.k.tx, first, second).0;
    if Names(r) && answer.ConnectOk? { CutFound(k, Taking(k, first, second), r, answer); }
    hide ReadsAs, Received;
    AcceptCases(w.conv, r, k.dest, c, cfd, answer);
    LogKeys(w.conv);
  }

  lemma CutFound(k: Conn, n: nat, r: Request, answer: C.TlvOutcome<nat>)
    requires ReadsAs(|k.life.request|, k.life.sent, k.dest, n, r) && (k.life.sent != [] ==> k.again)
    requires Names(r) && C.Harmless(IncomingOf(r, answer)) && answer.ConnectOk?
    ensures CutAt(k.(taken := n))
  {
    OutcomesShape(r.tlvs, answer);
    hide C.Benign, OutcomesOf, RequestForm;
  }

  lemma AcceptStep(w: World, i: nat, first: nat, second: nat, c: nat, cfd: nat, answer: C.TlvOutcome<nat>)
    requires Inv(w) && Enabled(w, SrvAccept(i, first, second, c, cfd, answer))
    ensures Inv(Step(w, SrvAccept(i, first, second, c, cfd, answer)))
  {
    hide C.Inv, Step, ConnOk, OwnersOk;
    AcceptResult(w, i, first, second, c, cfd, answer);
    var r := Step(w, SrvAccept(i, first, second, c, cfd, answer));
    LogKeys(w.conv);
    LogKeys(r.conv);
    assert w.conns[i].life.request != [] && w.conns[i].srv.Waiting?;
    WaitingConn(w.conv, w.conns[i]);
    AcceptedConn(w.conv, r.conv, w.conns[i], r.conns[i]);
    forall j | 0 <= j < |r.conns| ensures ConnOk(r.conv, r.conns[j]) {
      if j != i { ConnOkExtends(w.conv, r.conv, w.conns[j]); }
    }
    hide Enabled;
    AcceptOwners(w, i, c, r);
  }

  lemma WaitingConn(v: C.Conv<nat>, k: Conn)
    requires ConnOk(v, k) && k.srv.Waiting?
    ensures k.dstSent == k.dstGot == []
  {
  }

  lemma AcceptedConn(v: C.Conv<nat>, r: C.Conv<nat>, k: Conn, m: Conn)
    requires ConnOk(v, k) && k.srv.Waiting? && k.life.request != []
    requires m == k.(srv := m.srv, dialed := m.dialed, taken := m.taken)
    requires m.srv.Turned? ==> m.srv.c in r.sent && r.sent[m.srv.c] == []
    requires m.srv.Joined? ==> (m.srv.c, m.srv.d) in r.pairs && C.Conserved(r, m.srv.c, m.srv.d)
    requires m.srv.Joined? ==>
               r.recvd[m.srv.c] == r.recvd[m.srv.d] == [] && m.dialed == DialOf(Wanted(k.dest)) && CutAt(m)
    requires !m.srv.Waiting?
    ensures ConnOk(r, m)
  {
  }

  /** r differs from w by connection i, accepted on socket c. */
  ghost predicate Accepted(w: World, i: nat, c: nat, r: World) {
    && i < |w.conns| && w.conns[i].srv.Waiting? && c !in w.conv.recvd && c in r.conv.recvd
    && w.conv.recvd.Keys <= r.conv.recvd.Keys && r.cli == w.cli
    && |r.conns| == |w.conns| && (forall j :: 0 <= j < |w.conns| && j != i ==> r.conns[j] == w.conns[j])
    && match r.conns[i].srv
       case Waiting => false
       case Turned(e) => e == c && r.conv.pairs == w.conv.pairs && r.owner == w.owner[c := ClientSide(i)]
       case Joined(e, d) =>
         && e == c && d != c && d !in w.conv.recvd && d in r.conv.recvd
         && r.conv.pairs == w.conv.pairs + {(c, d)}
         && r.owner == w.owner[c := ClientSide(i)][d := DestSide(i)]
  }

  lemma AcceptOwners(w: World, i: nat, c: nat, r: World)
    requires OwnersOk(w) && Accepted(w, i, c, r)
    requires forall p :: p in w.conv.pairs ==> p.0 in w.conv.recvd && p.1 in w.conv.recvd
    ensures OwnersOk(r)
  {
    AcceptPairOwners(w, i, c, r);
    forall j | 0 <= j < |r.conns| ensures Owned(r.owner, r.conns[j], j) {
      AcceptOwned(w, i, c, r, j);
    }
    forall x | x in r.owner ensures r.owner[x].i < |r.conns| && Owns(r.conns[r.owner[x].i], r.owner[x], x) {
      AcceptOwns(w, i, c, r, x);
    }
    hide Owns, Owned;
  }

  lemma AcceptOwned(w: World, i: nat, c: nat, r: World, j: nat)
    requires OwnersOk(w) && Accepted(w, i, c, r) && j < |r.conns|
    ensures Owned(r.owner, r.conns[j], j)
  {
    assert Owned(w.owner, w.conns[j], j);
    hide Owns;
  }

  lemma AcceptOwns(w: World, i: nat, c: nat, r: World, x: nat)
    requires OwnersOk(w) && Accepted(w, i, c, r) && x in r.owner
    ensures r.owner[x].i < |r.conns| && Owns(r.conns[r.owner[x].i], r.owner[x], x)
  {
    if x in w.owner { assert Owns(w.conns[w.owner[x].i], w.owner[x], x); }
    hide Owned;
  }

  lemma AcceptPairOwners(w: World, i: nat, c: nat, r: World)
    requires OwnersOk(w) && Accepted(w, i, c, r)
    requires forall p :: p in w.conv.pairs ==> p.0 in w.conv.recvd && p.1 in w.conv.recvd
    ensures forall p :: p in r.conv.pairs ==> PairOwned(r, p.0, p.1)
  {
    forall p | p in r.conv.pairs ensures PairOwned(r, p.0, p.1) {
      if p in w.conv.pairs {
        assert PairOwned(w, p.0, p.1);
      }
    }
    hide Owned, Owns;
  }

  lemma WatchedPair(w: World, x: nat)
    requires Inv(w) && x in w.conv.inputs && x != w.conv.listener
    ensures C.Routed(w.conv, x) && C.Mutual(w.conv, x)
    ensures var y := C.Partner(w.conv, x); PairOwned(w, x, y) || PairOwned(w, y, x)
    ensures var y := C.Partner(w.conv, x); (x, y) in w.conv.pairs || (y, x) in w.conv.pairs
    ensures forall p :: p in w.conv.pairs ==> PairOwned(w, p.0, p.1)
  {
    var v := w.conv;
    assert C.Mutual(v, x);
    var y := C.Partner(v, x);
    var p := if (x, y) in v.pairs then (x, y) else (y, x);
    assert p in v.pairs && PairOwned(w, p.0, p.1);
  }

  /** A watched socket that has a side belongs to a joined connection, and its partner to the same one. */
  lemma WatchedIsJoined(w: World, x: nat)
    requires Inv(w) && x in w.conv.inputs && x != w.conv.listener && x in w.owner
    ensures C.Routed(w.conv, x) && w.owner[x].i < |w.conns|
    ensures var k := w.conns[w.owner[x].i];
            && k.srv.Joined?
            && (if w.owner[x].ClientSide? then x == k.srv.c && C.Partner(w.conv, x) == k.srv.d
                else x == k.srv.d && C.Partner(w.conv, x) == k.srv.c)
  {
    WatchedPair(w, x);
    hide C.Inv, ConnOk;
    var y := C.Partner(w.conv, x);
    var p := if (x, y) in w.conv.pairs then (x, y) else (y, x);
    assert PairOwned(w, p.0, p.1);
    var i := w.owner[p.0].i;
    assert Owned(w.owner, w.conns[i], i);
  }

  /** The partner of a foreign socket is foreign. */
  lemma ForeignPartner(w: World, x: nat)
    requires Inv(w) && x in w.conv.inputs && x != w.conv.listener && x !in w.owner
    ensures C.Routed(w.conv, x) && C.Partner(w.conv, x) !in w.owner
  {
    WatchedPair(w, x);
    hide C.Inv, ConnOk;
    var y := C.Partner(w.conv, x);
    var p := if (x, y) in w.conv.pairs then (x, y) else (y, x);
    assert PairOwned(w, p.0, p.1);
    assert y in w.owner ==> Owned(w.owner, w.conns[w.owner[y].i], w.owner[y].i);
  }

  /** The same sockets are open and routed to the same partners. */
  predicate SameRoutes(v: C.Conv<nat>, r: C.Conv<nat>) {
    r.fileno == v.fileno && r.forward == v.forward && r.listener == v.listener
  }

  lemma SrvReadEffect(w: World, x: nat, n: nat)
    requires Inv(w) && Enabled(w, SrvRead(x, n))
    ensures var data := Front(Unread(w, x), n);
            var r := Step(w, SrvRead(x, n));
            && C.Routed(w.conv, x) && C.Partner(w.conv, x) != x
            && C.Inv(r.conv) && r == w.(conv := r.conv) && r.conv.pairs == w.conv.pairs
            && C.Partner(w.conv, x) in w.conv.sent
            && r.conv.recvd == w.conv.recvd[x := w.conv.recvd[x] + data]
            && r.conv.sent == w.conv.sent[C.Partner(w.conv, x) := w.conv.sent[C.Partner(w.conv, x)] + data]
            && SameRoutes(w.conv, r.conv)
  {
    WatchedIsJoined(w, x);
    hide ConnOk, OwnersOk;
    assert C.Mutual(w.conv, x);
    C.ForwardKeeps(w.conv, x, C.Data(Front(Unread(w, x), n)));
  }

  lemma SrvReadStep(w: World, x: nat, n: nat)
    requires Inv(w) && Enabled(w, SrvRead(x, n))
    ensures Inv(Step(w, SrvRead(x, n)))
  {
    WatchedIsJoined(w, x);
    SrvReadEffect(w, x, n);
    hide Step, ConnOk, OwnersOk, C.Inv;
    BytesMoved(w, x, C.Partner(w.conv, x), Front(Unread(w, x), n), Step(w, SrvRead(x, n)).conv);
  }

  /** The next bytes of socket x have gone out on y, the other end of the same connection. */
  lemma BytesMoved(w: World, x: nat, y: nat, data: seq<byte>, r: C.Conv<nat>)
    requires Inv(w) && C.Inv(r) && r.pairs == w.conv.pairs
    requires x in w.owner && w.owner[x].i < |w.conns| && x in w.conv.recvd && y in w.conv.sent
    requires var k := w.conns[w.owner[x].i];
             k.srv.Joined? && if w.owner[x].ClientSide? then x == k.srv.c && y == k.srv.d else x == k.srv.d && y == k.srv.c
    requires data <= Unread(w, x)
    requires r.recvd == w.conv.recvd[x := w.conv.recvd[x] + data] && r.sent == w.conv.sent[y := w.conv.sent[y] + data]
    ensures Inv(w.(conv := r))
  {
    LogKeys(r);
    hide C.Inv, Unread;
    OwnersKeep(w, r);
    forall j | 0 <= j < |w.conns| ensures ConnOk(r, w.conns[j]) {
      MovedConn(w, x, y, data, r, j);
    }
  }

  lemma OwnersKeep(w: World, v: C.Conv<nat>)
    requires OwnersOk(w) && w.conv.recvd.Keys <= v.recvd.Keys && v.pairs == w.conv.pairs
    ensures OwnersOk(w.(conv := v))
  {
  }

  lemma MovedConn(w: World, x: nat, y: nat, data: seq<byte>, r: C.Conv<nat>, j: nat)
    requires OwnersOk(w) && r.pairs == w.conv.pairs && j < |w.conns| && ConnOk(w.conv, w.conns[j])
    requires forall p :: p in r.pairs ==> C.Conserved(r, p.0, p.1)
    requires x in w.owner && w.owner[x].i < |w.conns| && x in w.conv.recvd && y in w.conv.sent
    requires var k := w.conns[w.owner[x].i];
             k.srv.Joined? && if w.owner[x].ClientSide? then x == k.srv.c && y == k.srv.d else x == k.srv.d && y == k.srv.c
    requires data <= Unread(w, x)
    requires r.recvd == w.conv.recvd[x := w.conv.recvd[x] + data] && r.sent == w.conv.sent[y := w.conv.sent[y] + data]
    ensures ConnOk(r, w.conns[j])
  {
    if j == w.owner[x].i {
      MovedOwnConn(w, x, data, r);
    } else {
      OtherConn(w, x, y, j);
      hide ConnOk, Unread, C.Conserved, OwnersOk;
      UntouchedConn(w.conv, r, w.conns[j], x, y);
    }
  }

  lemma MovedOwnConn(w: World, x: nat, data: seq<byte>, r: C.Conv<nat>)
    requires x in w.owner && w.owner[x].i < |w.conns| && x in w.conv.recvd && r.pairs == w.conv.pairs
    requires forall p :: p in r.pairs ==> C.Conserved(r, p.0, p.1)
    requires var k := w.conns[w.owner[x].i];
             && ConnOk(w.conv, k) && k.srv.Joined? && (if w.owner[x].ClientSide? then x == k.srv.c else x == k.srv.d)
             && var y := if w.owner[x].ClientSide? then k.srv.d else k.srv.c;
                && y in w.conv.sent && r.recvd == w.conv.recvd[x := w.conv.recvd[x] + data]
                && r.sent == w.conv.sent[y := w.conv.sent[y] + data]
    requires data <= Unread(w, x)
    ensures ConnOk(r, w.conns[w.owner[x].i])
  {
    var k := w.conns[w.owner[x].i];
    UnreadIsRest(w, x);
    var p := (k.srv.c, k.srv.d);
    assert p in r.pairs && C.Conserved(w.conv, p.0, p.1);
    hide ConnOk, Unread;
    ForwardedConn(w.conv, r, k, x, data);
  }

  /** The sockets of connection j are neither end of another connection. */
  lemma OtherConn(w: World, x: nat, y: nat, j: nat)
    requires OwnersOk(w) && j < |w.conns| && x in w.owner && w.owner[x].i < |w.conns| && j != w.owner[x].i
    requires var k := w.conns[w.owner[x].i]; k.srv.Joined? && (y == k.srv.c || y == k.srv.d)
    ensures match w.conns[j].srv
            case Waiting => true
            case Turned(c) => c != x && c != y
            case Joined(c, d) => c != x && c != y && d != x && d != y
  {
    assert Owned(w.owner, w.conns[j], j) && Owned(w.owner, w.conns[w.owner[x].i], w.owner[x].i);
  }

  lemma UnreadIsRest(w: World, x: nat)
    requires x in w.owner && w.owner[x].i < |w.conns| && x in w.conv.recvd
    requires ConnOk(w.conv, w.conns[w.owner[x].i]) && w.conns[w.owner[x].i].srv.Joined?
    requires var k := w.conns[w.owner[x].i];
             if w.owner[x].ClientSide? then x == k.srv.c else x == k.srv.d
    ensures var k := w.conns[w.owner[x].i];
            if w.owner[x].ClientSide?
            then && k.taken + |w.conv.recvd[x]| <= |k.life.k.tx|
                 && Unread(w, x) == k.life.k.tx[k.taken + |w.conv.recvd[x]|..]
            else |w.conv.recvd[x]| <= |k.dstSent| && Unread(w, x) == k.dstSent[|w.conv.recvd[x]|..]
  {
    hide RequestBytes, RequestWritten;
  }

  lemma ForwardedConn(v: C.Conv<nat>, r: C.Conv<nat>, k: Conn, x: nat, data: seq<byte>)
    requires ConnOk(v, k) && k.srv.Joined? && C.Conserved(r, k.srv.c, k.srv.d) && r.pairs == v.pairs
    requires (x == k.srv.c || x == k.srv.d) && k.srv.c != k.srv.d
    requires var y := if x == k.srv.c then k.srv.d else k.srv.c;
             r.recvd == v.recvd[x := v.recvd[x] + data] && r.sent == v.sent[y := v.sent[y] + data]
    requires x == k.srv.c ==> k.taken + |v.recvd[x]| <= |k.life.k.tx| && data <= k.life.k.tx[k.taken + |v.recvd[x]|..]
    requires x == k.srv.d ==> data <= k.dstSent[|v.recvd[x]|..]
    ensures ConnOk(r, k)
  {
    hide RequestBytes, RequestWritten;
    if x == k.srv.c {
      assert k.life.k.tx[k.taken + |v.recvd[x]|..] == Onward(k)[|v.recvd[x]|..];
      PrefixExtend(v.recvd[x], data, Onward(k));
    } else {
      PrefixExtend(v.recvd[x], data, k.dstSent);
    }
  }

  lemma PrefixExtend(a: seq<byte>, b: seq<byte>, s: seq<byte>)
    requires a <= s && b <= s[|a|..]
    ensures a + b <= s
  {
    assert s == a + s[|a|..];
  }

  lemma UntouchedConn(v: C.Conv<nat>, r: C.Conv<nat>, k: Conn, x: nat, y: nat)
    requires ConnOk(v, k) && r.pairs == v.pairs
    requires forall z :: z != x && z in v.recvd ==> z in r.recvd && r.recvd[z] == v.recvd[z]
    requires forall z :: z != y && z in v.sent ==> z in r.sent && r.sent[z] == v.sent[z]
    requires match k.srv
             case Waiting => true
             case Turned(c) => c != x && c != y
             case Joined(c, d) => c != x && c != y && d != x && d != y
    ensures ConnOk(r, k)
  {
    hide RequestBytes, RequestWritten;
  }

  lemma SrvEndStep(w: World, x: nat, e: C.Event)
    requires Inv(w) && Enabled(w, SrvEnd(x, e))
    ensures Inv(Step(w, SrvEnd(x, e)))
  {
    WatchedPair(w, x);
    C.CleanupKeeps(w.conv, x);
    C.CleanupResult(w.conv, x);
    LogKeys(w.conv);
    ConvReplaced(w, Step(w, SrvEnd(x, e)).conv);
  }

  lemma CollectStep(w: World, x: nat)
    requires Inv(w) && Enabled(w, SrvCollect(x))
    ensures Inv(Step(w, SrvCollect(x)))
  {
    C.CloseUnroutedKeeps(w.conv, x);
    ConvReplaced(w, C.CloseSocket(w.conv, x));
  }

  // ----- Other clients

  lemma ForeignAcceptStep(w: World, c: nat, cfd: nat, req: C.Incoming<nat>)
    requires Inv(w) && Enabled(w, ForeignAccept(c, cfd, req))
    ensures Inv(Step(w, ForeignAccept(c, cfd, req)))
  {
    hide C.Inv, C.Accept, C.CanAccept, C.Harmless, ConnOk, OwnersOk;
    var v := C.Accept(w.conv, c, cfd, req);
    C.AcceptKeepsExactly(w.conv, c, cfd, req);
    C.AcceptPairsFresh(w.conv, c, cfd, req);
    AcceptExtends(w.conv, c, cfd, req);
    ForeignOwners(w, v);
    forall i | 0 <= i < |w.conns| ensures ConnOk(v, w.conns[i]) {
      ConnOkExtends(w.conv, v, w.conns[i]);
    }
  }

  lemma AcceptExtends(v: C.Conv<nat>, c: nat, cfd: nat, req: C.Incoming<nat>)
    requires C.Inv(v) && C.CanAccept(v, c, cfd, req)
    ensures Extends(v, C.Accept(v, c, cfd, req))
  {
    LogKeys(v);
    C.AcceptPairsFresh(v, c, cfd, req);
    forall z | z in v.recvd
      ensures var r := C.Accept(v, c, cfd, req);
              z in r.recvd && r.recvd[z] == v.recvd[z] && z in r.sent && r.sent[z] == v.sent[z]
    {
      C.AcceptKeepsOthers(v, c, cfd, req, z);
    }
    hide C.Inv, C.Accept, C.CanAccept;
  }

  lemma ForeignOwners(w: World, v: C.Conv<nat>)
    requires OwnersOk(w) && w.conv.recvd.Keys <= v.recvd.Keys
    requires forall p :: p in v.pairs && p !in w.conv.pairs ==> p.0 !in w.conv.recvd && p.1 !in w.conv.recvd
    ensures OwnersOk(w.(conv := v))
  {
    var r := w.(conv := v);
    forall p | p in v.pairs ensures PairOwned(r, p.0, p.1) {
      if p in w.conv.pairs { assert PairOwned(w, p.0, p.1); }
    }
    hide Owned, Owns;
  }

  lemma ForeignReadStep(w: World, x: nat, data: seq<byte>)
    requires Inv(w) && Enabled(w, ForeignRead(x, data))
    ensures Inv(Step(w, ForeignRead(x, data)))
  {
    ForeignPartner(w, x);
    hide C.Inv, C.ReadAndForward, C.Routed, ConnOk, OwnersOk;
    C.ReadAndForwardCases(w.conv, x, C.Data(data));
    ForeignMoved(w, x, C.Partner(w.conv, x), data, C.ReadAndForward(w.conv, x, C.Data(data)));
  }

  /** Bytes have moved between two sockets that belong to no connection. */
  lemma ForeignMoved(w: World, x: nat, y: nat, data: seq<byte>, v: C.Conv<nat>)
    requires Inv(w) && C.Inv(v) && x !in w.owner && y !in w.owner && x in w.conv.recvd && y in w.conv.sent
    requires v == w.conv.(recvd := w.conv.recvd[x := w.conv.recvd[x] + data],
                          sent := w.conv.sent[y := w.conv.sent[y] + data])
    ensures Inv(w.(conv := v))
  {
    hide C.Inv, ConnOk;
    OwnersKeep(w, v);
    forall i | 0 <= i < |w.conns| ensures ConnOk(v, w.conns[i]) {
      assert Owned(w.owner, w.conns[i], i);
      UntouchedConn(w.conv, v, w.conns[i], x, y);
    }
  }

  lemma DestinationStep(w: World, a: Action)
    requires Inv(w) && Enabled(w, a) && (a.DstSend? || a.DstArrive?)
    ensures Inv(Step(w, a))
  {
    hide C.Inv, OwnersOk, ConnOk;
    var k := w.conns[a.i];
    if a.DstArrive? {
      DstArriveStep(w.conv, k, a.n);
    } else {
      DstSendStep(w.conv, k, a.data);
    }
    ConnReplaced(w, a.i, Step(w, a).conns[a.i]);
  }

  lemma DstSendStep(v: C.Conv<nat>, k: Conn, data: seq<byte>)
    requires ConnOk(v, k) && k.srv.Joined?
    ensures ConnOk(v, k.(dstSent := k.dstSent + data))
  {
    hide RequestBytes, RequestWritten;
  }

  lemma DstArriveStep(v: C.Conv<nat>, k: Conn, n: nat)
    requires ConnOk(v, k) && k.srv.Joined? && k.srv.d in v.sent
    ensures ConnOk(v, k.(dstGot := k.dstGot + NextBytes(v.sent[k.srv.d], |k.dstGot|, n)))
  {
    hide RequestBytes, RequestWritten;
    var s := v.sent[k.srv.d];
    PrefixExtend(k.dstGot, NextBytes(s, |k.dstGot|, n), s);
  }

  lemma StepKeeps(w: World, a: Action)
    requires Inv(w) && Enabled(w, a)
    ensures Inv(Step(w, a))
  {
    hide ConnOk, Perform, C.Inv;
    match a {
      case CliSocket(key, tracked) => SocketStep(w, key, tracked);
      case CliConnect(key, dest, cookie, link) =>
        ConnectStep(w.conv, Open(w, key), dest, cookie, link);
        ConnReplaced(w, w.cli[key], Step(w, a).conns[w.cli[key]]);
      case CliSend(key, data, fault) =>
        SendStep(w.conv, Open(w, key), data, fault);
        ConnReplaced(w, w.cli[key], Step(w, a).conns[w.cli[key]]);
      case CliRecv(key, n, fault) =>
        RecvStep(w.conv, Open(w, key), n, fault);
        ConnReplaced(w, w.cli[key], Step(w, a).conns[w.cli[key]]);
      case CliClose(key) =>
      case CliArrive(i, n) =>
        ArriveStep(w.conv, w.conns[i], n);
        ConnReplaced(w, i, Step(w, a).conns[i]);
      case SrvAccept(i, first, second, c, cfd, answer) => AcceptStep(w, i, first, second, c, cfd, answer);
      case SrvRead(x, n) => SrvReadStep(w, x, n);
      case SrvEnd(x, e) => SrvEndStep(w, x, e);
      case SrvCollect(x) => CollectStep(w, x);
      case ForeignAccept(c, cfd, req) => ForeignAcceptStep(w, c, cfd, req);
      case ForeignRead(x, data) => ForeignReadStep(w, x, data);
      case DstSend(_, _) => DestinationStep(w, a);
      case DstArrive(_, _) => DestinationStep(w, a);
    }
  }

  // ----- Runs

  ghost predicate ValidRun(w: World, run: seq<Action>)
    decreases |run|
  {
    run != [] ==> Enabled(w, run[0]) && ValidRun(Step(w, run[0]), run[1..])
  }

  function Exec(w: World, run: seq<Action>): World
    requires ValidRun(w, run)
    decreases |run|
  {
    if run == [] then w else Exec(Step(w, run[0]), run[1..])
  }

  lemma {:induction false} ExecKeeps(w: World, run: seq<Action>)
    requires Inv(w) && ValidRun(w, run)
    ensures Inv(Exec(w, run))
    decreases |run|
  {
    if run != [] {
      StepKeeps(w, run[0]);
      hide Step, Inv, Enabled;
      ExecKeeps(Step(w, run[0]), run[1..]);
    }
  }

  /** Whether the host dialled is, by its address, the target the application asked for. */
  ghost predicate Reached(names: string -> Peer, k: Conn) {
    && k.dialed.Dialed?
    && var p := Resolve(names, k.dialed.host);
       p.At? && Wanted(k.dest) == To(k.dialed.port, ToV4Mapped(p.a))
  }

  predicate OverIPv4(d: Dest) {
    d.V4? || (d.V6? && IsMapped(d.addr))
  }

  /** One accepted connection, given what names stand for. */
  ghost predicate Transparent(names: string -> Peer, k: Conn) {
    && (Reached(names, k) <==> OverIPv4(k.dest))
    && (k.life.got <= if k.again then REPLY + k.dstSent else k.dstSent) && k.dstGot <= Onward(k)
    && CutAt(k) && Onward(k) == (k.life.request + k.life.sent)[k.taken..]
    && (Onward(k) == k.life.sent <==> k.taken == |k.life.request|)
    && (k.cookie.NoCookie? && !k.again ==> k.taken == |k.life.request|)
  }

  /**
   * Transparency, over every run: for each connection whose Connect the converter accepted, the host dialled is
   * the one the application asked for exactly when that is an IPv4 address, mapped or not; the bytes the
   * application received are a prefix of those the destination sent, with the reply in front of them if it has
   * connected again while that was outstanding; and those delivered to the destination are a prefix of what the
   * converter had left of the request and of what the application sent, which is the latter alone exactly when
   * it took the request and no more, as it must have without a cookie and a second connect.
   */
  lemma Transparency(lfd: nat, run: seq<Action>, names: string -> Peer)
    requires ValidRun(Begin(lfd), run)
    ensures forall k :: k in Exec(Begin(lfd), run).conns && k.srv.Joined? ==> Transparent(names, k)
    ensures forall k :: k in Exec(Begin(lfd), run).conns && k.srv.Joined? && k.cookie.NoCookie? && !k.again ==>
              k.dstGot <= k.life.sent
  {
    var w0 := Begin(lfd);
    assert C.Inv(w0.conv) && OwnersOk(w0);
    ExecKeeps(w0, run);
    var w := Exec(w0, run);
    hide C.Inv, OwnersOk, Exec, ValidRun, ConnOk;
    forall k | k in w.conns && k.srv.Joined?
      ensures Transparent(names, k) && (k.cookie.NoCookie? && !k.again ==> k.dstGot <= k.life.sent)
    {
      var i :| 0 <= i < |w.conns| && w.conns[i] == k;
      JoinedMeans(w.conv, k, names);
    }
  }

  lemma JoinedMeans(v: C.Conv<nat>, k: Conn, names: string -> Peer)
    requires ConnOk(v, k) && k.srv.Joined?
    ensures Transparent(names, k)
  {
    JoinedBytes(v, k);
    if k.cookie.NoCookie? {
      BareRequest(k.dest);
    }
    assert RequestWritten(k.dest, k.cookie);
    DialMeans(names, k);
    hide RequestBytes, RequestWritten, Reached, ConnOk;
  }

  lemma JoinedBytes(v: C.Conv<nat>, k: Conn)
    requires ConnOk(v, k) && k.srv.Joined?
    ensures (k.life.got <= if k.again then REPLY + k.dstSent else k.dstSent) && k.dstGot <= Onward(k)
    ensures CutAt(k) && Onward(k) == (k.life.request + k.life.sent)[k.taken..]
    ensures Onward(k) == k.life.sent <==> k.taken == |k.life.request|
  {
    hide RequestBytes, RequestWritten;
    assert k.dstGot <= v.sent[k.srv.d] == v.recvd[k.srv.c] <= Onward(k);
    var l := k.life;
    assert v.sent[k.srv.c] == REPLY + v.recvd[k.srv.d];
    if k.again {
      assert l.inbound == l.got + l.k.rx;
      assert l.got <= REPLY + v.recvd[k.srv.d] <= REPLY + k.dstSent;
    } else if !l.k.tracked {
      assert l.inbound == REPLY + (l.got + l.k.rx);
      assert l.got + l.k.rx == l.inbound[4..] <= v.sent[k.srv.c][4..] == v.recvd[k.srv.d];
    }
    assert |Onward(k)| == |l.request| - k.taken + |l.sent|;
    if k.taken == |l.request| {
      assert (l.request + l.sent)[k.taken..] == l.sent;
    }
  }

  /** Without a cookie the request is 24 bytes. */
  lemma BareRequest(dest: Dest)
    requires Addressable(dest)
    ensures |RequestBytes(dest, NoCookie)| == 24
  {
    var o := RequestOpts(dest, NoCookie);
    hide Body;
    MessageSizeIsLength(o);
  }

  lemma DialMeans(names: string -> Peer, k: Conn)
    requires Addressable(k.dest) && k.dialed == DialOf(Wanted(k.dest))
    ensures Reached(names, k) <==> OverIPv4(k.dest)
  {
    var addr := Wanted(k.dest).addr;
    hide HostOf, Resolve, ToV4Mapped;
    DialsWantedExactly(names, addr);
    if k.dest.V4? {
      MappedForm(addr);
    }
  }

  /**
   * The request is there to be read, and behind it application data exactly if the client has connected again
   * and sent some; only a word of such data can hang the server, and the request alone reads as a request.
   */
  ghost predicate PendingExact(k: Conn) {
    && k.life.k.tx == k.life.request + k.life.sent
    && (k.life.k.tx != k.life.request <==> k.again && k.life.sent != [])
    && (forall first, second :: ReadRequest(k.life.k.tx, first, second).0.NeverEnds? ==>
          k.again && Taking(k, first, second) == |k.life.request| + 4)
    && |k.life.request| >= HEADER_LEN && ReadRequest(k.life.k.tx, HEADER_LEN, |k.life.request| - HEADER_LEN).0.Found?
  }

  /**
   * The converter took no more than the request, but for a client that connected again and sent; the client took
   * off nothing, yet or ever, or the reply and no more.
   */
  ghost predicate JoinedExact(k: Conn) {
    && CutAt(k) && k.life.replies <= 1
    && k.life.removed == if k.life.k.tracked || k.again then [] else REPLY
  }

  /** The handshake over every run, before and after the converter has accepted a Connect. */
  lemma HandshakeIsExact(lfd: nat, run: seq<Action>)
    requires ValidRun(Begin(lfd), run)
    ensures forall k :: k in Exec(Begin(lfd), run).conns ==>
              && (k.srv.Waiting? && k.life.request != [] ==> PendingExact(k))
              && (k.srv.Joined? ==> JoinedExact(k))
  {
    var w0 := Begin(lfd);
    assert C.Inv(w0.conv) && OwnersOk(w0);
    ExecKeeps(w0, run);
    var w := Exec(w0, run);
    hide C.Inv, OwnersOk, Exec, ValidRun, ConnOk, ReadRequest, PendingExact, JoinedExact;
    forall k | k in w.conns
      ensures k.srv.Waiting? && k.life.request != [] ==> PendingExact(k)
      ensures k.srv.Joined? ==> JoinedExact(k)
    {
      var i :| 0 <= i < |w.conns| && w.conns[i] == k;
      ExactConn(w.conv, k);
    }
  }

  lemma ExactConn(v: C.Conv<nat>, k: Conn)
    requires ConnOk(v, k)
    ensures k.srv.Waiting? && k.life.request != [] ==> PendingExact(k)
    ensures k.srv.Joined? ==> JoinedExact(k)
  {
    if k.srv.Waiting? && k.life.request != [] {
      PendingIsExact(v, k);
    }
    hide RequestBytes, RequestWritten, ReadRequest, PendingExact;
  }

  lemma PendingIsExact(v: C.Conv<nat>, k: Conn)
    requires ConnOk(v, k) && k.srv.Waiting? && k.life.request != []
    ensures PendingExact(k)
  {
    hide ReadRequest, ConnOk, Received;
    var m := |k.life.request|;
    assert |k.life.k.tx| == m + |k.life.sent| by { PendingRequest(v, k, 0, 0); }
    forall first, second | ReadRequest(k.life.k.tx, first, second).0.NeverEnds?
      ensures k.again && Taking(k, first, second) == m + 4
    {
      PendingRequest(v, k, first, second);
    }
    PendingLength(v, k);
    PendingRequest(v, k, HEADER_LEN, m - HEADER_LEN);
    assert Taking(k, HEADER_LEN, m - HEADER_LEN) == m by { AllTaken(m, |k.life.sent|); }
    if k.life.sent == [] {
      assert k.life.request + [] == k.life.request;
    }
  }

  lemma AllTaken(m: nat, d: nat)
    requires m >= HEADER_LEN
    ensures Received(m, d, HEADER_LEN, m - HEADER_LEN) == m
  {
  }

  lemma PendingLength(v: C.Conv<nat>, k: Conn)
    requires ConnOk(v, k) && k.life.request != []
    ensures var m := |k.life.request|; m == 24 || m >= 28
  {
    var o := RequestOpts(k.dest, k.cookie);
    hide Body;
    MessageSizeIsLength(o);
  }

  /**
   * The accepts the converter does not survive: the second receive went on into the application's data and took
   * a whole word of it that is no Connect, and either its length byte is zero or its type is unknown and the
   * destination answers.
   */
  predicate Upsets(k: Conn, n: nat, answer: C.TlvOutcome<nat>) {
    && |k.life.request| <= MAX_MESSAGE && n == |k.life.request| + 4 && |k.life.sent| >= 4
    && k.life.sent[0] != TYPE_CONNECT
    && (k.life.sent[1] == 0 || (answer.ConnectOk? && k.life.sent[0] !in CONVERT_TLVS))
  }

  /**
   * A pending client can be accepted whenever the kernel has two new descriptors, whatever has come in, unless
   * it has connected again and the word of data behind its request upsets the converter.
   */
  lemma PendingCanBeAccepted(w: World, i: nat, first: nat, second: nat, c: nat, cfd: nat, d: nat, dfd: nat)
    requires Inv(w) && i < |w.conns| && w.conns[i].srv.Waiting? && w.conns[i].life.request != []
    requires C.Fresh(w.conv, c, cfd) && C.Fresh(w.conv, d, dfd) && c != d && cfd != dfd
    ensures Enabled(w, SrvAccept(i, first, second, c, cfd, C.ConnectOk(d, dfd)))
            <==> !Upsets(w.conns[i], Taking(w.conns[i], first, second), C.ConnectOk(d, dfd))
    ensures !w.conns[i].again ==> !Upsets(w.conns[i], Taking(w.conns[i], first, second), C.ConnectOk(d, dfd))
  {
    hide ConnOk, OwnersOk, C.Inv, Acceptable, Upsets, Received;
    PendingAcceptable(w.conv, w.conns[i], first, second, c, cfd, d, dfd);
  }

  lemma PendingAcceptable(v: C.Conv<nat>, k: Conn, first: nat, second: nat, c: nat, cfd: nat, d: nat, dfd: nat)
    requires ConnOk(v, k) && k.srv.Waiting? && k.life.request != []
    requires C.Fresh(v, c, cfd) && C.Fresh(v, d, dfd) && c != d && cfd != dfd
    ensures var n := Taking(k, first, second);
            && (Acceptable(v, k, first, second, c, cfd, C.ConnectOk(d, dfd)) <==> !Upsets(k, n, C.ConnectOk(d, dfd)))
            && (!k.again ==> !Upsets(k, n, C.ConnectOk(d, dfd)))
  {
    var n, answer := Taking(k, first, second), C.ConnectOk(d, dfd);
    var r := ReadRequest(k.life.k.tx, first, second).0;
    hide ConnOk, ReadRequest, C.Fresh, C.CanAccept, C.Harmless, C.Benign;
    hide Received, Taking, Upsets, ReadsAs, Names, IncomingOf;
    PendingRequest(v, k, first, second);
    PendingLength(v, k);
    UpsetsExactly(k, n, r, answer);
    CanTake(v, k, n, r, c, cfd, d, dfd);
    if !k.again { NoUpset(k, n, answer); }
  }

  lemma NoUpset(k: Conn, n: nat, answer: C.TlvOutcome<nat>)
    requires k.life.sent == []
    ensures !Upsets(k, n, answer)
  {
  }

  lemma CanTake(v: C.Conv<nat>, k: Conn, n: nat, r: Request, c: nat, cfd: nat, d: nat, dfd: nat)
    requires ReadsAs(|k.life.request|, k.life.sent, k.dest, n, r)
    requires C.Fresh(v, c, cfd) && C.Fresh(v, d, dfd) && c != d && cfd != dfd
    ensures C.CanAccept(v, c, cfd, IncomingOf(r, C.ConnectOk(d, dfd)))
  {
    hide C.Fresh, C.CanAccept, C.Benign;
    assert r.Found? && r.tlvs == [] ==> OutcomesOf(r.tlvs, C.ConnectOk(d, dfd)) == [];
    if Names(r) {
      OutcomesShape(r.tlvs, C.ConnectOk(d, dfd));
      hide OutcomesOf;
      CanServe(v, c, cfd, d, dfd, OutcomesOf(r.tlvs, C.ConnectOk(d, dfd)));
    } else {
      CanRefuse(v, c, cfd);
    }
  }

  /** An accept hangs the converter or breaks its pairs exactly when it is one of those. */
  lemma UpsetsExactly(k: Conn, n: nat, r: Request, answer: C.TlvOutcome<nat>)
    requires ReadsAs(|k.life.request|, k.life.sent, k.dest, n, r) && (answer.ConnectOk? || answer.ConnectFails?)
    requires |k.life.request| >= 24
    ensures r.NeverEnds? || !C.Harmless(IncomingOf(r, answer)) <==> Upsets(k, n, answer)
  {
    if Names(r) {
      OutcomesShape(r.tlvs, answer);
      hide C.Benign, OutcomesOf, RequestForm;
    }
  }

  lemma CanRefuse(v: C.Conv<nat>, c: nat, cfd: nat)
    requires C.Fresh(v, c, cfd)
    ensures C.CanAccept(v, c, cfd, C.NoRequest) && C.CanAccept(v, c, cfd, C.Tlvs([]))
  {
  }

  /**
   * Who gets through: a pending client whose destination answers is joined exactly when its request fits the
   * length byte, that is, when its cookie is at most 992 bytes, and 24 or at least 28 bytes of it came in,
   * none of them data, or a whole word of data that is no Connect.
   */
  lemma AcceptJoinsExactly(w: World, i: nat, first: nat, second: nat, c: nat, cfd: nat, d: nat, dfd: nat)
    requires Inv(w) && Enabled(w, SrvAccept(i, first, second, c, cfd, C.ConnectOk(d, dfd)))
    ensures var k := w.conns[i];
            var m := Step(w, SrvAccept(i, first, second, c, cfd, C.ConnectOk(d, dfd))).conns[i];
            var n := Taking(k, first, second);
            && n <= |k.life.request| + |k.life.sent|
            && (m.srv == if && (k.cookie.NoCookie? || |k.cookie.data| <= 992)
                            && ConnectComesIn(|k.life.request|, k.life.sent, n)
                         then Joined(c, d) else Turned(c))
            && (m.srv.Joined? ==> m.taken == n)
  {
    hide C.Inv, OwnersOk, ConnOk, ReadRequest, RequestForm, Step, C.CanAccept, Taking, Names, ConnectComesIn;
    PendingNamed(w.conv, w.conns[i], first, second);
    JoinedWhenServed(w, i, first, second, c, cfd, d, dfd);
  }

  lemma PendingNamed(v: C.Conv<nat>, k: Conn, first: nat, second: nat)
    requires ConnOk(v, k) && k.srv.Waiting? && k.life.request != []
    ensures var (r, rest) := ReadRequest(k.life.k.tx, first, second);
            var n := Taking(k, first, second);
            && n <= |k.life.request| + |k.life.sent| && (r.Found? ==> RequestForm(r.tlvs, k.dest))
            && (Names(r) <==> && (k.cookie.NoCookie? || |k.cookie.data| <= 992)
                              && ConnectComesIn(|k.life.request|, k.life.sent, n))
            && (Names(r) ==> |k.life.k.tx| - |rest| == n)
  {
    PendingRequest(v, k, first, second);
    PendingFits(v, k);
    hide ConnOk, ReadRequest, RequestForm, Received;
    NamesExactly(k, Taking(k, first, second), ReadRequest(k.life.k.tx, first, second).0);
  }

  lemma PendingFits(v: C.Conv<nat>, k: Conn)
    requires ConnOk(v, k) && k.life.request != []
    ensures |k.life.request| <= MAX_MESSAGE <==> k.cookie.NoCookie? || |k.cookie.data| <= 992
  {
    hide RequestBytes, RequestWritten;
    RequestLength(k.dest, k.cookie);
  }

  lemma NamesExactly(k: Conn, n: nat, r: Request)
    requires ReadsAs(|k.life.request|, k.life.sent, k.dest, n, r)
    ensures n <= |k.life.request| + |k.life.sent| && (r.Found? ==> RequestForm(r.tlvs, k.dest))
    ensures Names(r) <==> |k.life.request| <= MAX_MESSAGE && ConnectComesIn(|k.life.request|, k.life.sent, n)
  {
  }

  lemma JoinedWhenServed(w: World, i: nat, first: nat, second: nat, c: nat, cfd: nat, d: nat, dfd: nat)
    requires C.Inv(w.conv) && Enabled(w, SrvAccept(i, first, second, c, cfd, C.ConnectOk(d, dfd)))
    requires var k := w.conns[i];
             var (r, rest) := ReadRequest(k.life.k.tx, first, second);
             r.Found? ==> RequestForm(r.tlvs, k.dest)
    ensures var k := w.conns[i];
            var (r, rest) := ReadRequest(k.life.k.tx, first, second);
            var m := Step(w, SrvAccept(i, first, second, c, cfd, C.ConnectOk(d, dfd))).conns[i];
            m.srv == (if Names(r) then Joined(c, d) else Turned(c)) && m.taken == |k.life.k.tx| - |rest|
  {
    var k := w.conns[i];
    AcceptCases(w.conv, ReadRequest(k.life.k.tx, first, second).0, k.dest, c, cfd, C.ConnectOk(d, dfd));
    LogKeys(w.conv);
    hide C.Inv, C.CanAccept, C.Accept, OutcomesOf, ReadRequest, RequestForm;
  }

  lemma RequestLength(dest: Dest, cookie: CookieSetting)
    requires RequestWritten(dest, cookie)
    ensures |RequestBytes(dest, cookie)| <= MAX_MESSAGE <==> cookie.NoCookie? || |cookie.data| <= 992
  {
    hide Body;
    var o := RequestOpts(dest, cookie);
    MessageSizeIsLength(o);
    if cookie.UseCookie? {
      CookieBounds(dest, cookie.data);
      LengthByteFaithfulExactly(o);
    }
  }

  lemma CanServe(v: C.Conv<nat>, c: nat, cfd: nat, d: nat, dfd: nat, outcomes: seq<C.TlvOutcome<nat>>)
    requires C.Fresh(v, c, cfd) && C.Fresh(v, d, dfd) && c != d && cfd != dfd
    requires outcomes != [] && outcomes[0] == C.ConnectOk(d, dfd) && NoConnects(outcomes[1..])
    ensures C.CanAccept(v, c, cfd, C.Tlvs(outcomes))
  {
    var s0 := C.AddSocket(v, c, cfd);
    OthersFeasible(C.Pair(C.AddSocket(s0, d, dfd), c, d), c, outcomes[1..]);
  }

  lemma {:induction false} OthersFeasible(s: C.Conv<nat>, c: nat, outcomes: seq<C.TlvOutcome<nat>>)
    requires c in s.sent && NoConnects(outcomes)
    ensures C.Feasible(s, c, outcomes)
    decreases |outcomes|
  {
    if outcomes != [] {
      OthersFeasible(s, c, outcomes[1..]);
    }
  }

  // ----- The prefixes are attained

  lemma {:induction false} ExecConcat(w: World, run: seq<Action>, more: seq<Action>)
    requires ValidRun(w, run) && ValidRun(Exec(w, run), more)
    ensures ValidRun(w, run + more) && Exec(w, run + more) == Exec(Exec(w, run), more)
    decreases |run|
  {
    hide Step, Enabled;
    if run == [] {
      assert run + more == more;
    } else {
      ExecConcat(Step(w, run[0]), run[1..], more);
      assert (run + more)[1..] == run[1..] + more;
    }
  }

  lemma OneStep(w: World, a: Action)
    requires Enabled(w, a)
    ensures ValidRun(w, [a]) && Exec(w, [a]) == Step(w, a)
  {
    hide Step, Enabled;
    assert [a][1..] == [];
  }

  /** The sockets of a joined connection: what has moved on each, and what is still to be read. */
  ghost predicate Ends(w: World, i: nat) {
    && i < |w.conns| && w.conns[i].srv.Joined?
    && var k := w.conns[i];
       var c, d := k.srv.c, k.srv.d;
       && c in w.owner && w.owner[c] == ClientSide(i) && d in w.owner && w.owner[d] == DestSide(i) && c != d
       && c in w.conv.recvd && d in w.conv.recvd && c in w.conv.sent && d in w.conv.sent
       && w.conv.sent[d] == w.conv.recvd[c] <= Onward(k) && Unread(w, c) == Onward(k)[|w.conv.recvd[c]|..]
       && w.conv.sent[c] == REPLY + w.conv.recvd[d] && w.conv.recvd[d] <= k.dstSent
       && Unread(w, d) == k.dstSent[|w.conv.recvd[d]|..]
       && k.dstGot <= w.conv.sent[d] && k.life.inbound <= w.conv.sent[c]
  }

  lemma ConnIsOk(w: World, i: nat)
    requires Inv(w) && i < |w.conns|
    ensures ConnOk(w.conv, w.conns[i]) && OwnersOk(w)
  {
    hide C.Inv, OwnersOk, ConnOk;
  }

  lemma OwnedEnds(w: World, i: nat)
    requires OwnersOk(w) && i < |w.conns| && w.conns[i].srv.Joined?
    ensures var k := w.conns[i];
            && k.srv.c in w.owner && w.owner[k.srv.c] == ClientSide(i)
            && k.srv.d in w.owner && w.owner[k.srv.d] == DestSide(i)
  {
    assert Owned(w.owner, w.conns[i], i);
    hide Owns, PairOwned;
  }

  lemma RestOfOnward(k: Conn, n: nat)
    requires k.taken + n <= |k.life.k.tx|
    ensures n <= |Onward(k)| && k.life.k.tx[k.taken + n..] == Onward(k)[n..]
  {
  }

  lemma EndsOf(w: World, i: nat)
    requires Inv(w) && i < |w.conns| && w.conns[i].srv.Joined?
    ensures Ends(w, i)
  {
    hide Inv, OwnersOk, ConnOk, Unread, Onward;
    var k := w.conns[i];
    ConnIsOk(w, i);
    OwnedEnds(w, i);
    ConnEnds(w.conv, k);
    UnreadIsRest(w, k.srv.c);
    UnreadIsRest(w, k.srv.d);
    RestOfOnward(k, |w.conv.recvd[k.srv.c]|);
  }

  lemma ConnEnds(v: C.Conv<nat>, k: Conn)
    requires ConnOk(v, k) && k.srv.Joined?
    ensures var c, d := k.srv.c, k.srv.d;
            && c != d && c in v.recvd && d in v.recvd && c in v.sent && d in v.sent
            && v.sent[d] == v.recvd[c] <= Onward(k) && v.sent[c] == REPLY + v.recvd[d] && v.recvd[d] <= k.dstSent
            && k.dstGot <= v.sent[d] && k.life.inbound <= v.sent[c] && k.taken <= |k.life.k.tx|
  {
    hide RequestBytes, RequestWritten;
  }

  /** A routed socket is watched, and is not the listener. */
  lemma RoutedIsWatched(v: C.Conv<nat>, x: nat)
    requires C.Inv(v) && C.Routed(v, x)
    ensures x in v.inputs && x != v.listener
  {
  }

  /** r is w after the converter has read all that is there on socket x of connection i. */
  ghost predicate Drained(w: World, r: World, i: nat, x: nat) {
    && Inv(r) && Ends(w, i) && Ends(r, i) && r == w.(conv := r.conv)
    && x in w.owner && w.owner[x].i < |w.conns| && x in w.conv.recvd && x in r.conv.recvd
    && r.conv.recvd[x] == w.conv.recvd[x] + Unread(w, x) && SameRoutes(w.conv, r.conv)
  }

  lemma EndIsOwned(w: World, i: nat, x: nat)
    requires Ends(w, i) && (x == w.conns[i].srv.c || x == w.conns[i].srv.d)
    ensures x in w.owner && w.owner[x].i < |w.conns| && x in w.conv.recvd && i < |w.conns| && w.conns[i].srv.Joined?
  {
    hide Unread, Onward;
  }

  lemma CanRead(w: World, i: nat, x: nat)
    requires C.Inv(w.conv) && Ends(w, i) && (x == w.conns[i].srv.c || x == w.conns[i].srv.d) && C.Routed(w.conv, x)
    requires Unread(w, x) != []
    ensures Enabled(w, SrvRead(x, |Unread(w, x)|)) && Front(Unread(w, x), |Unread(w, x)|) == Unread(w, x)
    ensures x in w.owner && w.owner[x].i < |w.conns| && x in w.conv.recvd && i < |w.conns| && w.conns[i].srv.Joined?
  {
    EndIsOwned(w, i, x);
    hide C.Inv, Ends, C.Routed, Unread;
    RoutedIsWatched(w.conv, x);
  }

  lemma DrainStep(w: World, i: nat, x: nat)
    requires Inv(w) && Ends(w, i) && (x == w.conns[i].srv.c || x == w.conns[i].srv.d) && C.Routed(w.conv, x)
    requires Unread(w, x) != []
    ensures var a := SrvRead(x, |Unread(w, x)|); Enabled(w, a) && Drained(w, Step(w, a), i, x)
  {
    assert C.Inv(w.conv);
    hide C.Inv, C.Routed, Ends, Unread, Enabled;
    CanRead(w, i, x);
    var a := SrvRead(x, |Unread(w, x)|);
    hide Inv, C.Routed, C.Partner, Unread, Ends, Enabled, Step;
    SrvReadEffect(w, x, |Unread(w, x)|);
    StepKeeps(w, a);
    EndsOf(Step(w, a), i);
  }

  lemma DrainNothing(w: World, i: nat, x: nat)
    requires Inv(w) && Ends(w, i) && (x == w.conns[i].srv.c || x == w.conns[i].srv.d) && Unread(w, x) == []
    ensures Drained(w, w, i, x)
  {
    hide Inv, Unread;
    assert w.conv.recvd[x] + [] == w.conv.recvd[x];
  }

  lemma Drain(w: World, i: nat, x: nat) returns (run: seq<Action>)
    requires Inv(w) && Ends(w, i) && (x == w.conns[i].srv.c || x == w.conns[i].srv.d) && C.Routed(w.conv, x)
    ensures ValidRun(w, run) && Drained(w, Exec(w, run), i, x)
  {
    hide Inv, Unread, C.Routed, Drained, Step, Enabled;
    if Unread(w, x) == [] {
      run := [];
      DrainNothing(w, i, x);
    } else {
      DrainStep(w, i, x);
      run := [SrvRead(x, |Unread(w, x)|)];
      OneStep(w, run[0]);
    }
  }

  lemma DrainedUp(w: World, r: World, i: nat)
    requires Ends(w, i) && Drained(w, r, i, w.conns[i].srv.c)
    ensures var k := w.conns[i];
            && r == w.(conv := r.conv) && SameRoutes(w.conv, r.conv) && k.srv.Joined? && k.srv.d in r.conv.sent
            && r.conv.sent[k.srv.d] == Onward(k) && k.dstGot <= Onward(k)
  {
    hide Inv, Unread, Onward;
  }

  lemma TakesAll(w: World, i: nat, all: seq<byte>)
    requires i < |w.conns| && w.conns[i].srv.Joined? && w.conns[i].srv.d in w.conv.sent
    requires w.conv.sent[w.conns[i].srv.d] == all && w.conns[i].dstGot <= all
    ensures var a, k := DstArrive(i, |all|), w.conns[i];
            Enabled(w, a) && Step(w, a) == w.(conns := w.conns[i := k.(dstGot := all)])
  {
    var k := w.conns[i];
    assert k.dstGot + NextBytes(all, |k.dstGot|, |all|) == all;
    hide NextBytes;
  }

  lemma DstTakesAll(w: World, r: World, i: nat)
    requires Ends(w, i) && Drained(w, r, i, w.conns[i].srv.c)
    ensures var a, k := DstArrive(i, |Onward(w.conns[i])|), w.conns[i];
            && Enabled(r, a) && SameRoutes(w.conv, r.conv)
            && Step(r, a) == w.(conv := r.conv, conns := w.conns[i := k.(dstGot := Onward(k))])
  {
    DrainedUp(w, r, i);
    hide Drained, Enabled, Step, Onward;
    TakesAll(r, i, Onward(w.conns[i]));
  }

  /** From any reachable state: with its pair still up, everything the client sent can reach the destination. */
  lemma UpstreamDelivers(w: World, i: nat) returns (run: seq<Action>)
    requires Inv(w) && i < |w.conns| && w.conns[i].srv.Joined? && C.Routed(w.conv, w.conns[i].srv.c)
    ensures ValidRun(w, run)
    ensures var r, k := Exec(w, run), w.conns[i];
            r == w.(conv := r.conv, conns := w.conns[i := k.(dstGot := Onward(k))]) && SameRoutes(w.conv, r.conv)
  {
    hide *;
    EndsOf(w, i);
    var drain := Drain(w, i, w.conns[i].srv.c);
    var r := Exec(w, drain);
    DstTakesAll(w, r, i);
    var a := DstArrive(i, |Onward(w.conns[i])|);
    OneStep(r, a);
    ExecConcat(w, drain, [a]);
    run := drain + [a];
  }

  /** And everything the destination sent can reach an application that still has its socket. */
  lemma DownstreamDelivers(w: World, i: nat, key: (nat, nat)) returns (run: seq<Action>)
    requires Inv(w) && i < |w.conns| && w.conns[i].srv.Joined? && C.Routed(w.conv, w.conns[i].srv.d)
    requires key in w.cli && w.cli[key] == i
    ensures ValidRun(w, run) && |Exec(w, run).conns| == |w.conns|
    ensures var k, r := w.conns[i], Exec(w, run);
            var m := r.conns[i];
            && m.life.got == (if k.again then REPLY + k.dstSent else k.dstSent) && !m.life.k.tracked
            && SameOut(k.life, m.life) && m == k.(life := m.life)
            && r == w.(conv := r.conv, conns := w.conns[i := m]) && SameRoutes(w.conv, r.conv)
  {
    hide *;
    EndsOf(w, i);
    var drain := Drain(w, i, w.conns[i].srv.d);
    var w1 := Exec(w, drain);
    var all := REPLY + w.conns[i].dstSent;
    var a1, a2 := CliArrive(i, |all|), CliRecv(key, |all|, NoFault);
    ArrivesAll(w, w1, i);
    var w2 := Step(w1, a1);
    ReceivesAll(w2, i, key, all);
    OneStep(w1, a1);
    OneStep(w2, a2);
    ExecConcat(w, drain, [a1]);
    ExecConcat(w, drain + [a1], [a2]);
    run := drain + [a1] + [a2];
    SameOutTwice(w.conns[i].life, w2.conns[i].life, Exec(w, run).conns[i].life);
  }

  /** What has gone out on a socket is the same. */
  predicate SameOut(l: Life, m: Life) {
    m.request == l.request && m.sent == l.sent && m.k.tx == l.k.tx
  }

  lemma SameOutTwice(l: Life, m: Life, n: Life)
    ensures SameOut(l, m) && SameOut(m, n) ==> SameOut(l, n)
  {
  }

  lemma RestArrives(w: World, i: nat, all: seq<byte>)
    requires i < |w.conns| && w.conns[i].srv.Joined? && w.conns[i].srv.c in w.conv.sent
    requires w.conv.sent[w.conns[i].srv.c] == all && w.conns[i].life.inbound <= all
    ensures var a := CliArrive(i, |all|);
            Enabled(w, a) &&
            var m := Step(w, a).conns[i];
            && Step(w, a) == w.(conns := w.conns[i := m]) && m == w.conns[i].(life := m.life) && m.life.inbound == all
            && SameOut(w.conns[i].life, m.life)
  {
    var l := w.conns[i].life;
    assert l.inbound + NextBytes(all, |l.inbound|, |all|) == all;
    hide NextBytes;
  }

  lemma ArrivesAll(w: World, r: World, i: nat)
    requires Ends(w, i) && Drained(w, r, i, w.conns[i].srv.d)
    ensures var k := w.conns[i];
            var all := REPLY + k.dstSent;
            var a := CliArrive(i, |all|);
            && Enabled(r, a) && Inv(Step(r, a)) && |Step(r, a).conns| == |w.conns|
            && var m := Step(r, a).conns[i];
               && m.life.inbound == all && m == k.(life := m.life) && SameOut(k.life, m.life) && m.srv.Joined?
               && Step(r, a) == w.(conv := r.conv, conns := w.conns[i := m]) && SameRoutes(w.conv, r.conv)
  {
    DrainedDown(w, r, i);
    hide Inv, Ends, Drained, Enabled, Step;
    var all := REPLY + w.conns[i].dstSent;
    RestArrives(r, i, all);
    StepKeeps(r, CliArrive(i, |all|));
  }

  lemma DrainedDown(w: World, r: World, i: nat)
    requires Ends(w, i) && Drained(w, r, i, w.conns[i].srv.d)
    ensures var k := w.conns[i];
            && Inv(r) && i < |w.conns| && r == w.(conv := r.conv) && k.srv.Joined? && k.srv.c in r.conv.sent
            && SameRoutes(w.conv, r.conv)
            && r.conv.sent[k.srv.c] == REPLY + k.dstSent && k.life.inbound <= REPLY + k.dstSent
  {
    hide Inv, Unread, Onward;
  }

  lemma ReceiveReturns(v: C.Conv<nat>, k: Conn, all: seq<byte>)
    requires ConnOk(v, k) && k.srv.Joined? && k.life.inbound == all && REPLY <= all
    ensures CallReturns(v, k, NoFault) && |k.life.k.rx| <= |all|
    ensures k.life.k.tracked ==> k.life.k.rx == all && GoodReply(all, NoFault) && !StuckReply(all, NoFault)
  {
    hide RequestBytes, RequestWritten;
    ReplyIsGood(all);
    hide GoodReply, StuckReply;
  }

  lemma ReplyIsGood(s: seq<byte>)
    requires REPLY <= s
    ensures GoodReply(s, NoFault) && !StuckReply(s, NoFault)
  {
    ReplyOctets();
    hide CarriesOptions;
    assert [1, 1, 0x22, 0x63] <= s && s[1] == 1;
    assert !([1, 0, 0x22, 0x63] <= s) && !CarriesHang(s);
  }

  /** What an untracked connection has been given when its queue is empty. */
  lemma AllGot(v: C.Conv<nat>, k: Conn, all: seq<byte>)
    requires ConnOk(v, k) && k.srv.Joined? && !k.life.k.tracked && k.life.k.rx == []
    requires k.life.inbound == all == REPLY + k.dstSent
    ensures k.life.got == if k.again then all else k.dstSent
  {
    hide RequestBytes, RequestWritten, CutAt, Onward, C.Conserved, DialOf;
    var l := k.life;
    assert all == l.removed + l.got + [];
    if !k.again {
      assert all[4..] == k.dstSent && (REPLY + l.got)[4..] == l.got;
    }
  }

  /** One read then takes the reply, if it is still to be taken, and hands over the rest. */
  lemma ReceivedConn(v: C.Conv<nat>, k: Conn, all: seq<byte>)
    requires ConnOk(v, k) && k.srv.Joined? && k.life.inbound == all == REPLY + k.dstSent
    ensures CallReturns(v, k, NoFault)
    ensures var l := Perform(k.life, CallRecv(|all|, NoFault));
            l.got == (if k.again then all else k.dstSent) && !l.k.tracked && SameOut(k.life, l)
  {
    var l := Perform(k.life, CallRecv(|all|, NoFault));
    ReceiveReturns(v, k, all);
    RecvStep(v, k, |all|, NoFault);
    hide ConnOk;
    LifeFollowsCalls(k.life, CallRecv(|all|, NoFault));
    RecvExactly(k.life.k, |all|, NoFault);
    hide ConnOk, CallReturns, GoodReply, StuckReply, Perform, Redirect.Recv, ReadReply, ReplyTakes;
    AllGot(v, k.(life := l), all);
  }

  lemma ReceivesAll(w: World, i: nat, key: (nat, nat), all: seq<byte>)
    requires Inv(w) && i < |w.conns| && w.conns[i].srv.Joined? && key in w.cli && w.cli[key] == i
    requires w.conns[i].life.inbound == all == REPLY + w.conns[i].dstSent
    ensures Enabled(w, CliRecv(key, |all|, NoFault))
    ensures var k, r := w.conns[i], Step(w, CliRecv(key, |all|, NoFault)).conns[i];
            && r.life.got == (if k.again then REPLY + k.dstSent else k.dstSent) && !r.life.k.tracked
            && SameOut(k.life, r.life) && r == k.(life := r.life)
            && Step(w, CliRecv(key, |all|, NoFault)) == w.(conns := w.conns[i := r])
  {
    hide Inv, ConnOk, OwnersOk, Perform, CallReturns, Enabled, Step;
    ConnIsOk(w, i);
    ReceivedConn(w.conv, w.conns[i], all);
    RecvAction(w, key, |all|);
  }

  lemma RecvAction(w: World, key: (nat, nat), n: nat)
    requires key in w.cli && w.cli[key] < |w.conns| && CallReturns(w.conv, Open(w, key), NoFault)
    ensures Enabled(w, CliRecv(key, n, NoFault))
    ensures Step(w, CliRecv(key, n, NoFault)) == CallOn(w, key, CallRecv(n, NoFault))
  {
    hide CallReturns, CallOn, Perform;
  }

  // ----- Everything the C writer can ask for is served

  /**
   * Any message of the C writer with a Connect in it, whatever else it carries, that is received whole: the
   * converter finds its target and, if that answers, pairs the client with it and keeps it open.
   */
  lemma WrittenRequestServed(v: C.Conv<nat>, o: Opts, c: nat, cfd: nat, d: nat, dfd: nat)
    requires Supported(o) && F_CONNECT in o.flags && MessageSize(o) <= MAX_MESSAGE
    requires C.Inv(v) && C.Fresh(v, c, cfd) && C.Fresh(v, d, dfd) && c != d && cfd != dfd
    ensures var r := ReadRequest(Message(o), HEADER_LEN, |Message(o)|).0;
            && r.Found? && LastConnect(r.tlvs) == To(o.port, o.addr)
            && var req := IncomingOf(r, C.ConnectOk(d, dfd));
               && C.Harmless(req) && C.CanAccept(v, c, cfd, req)
               && var after := C.Accept(v, c, cfd, req);
                  && C.Inv(after) && (c, d) in after.pairs
                  && C.Routed(after, c) && C.Partner(after, c) == d && C.Routed(after, d) && C.Partner(after, d) == c
  {
    var tlvs := WrittenTlvs(o);
    ServedWhenAnswered(v, tlvs, c, cfd, d, dfd);
    hide *;
  }

  lemma WrittenTlvs(o: Opts) returns (tlvs: seq<PyTlv>)
    requires Supported(o) && F_CONNECT in o.flags && MessageSize(o) <= MAX_MESSAGE
    ensures ReadRequest(Message(o), HEADER_LEN, |Message(o)|).0 == Found(tlvs)
    ensures tlvs != [] && tlvs[0].PyConnect? && OthersKnown(tlvs) && LastConnect(tlvs) == To(o.port, o.addr)
  {
    hide *;
    WrittenRead(o);
    WrittenViews(o);
    tlvs := Views(TlvsOf(o));
    KnownViews(tlvs);
    OthersOnly(tlvs);
  }

  lemma WrittenRead(o: Opts)
    requires Supported(o) && MessageSize(o) <= MAX_MESSAGE
    ensures AllFit(TlvsOf(o)) && ReadRequest(Message(o), HEADER_LEN, |Message(o)|).0 == Found(Views(TlvsOf(o)))
  {
    assert Message(o) + [] == Message(o);
    hide ReadRequest, MessageSize, Message, Views, TlvsOf;
    RequestRead(o, [], HEADER_LEN, |Message(o)|);
  }

  lemma KnownViews(tlvs: seq<PyTlv>)
    requires forall i :: 1 <= i < |tlvs| ==> tlvs[i].PyOther? && tlvs[i].kind in {0x14, 0x16, 0x1e}
    ensures OthersKnown(tlvs)
  {
  }

  lemma WrittenViews(o: Opts)
    requires F_CONNECT in o.flags && AllFit(TlvsOf(o))
    ensures var tlvs := Views(TlvsOf(o));
            && tlvs != [] && tlvs[0] == PyConnect(5, o.port, o.addr)
            && forall i :: 1 <= i < |tlvs| ==> tlvs[i].PyOther? && tlvs[i].kind in {0x14, 0x16, 0x1e}
  {
    hide Pad, Fits, Size;
    var ts := TlvsOf(o);
    assert ts[0] == Connect(o.port, o.addr);
    forall i | 1 <= i < |ts| ensures !ts[i].Connect? {
      assert ts[i] in OneIf(F_EXTENDED, o) + OneIf(F_COOKIE, o) + OneIf(F_ERROR, o);
    }
  }

  /** With one Connect in front, that is the last one. */
  lemma {:induction false} OthersOnly(tlvs: seq<PyTlv>)
    requires tlvs != [] && tlvs[0].PyConnect? && forall i :: 1 <= i < |tlvs| ==> tlvs[i].PyOther?
    ensures LastConnect(tlvs) == To(tlvs[0].port, tlvs[0].addr)
    decreases |tlvs|
  {
    if |tlvs| > 1 {
      OthersOnly(tlvs[..|tlvs| - 1]);
    }
  }

  lemma ServedWhenAnswered(v: C.Conv<nat>, tlvs: seq<PyTlv>, c: nat, cfd: nat, d: nat, dfd: nat)
    requires tlvs != [] && tlvs[0].PyConnect? && OthersKnown(tlvs)
    requires C.Inv(v) && C.Fresh(v, c, cfd) && C.Fresh(v, d, dfd) && c != d && cfd != dfd
    ensures var req := IncomingOf(Found(tlvs), C.ConnectOk(d, dfd));
            && C.Harmless(req) && C.CanAccept(v, c, cfd, req)
            && var after := C.Accept(v, c, cfd, req);
               && C.Inv(after) && (c, d) in after.pairs
               && C.Routed(after, c) && C.Partner(after, c) == d && C.Routed(after, d) && C.Partner(after, d) == c
  {
    var answer := C.ConnectOk(d, dfd);
    var outcomes := OutcomesOf(tlvs, answer);
    OutcomesShape(tlvs, answer);
    hide OutcomesOf, C.Inv, C.Fresh, C.CanAccept, C.Accept, C.Benign, C.Connects, C.Makes, C.Routed, C.Partner;
    CanServe(v, c, cfd, d, dfd, outcomes);
    C.AcceptKeepsExactly(v, c, cfd, C.Tlvs(outcomes));
    FirstConnects(outcomes, c, d, dfd);
    C.AcceptRoutesExactly(v, c, cfd, C.Tlvs(outcomes));
    C.AcceptPairsExactly(v, c, cfd, C.Tlvs(outcomes), (c, d));
  }

  lemma FirstConnects(outcomes: seq<C.TlvOutcome<nat>>, c: nat, d: nat, dfd: nat)
    requires outcomes != [] && outcomes[0] == C.ConnectOk(d, dfd) && C.AllIgnored(outcomes[1..])
    ensures C.Connects(outcomes, 0) && C.Makes(c, outcomes, (c, d))
  {
    assert C.Connects(outcomes, 0);
  }

  // ----- What a second connect and a send do to the converter

  /**
   * Connect, connect again, send: the request is pending with the data behind it. A client that sends a word whose
   * first byte is no type of the protocol, such as ABCD, is joined if the destination answers, and then left
   * watched although its socket is closed.
   */
  lemma SecondConnectBreaksConverter(v: C.Conv<nat>, dest: Dest, data: seq<byte>, c: nat, cfd: nat, d: nat, dfd: nat)
    requires Addressable(dest) && |data| == 4 && data[0] !in CONVERT_TLVS && data[1] != 0
    requires C.Inv(v) && C.Fresh(v, c, cfd) && C.Fresh(v, d, dfd) && c != d && cfd != dfd
    ensures var ops := [CallConnect(dest, NoCookie, Up, FirstFails), CallConnect(dest, NoCookie, Refused, FirstFails),
                        CallSend(data, NoFault)];
            var r := ReadRequest(PerformAll(NewLife(true), ops).k.tx, HEADER_LEN, 24).0;
            && LiveRun(NewLife(true), ops, REPLY)
            && r == Found([ConnectView(RequestOpts(dest, NoCookie)), PyOther(data[0], data[1])])
            && var req := IncomingOf(r, C.ConnectOk(d, dfd));
               C.CanAccept(v, c, cfd, req) && C.Broken(C.Accept(v, c, cfd, req), c)
  {
    var o := RequestOpts(dest, NoCookie);
    var tlvs := [ConnectView(o), PyOther(data[0], data[1])];
    DataReadsAsElement(dest, data);
    SecondConnectThenSend(dest, data);
    BreaksWhenServed(v, tlvs, c, cfd, d, dfd);
    hide *;
  }

  lemma DataReadsAsElement(dest: Dest, data: seq<byte>)
    requires Addressable(dest) && |data| == 4 && data[0] != TYPE_CONNECT && data[1] != 0
    ensures ReadRequest(RequestBytes(dest, NoCookie) + data, HEADER_LEN, 24).0
         == Found([ConnectView(RequestOpts(dest, NoCookie)), PyOther(data[0], data[1])])
  {
    var o := RequestOpts(dest, NoCookie);
    BareRequest(dest);
    MessageSizeIsLength(o);
    RequestInPieces(o, data, HEADER_LEN, 24);
    assert data[..4] == data;
    hide Message, MessageSize, ReadRequest;
  }

  lemma BreaksWhenServed(v: C.Conv<nat>, tlvs: seq<PyTlv>, c: nat, cfd: nat, d: nat, dfd: nat)
    requires |tlvs| == 2 && tlvs[0].PyConnect? && tlvs[1].PyOther? && tlvs[1].kind !in CONVERT_TLVS
    requires C.Inv(v) && C.Fresh(v, c, cfd) && C.Fresh(v, d, dfd) && c != d && cfd != dfd
    ensures var req := IncomingOf(Found(tlvs), C.ConnectOk(d, dfd));
            C.CanAccept(v, c, cfd, req) && C.Broken(C.Accept(v, c, cfd, req), c)
  {
    var outcomes := OutcomesOf(tlvs, C.ConnectOk(d, dfd));
    OutcomesShape(tlvs, C.ConnectOk(d, dfd));
    assert !OthersKnown(tlvs);
    hide OutcomesOf, C.Inv, C.Fresh, C.Accept, C.CanAccept, C.Benign, C.Broken;
    CanServe(v, c, cfd, d, dfd, outcomes);
    C.AcceptKeepsExactly(v, c, cfd, C.Tlvs(outcomes));
  }
}
