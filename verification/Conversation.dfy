/**
 * Whole conversations: what the composed system of EndToEnd can do from any state it can reach, from the client's
 * socket to the end of both connections.
 */
module Conversation {
  import opened Bytes
  import opened Wire
  import opened Parser
  import opened Writer
  import opened RoundTrip
  import opened ReadOpts
  import opened PyCodec
  import opened AddressText
  import opened Redirect
  import opened EndToEnd
  import C = Converter

  // ----- Runs

  /** Action a can be taken and leads from w to r, in order both. */
  ghost predicate Goes(w: World, a: Action, r: World) {
    EndToEnd.Inv(w) && EndToEnd.Enabled(w, a) && r == Step(w, a)
  }

  ghost predicate Runs(w: World, run: seq<Action>, r: World) {
    ValidRun(w, run) && r == Exec(w, run)
  }

  lemma GoesOn(u: World, run: seq<Action>, w: World, a: Action, r: World)
    requires Runs(u, run, w) && Goes(w, a, r)
    ensures Runs(u, run + [a], r)
  {
    hide EndToEnd.Inv, EndToEnd.Enabled, Step;
    OneStep(w, a);
    ExecConcat(u, run, [a]);
  }

  lemma RunsOn(u: World, run: seq<Action>, w: World, more: seq<Action>, r: World)
    requires Runs(u, run, w) && Runs(w, more, r)
    ensures Runs(u, run + more, r)
  {
    ExecConcat(u, run, more);
  }

  // ----- Opening

  /** Only the last connection, on key, and the converter have changed. */
  ghost predicate Beside(w: World, r: World, key: (nat, nat)) {
    && EndToEnd.Inv(r) && |r.conns| == |w.conns| + 1 && r.conns[..|w.conns|] == w.conns
    && r.cli == w.cli[key := |w.conns|]
  }

  lemma SocketOpens(w: World, key: (nat, nat), tracked: bool) returns (r: World)
    requires EndToEnd.Inv(w) && key !in w.cli
    ensures Goes(w, CliSocket(key, tracked), r) && Beside(w, r, key) && r.conv == w.conv
    ensures r.conns[|w.conns|] == Conn(NewLife(tracked), OtherFamily, NoCookie, false, Waiting, 0, NoDial, [], [])
  {
    StepKeeps(w, CliSocket(key, tracked));
    hide EndToEnd.Inv;
    r := Step(w, CliSocket(key, tracked));
  }

  /** A connection whose request is out and waits for the converter. */
  predicate Asks(k: Conn, dest: Dest, cookie: CookieSetting) {
    && Addressable(dest) && k.srv.Waiting? && !k.again && k.dest == dest && k.cookie == cookie
    && k.dstSent == [] && k.dstGot == [] && k.life.k.tracked
    && k.life.sent == [] && k.life.got == [] && k.life.inbound == []
    && k.life.request == k.life.k.tx == WireRequest(dest, cookie)
  }

  lemma FirstConnectAsks(dest: Dest, cookie: CookieSetting)
    requires RequestWritten(dest, cookie)
    ensures var k := Conn(NewLife(true), OtherFamily, NoCookie, false, Waiting, 0, NoDial, [], []);
            && Asks(Connected(k, dest, cookie, Up), dest, cookie)
            && Possible(k.life, CallConnect(dest, cookie, Up, FirstFails))
  {
    FirstConnectEffect(NewLife(true), CallConnect(dest, cookie, Up, FirstFails));
    RequestIsWire(dest, cookie);
    hide Perform, RequestBytes, WireRequest;
  }

  lemma ConnectAsks(w: World, s: World, key: (nat, nat), dest: Dest, cookie: CookieSetting) returns (r: World)
    requires Beside(w, s, key) && RequestWritten(dest, cookie)
    requires s.conns[|w.conns|] == Conn(NewLife(true), OtherFamily, NoCookie, false, Waiting, 0, NoDial, [], [])
    ensures Goes(s, CliConnect(key, dest, cookie, Up), r) && Beside(w, r, key) && r.conv == s.conv
    ensures Asks(r.conns[|w.conns|], dest, cookie)
  {
    FirstConnectAsks(dest, cookie);
    hide EndToEnd.Inv, Possible, Connected, Asks, RequestWritten;
    StepKeeps(s, CliConnect(key, dest, cookie, Up));
    r := Step(s, CliConnect(key, dest, cookie, Up));
  }

  /** From socket to the request on its way. */
  lemma Asking(w: World, key: (nat, nat), dest: Dest, cookie: CookieSetting) returns (run: seq<Action>, r: World)
    requires EndToEnd.Inv(w) && key !in w.cli && RequestWritten(dest, cookie)
    ensures Runs(w, run, r) && Beside(w, r, key) && r.conv == w.conv && Asks(r.conns[|w.conns|], dest, cookie)
  {
    hide EndToEnd.Inv, RequestWritten, Goes, Asks;
    var s := SocketOpens(w, key, true);
    r := ConnectAsks(w, s, key, dest, cookie);
    assert Runs(w, [], w);
    hide Runs;
    GoesOn(w, [], w, CliSocket(key, true), s);
    GoesOn(w, [] + [CliSocket(key, true)], s, CliConnect(key, dest, cookie, Up), r);
    run := [] + [CliSocket(key, true)] + [CliConnect(key, dest, cookie, Up)];
  }

  // ----- Accepted

  /** What a conversation is between: the destination asked for, the request, and the converter's two sockets. */
  datatype Party = Party(dest: Dest, request: seq<byte>, c: nat, d: nat)

  /** The client's and the destination's socket are routed to each other. */
  ghost predicate Linked(v: C.Conv<nat>, c: nat, d: nat) {
    C.Routed(v, c) && C.Partner(v, c) == d && C.Routed(v, d) && C.Partner(v, d) == c
  }

  /** A joined connection: `up` has been sent on the one side and `down` on the other. */
  predicate Talks(k: Conn, p: Party, up: seq<byte>, down: seq<byte>) {
    && k.srv == Joined(p.c, p.d) && k.dest == p.dest && !k.again && k.life.request == p.request && k.taken == |p.request|
    && k.life.k.tx == p.request + up && k.life.sent == up && k.dstSent == down
  }

  /** The state of the conversation: the connection on key is joined, and its pair is up. */
  ghost predicate Talking(w: World, r: World, key: (nat, nat), p: Party, up: seq<byte>, down: seq<byte>) {
    Beside(w, r, key) && Talks(r.conns[|w.conns|], p, up, down) && Linked(r.conv, p.c, p.d)
  }

  lemma JoinLinks(v: C.Conv<nat>, q: Request, dest: Dest, c: nat, cfd: nat, d: nat, dfd: nat)
    requires C.Inv(v) && Names(q) && RequestForm(q.tlvs, dest)
    requires C.CanAccept(v, c, cfd, IncomingOf(q, C.ConnectOk(d, dfd))) && C.Harmless(IncomingOf(q, C.ConnectOk(d, dfd)))
    ensures Linked(C.Accept(v, c, cfd, IncomingOf(q, C.ConnectOk(d, dfd))), c, d)
  {
    var outcomes := OutcomesOf(q.tlvs, C.ConnectOk(d, dfd));
    OutcomesShape(q.tlvs, C.ConnectOk(d, dfd));
    assert C.Connects(outcomes, 0);
    hide OutcomesOf, C.Inv, C.CanAccept, C.Accept, C.Benign, C.Connects, C.Routed, C.Partner;
    C.AcceptRoutesExactly(v, c, cfd, C.Tlvs(outcomes));
  }

  lemma AcceptJoins(w: World, s: World, key: (nat, nat), dest: Dest, cookie: CookieSetting,
                    c: nat, cfd: nat, d: nat, dfd: nat) returns (r: World)
    requires Beside(w, s, key) && Asks(s.conns[|w.conns|], dest, cookie) && (cookie.UseCookie? ==> |cookie.data| <= 992)
    requires C.Fresh(s.conv, c, cfd) && C.Fresh(s.conv, d, dfd) && c != d && cfd != dfd
    ensures Goes(s, SrvAccept(|w.conns|, 4, |WireRequest(dest, cookie)|, c, cfd, C.ConnectOk(d, dfd)), r)
    ensures Talking(w, r, key, Party(dest, WireRequest(dest, cookie), c, d), [], [])
  {
    var i, k := |w.conns|, s.conns[|w.conns|];
    var m := |k.life.request|;
    var a := SrvAccept(i, 4, m, c, cfd, C.ConnectOk(d, dfd));
    ConnIsOk(s, i);
    PendingLength(s.conv, k);
    PendingCanBeAccepted(s, i, 4, m, c, cfd, d, dfd);
    assert EndToEnd.Enabled(s, a);
    AcceptJoinsExactly(s, i, 4, m, c, cfd, d, dfd);
    AcceptResult(s, i, 4, m, c, cfd, C.ConnectOk(d, dfd));
    PendingNamed(s.conv, k, 4, m);
    StepKeeps(s, a);
    JoinLinks(s.conv, ReadRequest(k.life.k.tx, 4, m).0, dest, c, cfd, d, dfd);
    r := Step(s, a);
  }

  // ----- Talking

  lemma SameLinks(v: C.Conv<nat>, r: C.Conv<nat>, c: nat, d: nat)
    requires Linked(v, c, d) && SameRoutes(v, r)
    ensures Linked(r, c, d)
  {
  }

  /** What the destination has sent is handed to the application, which has read the reply by then. */
  lemma Hears(w: World, s: World, key: (nat, nat), p: Party, up: seq<byte>, down: seq<byte>)
    returns (run: seq<Action>, r: World)
    requires Talking(w, s, key, p, up, down)
    ensures Runs(s, run, r) && Talking(w, r, key, p, up, down)
    ensures var l := r.conns[|w.conns|].life; l.got == down && !l.k.tracked
    ensures r.conns[|w.conns|].dstGot == s.conns[|w.conns|].dstGot
  {
    hide EndToEnd.Inv, C.Routed, C.Partner, SameRoutes;
    run := DownstreamDelivers(s, |w.conns|, key);
    ExecKeeps(s, run);
    r := Exec(s, run);
    SameLinks(s.conv, r.conv, p.c, p.d);
    hide ValidRun, Exec;
  }

  /** What the application has sent is delivered to the destination. */
  lemma Reaches(w: World, s: World, key: (nat, nat), p: Party, up: seq<byte>, down: seq<byte>)
    returns (run: seq<Action>, r: World)
    requires Talking(w, s, key, p, up, down)
    ensures Runs(s, run, r) && Talking(w, r, key, p, up, down)
    ensures r.conns[|w.conns|].dstGot == up && r.conns[|w.conns|].life == s.conns[|w.conns|].life
  {
    hide EndToEnd.Inv, C.Routed, C.Partner, SameRoutes;
    var k := s.conns[|w.conns|];
    assert Onward(k) == up;
    run := UpstreamDelivers(s, |w.conns|);
    ExecKeeps(s, run);
    r := Exec(s, run);
    SameLinks(s.conv, r.conv, p.c, p.d);
    hide ValidRun, Exec;
  }

  lemma UntrackedSends(k: Conn, p: Party, data: seq<byte>)
    requires Talks(k, p, [], []) && !k.life.k.tracked
    ensures Talks(k.(life := Perform(k.life, CallSend(data, NoFault))), p, data, [])
  {
    assert p.request + [] + data == p.request + data;
  }

  lemma SendAction(w: World, key: (nat, nat), data: seq<byte>)
    requires key in w.cli && w.cli[key] < |w.conns| && !Open(w, key).life.k.tracked
    ensures var a := CliSend(key, data, NoFault);
            EndToEnd.Enabled(w, a) && Step(w, a) == CallOn(w, key, CallSend(data, NoFault))
  {
    hide CallOn, Perform;
  }

  lemma Says(w: World, s: World, key: (nat, nat), p: Party, data: seq<byte>) returns (r: World)
    requires Talking(w, s, key, p, [], []) && !s.conns[|w.conns|].life.k.tracked
    ensures Goes(s, CliSend(key, data, NoFault), r) && Talking(w, r, key, p, data, [])
  {
    var a := CliSend(key, data, NoFault);
    hide EndToEnd.Inv, Linked, Perform, Talks, Step, EndToEnd.Enabled;
    UntrackedSends(s.conns[|w.conns|], p, data);
    SendAction(s, key, data);
    StepKeeps(s, a);
    r := Step(s, a);
  }

  lemma DstSendAction(w: World, i: nat, data: seq<byte>)
    requires i < |w.conns| && w.conns[i].srv.Joined?
    ensures var a, k := DstSend(i, data), w.conns[i];
            EndToEnd.Enabled(w, a) && Step(w, a) == w.(conns := w.conns[i := k.(dstSent := k.dstSent + data)])
  {
  }

  lemma ConnReplaced(w: World, s: World, r: World, key: (nat, nat), k: Conn)
    requires Beside(w, s, key) && EndToEnd.Inv(r) && r.cli == s.cli && r.conns == s.conns[|w.conns| := k]
    ensures Beside(w, r, key) && r.conns[|w.conns|] == k
  {
    hide EndToEnd.Inv;
  }

  lemma IsAnswered(k: Conn, p: Party, up: seq<byte>, data: seq<byte>)
    requires Talks(k, p, up, [])
    ensures k.srv.Joined? && k.dstSent + data == data && Talks(k.(dstSent := data), p, up, data)
  {
    assert [] + data == data;
  }

  lemma Answers(w: World, s: World, key: (nat, nat), p: Party, up: seq<byte>, data: seq<byte>) returns (r: World)
    requires Talking(w, s, key, p, up, [])
    ensures Goes(s, DstSend(|w.conns|, data), r) && Talking(w, r, key, p, up, data)
    ensures r.conns[|w.conns|] == s.conns[|w.conns|].(dstSent := data)
  {
    var a := DstSend(|w.conns|, data);
    hide EndToEnd.Inv, Linked, Talks, Step, EndToEnd.Enabled;
    var k := s.conns[|w.conns|];
    IsAnswered(k, p, up, data);
    DstSendAction(s, |w.conns|, data);
    StepKeeps(s, a);
    r := Step(s, a);
    ConnReplaced(w, s, r, key, k.(dstSent := data));
  }

  // ----- Ending

  lemma Closes(w: World, s: World, key: (nat, nat)) returns (r: World)
    requires Beside(w, s, key) && key !in w.cli
    ensures Goes(s, CliClose(key), r) && EndToEnd.Inv(r) && r == s.(cli := w.cli)
  {
    hide EndToEnd.Inv;
    StepKeeps(s, CliClose(key));
    r := Step(s, CliClose(key));
    assert s.cli - {key} == w.cli;
  }

  lemma HangsUp(s: World, c: nat, d: nat, e: C.Event) returns (r: World)
    requires EndToEnd.Inv(s) && Linked(s.conv, c, d) && C.Ends(e)
    ensures Goes(s, SrvEnd(c, e), r) && EndToEnd.Inv(r)
    ensures r == s.(conv := r.conv) && r.conv.fileno == s.conv.fileno - {c, d}
  {
    RoutedIsWatched(s.conv, c);
    C.ServedExactly(s.conv, c, e);
    StepKeeps(s, SrvEnd(c, e));
    hide EndToEnd.Inv, ConnOk, OwnersOk, C.Inv;
    r := Step(s, SrvEnd(c, e));
  }

  lemma DialedTarget(w: World, s: World, key: (nat, nat), p: Party, up: seq<byte>, down: seq<byte>)
    requires Talking(w, s, key, p, up, down)
    ensures s.conns[|w.conns|].dialed == DialOf(Wanted(p.dest))
  {
    ConnIsOk(s, |w.conns|);
    hide EndToEnd.Inv, Linked;
  }

  /** From a request on its way to both sides having been told everything. */
  lemma Exchange(w: World, s: World, key: (nat, nat), p: Party, up: seq<byte>, down: seq<byte>)
    returns (run: seq<Action>, r: World)
    requires Talking(w, s, key, p, [], [])
    ensures Runs(s, run, r) && Talking(w, r, key, p, up, down)
    ensures var k := r.conns[|w.conns|]; k.dstGot == up && k.life.got == down
  {
    hide EndToEnd.Inv, Goes, Talks, Linked, Runs;
    var run1, s1 := Hears(w, s, key, p, [], []);
    var s2 := Says(w, s1, key, p, up);
    GoesOn(s, run1, s1, CliSend(key, up, NoFault), s2);
    var run3, s3 := Reaches(w, s2, key, p, up, []);
    RunsOn(s, run1 + [CliSend(key, up, NoFault)], s2, run3, s3);
    var s4 := Answers(w, s3, key, p, up, down);
    GoesOn(s, run1 + [CliSend(key, up, NoFault)] + run3, s3, DstSend(|w.conns|, down), s4);
    var run5, s5 := Hears(w, s4, key, p, up, down);
    RunsOn(s, run1 + [CliSend(key, up, NoFault)] + run3 + [DstSend(|w.conns|, down)], s4, run5, s5);
    run, r := run1 + [CliSend(key, up, NoFault)] + run3 + [DstSend(|w.conns|, down)] + run5, s5;
  }

  /** The client closes, and the converter closes both ends of the pair. */
  lemma Ending(w: World, s: World, key: (nat, nat), p: Party, up: seq<byte>, down: seq<byte>)
    returns (run: seq<Action>, r: World)
    requires Talking(w, s, key, p, up, down) && key !in w.cli
    ensures Runs(s, run, r) && r.conns == s.conns && r.cli == w.cli && r.conv.fileno == s.conv.fileno - {p.c, p.d}
  {
    hide EndToEnd.Inv, Goes, Talks, Linked;
    var s1 := Closes(w, s, key);
    r := HangsUp(s1, p.c, p.d, C.Eof);
    assert Runs(s, [], s);
    hide Runs;
    GoesOn(s, [], s, CliClose(key), s1);
    GoesOn(s, [] + [CliClose(key)], s1, SrvEnd(p.c, C.Eof), r);
    run := [] + [CliClose(key)] + [SrvEnd(p.c, C.Eof)];
  }

  /**
   * A whole conversation, from any state the system can be in: a client opens a socket, asks for any address, with
   * or without a cookie, and what the converter makes of that address answers; it sends any bytes and is sent any
   * bytes; both arrive whole, and nothing else does; it closes and the converter closes both ends. No other
   * connection changes.
   */
  lemma AnyConversation(w: World, key: (nat, nat), dest: Dest, cookie: CookieSetting, c: nat, cfd: nat, d: nat, dfd: nat,
                        up: seq<byte>, down: seq<byte>) returns (run: seq<Action>, r: World)
    requires EndToEnd.Inv(w) && key !in w.cli && Addressable(dest) && (cookie.UseCookie? ==> |cookie.data| <= 992)
    requires C.Fresh(w.conv, c, cfd) && C.Fresh(w.conv, d, dfd) && c != d && cfd != dfd
    ensures Runs(w, run, r) && |r.conns| == |w.conns| + 1 && r.conns[..|w.conns|] == w.conns && r.cli == w.cli
    ensures var k := r.conns[|w.conns|];
            && k.life.request == WireRequest(dest, cookie) && k.dialed == DialOf(Wanted(dest))
            && k.life.sent == k.dstGot == up && k.dstSent == k.life.got == down
    ensures c !in r.conv.fileno && d !in r.conv.fileno
  {
    var p := Party(dest, WireRequest(dest, cookie), c, d);
    WrittenExactly(dest, cookie);
    hide EndToEnd.Inv, Goes, Linked, Runs, WireRequest, RequestWritten, Asks, C.Fresh, DialOf, Wanted;
    var s1: World;
    run, s1 := Asking(w, key, dest, cookie);
    var a2 := SrvAccept(|w.conns|, 4, |WireRequest(dest, cookie)|, c, cfd, C.ConnectOk(d, dfd));
    var s2 := AcceptJoins(w, s1, key, dest, cookie, c, cfd, d, dfd);
    GoesOn(w, run, s1, a2, s2);
    var run3, s3 := Exchange(w, s2, key, p, up, down);
    RunsOn(w, run + [a2], s2, run3, s3);
    DialedTarget(w, s3, key, p, up, down);
    var run4, s4 := Ending(w, s3, key, p, up, down);
    RunsOn(w, run + [a2] + run3, s3, run4, s4);
    run, r := run + [a2] + run3 + run4, s4;
  }

  // ----- Turned away

  lemma OneFails(v: C.Conv<nat>, tlvs: seq<PyTlv>, dest: Dest, c: nat, cfd: nat)
    requires tlvs != [] && RequestForm(tlvs, dest) && C.Fresh(v, c, cfd)
    ensures var req := IncomingOf(Found(tlvs), C.ConnectFails);
            && C.Harmless(req) && C.CanAccept(v, c, cfd, req) && c !in C.Accept(v, c, cfd, req).fileno
  {
    var outcomes := OutcomesOf(tlvs, C.ConnectFails);
    OutcomesShape(tlvs, C.ConnectFails);
    OthersFeasible(C.CloseSocket(C.AddSocket(v, c, cfd), c), c, outcomes[1..]);
    assert !C.Served(outcomes);
    hide OutcomesOf, C.Served;
    C.AcceptClosesExactly(v, c, cfd, C.Tlvs(outcomes));
  }

  lemma EmptyRequest(v: C.Conv<nat>, answer: C.TlvOutcome<nat>, c: nat, cfd: nat)
    requires C.Inv(v) && C.Fresh(v, c, cfd)
    ensures var req := IncomingOf(Found([]), answer);
            && C.Harmless(req) && C.CanAccept(v, c, cfd, req)
            && var r := C.Accept(v, c, cfd, req);
               c in r.fileno && c !in r.inputs && c in r.sent && r.sent[c] == []
  {
    assert OutcomesOf([], answer) == [];
    assert c !in v.inputs;
  }

  /** A connection the converter has accepted with no destination behind it. */
  predicate Turns(k: Conn, request: seq<byte>, c: nat) {
    && k.srv == Turned(c) && !k.again && k.life.k.tracked && k.life.request == k.life.k.tx == request
    && k.life.sent == [] && k.life.got == [] && k.life.inbound == []
  }

  /** With the converter's end closed the application's receive returns, gives nothing and ends the tracking. */
  lemma GivesUp(w: World, s: World, key: (nat, nat), request: seq<byte>, c: nat, n: nat) returns (r: World)
    requires Beside(w, s, key) && Turns(s.conns[|w.conns|], request, c) && c !in s.conv.fileno
    ensures Goes(s, CliRecv(key, n, NoFault), r) && Beside(w, r, key) && r.conv == s.conv
    ensures var k := r.conns[|w.conns|];
            && k == s.conns[|w.conns|].(life := k.life) && !k.life.k.tracked && k.life.k.tx == k.life.request == request
            && k.life.sent == [] && k.life.got == []
  {
    var k := s.conns[|w.conns|];
    ConnIsOk(s, |w.conns|);
    EmptyQueue(s.conv, k, request, c, n);
    hide EndToEnd.Inv, ConnOk, OwnersOk, Perform, CallReturns;
    RecvAction(s, key, n);
    StepKeeps(s, CliRecv(key, n, NoFault));
    hide EndToEnd.Enabled, Step;
    r := Step(s, CliRecv(key, n, NoFault));
  }

  lemma EmptyQueue(v: C.Conv<nat>, k: Conn, request: seq<byte>, c: nat, n: nat)
    requires ConnOk(v, k) && Turns(k, request, c) && c !in v.fileno
    ensures CallReturns(v, k, NoFault)
    ensures var l := Perform(k.life, CallRecv(n, NoFault));
            !l.k.tracked && l.k.tx == l.request == request && l.sent == [] && l.got == []
  {
    EmptyStream(NoFault);
    assert k.life.k.rx == [];
    assert Read([], false, NoFault) == (Malformed, []);
  }

  /** An accept that makes no pair. */
  lemma TurnStep(s: World, i: nat, first: nat, second: nat, c: nat, cfd: nat, answer: C.TlvOutcome<nat>, q: Request)
    requires EndToEnd.Enabled(s, SrvAccept(i, first, second, c, cfd, answer))
    requires q == ReadRequest(s.conns[i].life.k.tx, first, second).0
    requires answer.ConnectOk? ==> (c, answer.d) !in C.Accept(s.conv, c, cfd, IncomingOf(q, answer)).pairs
    ensures var k, r := s.conns[i], Step(s, SrvAccept(i, first, second, c, cfd, answer));
            && r.conv == C.Accept(s.conv, c, cfd, IncomingOf(q, answer)) && r.cli == s.cli
            && |r.conns| == |s.conns| && r.conns == s.conns[i := r.conns[i]]
            && r.conns[i] == k.(srv := Turned(c), dialed := NoDial, taken := r.conns[i].taken)
  {
    hide C.Accept, ReadRequest, C.CanAccept, IncomingOf, OutcomesOf;
  }

  /** The destination of a request that came in whole does not answer. */
  lemma RefusalCloses(v: C.Conv<nat>, k: Conn, dest: Dest, cookie: CookieSetting, c: nat, cfd: nat)
    requires ConnOk(v, k) && Asks(k, dest, cookie) && (cookie.UseCookie? ==> |cookie.data| <= 992) && C.Fresh(v, c, cfd)
    ensures var m := |k.life.request|;
            && Acceptable(v, k, 4, m, c, cfd, C.ConnectFails)
            && c !in C.Accept(v, c, cfd, IncomingOf(ReadRequest(k.life.k.tx, 4, m).0, C.ConnectFails)).fileno
  {
    var m := |k.life.request|;
    PendingLength(v, k);
    PendingNamed(v, k, 4, m);
    hide ConnOk, ReadRequest, RequestForm, C.Fresh, C.Accept, C.CanAccept, C.Harmless, OutcomesOf, WireRequest;
    OneFails(v, ReadRequest(k.life.k.tx, 4, m).0.tlvs, dest, c, cfd);
  }

  /** Only the header of the request has come in. */
  lemma HeaderForgotten(v: C.Conv<nat>, k: Conn, dest: Dest, cookie: CookieSetting, c: nat, cfd: nat)
    requires C.Inv(v) && Asks(k, dest, cookie) && C.Fresh(v, c, cfd)
    ensures Acceptable(v, k, 4, 0, c, cfd, C.ConnectFails)
    ensures var r := C.Accept(v, c, cfd, IncomingOf(ReadRequest(k.life.k.tx, 4, 0).0, C.ConnectFails));
            c in r.fileno && c !in r.inputs
  {
    RequestExactly(k.life.k.tx, 4, 0);
    assert ReadRequest(k.life.k.tx, 4, 0).0 == Found([]);
    hide ReadRequest, C.Inv, C.Fresh, C.Accept, C.CanAccept, C.Harmless, OutcomesOf, WireRequest;
    EmptyRequest(v, C.ConnectFails, c, cfd);
  }

  lemma CanTurn(s: World, i: nat, first: nat, second: nat, c: nat, cfd: nat, q: Request)
    requires i < |s.conns| && Acceptable(s.conv, s.conns[i], first, second, c, cfd, C.ConnectFails)
    requires q == ReadRequest(s.conns[i].life.k.tx, first, second).0
    ensures EndToEnd.Enabled(s, SrvAccept(i, first, second, c, cfd, C.ConnectFails))
    ensures C.CanAccept(s.conv, c, cfd, IncomingOf(q, C.ConnectFails))
  {
    hide ReadRequest, C.CanAccept, C.Harmless;
  }

  lemma AsksNoMore(k: Conn, dest: Dest, cookie: CookieSetting, c: nat, taken: nat)
    requires Asks(k, dest, cookie)
    ensures Turns(k.(srv := Turned(c), dialed := NoDial, taken := taken), WireRequest(dest, cookie), c)
  {
    hide WireRequest;
  }

  /** Accepted without a pair being made. */
  lemma Turning(w: World, s: World, key: (nat, nat), dest: Dest, cookie: CookieSetting, second: nat, c: nat, cfd: nat)
    returns (r: World)
    requires Beside(w, s, key) && Asks(s.conns[|w.conns|], dest, cookie)
    requires Acceptable(s.conv, s.conns[|w.conns|], 4, second, c, cfd, C.ConnectFails)
    ensures Goes(s, SrvAccept(|w.conns|, 4, second, c, cfd, C.ConnectFails), r) && Beside(w, r, key)
    ensures Turns(r.conns[|w.conns|], WireRequest(dest, cookie), c)
    ensures var req := IncomingOf(ReadRequest(s.conns[|w.conns|].life.k.tx, 4, second).0, C.ConnectFails);
            C.CanAccept(s.conv, c, cfd, req) && r.conv == C.Accept(s.conv, c, cfd, req)
  {
    var i, k := |w.conns|, s.conns[|w.conns|];
    var a, q := SrvAccept(i, 4, second, c, cfd, C.ConnectFails), ReadRequest(k.life.k.tx, 4, second).0;
    hide EndToEnd.Inv, C.CanAccept, C.Accept, IncomingOf, ReadRequest, WireRequest, Acceptable, Asks, Turns;
    hide EndToEnd.Enabled, Step;
    CanTurn(s, i, 4, second, c, cfd, q);
    TurnStep(s, i, 4, second, c, cfd, C.ConnectFails, q);
    StepKeeps(s, a);
    r := Step(s, a);
    AsksNoMore(k, dest, cookie, c, r.conns[i].taken);
    ConnReplaced(w, s, r, key, r.conns[i]);
  }

  lemma Refuses(w: World, s: World, key: (nat, nat), dest: Dest, cookie: CookieSetting, c: nat, cfd: nat)
    returns (r: World)
    requires Beside(w, s, key) && Asks(s.conns[|w.conns|], dest, cookie) && (cookie.UseCookie? ==> |cookie.data| <= 992)
    requires C.Fresh(s.conv, c, cfd)
    ensures Goes(s, SrvAccept(|w.conns|, 4, |WireRequest(dest, cookie)|, c, cfd, C.ConnectFails), r) && Beside(w, r, key)
    ensures Turns(r.conns[|w.conns|], WireRequest(dest, cookie), c) && c !in r.conv.fileno
  {
    hide EndToEnd.Inv, ConnOk, C.Accept, C.CanAccept, C.Fresh;
    hide Acceptable, IncomingOf, ReadRequest, WireRequest, Goes, Turns;
    ConnIsOk(s, |w.conns|);
    RefusalCloses(s.conv, s.conns[|w.conns|], dest, cookie, c, cfd);
    r := Turning(w, s, key, dest, cookie, |WireRequest(dest, cookie)|, c, cfd);
  }

  /** Only the header has come in: the converter finds no element, and holds a socket that nothing refers to. */
  lemma Forgets(w: World, s: World, key: (nat, nat), dest: Dest, cookie: CookieSetting, c: nat, cfd: nat)
    returns (r: World)
    requires Beside(w, s, key) && Asks(s.conns[|w.conns|], dest, cookie) && C.Fresh(s.conv, c, cfd)
    ensures Goes(s, SrvAccept(|w.conns|, 4, 0, c, cfd, C.ConnectFails), r) && Beside(w, r, key)
    ensures Turns(r.conns[|w.conns|], WireRequest(dest, cookie), c) && c in r.conv.fileno && c !in r.conv.inputs
  {
    assert C.Inv(s.conv);
    hide EndToEnd.Inv, C.Inv, C.Accept, C.CanAccept, C.Fresh;
    hide Acceptable, IncomingOf, ReadRequest, WireRequest, Goes, Turns;
    HeaderForgotten(s.conv, s.conns[|w.conns|], dest, cookie, c, cfd);
    r := Turning(w, s, key, dest, cookie, 0, c, cfd);
  }

  lemma Collects(w: World, s: World, key: (nat, nat), c: nat) returns (r: World)
    requires Beside(w, s, key) && c in s.conv.fileno && c !in s.conv.inputs
    ensures Goes(s, SrvCollect(c), r) && Beside(w, r, key) && r.conns == s.conns && c !in r.conv.fileno
  {
    hide EndToEnd.Inv;
    StepKeeps(s, SrvCollect(c));
    r := Step(s, SrvCollect(c));
  }

  /** A destination that does not answer: the client is closed, and its application's receive gives nothing. */
  lemma AnyRefusal(w: World, key: (nat, nat), dest: Dest, cookie: CookieSetting, c: nat, cfd: nat, n: nat)
    returns (run: seq<Action>, r: World)
    requires EndToEnd.Inv(w) && key !in w.cli && Addressable(dest) && (cookie.UseCookie? ==> |cookie.data| <= 992)
    requires C.Fresh(w.conv, c, cfd)
    ensures Runs(w, run, r) && Beside(w, r, key) && c !in r.conv.fileno
    ensures var k := r.conns[|w.conns|];
            && k.srv == Turned(c) && !k.life.k.tracked && k.life.k.tx == WireRequest(dest, cookie)
            && k.life.sent == [] && k.life.got == []
  {
    WrittenExactly(dest, cookie);
    hide EndToEnd.Inv, Goes, Runs, WireRequest, RequestWritten, Asks, C.Fresh;
    var s1: World;
    run, s1 := Asking(w, key, dest, cookie);
    var a2, a3 := SrvAccept(|w.conns|, 4, |WireRequest(dest, cookie)|, c, cfd, C.ConnectFails), CliRecv(key, n, NoFault);
    var s2 := Refuses(w, s1, key, dest, cookie, c, cfd);
    GoesOn(w, run, s1, a2, s2);
    r := GivesUp(w, s2, key, WireRequest(dest, cookie), c, n);
    GoesOn(w, run + [a2], s2, a3, r);
    run := run + [a2] + [a3];
  }

  /**
   * A request of which only the header has come in: no receive of the client returns until the server drops the
   * socket it has forgotten, and then it gives nothing.
   */
  lemma AnyForgotten(w: World, key: (nat, nat), dest: Dest, cookie: CookieSetting, c: nat, cfd: nat, n: nat)
    returns (run: seq<Action>, s: World, r: World)
    requires EndToEnd.Inv(w) && key !in w.cli && RequestWritten(dest, cookie) && C.Fresh(w.conv, c, cfd)
    ensures Runs(w, run, s) && Beside(w, s, key) && c in s.conv.fileno && !EndToEnd.Enabled(s, CliRecv(key, n, NoFault))
    ensures Runs(s, [SrvCollect(c)] + [CliRecv(key, n, NoFault)], r) && Beside(w, r, key) && c !in r.conv.fileno
    ensures var k := r.conns[|w.conns|]; k.srv == Turned(c) && !k.life.k.tracked && k.life.got == []
  {
    assert Addressable(dest);
    hide EndToEnd.Inv, Goes, Runs, WireRequest, RequestWritten, Asks, C.Fresh, EndToEnd.Enabled;
    var s1: World;
    run, s1 := Asking(w, key, dest, cookie);
    var a2 := SrvAccept(|w.conns|, 4, 0, c, cfd, C.ConnectFails);
    s := Forgets(w, s1, key, dest, cookie, c, cfd);
    GoesOn(w, run, s1, a2, s);
    run := run + [a2];
    NothingComes(w, s, key, WireRequest(dest, cookie), c, n);
    var s3 := Collects(w, s, key, c);
    r := GivesUp(w, s3, key, WireRequest(dest, cookie), c, n);
    OneGoes(s, SrvCollect(c), s3);
    GoesOn(s, [SrvCollect(c)], s3, CliRecv(key, n, NoFault), r);
  }

  lemma OneGoes(w: World, a: Action, r: World)
    requires Goes(w, a, r)
    ensures Runs(w, [a], r)
  {
    hide EndToEnd.Inv, EndToEnd.Enabled, Step;
    OneStep(w, a);
  }

  lemma NothingComes(w: World, s: World, key: (nat, nat), request: seq<byte>, c: nat, n: nat)
    requires Beside(w, s, key) && Turns(s.conns[|w.conns|], request, c) && c in s.conv.fileno
    ensures !EndToEnd.Enabled(s, CliRecv(key, n, NoFault))
  {
    ConnIsOk(s, |w.conns|);
    hide EndToEnd.Inv, OwnersOk;
    assert s.conns[|w.conns|].life.k.rx == [];
  }

  /** A call on a tracked socket whose receive fails returns at once, whatever is there, and changes nothing. */
  lemma FailedCall(w: World, key: (nat, nat), a: Action)
    requires EndToEnd.Inv(w) && key in w.cli && Open(w, key).life.k.tracked
    requires a.CliSend? || a.CliRecv?
    requires a.key == key && a.fault == FirstFails
    ensures EndToEnd.Enabled(w, a) && Step(w, a) == w
  {
    var k := Open(w, key);
    if a.CliSend? {
      NothingTaken(k.life, CallSend(a.data, FirstFails));
    } else {
      NothingTaken(k.life, CallRecv(a.n, FirstFails));
    }
    hide EndToEnd.Inv, Perform, ReadReturns;
    assert w.conns[w.cli[key] := k] == w.conns;
  }

  lemma NothingTaken(l: Life, op: Op)
    requires l.k.tracked && (op.CallSend? || op.CallRecv?) && op.fault == FirstFails
    ensures Perform(l, op) == l
  {
    FailedReceive(l.k.rx, false);
    hide Read;
    assert l.removed + [] == l.removed;
  }

  // ----- Clients without the library

  lemma PairsForeign(v: C.Conv<nat>, c: nat, cfd: nat, d: nat, dfd: nat)
    requires C.Inv(v) && C.Fresh(v, c, cfd) && C.Fresh(v, d, dfd) && c != d && cfd != dfd
    ensures var req := C.Tlvs([C.ConnectOk(d, dfd)]);
            && C.Harmless(req) && C.CanAccept(v, c, cfd, req)
            && var r := C.Accept(v, c, cfd, req);
               && C.Inv(r) && Linked(r, c, d) && c in r.sent && d in r.sent && r.sent[c] == REPLY && r.sent[d] == []
  {
    var outcomes := [C.ConnectOk(d, dfd)];
    assert outcomes[1..] == [] && C.Connects(outcomes, 0);
    CanServe(v, c, cfd, d, dfd, outcomes);
    PairedBytes(v, c, cfd, d, dfd);
    AcceptFirst(v, c, cfd, C.ConnectOk(d, dfd), []);
    assert [C.ConnectOk(d, dfd)] + [] == outcomes;
    hide C.Inv, C.Routed, C.Partner, C.Accept, C.CanAccept, C.Fresh, C.Connects;
    C.AcceptRoutesExactly(v, c, cfd, C.Tlvs(outcomes));
    C.AcceptKeepsExactly(v, c, cfd, C.Tlvs(outcomes));
  }

  lemma PairedBytes(v: C.Conv<nat>, c: nat, cfd: nat, d: nat, dfd: nat)
    requires c != d && cfd != dfd
    ensures var r := C.Pair(C.AddSocket(C.AddSocket(v, c, cfd), d, dfd), c, d);
            c in r.sent && d in r.sent && r.sent[c] == REPLY && r.sent[d] == []
  {
    assert [] + REPLY == REPLY;
  }

  lemma ForeignAction(w: World, c: nat, cfd: nat, req: C.Incoming<nat>)
    requires C.Harmless(req) && C.CanAccept(w.conv, c, cfd, req)
    ensures var a := ForeignAccept(c, cfd, req);
            EndToEnd.Enabled(w, a) && Step(w, a) == w.(conv := C.Accept(w.conv, c, cfd, req))
  {
    hide C.Accept, C.CanAccept, C.Harmless;
  }

  lemma ForeignServed(w: World, c: nat, d: nat, data: seq<byte>) returns (r: World)
    requires EndToEnd.Inv(w) && Linked(w.conv, c, d) && c !in w.owner && data != []
    requires d in w.conv.sent && w.conv.sent[d] == [] && c in w.conv.sent
    ensures Goes(w, ForeignRead(c, data), r) && EndToEnd.Inv(r) && r == w.(conv := r.conv) && Linked(r.conv, c, d)
    ensures c in r.conv.sent && r.conv.sent[c] == w.conv.sent[c] && d in r.conv.sent && r.conv.sent[d] == data
  {
    RoutedIsWatched(w.conv, c);
    C.ServedExactly(w.conv, c, C.Data(data));
    StepKeeps(w, ForeignRead(c, data));
    assert [] + data == data;
    hide EndToEnd.Inv, C.Inv;
    r := Step(w, ForeignRead(c, data));
  }

  /** A client of another kind is paired with its destination as well, and its bytes go there. */
  lemma AnyForeign(w: World, c: nat, cfd: nat, d: nat, dfd: nat, data: seq<byte>) returns (run: seq<Action>, r: World)
    requires EndToEnd.Inv(w) && C.Fresh(w.conv, c, cfd) && C.Fresh(w.conv, d, dfd) && c != d && cfd != dfd && data != []
    ensures Runs(w, run, r) && EndToEnd.Inv(r) && r == w.(conv := r.conv) && Linked(r.conv, c, d)
    ensures c in r.conv.sent && r.conv.sent[c] == REPLY && d in r.conv.sent && r.conv.sent[d] == data
  {
    var a := ForeignAccept(c, cfd, C.Tlvs([C.ConnectOk(d, dfd)]));
    assert C.Inv(w.conv) && c !in w.owner;
    hide EndToEnd.Inv, C.Inv, C.Accept, C.CanAccept, C.Harmless, C.Fresh, Linked, Step, EndToEnd.Enabled;
    PairsForeign(w.conv, c, cfd, d, dfd);
    ForeignAction(w, c, cfd, a.req);
    StepKeeps(w, a);
    var s := Step(w, a);
    assert Goes(w, a, s);
    hide Goes;
    r := ForeignServed(s, c, d, data);
    OneGoes(w, a, s);
    GoesOn(w, [a], s, ForeignRead(c, data), r);
    run := [a] + [ForeignRead(c, data)];
  }
}
