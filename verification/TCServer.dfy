/**
 * The converter's server class, updating its input list and forwarding map in place, proved against the
 * steps of Converter. A Python socket object holds its descriptor, -1 once it is closed.
 */
module TCServer {
  import opened Bytes
  import opened Wire
  import opened PyCodec
  import opened AddressText
  import opened ReadOpts
  import C = Converter

  class Sock {
    const rx: Stream             // what the kernel holds to be received
    var fd: int
    var tx: seq<byte>            // what has been sent
    ghost var recvd: seq<byte>   // what has been received for forwarding

    constructor (fd: nat, arriving: seq<byte>)
      ensures this.fd == fd && tx == [] && recvd == [] && rx.data == arriving && fresh(rx)
    {
      rx := new Stream(arriving);
      this.fd, tx, recvd := fd, [], [];
    }
  }

  /** Whether connecting the socket with this descriptor to a host and port succeeds. */
  type Net = (nat, string, Port) -> bool

  /** What an element of a request comes to, when the kernel's next descriptor is dfd. */
  ghost predicate Matches(t: PyTlv, net: Net, dfd: nat, o: C.TlvOutcome<Sock>) {
    match t
    case PyConnect(_, port, addr) =>
      if net(dfd, HostOf(addr), port) then o.ConnectOk? && o.dfd == dfd else o.ConnectFails?
    case PyOther(kind, _) => if kind in CONVERT_TLVS then o.Ignored? else o.Unknown?
  }

  /** The elements handled, in order. */
  ghost predicate AllMatch(tlvs: seq<PyTlv>, net: Net, dfds: seq<nat>, outcomes: seq<C.TlvOutcome<Sock>>)
    requires |tlvs| <= |dfds|
  {
    |outcomes| <= |tlvs| && forall i :: 0 <= i < |outcomes| ==> Matches(tlvs[i], net, dfds[i], outcomes[i])
  }

  lemma MatchNext(tlvs: seq<PyTlv>, net: Net, dfds: seq<nat>, outcomes: seq<C.TlvOutcome<Sock>>, o: C.TlvOutcome<Sock>)
    requires |tlvs| <= |dfds| && AllMatch(tlvs, net, dfds, outcomes)
    requires |outcomes| < |tlvs| && Matches(tlvs[|outcomes|], net, dfds[|outcomes|], o)
    ensures AllMatch(tlvs, net, dfds, outcomes + [o])
  {
    hide Matches;
  }

  /** An element that leaves its client open: a type the server knows, or a Connect that succeeds. */
  ghost predicate Serves(t: PyTlv, net: Net, dfd: nat) {
    match t
    case PyConnect(_, port, addr) => net(dfd, HostOf(addr), port)
    case PyOther(kind, _) => kind == 0x01 || kind == 0x0a || kind == 0x14 || kind == 0x15 || kind == 0x16 || kind == 0x1e
  }

  lemma ServesIsServed(t: PyTlv, net: Net, dfd: nat, o: C.TlvOutcome<Sock>)
    requires Matches(t, net, dfd, o)
    ensures Serves(t, net, dfd) <==> o.Ignored? || o.ConnectOk?
  {
    if t.PyOther? { KnownTypes(t.kind); }
  }

  /** All elements serve exactly if all outcomes are served and none is missing. */
  lemma AllServe(tlvs: seq<PyTlv>, net: Net, dfds: seq<nat>, outcomes: seq<C.TlvOutcome<Sock>>)
    requires |tlvs| <= |dfds| && AllMatch(tlvs, net, dfds, outcomes)
    requires |outcomes| < |tlvs| ==> !C.Served(outcomes)
    ensures C.Served(outcomes) <==> forall i :: 0 <= i < |tlvs| ==> Serves(tlvs[i], net, dfds[i])
  {
    forall i | 0 <= i < |outcomes|
      ensures Serves(tlvs[i], net, dfds[i]) <==> outcomes[i].Ignored? || outcomes[i].ConnectOk?
    {
      ServesIsServed(tlvs[i], net, dfds[i], outcomes[i]);
    }
    hide Serves, Matches;
  }

  /** Descriptors that are all different and not among those in use. */
  ghost predicate DistinctFrom(dfds: seq<nat>, used: set<nat>) {
    && (forall i :: 0 <= i < |dfds| ==> dfds[i] !in used)
    && (forall i, j :: 0 <= i < j < |dfds| ==> dfds[i] != dfds[j])
  }

  lemma DistinctFromRest(dfds: seq<nat>, used: set<nat>, now: set<nat>)
    requires dfds != [] && DistinctFrom(dfds, used) && now <= used + {dfds[0]}
    ensures DistinctFrom(dfds[1..], now)
  {
  }

  /** An element that leaves the server as it is. */
  lemma PassOver(s: C.Conv<Sock>, c: Sock, o: C.TlvOutcome<Sock>)
    requires c in s.sent && (o.Ignored? || o.Unknown?)
    ensures C.Feasible(s, c, [o]) && C.HandleTlvs(s, c, [o]) == (s, o.Unknown?)
  {
  }

  /** A Connect the destination answered. */
  lemma Answered(s: C.Conv<Sock>, c: Sock, d: Sock, dfd: nat)
    requires c in s.sent && C.Fresh(s, d, dfd) && d != c
    ensures var o := C.ConnectOk(d, dfd);
            C.Feasible(s, c, [o])
            && C.HandleTlvs(s, c, [o]) == if c in s.fileno then (C.Pair(C.AddSocket(s, d, dfd), c, d), false) else (s, true)
  {
    var o := C.ConnectOk(d, dfd);
    assert [o][1..] == [];
  }

  class Server {
    const listener: Sock
    var inputs: seq<Sock>
    var forwardMap: map<nat, Sock>
    ghost var view: C.Conv<Sock>   // the value this server stands for

    /** The fields and the sockets spell out the value. */
    ghost predicate Valid()
      reads this, view.recvd.Keys
    {
      && view.listener == listener && view.inputs == inputs && view.forward == forwardMap && !view.crashed
      && view.sent.Keys == view.recvd.Keys && view.fileno.Keys <= view.recvd.Keys
      && (forall x :: x in view.recvd ==> Shows(x))
    }

    ghost predicate Shows(x: Sock)
      requires x in view.recvd
      reads this, x
    {
      && view.recvd[x] == x.recvd && x in view.sent && view.sent[x] == x.tx
      && (x in view.fileno <==> x.fd >= 0) && (x in view.fileno ==> view.fileno[x] == x.fd)
    }

    constructor (fd: nat)
      ensures Valid() && C.Inv(view) && view == C.Start(listener, fd) && fresh(listener)
    {
      var s := new Sock(fd, []);
      listener := s;
      inputs := [s];
      forwardMap := map[];
      view := C.Start(s, fd);
    }

    method CleanupSocketPair(cfd: Sock, sfd: Sock)
      requires Valid() && C.Inv(view) && C.Routed(view, cfd) && sfd == C.Partner(view, cfd)
      modifies this`inputs, this`forwardMap, this`view, cfd`fd, sfd`fd
      ensures Valid() && C.Inv(view) && view == C.Cleanup(old(view), cfd, sfd)
    {
      hide C.Inv, C.RemoveFirst, C.Cleanup;
      C.CleanupKeeps(view, cfd);
      C.CleanupResult(view, cfd);
      assert Shows(cfd) && Shows(sfd);
      hide C.Mutual;
      ghost var before := view;
      inputs := C.RemoveFirst(inputs, cfd);
      forwardMap := forwardMap - {cfd.fd};
      forwardMap := forwardMap - {sfd.fd};
      assert forwardMap == before.forward - {before.fileno[cfd], before.fileno[sfd]};
      inputs := C.RemoveFirst(inputs, sfd);
      cfd.fd := -1;
      sfd.fd := -1;
      view := before.(inputs := inputs, forward := forwardMap, fileno := before.fileno - {cfd, sfd});
      assert view == C.Cleanup(before, cfd, sfd);
      hide C.Routed, C.Partner;
      forall x | x in view.recvd ensures Shows(x) {
        assert x in before.recvd && old(Shows(x));
      }
    }

    /** fails: the receive raises. An empty receive is the peer's close. */
    method ReadAndForward(sock: Sock, bufferSize: nat, fails: bool)
      requires Valid() && C.Inv(view) && sock in inputs && sock != listener
      modifies this`inputs, this`forwardMap, this`view, view.recvd.Keys, sock.rx
      ensures Valid() && C.Inv(view)
      ensures var data := if fails then [] else Front(old(sock.rx.data), bufferSize);
              && view == C.ReadAndForward(old(view), sock, if fails then C.RecvFails else C.Data(data))
              && sock.rx.data == old(sock.rx.data)[|data|..]
              && C.Routed(old(view), sock)
              && var partner := C.Partner(old(view), sock);
                 && (sock.fd >= 0 <==> data != []) && (partner.fd >= 0 <==> data != [])
                 && (sock in inputs <==> data != []) && (partner in inputs <==> data != [])
                 && partner.tx == old(partner.tx) + data
    {
      ghost var e := if fails then C.RecvFails else C.Data(Front(sock.rx.data, bufferSize));
      C.ServedExactly(view, sock, e);
      ghost var partner := C.Partner(view, sock);
      assert Shows(sock) && Shows(partner) && partner in inputs by { WatchedPartner(sock); }
      Serve(sock, bufferSize, fails);
      hide Valid, C.Inv, C.ReadAndForward, C.Routed;
      assert Shows(sock) && Shows(partner) by { AllShown(); }
    }

    lemma AllShown()
      requires Valid()
      ensures forall x :: x in view.recvd ==> Shows(x)
    {
    }

    /** The partner of a watched socket is open and watched. */
    lemma WatchedPartner(sock: Sock)
      requires Valid() && C.Inv(view) && sock in inputs && sock != listener
      ensures C.Routed(view, sock) && sock in view.recvd && sock in view.fileno
      ensures var partner := C.Partner(view, sock);
              partner in view.recvd && partner in view.fileno && partner in inputs && partner != sock
    {
      assert C.Mutual(view, sock);
    }

    method Serve(sock: Sock, bufferSize: nat, fails: bool)
      requires Valid() && C.Inv(view) && sock in inputs && sock != listener
      modifies this`inputs, this`forwardMap, this`view, view.recvd.Keys, sock.rx
      ensures Valid() && C.Inv(view)
      ensures var data := if fails then [] else Front(old(sock.rx.data), bufferSize);
              && view == C.ReadAndForward(old(view), sock, if fails then C.RecvFails else C.Data(data))
              && sock.rx.data == old(sock.rx.data)[|data|..]
    {
      hide Valid, Shows, C.Inv, C.ReadAndForward;
      if fails {
        EndConnection(sock, C.RecvFails);
        return;
      }
      var data := sock.rx.RecvFrom(bufferSize, false);
      if data != [] {
        Forward(sock, data);
      } else {
        EndConnection(sock, C.Data(data));
      }
    }

    method EndConnection(sock: Sock, ghost e: C.Event)
      requires Valid() && C.Inv(view) && sock in inputs && sock != listener && C.Ends(e)
      modifies this`inputs, this`forwardMap, this`view, view.recvd.Keys
      ensures Valid() && C.Inv(view) && view == C.ReadAndForward(old(view), sock, e)
    {
      C.ReadAndForwardCases(view, sock, e);
      hide Valid, Shows, C.Inv, C.Cleanup, C.ReadAndForward;
      var sfd := PartnerOf(sock);
      CleanupSocketPair(sock, sfd);
    }

    method Forward(sock: Sock, data: seq<byte>)
      requires Valid() && C.Inv(view) && sock in inputs && sock != listener && data != []
      modifies this`view, view.recvd.Keys
      ensures Valid() && C.Inv(view) && view == C.ReadAndForward(old(view), sock, C.Data(data))
    {
      C.ReadAndForwardCases(view, sock, C.Data(data));
      hide Valid, Shows, C.Inv, C.Cleanup, C.ReadAndForward;
      var sfd := PartnerOf(sock);
      Move(sock, sfd, data);
    }

    method PartnerOf(sock: Sock) returns (sfd: Sock)
      requires Valid() && C.Routed(view, sock)
      ensures sfd == C.Partner(view, sock)
    {
      assert Shows(sock);
      sfd := forwardMap[sock.fd];
    }

    method Move(sock: Sock, sfd: Sock, data: seq<byte>)
      requires Valid() && sock in view.recvd && sfd in view.sent && sock != sfd
      modifies this`view, sock`recvd, sfd`tx
      ensures Valid() && view.recvd.Keys == old(view).recvd.Keys
      ensures view == old(view).(recvd := old(view).recvd[sock := old(view).recvd[sock] + data],
                                 sent := old(view).sent[sfd := old(view).sent[sfd] + data])
    {
      Receive(sock, data);
      Deliver(sfd, data);
    }

    method Receive(sock: Sock, data: seq<byte>)
      requires Valid() && sock in view.recvd
      modifies this`view, sock`recvd
      ensures Valid() && view == old(view).(recvd := old(view).recvd[sock := old(view).recvd[sock] + data])
    {
      assert Shows(sock);
      sock.recvd := sock.recvd + data;
      view := view.(recvd := view.recvd[sock := sock.recvd]);
      forall x | x in view.recvd ensures Shows(x) {
        assert x in old(view).recvd && old(Shows(x));
      }
    }

    method Deliver(x: Sock, data: seq<byte>)
      requires Valid() && x in view.recvd
      modifies this`view, x`tx
      ensures Valid() && view == old(view).(sent := old(view).sent[x := old(view).sent[x] + data])
      ensures x.fd == old(x.fd)
    {
      assert Shows(x);
      x.tx := x.tx + data;
      view := view.(sent := view.sent[x := x.tx]);
      forall y | y in view.recvd ensures Shows(y) {
        assert old(Shows(y));
      }
    }

    /** Watching and routing a connected pair, after the reply. */
    method Join(client: Sock, d: Sock)
      requires Valid() && client in view.fileno && d in view.fileno && client != d
      modifies this`inputs, this`forwardMap, this`view, client`tx
      ensures Valid() && view == C.Pair(old(view), client, d)
    {
      Deliver(client, REPLY);
      assert Shows(client) && Shows(d);
      hide Shows, C.Inv, C.Routed;
      inputs := inputs + [d];
      inputs := inputs + [client];
      forwardMap := forwardMap[client.fd := d];
      forwardMap := forwardMap[d.fd := client];
      assert inputs == view.inputs + [d, client];
      Rerouted(client, d);
    }

    /** The value catches up with the lists; no socket has changed. */
    ghost method Rerouted(client: Sock, d: Sock)
      requires view.listener == listener && !view.crashed
      requires view.sent.Keys == view.recvd.Keys && view.fileno.Keys <= view.recvd.Keys
      requires forall x :: x in view.recvd ==> Shows(x)
      modifies this`view
      ensures Valid()
      ensures view == old(view).(inputs := inputs, forward := forwardMap, pairs := old(view).pairs + {(client, d)})
    {
      view := view.(inputs := inputs, forward := forwardMap, pairs := view.pairs + {(client, d)});
      forall x | x in view.recvd ensures Shows(x) {
        assert old(Shows(x));
      }
    }

    /** Dialling over IPv4 what is left of the address as text; the reply on a closed client raises. */
    method HandleTlvConnect(client: Sock, port: Port, addr: Addr, net: Net, dfd: nat)
      returns (raised: bool, ghost o: C.TlvOutcome<Sock>)
      requires Valid() && client in view.recvd && dfd !in view.fileno.Values
      modifies this`inputs, this`forwardMap, this`view, client`fd, client`tx
      ensures Valid() && client in view.recvd
      ensures if net(dfd, HostOf(addr), port) then o.ConnectOk? && o.dfd == dfd else o.ConnectFails?
      ensures C.Feasible(old(view), client, [o]) && (view, raised) == C.HandleTlvs(old(view), client, [o])
      ensures view.fileno.Values <= old(view).fileno.Values + {dfd}
      ensures fresh(view.recvd.Keys - old(view).recvd.Keys)
    {
      var ipv4 := Ipv6ToIpv4(AddrText(addr));
      if !net(dfd, ipv4, port) {
        o := C.ConnectFails;
        CloseClient(client);
        return false, o;
      }
      raised, o := Joining(client, dfd);
    }

    /** The destination has answered: reply, watch and route, if the client is still open. */
    method Joining(client: Sock, dfd: nat) returns (raised: bool, ghost o: C.TlvOutcome<Sock>)
      requires Valid() && client in view.recvd && dfd !in view.fileno.Values
      modifies this`inputs, this`forwardMap, this`view, client`fd, client`tx
      ensures Valid() && client in view.recvd && o.ConnectOk? && o.dfd == dfd
      ensures C.Feasible(old(view), client, [o]) && (view, raised) == C.HandleTlvs(old(view), client, [o])
      ensures view.fileno.Values <= old(view).fileno.Values + {dfd}
      ensures fresh(view.recvd.Keys - old(view).recvd.Keys)
    {
      assert Shows(client);
      ValidKeys();
      hide Shows, Valid, C.Feasible, C.HandleTlvs;
      var d := new Sock(dfd, []);
      o := C.ConnectOk(d, dfd);
      assert d !in view.recvd && d !in view.fileno && d !in view.sent;
      Answered(view, client, d, dfd);
      if client.fd < 0 {
        return true, o;
      }
      Adopt(d);
      Join(client, d);
      raised := false;
    }

    lemma ValidKeys()
      requires Valid()
      ensures view.sent.Keys == view.recvd.Keys && view.fileno.Keys <= view.recvd.Keys
    {
    }

    /** A new open socket. */
    method Adopt(x: Sock)
      requires Valid() && x !in view.recvd && x.fd >= 0 && x.tx == [] && x.recvd == []
      modifies this`view
      ensures Valid() && view == C.AddSocket(old(view), x, x.fd)
    {
      view := C.AddSocket(view, x, x.fd);
      forall y | y in view.recvd ensures Shows(y) {
        if y != x { assert old(Shows(y)); }
      }
    }

    /** One element of a request. */
    method HandleElement(client: Sock, t: PyTlv, net: Net, dfd: nat) returns (raised: bool, ghost o: C.TlvOutcome<Sock>)
      requires Valid() && client in view.recvd && dfd !in view.fileno.Values
      modifies this`inputs, this`forwardMap, this`view, client`fd, client`tx
      ensures Valid() && Matches(t, net, dfd, o) && client in view.recvd
      ensures C.Feasible(old(view), client, [o]) && (view, raised) == C.HandleTlvs(old(view), client, [o])
      ensures view.fileno.Values <= old(view).fileno.Values + {dfd}
      ensures fresh(view.recvd.Keys - old(view).recvd.Keys)
    {
      ValidKeys();
      hide C.Feasible, C.HandleTlvs, Shows, Valid;
      match t {
        case PyConnect(_, port, addr) =>
          raised, o := HandleTlvConnect(client, port, addr, net, dfd);
        case PyOther(kind, _) =>
          raised := kind !in CONVERT_TLVS;
          o := if raised then C.Unknown else C.Ignored;
          PassOver(view, client, o);
      }
    }

    /**
     * The loop over the elements of a request. dfds are the descriptors the kernel has to give. The elements
     * handled come out as `outcomes`; an exception ends the loop early.
     */
    method HandleTlvs(client: Sock, tlvs: seq<PyTlv>, net: Net, dfds: seq<nat>)
      returns (success: bool, ghost outcomes: seq<C.TlvOutcome<Sock>>)
      requires Valid() && client in view.recvd && |tlvs| <= |dfds| && DistinctFrom(dfds, view.fileno.Values)
      modifies this`inputs, this`forwardMap, this`view, client`fd, client`tx
      ensures Valid() && client in view.recvd
      ensures C.Feasible(old(view), client, outcomes) && (view, !success) == C.HandleTlvs(old(view), client, outcomes)
      ensures AllMatch(tlvs, net, dfds, outcomes)
      ensures success ==> |outcomes| == |tlvs|
    {
      outcomes := [];
      var i := 0;
      while i < |tlvs|
        invariant 0 <= i <= |tlvs| && |outcomes| == i
        invariant AllMatch(tlvs, net, dfds, outcomes)
        invariant Valid() && client in view.recvd && DistinctFrom(dfds[i..], view.fileno.Values)
        invariant C.Feasible(old(view), client, outcomes) && (view, false) == C.HandleTlvs(old(view), client, outcomes)
      {
        hide Valid, C.Feasible, C.HandleTlvs, Matches, AllMatch;
        ghost var used := view.fileno.Values;
        assert dfds[i..][0] == dfds[i] && dfds[i..][1..] == dfds[i + 1..];
        var raised;
        ghost var o;
        raised, o := HandleElement(client, tlvs[i], net, dfds[i]);
        C.HandleSnoc(old(view), client, outcomes, o);
        DistinctFromRest(dfds[i..], used, view.fileno.Values);
        MatchNext(tlvs, net, dfds, outcomes, o);
        outcomes := outcomes + [o];
        i := i + 1;
        if raised {
          return false, outcomes;
        }
      }
      success := true;
    }

    /**
     * Reads the request off the client and handles its elements; hung: the walk over them never ends. `first`
     * and `second` say how much has come in at the two receives.
     */
    method HandleConnection(client: Sock, first: nat, second: nat, net: Net, dfds: seq<nat>)
      returns (success: bool, hung: bool, ghost req: C.Incoming<Sock>)
      requires Valid() && client in view.recvd && DistinctFrom(dfds, view.fileno.Values)
      requires var r := ReadRequest(client.rx.data, first, second).0; r.Found? ==> |r.tlvs| <= |dfds|
      modifies this`inputs, this`forwardMap, this`view, client`fd, client`tx, client.rx
      ensures Valid() && client in view.recvd
      ensures var (r, rest) := ReadRequest(old(client.rx.data), first, second);
              && client.rx.data == rest && (hung <==> r.NeverEnds?) && (req.Tlvs? <==> r.Found?)
              && if r.Found?
                 then && C.Feasible(old(view), client, req.outcomes) && AllMatch(r.tlvs, net, dfds, req.outcomes)
                      && (view, !success) == C.HandleTlvs(old(view), client, req.outcomes)
                      && (success ==> |req.outcomes| == |r.tlvs|)
                 else view == old(view) && !success
    {
      hide Valid, C.Feasible, C.HandleTlvs, AllMatch, ReadRequest;
      req := C.NoRequest;
      var convert := ReadConvertHeader(client.rx, first, second);
      if !convert.Found? {
        return false, convert.NeverEnds?, req;
      }
      ghost var outcomes;
      success, outcomes := HandleTlvs(client, convert.tlvs, net, dfds);
      hung, req := false, C.Tlvs(outcomes);
    }

    /** The socket accept returns. */
    method NewClient(cfd: nat, arriving: seq<byte>) returns (client: Sock)
      requires Valid() && cfd !in view.fileno.Values
      modifies this`view
      ensures Valid() && fresh(client) && fresh(client.rx) && C.Fresh(old(view), client, cfd)
      ensures view == C.AddSocket(old(view), client, cfd) && client in view.recvd && client.rx.data == arriving
      ensures view.fileno.Values <= old(view).fileno.Values + {cfd}
    {
      client := new Sock(cfd, arriving);
      assert client !in view.recvd && client !in view.fileno && client !in view.sent;
      Adopt(client);
    }

    method CloseClient(client: Sock)
      requires Valid() && client in view.recvd
      modifies this`view, client`fd
      ensures Valid() && view == C.CloseSocket(old(view), client) && client in view.recvd
    {
      client.fd := -1;
      view := C.CloseSocket(view, client);
      forall x | x in view.recvd ensures Shows(x) {
        assert old(Shows(x));
      }
    }

    /**
     * One turn of the listener: accept, read the request, and close the client unless it was handled. The
     * elements are those of the bytes the client sent, each with the outcome its type and the network give
     * it, and all of them are handled unless one raises.
     */
    method AcceptClient(cfd: nat, arriving: seq<byte>, first: nat, second: nat, net: Net, dfds: seq<nat>)
      returns (client: Sock, hung: bool, ghost req: C.Incoming<Sock>)
      requires Valid() && DistinctFrom([cfd] + dfds, view.fileno.Values)
      requires var r := ReadRequest(arriving, first, second).0; r.Found? ==> |r.tlvs| <= |dfds|
      modifies this`inputs, this`forwardMap, this`view
      ensures Valid() && fresh(client) && C.CanAccept(old(view), client, cfd, req)
      ensures var (r, rest) := ReadRequest(arriving, first, second);
              && client.rx.data == rest && (hung <==> r.NeverEnds?) && (req.Tlvs? <==> r.Found?)
              && (view == if hung then C.AddSocket(old(view), client, cfd) else C.Accept(old(view), client, cfd, req))
              && (r.Found? ==>
                    && AllMatch(r.tlvs, net, dfds, req.outcomes)
                    && (|req.outcomes| < |r.tlvs| ==>
                          C.HandleTlvs(C.AddSocket(old(view), client, cfd), client, req.outcomes).1))
              && (client.fd >= 0 <==>
                    hung || (r.Found? && forall i :: 0 <= i < |r.tlvs| ==> Serves(r.tlvs[i], net, dfds[i])))
    {
      client, hung, req := AcceptAndHandle(cfd, arriving, first, second, net, dfds);
      hide Valid, Shows, C.Feasible, C.HandleTlvs, C.Fresh, C.CloseSocket, AllMatch, ReadRequest, Serves;
      assert Shows(client) by { ClientShown(client); }
      ghost var r := ReadRequest(arriving, first, second).0;
      if !hung {
        C.AcceptClosesExactly(old(view), client, cfd, req);
        if r.Found? {
          C.HandledStaysOpen(C.AddSocket(old(view), client, cfd), client, req.outcomes);
          AllServe(r.tlvs, net, dfds, req.outcomes);
        }
      }
    }

    lemma ClientShown(client: Sock)
      requires Valid() && client in view.recvd
      ensures client.fd >= 0 <==> client in view.fileno
    {
      assert Shows(client);
    }

    method AcceptAndHandle(cfd: nat, arriving: seq<byte>, first: nat, second: nat, net: Net, dfds: seq<nat>)
      returns (client: Sock, hung: bool, ghost req: C.Incoming<Sock>)
      requires Valid() && DistinctFrom([cfd] + dfds, view.fileno.Values)
      requires var r := ReadRequest(arriving, first, second).0; r.Found? ==> |r.tlvs| <= |dfds|
      modifies this`inputs, this`forwardMap, this`view
      ensures Valid() && fresh(client) && C.CanAccept(old(view), client, cfd, req) && client in view.recvd
      ensures var (r, rest) := ReadRequest(arriving, first, second);
              && client.rx.data == rest && (hung <==> r.NeverEnds?) && (req.Tlvs? <==> r.Found?)
              && (view == if hung then C.AddSocket(old(view), client, cfd) else C.Accept(old(view), client, cfd, req))
              && (r.Found? ==>
                    && AllMatch(r.tlvs, net, dfds, req.outcomes)
                    && (|req.outcomes| < |r.tlvs| ==>
                          C.HandleTlvs(C.AddSocket(old(view), client, cfd), client, req.outcomes).1))
    {
      hide Valid, C.Feasible, C.HandleTlvs, C.Fresh, C.AddSocket, C.CloseSocket, AllMatch, ReadRequest;
      ghost var used := view.fileno.Values;
      assert ([cfd] + dfds)[1..] == dfds && ([cfd] + dfds)[0] == cfd;
      client := NewClient(cfd, arriving);
      DistinctFromRest([cfd] + dfds, used, view.fileno.Values);
      var success;
      success, hung, req := HandleConnection(client, first, second, net, dfds);
      if !hung && !success {
        CloseClient(client);
      }
    }
  }
}
