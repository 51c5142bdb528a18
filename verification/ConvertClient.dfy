/**
 * The preloaded library: socket, connect, send, recv and close over the real hash table, proved against
 * the per-socket functions of Redirect. The kernel is a receive queue and a send log per descriptor.
 */
module ConvertClient {
  import opened Bytes
  import opened Wire
  import opened Parser
  import opened Writer
  import opened RoundTrip
  import opened ReadOpts
  import opened Redirect
  import opened ListQueue
  import opened SocketTable

  // Linux numbers of the address families, the socket type and the protocol of an MPTCP stream.
  const AF_INET := 2
  const AF_INET6 := 10
  const SOCK_STREAM := 1
  const IPPROTO_MPTCP := 262

  datatype Chan = Chan(rx: seq<byte>, tx: seq<byte>)

  /** Open descriptors as sockets, given which of them are tracked. */
  function Sockets(tracked: set<int>, chans: map<int, Chan>): map<int, Sock> {
    map fd | fd in chans :: Sock(fd in tracked, chans[fd].rx, chans[fd].tx)
  }

  lemma SocketsUpdate(tracked: set<int>, chans: map<int, Chan>, fd: int, on: bool, rx: seq<byte>, tx: seq<byte>)
    ensures Sockets(if on then tracked + {fd} else tracked - {fd}, chans[fd := Chan(rx, tx)])
         == Sockets(tracked, chans)[fd := Sock(on, rx, tx)]
  {
  }

  /** A descriptor whose queues change keeps its place in the table or outside it. */
  lemma SocketsKeep(tracked: set<int>, chans: map<int, Chan>, fd: int, rx: seq<byte>, tx: seq<byte>)
    requires fd in chans
    ensures Sockets(tracked, chans[fd := Chan(rx, tx)])
         == Sockets(tracked, chans)[fd := Sockets(tracked, chans)[fd].(rx := rx, tx := tx)]
  {
  }

  lemma SocketsAt(tracked: set<int>, chans: map<int, Chan>, fd: int)
    requires fd in chans
    ensures fd in Sockets(tracked, chans)
    ensures Sockets(tracked, chans)[fd] == Sock(fd in tracked, chans[fd].rx, chans[fd].tx)
    ensures Sockets(tracked, chans)[fd := Sockets(tracked, chans)[fd]] == Sockets(tracked, chans)
  {
  }

  class Library {
    const table: Table
    const cookie: CookieSetting
    var chans: map<int, Chan>   // open descriptors

    ghost predicate Valid()
      reads this, table, table.heads, table.nodes
    {
      table.Valid() && Tracked() <= chans.Keys
    }

    /** The descriptors the table has a state for. */
    ghost function Tracked(): set<int>
      requires table.Valid()
      reads this, table, table.heads, table.nodes
    {
      table.States().Keys
    }

    ghost function View(): map<int, Sock>
      requires Valid()
      reads this, table, table.heads, table.nodes
    {
      Sockets(Tracked(), chans)
    }

    constructor (cookie: CookieSetting)
      ensures Valid() && View() == map[] && this.cookie == cookie
      ensures fresh(table) && fresh(table.heads) && fresh(table.nodes)
    {
      this.cookie := cookie;
      var t := new Table();
      table := t;
      chans := map[];
    }

    // ----- The kernel

    method RecvFrom(fd: int, n: nat) returns (got: seq<byte>)
      requires Valid() && fd in chans
      modifies this`chans
      ensures got == Front(old(chans[fd].rx), n)
      ensures chans == old(chans)[fd := Chan(old(chans[fd].rx)[|got|..], old(chans[fd].tx))]
      ensures Valid() && View() == old(View())[fd := old(View())[fd].(rx := old(chans[fd].rx)[|got|..])]
    {
      hide Placed, StatesOf, OnePerDescriptor, Table.Valid;
      got := Front(chans[fd].rx, n);
      SocketsKeep(Tracked(), chans, fd, chans[fd].rx[|got|..], chans[fd].tx);
      chans := chans[fd := chans[fd].(rx := chans[fd].rx[|got|..])];
    }

    method KernelSend(fd: int, data: seq<byte>)
      requires Valid() && fd in chans
      modifies this`chans
      ensures Valid() && fd in chans
      ensures View() == old(View())[fd := old(View())[fd].(tx := old(chans[fd].tx) + data)]
    {
      hide Placed, StatesOf, OnePerDescriptor, Table.Valid;
      SocketsKeep(Tracked(), chans, fd, chans[fd].rx, chans[fd].tx + data);
      chans := chans[fd := chans[fd].(tx := chans[fd].tx + data)];
    }

    /** Giving up a state only stops the tracking. */
    method Release(state: Node)
      requires Valid() && state in table.nodes && state.fd in Tracked()
      modifies table`buckets, table`nodes, table.heads, table.nodes
      ensures Valid() && table.nodes <= old(table.nodes)
      ensures state.fd in old(View()) && View() == old(View())[state.fd := old(View())[state.fd].(tracked := false)]
    {
      hide Placed, StatesOf, OnePerDescriptor, Table.Valid;
      ghost var fd := state.fd;
      SocketsUpdate(Tracked(), chans, fd, false, chans[fd].rx, chans[fd].tx);
      assert chans[fd := Chan(chans[fd].rx, chans[fd].tx)] == chans;
      table.FreeState(state);
    }

    // ----- The calls

    /**
     * The kernel returns a descriptor that is not open, or fails; one for an IPv4 or IPv6 MPTCP stream gets a state,
     * memory permitting.
     */
    method Socket(fd: int, domain: int, kind: int, protocol: int, mallocFails: bool)
      requires Valid() && fd !in chans
      modifies this`chans, table`buckets, table`nodes, table.heads, table.nodes
      ensures Valid() && fresh(table.nodes - old(table.nodes))
      ensures View() == if fd < 0 then old(View())
                        else
                          var tracked := (domain == 2 || domain == 10) && kind == 1 && protocol == 262 && !mallocFails;
                          old(View())[fd := Sock(tracked, [], [])]
    {
      if fd >= 0 {
        var eligible := (domain == AF_INET || domain == AF_INET6) && kind == SOCK_STREAM && protocol == IPPROTO_MPTCP;
        Track(fd, eligible, mallocFails);
      }
    }

    method Track(fd: nat, eligible: bool, mallocFails: bool)
      requires Valid() && fd !in chans
      modifies this`chans, table`buckets, table`nodes, table.heads, table.nodes
      ensures Valid() && fresh(table.nodes - old(table.nodes))
      ensures View() == old(View())[fd := Sock(eligible && !mallocFails, [], [])]
    {
      hide Placed, StatesOf, OnePerDescriptor, Table.Valid;
      SocketsUpdate(Tracked(), chans, fd, eligible && !mallocFails, [], []);
      ghost var tracked := Tracked();
      if eligible {
        table.Alloc(fd, mallocFails);
      }
      assert Tracked() == if eligible && !mallocFails then tracked + {fd} else tracked - {fd};
      chans := chans[fd := Chan([], [])];
    }

    /** One message off the receive queue. */
    method TakeMessage(fd: int, fault: Fault) returns (r: ReadResult)
      requires Valid() && fd in chans
      modifies this`chans
      ensures Valid()
      ensures r == Read(old(chans[fd].rx), false, fault).0
      ensures chans == old(chans)[fd := Chan(Read(old(chans[fd].rx), false, fault).1, old(chans[fd].tx))]
    {
      hide Valid, View, Tracked, Sockets, Parse, ParseHeader;
      if fault == FirstFails { return Unreadable; }
      var hdr := RecvFrom(fd, HEADER_LEN);
      var header := ParseHeader(hdr);
      if header.BadHeader? { return Malformed; }
      var length := header.length;
      if length == 0 { return NoTlvs; }
      if !MallocSucceeds(length) { return Undefined; }
      if fault == SecondFails { return Malformed; }
      var buffer := RecvFrom(fd, length);
      if |buffer| != length { return Malformed; }
      var outcome := ParseBytes(buffer);
      assert buffer[0..] == buffer;
      r := Judge(outcome);
    }

    /** Reads one reply: the verdict, and the state given up unless nothing was read or the call is stuck. */
    method ReadConvert(state: Node, fault: Fault) returns (v: Verdict)
      requires Valid() && state in table.nodes && state.fd in Tracked() && state.fd in chans
      modifies this`chans, table`buckets, table`nodes, table.heads, table.nodes
      ensures Valid() && table.nodes <= old(table.nodes)
      ensures v == ReadReply(old(View())[state.fd], fault).0
      ensures View() == old(View())[state.fd := ReadReply(old(View())[state.fd], fault).1]
      ensures var k := old(View())[state.fd];
              && (v == Proceed <==> GoodReply(k.rx, fault)) && (v == Stuck <==> StuckReply(k.rx, fault))
              && state.fd in View() && (View()[state.fd].tracked <==> fault == FirstFails || StuckReply(k.rx, fault))
    {
      ReplyExactly(View()[state.fd], fault);
      assert View()[state.fd].tracked;
      hide Valid, View, Tracked, Sockets, ReadReply, GoodReply, StuckReply;
      v := ReadAndDecide(state, fault);
    }

    method ReadAndDecide(state: Node, fault: Fault) returns (v: Verdict)
      requires Valid() && state in table.nodes && state.fd in Tracked() && state.fd in chans
      modifies this`chans, table`buckets, table`nodes, table.heads, table.nodes
      ensures Valid() && table.nodes <= old(table.nodes)
      ensures v == ReadReply(old(View())[state.fd], fault).0
      ensures View() == old(View())[state.fd := ReadReply(old(View())[state.fd], fault).1]
    {
      hide Read, Placed, StatesOf, OnePerDescriptor, Table.Valid, Sockets;
      var fd := state.fd;
      ReadFailedKeeps(chans[fd].rx);
      SocketsAt(Tracked(), chans, fd);
      SocketsKeep(Tracked(), chans, fd, Read(chans[fd].rx, false, fault).1, chans[fd].tx);
      var r := TakeMessage(fd, fault);
      if r == Unreadable { return Skip; }
      if r == Hangs || r == Undefined { return Stuck; }
      Release(state);
      v := if r.Options? || r == NoTlvs then Proceed else Skip;
    }

    lemma ReadFailedKeeps(s: seq<byte>)
      ensures Read(s, false, FirstFails) == (Unreadable, s)
      ensures forall fault :: Read(s, false, fault).0 == Unreadable ==> fault == FirstFails
    {
    }

    /** _redirect_connect_tlv: the request, or nothing for a foreign address family or an oversized cookie. */
    method BuildRequest(d: Dest, buf: array<byte>) returns (len: int)
      requires buf.Length == REQUEST_BUFFER
      modifies buf
      ensures len >= 0 <==> RequestWritten(d, cookie)
      ensures len >= 0 ==> len <= buf.Length && buf[..len] == RequestBytes(d, cookie)
    {
      if !Addressable(d) { return -1; }
      var opts := RequestOpts(d, cookie);
      len := ConvertWrite(buf, opts);
    }

    /** _redirect, and giving the socket up when it fails. */
    method RedirectTo(state: Node, d: Dest, link: Redirect.Link) returns (sent: bool)
      requires Valid() && state in table.nodes && state.fd in Tracked()
      modifies this`chans, table`buckets, table`nodes, table.heads, table.nodes
      ensures Valid() && table.nodes <= old(table.nodes) && state.fd in chans
      ensures sent ==> state in table.nodes && state.fd in Tracked()
      ensures sent == SendRequest(old(View())[state.fd], d, cookie, link).0
      ensures View() == old(View())[state.fd := SendRequest(old(View())[state.fd], d, cookie, link).1]
    {
      hide Placed, StatesOf, OnePerDescriptor, Table.Valid, RequestWritten, RequestBytes;
      var buf := new byte[REQUEST_BUFFER];
      var len := BuildRequest(d, buf);
      if len >= 0 && link.Up? {
        KernelSend(state.fd, buf[..len]);
        sent := true;
      } else {
        Release(state);
        sent := false;
      }
    }

    method Connect(fd: nat, d: Dest, link: Redirect.Link, fault: Fault) returns (v: Verdict)
      requires Valid() && fd in chans
      modifies this`chans, table`buckets, table`nodes, table.heads, table.nodes
      ensures Valid() && table.nodes <= old(table.nodes)
      ensures v == Redirect.Connect(old(View())[fd], d, cookie, link, fault).0
      ensures View() == old(View())[fd := Redirect.Connect(old(View())[fd], d, cookie, link, fault).1]
      ensures var k := old(View())[fd];
              && fd in chans
              && chans[fd].tx == k.tx + (if Redirects(k, d, cookie, link) then WireRequest(d, cookie) else [])
              && (v == Proceed <==> !Redirects(k, d, cookie, link) || GoodReply(k.rx, fault))
    {
      ConnectExactly(View()[fd], d, cookie, link, fault);
      hide Redirects, WireRequest, GoodReply, StuckReply, Redirect.Connect;
      v := Redirecting(fd, d, link, fault);
      assert fd in View();
      SocketsAt(Tracked(), chans, fd);
      hide Valid, Tracked, Sockets;
    }

    method Redirecting(fd: nat, d: Dest, link: Redirect.Link, fault: Fault) returns (v: Verdict)
      requires Valid() && fd in chans
      modifies this`chans, table`buckets, table`nodes, table.heads, table.nodes
      ensures Valid() && table.nodes <= old(table.nodes)
      ensures v == Redirect.Connect(old(View())[fd], d, cookie, link, fault).0
      ensures View() == old(View())[fd := Redirect.Connect(old(View())[fd], d, cookie, link, fault).1]
    {
      hide Placed, StatesOf, OnePerDescriptor, Table.Valid, ReadReply, SendRequest, Sockets;
      var state := table.Lookup(fd);
      SocketsAt(Tracked(), chans, fd);
      if state == null {
        return Proceed;
      }
      var sent := RedirectTo(state, d, link);
      if sent {
        v := ReadConvert(state, fault);
      } else {
        v := Proceed;
      }
    }

    /** data: the bytes the kernel takes if the call gets that far. */
    method Send(fd: nat, data: seq<byte>, fault: Fault) returns (v: Verdict)
      requires Valid() && fd in chans
      modifies this`chans, table`buckets, table`nodes, table.heads, table.nodes
      ensures Valid() && table.nodes <= old(table.nodes)
      ensures v == Redirect.Send(old(View())[fd], data, fault).0
      ensures View() == old(View())[fd := Redirect.Send(old(View())[fd], data, fault).1]
      ensures var k := old(View())[fd];
              && fd in chans && (v == Proceed <==> !k.tracked || GoodReply(k.rx, fault))
              && chans[fd].tx == k.tx + (if !k.tracked || GoodReply(k.rx, fault) then data else [])
    {
      SendExactly(View()[fd], data, fault);
      hide GoodReply, StuckReply, ReadReply, Redirect.Send;
      v := Sending(fd, data, fault);
      SocketsAt(Tracked(), chans, fd);
      hide Valid, Tracked, Sockets;
    }

    method Sending(fd: nat, data: seq<byte>, fault: Fault) returns (v: Verdict)
      requires Valid() && fd in chans
      modifies this`chans, table`buckets, table`nodes, table.heads, table.nodes
      ensures Valid() && table.nodes <= old(table.nodes) && fd in chans
      ensures v == Redirect.Send(old(View())[fd], data, fault).0
      ensures View() == old(View())[fd := Redirect.Send(old(View())[fd], data, fault).1]
    {
      hide Placed, StatesOf, OnePerDescriptor, Table.Valid, ReadReply;
      v := BeforeCall(fd, fault);
      if v == Proceed {
        KernelSend(fd, data);
      }
    }

    method Recv(fd: nat, n: nat, fault: Fault) returns (v: Verdict, got: seq<byte>)
      requires Valid() && fd in chans
      modifies this`chans, table`buckets, table`nodes, table.heads, table.nodes
      ensures Valid() && table.nodes <= old(table.nodes)
      ensures (v, got) == (Redirect.Recv(old(View())[fd], n, fault).0, Redirect.Recv(old(View())[fd], n, fault).2)
      ensures View() == old(View())[fd := Redirect.Recv(old(View())[fd], n, fault).1]
      ensures var k := old(View())[fd];
              && (v == Proceed <==> !k.tracked || GoodReply(k.rx, fault))
              && got == if !k.tracked then Front(k.rx, n)
                        else if GoodReply(k.rx, fault) then Front(k.rx[ReplyTakes(k.rx, fault)..], n) else []
    {
      RecvExactly(View()[fd], n, fault);
      hide Valid, View, Tracked, Sockets, GoodReply, StuckReply, ReadReply, Redirect.Recv;
      v, got := Receiving(fd, n, fault);
    }

    method Receiving(fd: nat, n: nat, fault: Fault) returns (v: Verdict, got: seq<byte>)
      requires Valid() && fd in chans
      modifies this`chans, table`buckets, table`nodes, table.heads, table.nodes
      ensures Valid() && table.nodes <= old(table.nodes)
      ensures (v, got) == (Redirect.Recv(old(View())[fd], n, fault).0, Redirect.Recv(old(View())[fd], n, fault).2)
      ensures View() == old(View())[fd := Redirect.Recv(old(View())[fd], n, fault).1]
    {
      hide Placed, StatesOf, OnePerDescriptor, Table.Valid, ReadReply;
      v := BeforeCall(fd, fault);
      got := [];
      if v == Proceed {
        got := RecvFrom(fd, n);
      }
    }

    /** What send and recv share: a tracked socket first has its reply read. */
    method BeforeCall(fd: nat, fault: Fault) returns (v: Verdict)
      requires Valid() && fd in chans
      modifies this`chans, table`buckets, table`nodes, table.heads, table.nodes
      ensures Valid() && fd in chans && table.nodes <= old(table.nodes)
      ensures var k := old(View())[fd];
              var (verdict, k1) := if k.tracked then ReadReply(k, fault) else (Proceed, k);
              v == verdict && View() == old(View())[fd := k1]
    {
      hide Placed, StatesOf, OnePerDescriptor, Table.Valid, ReadReply;
      var state := table.Lookup(fd);
      assert View()[fd].tracked <==> state != null;
      if state == null {
        return Proceed;
      }
      v := ReadConvert(state, fault);
      assert fd in View();
    }

    /** The state goes before the descriptor does. */
    method Close(fd: nat)
      requires Valid()
      modifies this`chans, table`buckets, table`nodes, table.heads, table.nodes
      ensures Valid() && table.nodes <= old(table.nodes)
      ensures View() == old(View()) - {fd}
    {
      hide Placed, StatesOf, OnePerDescriptor, Table.Valid;
      table.Free(fd);
      chans := chans - {fd};
    }
  }
}
