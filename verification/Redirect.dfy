/**
 * The interposed socket calls as functions on one socket: a socket is tracked from socket() until the
 * converter's reply has been read, and while it is tracked no call passes application data.
 */
module Redirect {
  import opened Bytes
  import opened Wire
  import opened Parser
  import opened Writer
  import opened RoundTrip
  import opened ReadOpts
  import opened PyCodec
  import opened AddressText

  /** rx: bytes that have arrived and not been read; tx: bytes handed to the kernel so far. */
  datatype Sock = Sock(tracked: bool, rx: seq<byte>, tx: seq<byte>)

  // ----- The request

  /** The address handed to connect, by family. */
  datatype Dest = V4(port: Port, a: Quad) | V6(port: Port, addr: Addr) | OtherFamily

  predicate Addressable(d: Dest) {
    !d.OtherFamily?
  }

  datatype CookieSetting = NoCookie | UseCookie(data: seq<byte>)

  const REQUEST_BUFFER := 1024

  function RequestOpts(d: Dest, c: CookieSetting): Opts
    requires Addressable(d)
  {
    Opts({F_CONNECT} + (if c.UseCookie? then {F_COOKIE} else {}),
         d.port, if d.V4? then ToV4Mapped(d.a) else d.addr, 0, [], if c.UseCookie? then c.data else [])
  }

  /** Whether the request is written into the 1024-byte buffer at all. */
  predicate RequestWritten(d: Dest, c: CookieSetting) {
    Addressable(d) && MessageSize(RequestOpts(d, c)) <= REQUEST_BUFFER
  }

  function RequestBytes(d: Dest, c: CookieSetting): seq<byte>
    requires Addressable(d)
  {
    Message(RequestOpts(d, c))
  }

  /**
   * With a cookie the request is written up to 996 bytes of cookie, but its length byte is right only up
   * to 992: for 993 to 996 the message fills the buffer and its header announces no words at all.
   */
  lemma CookieBounds(d: Dest, data: seq<byte>)
    requires Addressable(d)
    ensures RequestWritten(d, UseCookie(data)) <==> |data| <= 996
    ensures RequestBytes(d, UseCookie(data))[1] * PADDING == |RequestBytes(d, UseCookie(data))| <==> |data| <= 992
    ensures 992 < |data| <= 996 ==> RequestBytes(d, UseCookie(data))[1] == 0
  {
    var o := RequestOpts(d, UseCookie(data));
    assert MessageSize(o) == 24 + Align(4 + |data|);
    LengthByteFaithfulExactly(o);
    MessageSizeIsLength(o);
    AlignBounds(|data|);
  }

  lemma AlignBounds(n: nat)
    ensures Align(4 + n) <= 996 <==> n <= 992
    ensures Align(4 + n) <= 1000 <==> n <= 996
    ensures 992 < n <= 996 ==> WordByte(24 + Align(4 + n)) == 0
  {
  }

  /** The request written out: the fixed header, the Connect element, and the cookie in its own words. */
  function WireRequest(d: Dest, c: CookieSetting): seq<byte>
    requires Addressable(d)
  {
    var addr := if d.V4? then [0, 0, 0, 0, 0, 0, 0, 0, 0, 0, 0xff, 0xff] + d.a else d.addr;
    var cookie := if c.UseCookie? then OpaqueOctets(0x16, c.data) else [];
    var elements := [0x0a, 5] + d.port + addr + cookie;
    [1, Words(4 + |elements|), 0x22, 0x63] + elements
  }

  lemma RequestIsWire(d: Dest, c: CookieSetting)
    requires Addressable(d)
    ensures RequestBytes(d, c) == WireRequest(d, c)
  {
    var o := RequestOpts(d, c);
    MessageIsOctets(o);
    MappedOctets(d);
    assert F_CONNECT in o.flags && F_EXTENDED !in o.flags && F_ERROR !in o.flags;
    assert F_COOKIE in o.flags <==> c.UseCookie?;
    hide Message, ToV4Mapped, Words, Supported, OpaqueOctets;
    OctetsUnflagged(o);
    hide Octets;
  }

  /** Without the Extended TCP Header and Error flags. */
  lemma OctetsUnflagged(o: Opts)
    requires F_CONNECT in o.flags && F_EXTENDED !in o.flags && F_ERROR !in o.flags
    ensures var cookie := if F_COOKIE in o.flags then OpaqueOctets(0x16, o.cookie) else [];
            var elements := [0x0a, 5] + o.port + o.addr + cookie;
            Octets(o) == [1, Words(4 + |elements|), 0x22, 0x63] + elements
  {
    hide OpaqueOctets, Words;
    var cookie := if F_COOKIE in o.flags then OpaqueOctets(0x16, o.cookie) else [];
    assert [] + (cookie + []) == cookie;
  }

  lemma MappedOctets(d: Dest)
    ensures d.V4? ==> ToV4Mapped(d.a) == [0, 0, 0, 0, 0, 0, 0, 0, 0, 0, 0xff, 0xff] + d.a
  {
    assert Zeros(10) == [0, 0, 0, 0, 0, 0, 0, 0, 0, 0];
  }

  /** Which requests go out at all: IPv4 or IPv6, and no cookie or one of at most 996 bytes. */
  lemma WrittenExactly(d: Dest, c: CookieSetting)
    ensures RequestWritten(d, c) <==> !d.OtherFamily? && (c.UseCookie? ==> |c.data| <= 996)
  {
    if c.UseCookie? && Addressable(d) {
      CookieBounds(d, c.data);
    }
  }

  /**
   * The C parser reads the request back: exactly the flags, the port, the 16 bytes of the address and the
   * configured cookie, padded to whole words.
   */
  lemma RequestParses(d: Dest, c: CookieSetting)
    requires Addressable(d) && (c.UseCookie? ==> |c.data| <= 992)
    ensures |RequestBytes(d, c)| >= 24 && Parse(RequestBytes(d, c)[4..]).Accepted?
    ensures var o := Parse(RequestBytes(d, c)[4..]).opts;
            && o.flags == (if c.UseCookie? then {1, 4} else {1})
            && o.port == d.port
            && o.addr == (if d.V4? then [0, 0, 0, 0, 0, 0, 0, 0, 0, 0, 0xff, 0xff] + d.a else d.addr)
            && o.cookie == if c.UseCookie? then c.data + Zeros(Align(|c.data|) - |c.data|) else []
  {
    var o := RequestOpts(d, c);
    RequestFits(d, c);
    MappedOctets(d);
    hide MessageSize, Message, Parse, Align, Zeros, ToV4Mapped;
    assert F_CONNECT in o.flags * WRITABLE;
    CodecRoundTrip(o);
  }

  lemma RequestFits(d: Dest, c: CookieSetting)
    requires Addressable(d) && (c.UseCookie? ==> |c.data| <= 992)
    ensures MessageSize(RequestOpts(d, c)) <= MAX_MESSAGE && |RequestBytes(d, c)| >= 24
  {
    MessageSizeIsLength(RequestOpts(d, c));
    if c.UseCookie? {
      AlignBounds(|c.data|);
    }
    hide Message;
  }

  // ----- _read_convert

  /** Go on with the call, skip it, or never come back from it. */
  datatype Verdict = Proceed | Skip | Stuck

  function ReadReply(k: Sock, fault: Fault): (Verdict, Sock) {
    var (r, rest) := Read(k.rx, false, fault);
    match r
    case Unreadable => (Skip, k)
    case Options(_) => (Proceed, k.(tracked := false, rx := rest))
    case NoTlvs => (Proceed, k.(tracked := false, rx := rest))
    case ErrorTlv(_) => (Skip, k.(tracked := false, rx := rest))
    case Malformed => (Skip, k.(tracked := false, rx := rest))
    case Hangs => (Stuck, k.(rx := rest))
    case Undefined => (Stuck, k.(rx := rest))
  }

  // ----- The calls

  /** What the kernel does with the connection to the converter and the request on it. */
  datatype Link = Refused | Lost | Up

  /** The first half of connect on a tracked socket: the request is on its way, or the socket is given up. */
  function SendRequest(k: Sock, d: Dest, c: CookieSetting, link: Link): (bool, Sock) {
    if RequestWritten(d, c) && link.Up? then (true, k.(tx := k.tx + RequestBytes(d, c)))
    else (false, k.(tracked := false))
  }

  function Connect(k: Sock, d: Dest, c: CookieSetting, link: Link, fault: Fault): (Verdict, Sock) {
    if !k.tracked then (Proceed, k)
    else
      var (sent, k1) := SendRequest(k, d, c, link);
      if sent then ReadReply(k1, fault) else (Proceed, k1)
  }

  /** data: the bytes the kernel takes if it is reached. */
  function Send(k: Sock, data: seq<byte>, fault: Fault): (Verdict, Sock) {
    var (v, k1) := if k.tracked then ReadReply(k, fault) else (Proceed, k);
    if v == Proceed then (v, k1.(tx := k1.tx + data)) else (v, k1)
  }

  /** n: the most bytes the kernel returns if it is reached. */
  function Recv(k: Sock, n: nat, fault: Fault): (Verdict, Sock, seq<byte>) {
    var (v, k1) := if k.tracked then ReadReply(k, fault) else (Proceed, k);
    if v == Proceed
    then (v, k1.(rx := k1.rx[|Front(k1.rx, n)|..]), Front(k1.rx, n))
    else (v, k1, [])
  }

  // ----- What the calls come to, in bytes

  /** The reply that lets a call go on: the bare header, or a message without an Error that was received whole. */
  ghost predicate GoodReply(s: seq<byte>, fault: Fault) {
    fault != FirstFails && ([1, 1, 0x22, 0x63] <= s || (fault == NoFault && CarriesOptions(s)))
  }

  /** The replies a call does not come back from. */
  ghost predicate StuckReply(s: seq<byte>, fault: Fault) {
    fault != FirstFails && ([1, 0, 0x22, 0x63] <= s || (fault == NoFault && CarriesHang(s)))
  }

  /** How many bytes reading a reply takes off the queue. */
  function ReplyTakes(s: seq<byte>, fault: Fault): nat {
    if fault == FirstFails then 0
    else if fault == NoFault && Announces(s, 2) then |Front(s, s[1] as nat * 4)|
    else |Front(s, 4)|
  }

  /**
   * Reading the reply, exactly: the call goes on after a good one, does not come back from a stuck one and is
   * skipped after anything else; the socket is released except when the first receive fails or the call sticks.
   */
  lemma ReplyExactly(k: Sock, fault: Fault)
    ensures var (v, k1) := ReadReply(k, fault);
            && (v == Proceed <==> GoodReply(k.rx, fault))
            && (v == Stuck <==> StuckReply(k.rx, fault))
            && k1.tracked == (k.tracked && (fault == FirstFails || StuckReply(k.rx, fault)))
            && k1.tx == k.tx && k1.rx == k.rx[ReplyTakes(k.rx, fault)..]
  {
    ReadsExactly(k.rx, false);
    FailedReceive(k.rx, false);
    LeavesExactly(k.rx, false, fault);
    BareHeader(k.rx);
    hide Read, CarriesOptions, CarriesError, CarriesHang;
  }

  lemma BareHeader(s: seq<byte>)
    ensures [1, 1, 0x22, 0x63] <= s <==> Announces(s, 0) && s[1] == 1
    ensures [1, 0, 0x22, 0x63] <= s <==> Announces(s, 0) && s[1] == 0
  {
    if |s| >= 4 {
      assert s[..4] == [s[0], s[1], s[2], s[3]];
    }
  }

  /** send reaches the kernel exactly on an untracked socket or behind a good reply. */
  lemma SendExactly(k: Sock, data: seq<byte>, fault: Fault)
    ensures var (v, k1) := Send(k, data, fault);
            && k1.tx == k.tx + (if !k.tracked || GoodReply(k.rx, fault) then data else [])
            && k1.rx == (if k.tracked then k.rx[ReplyTakes(k.rx, fault)..] else k.rx)
            && (v == Proceed <==> !k.tracked || GoodReply(k.rx, fault))
            && (v == Stuck <==> k.tracked && StuckReply(k.rx, fault))
            && k1.tracked == (k.tracked && (fault == FirstFails || StuckReply(k.rx, fault)))
  {
    ReplyExactly(k, fault);
    hide ReadReply, GoodReply, StuckReply;
  }

  /** recv returns bytes exactly then, the first ones behind the reply. */
  lemma RecvExactly(k: Sock, n: nat, fault: Fault)
    ensures var (v, k1, got) := Recv(k, n, fault);
            var behind := if k.tracked then k.rx[ReplyTakes(k.rx, fault)..] else k.rx;
            && got == (if !k.tracked || GoodReply(k.rx, fault) then Front(behind, n) else [])
            && k1.rx == behind[|got|..] && k1.tx == k.tx
            && (v == Proceed <==> !k.tracked || GoodReply(k.rx, fault))
            && (v == Stuck <==> k.tracked && StuckReply(k.rx, fault))
            && k1.tracked == (k.tracked && (fault == FirstFails || StuckReply(k.rx, fault)))
  {
    ReplyExactly(k, fault);
    hide ReadReply, GoodReply, StuckReply;
  }

  /** Whether connect sends a request: on a tracked socket, if it can be written and the link takes it. */
  predicate Redirects(k: Sock, d: Dest, c: CookieSetting, link: Link) {
    k.tracked && !d.OtherFamily? && (c.UseCookie? ==> |c.data| <= 996) && link == Up
  }

  /** connect sends the request and reads the reply, or leaves the call to the kernel on a socket given up. */
  lemma ConnectExactly(k: Sock, d: Dest, c: CookieSetting, link: Link, fault: Fault)
    ensures var (v, k1) := Connect(k, d, c, link, fault);
            && k1.tx == k.tx + (if Redirects(k, d, c, link) then WireRequest(d, c) else [])
            && if Redirects(k, d, c, link)
               then && (v == Proceed <==> GoodReply(k.rx, fault)) && (v == Stuck <==> StuckReply(k.rx, fault))
                    && k1.tracked == (fault == FirstFails || StuckReply(k.rx, fault))
                    && k1.rx == k.rx[ReplyTakes(k.rx, fault)..]
               else v == Proceed && !k1.tracked && k1.rx == k.rx
  {
    WrittenExactly(d, c);
    if Addressable(d) {
      RequestIsWire(d, c);
      ReplyExactly(k.(tx := k.tx + RequestBytes(d, c)), fault);
    }
    hide ReadReply, GoodReply, StuckReply, RequestBytes, RequestWritten, WireRequest;
  }

  // ----- One socket over its life

  /** A socket with everything that has gone through it. */
  datatype Life = Life(
    k: Sock,
    inbound: seq<byte>,   // all bytes that arrived
    request: seq<byte>,   // the handshake written
    sent: seq<byte>,      // application bytes the kernel took
    got: seq<byte>,       // bytes returned to the application
    removed: seq<byte>,   // bytes taken off as the converter's reply
    replies: nat)         // how often a reply was read to its end

  function NewLife(tracked: bool): Life {
    Life(Sock(tracked, [], []), [], [], [], [], [], 0)
  }

  datatype Op =
    | Arrive(data: seq<byte>)
    | CallConnect(d: Dest, c: CookieSetting, link: Link, fault: Fault)
    | CallSend(data: seq<byte>, fault: Fault)
    | CallRecv(n: nat, fault: Fault)

  /** The kernel is asked to connect on a tracked socket with a request at hand, and does so at most once. */
  predicate Possible(l: Life, op: Op) {
    op.CallConnect? && l.k.tracked && RequestWritten(op.d, op.c) && op.link.Up? ==> l.request == []
  }

  /** Bookkeeping after a call has replaced the socket by k1. */
  function Booked(l: Life, k1: Sock): Life {
    if l.k.tracked && |k1.rx| <= |l.k.rx|
    then l.(k := k1, removed := l.removed + l.k.rx[..|l.k.rx| - |k1.rx|],
            replies := l.replies + if k1.tracked then 0 else 1)
    else l.(k := k1)
  }

  function AfterRead(l: Life, fault: Fault): (Verdict, Life) {
    if !l.k.tracked then (Proceed, l)
    else
      var (v, k1) := ReadReply(l.k, fault);
      (v, Booked(l, k1))
  }

  function Perform(l: Life, op: Op): Life {
    match op
    case Arrive(data) => l.(k := l.k.(rx := l.k.rx + data), inbound := l.inbound + data)
    case CallConnect(d, c, link, fault) =>
      if !l.k.tracked then l
      else
        var (sent, k1) := SendRequest(l.k, d, c, link);
        if sent then AfterRead(l.(k := k1, request := RequestBytes(d, c)), fault).1 else l.(k := k1)
    case CallSend(data, fault) =>
      var (v, l1) := AfterRead(l, fault);
      if v == Proceed then l1.(k := l1.k.(tx := l1.k.tx + data), sent := l1.sent + data) else l1
    case CallRecv(n, fault) =>
      var (v, l1) := AfterRead(l, fault);
      if v == Proceed
      then l1.(k := l1.k.(rx := l1.k.rx[|Front(l1.k.rx, n)|..]), got := l1.got + Front(l1.k.rx, n))
      else l1
  }

  /** Whether the call waits for the reply. */
  predicate Waits(k: Sock, op: Op) {
    match op
    case Arrive(_) => false
    case CallConnect(d, c, link, _) => Redirects(k, d, c, link)
    case _ => k.tracked
  }

  /** The bookkeeping follows the calls: the request and the data that went out, what came back, the reply taken. */
  lemma LifeFollowsCalls(l: Life, op: Op)
    ensures op.CallConnect? ==> Perform(l, op).k == Connect(l.k, op.d, op.c, op.link, op.fault).1
    ensures op.CallSend? ==> Perform(l, op).k == Send(l.k, op.data, op.fault).1
    ensures op.CallRecv? ==> Perform(l, op).k == Recv(l.k, op.n, op.fault).1
    ensures op.CallRecv? ==> Perform(l, op).got == l.got + Recv(l.k, op.n, op.fault).2
    ensures op.Arrive? ==> Perform(l, op) == l.(k := l.k.(rx := l.k.rx + op.data), inbound := l.inbound + op.data)
    ensures var r := Perform(l, op);
            && r.inbound == l.inbound + (if op.Arrive? then op.data else [])
            && r.request == (if op.CallConnect? && Redirects(l.k, op.d, op.c, op.link)
                             then WireRequest(op.d, op.c) else l.request)
            && r.sent == l.sent + (if op.CallSend? && (l.k.tracked ==> GoodReply(l.k.rx, op.fault)) then op.data else [])
            && (!op.CallRecv? ==> r.got == l.got)
            && r.removed == l.removed + (if Waits(l.k, op) then l.k.rx[..ReplyTakes(l.k.rx, op.fault)] else [])
            && r.replies == l.replies + if Waits(l.k, op) && !r.k.tracked then 1 else 0
  {
    BookedReply(l, op);
    if op.CallConnect? {
      WrittenExactly(op.d, op.c);
      if Addressable(op.d) { RequestIsWire(op.d, op.c); }
    }
    hide ReadReply, GoodReply, StuckReply, RequestBytes, RequestWritten, WireRequest, ReplyTakes, Booked;
  }

  /** What AfterRead books, on the socket itself or with the request just written. */
  lemma BookedReply(l: Life, op: Op)
    ensures !op.Arrive? && l.k.tracked ==>
              var (v, k1) := ReadReply(l.k, op.fault);
              && (v == Proceed <==> GoodReply(l.k.rx, op.fault))
              && Booked(l, k1) == l.(k := k1, removed := l.removed + l.k.rx[..ReplyTakes(l.k.rx, op.fault)],
                                     replies := l.replies + if k1.tracked then 0 else 1)
    ensures op.CallConnect? && l.k.tracked && Addressable(op.d) ==>
              var k := l.k.(tx := l.k.tx + RequestBytes(op.d, op.c));
              var l2 := l.(k := k, request := RequestBytes(op.d, op.c));
              var (v, k1) := ReadReply(k, op.fault);
              Booked(l2, k1) == l2.(k := k1, removed := l.removed + l.k.rx[..ReplyTakes(l.k.rx, op.fault)],
                                    replies := l.replies + if k1.tracked then 0 else 1)
  {
    if !op.Arrive? && l.k.tracked {
      ReplyExactly(l.k, op.fault);
      if op.CallConnect? && Addressable(op.d) {
        ReplyExactly(l.k.(tx := l.k.tx + RequestBytes(op.d, op.c)), op.fault);
      }
    }
    hide ReadReply, GoodReply, StuckReply, RequestBytes;
  }

  ghost predicate Orderly(l: Life) {
    && l.k.tx == l.request + l.sent
    && l.inbound == l.removed + l.got + l.k.rx
    && l.replies <= 1
    && (l.k.tracked ==> l.sent == [] && l.got == [] && l.replies == 0)
  }

  lemma ReadTakesFront(s: seq<byte>, fault: Fault)
    ensures var rest := Read(s, false, fault).1; |rest| <= |s| && rest == s[|s| - |rest|..]
  {
    hide Parse, ParseHeader;
  }

  /** Reading the reply takes a front off the queue and writes nothing. */
  lemma ReplyTakesFront(k: Sock, fault: Fault)
    ensures var (v, k1) := ReadReply(k, fault);
            && k1.tx == k.tx && |k1.rx| <= |k.rx| && k1.rx == k.rx[|k.rx| - |k1.rx|..]
            && (k1.tracked ==> k.tracked) && (v == Proceed ==> !k1.tracked)
  {
    ReadTakesFront(k.rx, fault);
    hide Read;
  }

  lemma ReadKeepsOrder(l: Life, fault: Fault)
    requires Orderly(l)
    ensures var (v, l1) := AfterRead(l, fault);
            && Orderly(l1) && l1.sent == l.sent && l1.got == l.got && l1.request == l.request
            && (v == Proceed ==> !l1.k.tracked)
  {
    if l.k.tracked {
      ReplyTakesFront(l.k, fault);
      hide ReadReply;
      var k1 := ReadReply(l.k, fault).1;
      BookedInOrder(l, k1);
      hide Orderly, Booked;
    }
  }

  lemma BookedInOrder(l: Life, k1: Sock)
    requires Orderly(l) && l.k.tracked
    requires k1.tx == l.k.tx && |k1.rx| <= |l.k.rx| && k1.rx == l.k.rx[|l.k.rx| - |k1.rx|..]
    ensures var l1 := Booked(l, k1);
            Orderly(l1) && l1.sent == l.sent && l1.got == l.got && l1.request == l.request && l1.k == k1
  {
    var taken := l.k.rx[..|l.k.rx| - |k1.rx|];
    assert l.k.rx == taken + k1.rx;
    assert l.removed + l.got + l.k.rx == (l.removed + taken) + l.got + k1.rx;
  }

  lemma ConnectKeepsOrder(l: Life, op: Op)
    requires Orderly(l) && Possible(l, op) && op.CallConnect?
    ensures Orderly(Perform(l, op))
  {
    hide ReadReply, RequestBytes, AfterRead, MessageSize;
    if l.k.tracked {
      var (sent, k1) := SendRequest(l.k, op.d, op.c, op.link);
      if sent {
        assert l.request == [] && l.sent == [];
        ReadKeepsOrder(l.(k := k1, request := RequestBytes(op.d, op.c)), op.fault);
      }
    }
  }

  lemma RecvKeepsOrder(l: Life, op: Op)
    requires Orderly(l) && op.CallRecv?
    ensures Orderly(Perform(l, op))
  {
    hide ReadReply, AfterRead;
    ReadKeepsOrder(l, op.fault);
    var (v, l1) := AfterRead(l, op.fault);
    var f := Front(l1.k.rx, op.n);
    assert l1.k.rx == f + l1.k.rx[|f|..];
    assert l1.removed + l1.got + l1.k.rx == l1.removed + (l1.got + f) + l1.k.rx[|f|..];
  }

  lemma OpKeepsOrder(l: Life, op: Op)
    requires Orderly(l) && Possible(l, op)
    ensures Orderly(Perform(l, op))
  {
    match op {
      case Arrive(data) =>
        assert l.removed + l.got + (l.k.rx + data) == (l.removed + l.got + l.k.rx) + data;
      case CallConnect(d, c, link, fault) =>
        hide Perform, Orderly, Possible;
        ConnectKeepsOrder(l, op);
      case CallSend(data, fault) =>
        hide ReadReply, AfterRead;
        ReadKeepsOrder(l, fault);
        var (v, l1) := AfterRead(l, fault);
        assert l1.request + (l1.sent + data) == (l1.request + l1.sent) + data;
      case CallRecv(n, fault) =>
        hide Perform, Orderly, Possible;
        RecvKeepsOrder(l, op);
    }
  }

  ghost predicate PossibleRun(l: Life, ops: seq<Op>)
    decreases |ops|
  {
    ops != [] ==> Possible(l, ops[0]) && PossibleRun(Perform(l, ops[0]), ops[1..])
  }

  function PerformAll(l: Life, ops: seq<Op>): Life
    decreases |ops|
  {
    if ops == [] then l else PerformAll(Perform(l, ops[0]), ops[1..])
  }

  /**
   * Handshake ordering over any sequence of calls and arrivals: what went out is the request and then
   * application data, what came in is the reply and then application data, the reply is read at most once,
   * and as long as the socket is tracked no application byte has passed either way.
   */
  lemma {:induction false} HandshakeOrdering(l: Life, ops: seq<Op>)
    requires Orderly(l) && PossibleRun(l, ops)
    ensures Orderly(PerformAll(l, ops))
    decreases |ops|
  {
    hide Perform;
    if ops != [] {
      OpKeepsOrder(l, ops[0]);
      HandshakeOrdering(Perform(l, ops[0]), ops[1..]);
    }
  }

  /** From socket() on. */
  lemma HandshakeFromStart(tracked: bool, ops: seq<Op>)
    requires PossibleRun(NewLife(tracked), ops)
    ensures Orderly(PerformAll(NewLife(tracked), ops))
  {
    HandshakeOrdering(NewLife(tracked), ops);
  }

  /** Once released, a socket is never tracked again: later calls go straight to the kernel. */
  lemma {:induction false} ReleasedForGood(l: Life, ops: seq<Op>)
    requires !l.k.tracked
    ensures !PerformAll(l, ops).k.tracked && PerformAll(l, ops).removed == l.removed
    decreases |ops|
  {
    if ops != [] {
      ReleasedForGood(Perform(l, ops[0]), ops[1..]);
    }
  }

  /** The reply of the converter lets the call proceed and leaves exactly what the destination sent. */
  lemma ConverterReply(k: Sock, rest: seq<byte>)
    requires k.rx == REPLY + rest
    ensures ReadReply(k, NoFault) == (Proceed, k.(tracked := false, rx := rest))
  {
  }

  // ----- A second connect

  /** Whether the call reads the reply on its way. */
  predicate ReadsReply(l: Life, op: Op) {
    l.k.tracked && (op.CallSend? || op.CallRecv? || (op.CallConnect? && RequestWritten(op.d, op.c) && op.link.Up?))
  }

  function FaultOf(op: Op): Fault {
    match op
    case Arrive(_) => NoFault
    case CallConnect(_, _, _, fault) => fault
    case CallSend(_, fault) => fault
    case CallRecv(_, fault) => fault
  }

  /**
   * What may happen on a socket the converter sends `stream` on: it sends only after it was sent something, and
   * a blocking read of the reply waits for its four bytes unless it fails.
   */
  predicate Live(l: Life, op: Op, stream: seq<byte>) {
    && Possible(l, op)
    && (op.Arrive? ==> l.request != [] && l.inbound + op.data <= stream)
    && (ReadsReply(l, op) && FaultOf(op) != FirstFails ==> |l.k.rx| >= HEADER_LEN)
  }

  ghost predicate LiveRun(l: Life, ops: seq<Op>, stream: seq<byte>)
    decreases |ops|
  {
    ops != [] ==> Live(l, ops[0], stream) && LiveRun(Perform(l, ops[0]), ops[1..], stream)
  }

  /** A connect on a socket that is still tracked although its request is out. */
  predicate Reconnects(l: Life, op: Op) {
    op.CallConnect? && l.k.tracked && l.request != []
  }

  predicate ReconnectsIn(l: Life, ops: seq<Op>)
    decreases |ops|
  {
    ops != [] && (Reconnects(l, ops[0]) || ReconnectsIn(Perform(l, ops[0]), ops[1..]))
  }

  /** The first byte handed to the application, which follows those removed, is one of the stream's first four. */
  predicate ReplyReachedApp(l: Life) {
    l.got != [] && |l.removed| < HEADER_LEN
  }

  /** Tracked, and nothing taken off the stream yet. */
  ghost predicate Awaiting(l: Life, stream: seq<byte>) {
    && Orderly(l) && l.inbound <= stream && l.k.tracked && l.removed == [] && (l.request == [] ==> l.inbound == [])
  }

  ghost predicate Released(l: Life, stream: seq<byte>) {
    && Orderly(l) && l.inbound <= stream && !l.k.tracked
    && (l.removed == REPLY || (l.removed == [] && (l.request == [] ==> l.inbound == [])))
  }

  /** A read on an awaiting socket fails or takes the reply. */
  lemma AwaitedRead(l: Life, fault: Fault, stream: seq<byte>)
    requires Awaiting(l, stream) && REPLY <= stream && (fault != FirstFails ==> |l.k.rx| >= HEADER_LEN)
    ensures var (v, l1) := AfterRead(l, fault);
            && l1.inbound == l.inbound && l1.request == l.request && l1.sent == l.sent && l1.got == l.got
            && if fault == FirstFails then v == Skip && Awaiting(l1, stream)
               else v == Proceed && l1.removed == REPLY && Released(l1, stream)
  {
    ReadKeepsOrder(l, fault);
    FailedReceive(l.k.rx, false);
    if fault == FirstFails {
      assert ReadReply(l.k, fault) == (Skip, l.k);
      hide ReadReply;
      assert l.removed + [] == l.removed;
    } else {
      assert l.k.rx == l.inbound;
      var rest := l.k.rx[HEADER_LEN..];
      assert l.k.rx == REPLY + rest;
      TakesReply(l.k.rx, fault);
      assert ReadReply(l.k, fault) == (Proceed, l.k.(tracked := false, rx := rest));
      hide ReadReply;
      assert l.k.rx[..|l.k.rx| - |rest|] == REPLY;
    }
  }

  lemma TakesReply(s: seq<byte>, fault: Fault)
    requires REPLY <= s && fault != FirstFails
    ensures Read(s, false, fault) == (NoTlvs, s[HEADER_LEN..])
  {
  }

  /** A step of an awaiting socket releases it without the reply only by a connect. */
  lemma AwaitingStep(l: Life, op: Op, stream: seq<byte>)
    requires Awaiting(l, stream) && REPLY <= stream && Live(l, op, stream)
    ensures var r := Perform(l, op);
            if r.k.tracked then Awaiting(r, stream) && !Reconnects(l, op)
            else Released(r, stream) && (Reconnects(l, op) <==> r.removed == [] && r.request != [])
  {
    OpKeepsOrder(l, op);
    hide RequestBytes, RequestWritten, AfterRead, Orderly;
    match op {
      case Arrive(data) =>
      case CallConnect(d, c, link, fault) =>
        var (sent, k1) := SendRequest(l.k, d, c, link);
        if sent {
          RequestNotEmpty(d, c);
          SentAwaits(l, k1, d, c, stream);
          AwaitedRead(l.(k := k1, request := RequestBytes(d, c)), fault, stream);
        }
      case CallSend(data, fault) => AwaitedRead(l, fault, stream);
      case CallRecv(n, fault) => AwaitedRead(l, fault, stream);
    }
  }

  lemma RequestNotEmpty(d: Dest, c: CookieSetting)
    requires Addressable(d)
    ensures RequestBytes(d, c) != []
  {
    hide Body;
  }

  lemma SentAwaits(l: Life, k1: Sock, d: Dest, c: CookieSetting, stream: seq<byte>)
    requires Awaiting(l, stream) && l.request == [] && Addressable(d)
    requires k1 == l.k.(tx := l.k.tx + RequestBytes(d, c)) && RequestBytes(d, c) != []
    ensures Awaiting(l.(k := k1, request := RequestBytes(d, c)), stream)
  {
    hide RequestBytes;
  }

  lemma ReleasedStep(l: Life, op: Op, stream: seq<byte>)
    requires Released(l, stream) && Live(l, op, stream)
    ensures Released(Perform(l, op), stream) && Perform(l, op).removed == l.removed
    ensures Perform(l, op).request == l.request && !Reconnects(l, op)
  {
    OpKeepsOrder(l, op);
    hide Orderly;
  }

  lemma {:induction false} ReleasedRun(l: Life, ops: seq<Op>, stream: seq<byte>)
    requires Released(l, stream) && LiveRun(l, ops, stream)
    ensures Released(PerformAll(l, ops), stream) && PerformAll(l, ops).removed == l.removed
    ensures PerformAll(l, ops).request == l.request && !ReconnectsIn(l, ops)
    decreases |ops|
  {
    hide Perform, Released, Live, Reconnects;
    if ops != [] {
      ReleasedStep(l, ops[0], stream);
      ReleasedRun(Perform(l, ops[0]), ops[1..], stream);
    }
  }

  lemma {:induction false} AwaitingRun(l: Life, ops: seq<Op>, stream: seq<byte>)
    requires Awaiting(l, stream) && REPLY <= stream && LiveRun(l, ops, stream)
    ensures var e := PerformAll(l, ops);
            if e.k.tracked then Awaiting(e, stream) && !ReconnectsIn(l, ops)
            else Released(e, stream) && (ReconnectsIn(l, ops) <==> e.removed == [] && e.request != [])
    decreases |ops|
  {
    hide Perform, Released, Awaiting, Live, Reconnects;
    if ops != [] {
      AwaitingStep(l, ops[0], stream);
      var r := Perform(l, ops[0]);
      if r.k.tracked {
        AwaitingRun(r, ops[1..], stream);
      } else {
        ReleasedRun(r, ops[1..], stream);
        ReleasedForGood(r, ops[1..]);
      }
    } else {
      assert l.k.tracked by { AwaitingTracked(l, stream); }
    }
  }

  lemma AwaitingTracked(l: Life, stream: seq<byte>)
    requires Awaiting(l, stream)
    ensures l.k.tracked
  {
  }

  /**
   * Over every run of a redirected socket on which the converter sends its reply and then the destination's
   * bytes: reply bytes reach the application exactly when it connected again with the request already out
   * and the reply not yet read, and received something after that. Then it reads the stream from its first
   * byte; otherwise it reads what the destination sent.
   */
  lemma ReplyLeaksExactly(ops: seq<Op>, data: seq<byte>)
    requires LiveRun(NewLife(true), ops, REPLY + data)
    ensures var e := PerformAll(NewLife(true), ops);
            && (ReplyReachedApp(e) <==> ReconnectsIn(NewLife(true), ops) && e.got != [])
            && e.got <= if ReconnectsIn(NewLife(true), ops) then REPLY + data else data
  {
    AwaitingRun(NewLife(true), ops, REPLY + data);
    LeakCases(NewLife(true), ops, PerformAll(NewLife(true), ops), data);
  }

  lemma LeakCases(l: Life, ops: seq<Op>, e: Life, data: seq<byte>)
    requires if e.k.tracked then Awaiting(e, REPLY + data) && !ReconnectsIn(l, ops)
             else Released(e, REPLY + data) && (ReconnectsIn(l, ops) <==> e.removed == [] && e.request != [])
    ensures ReplyReachedApp(e) <==> ReconnectsIn(l, ops) && e.got != []
    ensures e.got <= if ReconnectsIn(l, ops) then REPLY + data else data
  {
    hide ReconnectsIn;
    if e.got != [] {
      if e.removed == REPLY {
        assert e.inbound == REPLY + (e.got + e.k.rx);
        assert e.got + e.k.rx == e.inbound[4..] <= (REPLY + data)[4..] == data;
      }
    }
  }

  /**
   * The other direction, as long as nothing has come back: application bytes follow the request, before the
   * converter has answered it, exactly when the socket connected again with the request out and then sent.
   */
  lemma DataFollowsRequestExactly(ops: seq<Op>, data: seq<byte>)
    requires LiveRun(NewLife(true), ops, REPLY + data)
    ensures var e := PerformAll(NewLife(true), ops);
            e.request != [] && e.inbound == [] ==>
              (e.k.tx != e.request <==> ReconnectsIn(NewLife(true), ops) && e.sent != [])
  {
    AwaitingRun(NewLife(true), ops, REPLY + data);
    RequestAlone(PerformAll(NewLife(true), ops), ReconnectsIn(NewLife(true), ops), REPLY + data);
  }

  lemma RequestAlone(e: Life, again: bool, stream: seq<byte>)
    requires if e.k.tracked then Awaiting(e, stream) && !again
             else Released(e, stream) && (again <==> e.removed == [] && e.request != [])
    ensures e.request != [] && e.inbound == [] ==> (e.k.tx != e.request <==> again && e.sent != [])
  {
    assert |e.k.tx| == |e.request| + |e.sent|;
    if e.sent == [] {
      assert e.request + [] == e.request;
    }
  }

  /** A run that does so: connect, connect again, send. */
  lemma SecondConnectThenSend(d: Dest, data: seq<byte>)
    requires Addressable(d)
    ensures var ops := [CallConnect(d, NoCookie, Up, FirstFails), CallConnect(d, NoCookie, Refused, FirstFails),
                        CallSend(data, NoFault)];
            var e := PerformAll(NewLife(true), ops);
            && LiveRun(NewLife(true), ops, REPLY) && ReconnectsIn(NewLife(true), ops)
            && e.inbound == [] && e.request == RequestBytes(d, NoCookie) && e.k.tx == e.request + data
  {
    var l0 := NewLife(true);
    var c1, c2 := CallConnect(d, NoCookie, Up, FirstFails), CallConnect(d, NoCookie, Refused, FirstFails);
    var s := CallSend(data, NoFault);
    MessageSizeIsLength(RequestOpts(d, NoCookie));
    RequestNotEmpty(d, NoCookie);
    assert RequestWritten(d, NoCookie);
    hide RequestBytes, RequestWritten, Read, MessageSize;
    var l1 := Perform(l0, c1);
    assert ReadReply(l1.k, FirstFails) == (Skip, l1.k);
    assert l1.k == Sock(true, [], RequestBytes(d, NoCookie)) && l1.inbound == [];
    var l2 := Perform(l1, c2);
    var l3 := Perform(l2, s);
    assert l3.k.tx == RequestBytes(d, NoCookie) + data;
    assert [c1, c2, s][1..] == [c2, s] && [c2, s][1..] == [s] && [s][1..] == [];
    hide Perform;
    assert LiveRun(l2, [s], REPLY) && PerformAll(l2, [s]) == PerformAll(l3, []);
    assert LiveRun(l1, [c2, s], REPLY) && PerformAll(l1, [c2, s]) == PerformAll(l2, [s]);
    assert ReconnectsIn(l1, [c2, s]);
  }

  /**
   * connect again while the reply is outstanding, whether refused by the kernel or given another address family,
   * and whether the reply is there already or comes later: the next read starts with the reply's own bytes.
   */
  lemma SecondConnectLeaksReply(k: Sock, d: Dest, c: CookieSetting, link: Link, fault: Fault,
                                late: seq<byte>, rest: seq<byte>, n: nat)
    requires k.tracked && !(RequestWritten(d, c) && link.Up?) && k.rx + late == REPLY + rest
    ensures var after := Connect(k, d, c, link, fault).1;
            Recv(after.(rx := after.rx + late), n, NoFault).2 == Front(REPLY + rest, n)
  {
  }
}
