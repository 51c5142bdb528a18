/**
 * The converter's own reading of a request: a second parser for the same bytes, with its own length
 * rule and no checks. Field layouts are fixed byte positions.
 */
module PyCodec {
  import opened Bytes
  import opened Wire
  import opened Parser
  import opened Writer
  import opened RoundTrip
  import opened ReadOpts

  // ----- The element walk

  datatype PyTlv = PyConnect(words: byte, port: Port, addr: Addr) | PyOther(kind: byte, words: byte)

  datatype Walk =
    | Walked(tlvs: seq<PyTlv>)
    | Endless       // an element of length zero: the offset never moves again
    | ShortField    // fewer bytes than the fixed fields of the element

  /** The element found at the front of the data, whatever its declared length. */
  function Dissect(data: seq<byte>): PyTlv
    requires |data| >= 4 && (data[0] == TYPE_CONNECT ==> |data| >= CONNECT_LEN)
  {
    if data[0] == TYPE_CONNECT then PyConnect(data[1], data[2..4], data[4..20]) else PyOther(data[0], data[1])
  }

  predicate TooShort(data: seq<byte>) {
    |data| < 4 || (data[0] == TYPE_CONNECT && |data| < CONNECT_LEN)
  }

  function WalkFrom(data: seq<byte>): Walk
    decreases |data|
  {
    if data == [] then Walked([])
    else if TooShort(data) then ShortField
    else if data[1] == 0 then Endless
    else if |data| <= data[1] * PADDING then Walked([Dissect(data)])
    else match WalkFrom(data[data[1] * PADDING..])
      case Walked(tlvs) => Walked([Dissect(data)] + tlvs)
      case other => other
  }

  function Prefixed(tlvs: seq<PyTlv>, w: Walk): Walk {
    if w.Walked? then Walked(tlvs + w.tlvs) else w
  }

  /** The walk from an offset, past the end or not. */
  function WalkAt(data: seq<byte>, offset: nat): Walk {
    if offset <= |data| then WalkFrom(data[offset..]) else Walked([])
  }

  lemma WalkTurn(data: seq<byte>, offset: nat)
    requires offset < |data|
    ensures var here := data[offset..];
            if TooShort(here) then WalkAt(data, offset) == ShortField
            else if here[1] == 0 then WalkAt(data, offset) == Endless
            else WalkAt(data, offset) == Prefixed([Dissect(here)], WalkAt(data, offset + here[1] * PADDING))
  {
    var here := data[offset..];
    if !TooShort(here) && offset + here[1] * PADDING <= |data| {
      DropDrop(data, offset, here[1] * PADDING);
    }
  }

  lemma PrefixedTwice(a: seq<PyTlv>, b: seq<PyTlv>, w: Walk)
    ensures Prefixed(a, Prefixed(b, w)) == Prefixed(a + b, w)
  {
    if w.Walked? {
      ConcatAssoc(a, b, w.tlvs);
    }
  }

  /** The loop over the offset; where it would never end it reports Endless. */
  method WalkTlvs(data: seq<byte>) returns (w: Walk)
    ensures w == WalkFrom(data)
  {
    hide WalkFrom, Dissect;
    var tlvs: seq<PyTlv> := [];
    var offset := 0;
    assert data[0..] == data;
    while offset < |data|
      invariant 0 <= offset
      invariant WalkFrom(data) == Prefixed(tlvs, WalkAt(data, offset))
      decreases |data| - offset
    {
      WalkTurn(data, offset);
      var here := data[offset..];
      if TooShort(here) { return ShortField; }
      var tlv := Dissect(here);
      if here[1] == 0 { return Endless; }
      PrefixedTwice(tlvs, [tlv], WalkAt(data, offset + here[1] * PADDING));
      tlvs := tlvs + [tlv];
      offset := offset + here[1] * PADDING;
    }
    WalkEnds(data, offset);
    w := Walked(tlvs);
  }

  lemma WalkEnds(data: seq<byte>, offset: nat)
    requires offset >= |data|
    ensures WalkAt(data, offset) == Walked([])
  {
  }

  /** The fixed fields of an element are there: four bytes, or twenty for a Connect. */
  predicate Whole(data: seq<byte>, at: nat) {
    at + 4 <= |data| && (data[at] == 0x0a ==> at + 20 <= |data|)
  }

  /** From one offset to the next; the element's length may reach past the end of the data. */
  predicate Hop(data: seq<byte>, from: nat, to: nat) {
    Whole(data, from) && data[from + 1] > 0 && to == from + data[from + 1] as nat * 4
  }

  predicate HopAt(data: seq<byte>, offsets: seq<nat>, i: nat)
    requires i + 1 < |offsets|
  {
    Hop(data, offsets[i], offsets[i + 1])
  }

  /** The offsets the loop goes through from the first on. */
  ghost predicate Path(data: seq<byte>, offsets: seq<nat>) {
    offsets != [] && forall i {:trigger HopAt(data, offsets, i)} :: 0 <= i < |offsets| - 1 ==> HopAt(data, offsets, i)
  }

  function Last(offsets: seq<nat>): nat
    requires offsets != []
  {
    offsets[|offsets| - 1]
  }

  /** The element at an offset, field by field. */
  function ShownAt(data: seq<byte>, at: nat): PyTlv
    requires Whole(data, at)
  {
    if data[at] == 0x0a then PyConnect(data[at + 1], data[at + 2..at + 4], data[at + 4..at + 20])
    else PyOther(data[at], data[at + 1])
  }

  /** The elements on a path, the place where it ends not among them. */
  ghost function Shown(data: seq<byte>, offsets: seq<nat>): seq<PyTlv>
    requires Path(data, offsets)
    decreases |offsets|
  {
    if |offsets| == 1 then []
    else
      assert HopAt(data, offsets, 0);
      PathRest(data, offsets);
      [ShownAt(data, offsets[0])] + Shown(data, offsets[1..])
  }

  lemma PathRest(data: seq<byte>, offsets: seq<nat>)
    requires Path(data, offsets) && |offsets| > 1
    ensures Path(data, offsets[1..]) && Last(offsets[1..]) == Last(offsets)
  {
    var rest := offsets[1..];
    forall i | 0 <= i < |rest| - 1 ensures HopAt(data, rest, i) {
      assert HopAt(data, offsets, i + 1);
    }
  }

  lemma WholeIsEnough(data: seq<byte>, at: nat)
    requires at < |data|
    ensures Whole(data, at) <==> !TooShort(data[at..])
    ensures Whole(data, at) ==> Dissect(data[at..]) == ShownAt(data, at) && data[at..][1] == data[at + 1]
  {
    var here := data[at..];
    if Whole(data, at) && data[at] == 0x0a {
      assert here[2..4] == data[at + 2..at + 4] && here[4..20] == data[at + 4..at + 20];
    }
  }

  /** A path shows its elements, and the walk goes on at its end. */
  lemma {:induction false} PathDecides(data: seq<byte>, offsets: seq<nat>)
    requires Path(data, offsets)
    ensures WalkAt(data, offsets[0]) == Prefixed(Shown(data, offsets), WalkAt(data, Last(offsets)))
    decreases |offsets|
  {
    if |offsets| > 1 {
      assert HopAt(data, offsets, 0);
      PathRest(data, offsets);
      WholeIsEnough(data, offsets[0]);
      WalkTurn(data, offsets[0]);
      hide WalkAt, ShownAt, Dissect, TooShort;
      PathDecides(data, offsets[1..]);
      PrefixedTwice([ShownAt(data, offsets[0])], Shown(data, offsets[1..]), WalkAt(data, Last(offsets)));
    }
  }

  /** Where the loop cannot go on: past the end, in front of too few bytes, or at an element of length zero. */
  predicate StopsAt(data: seq<byte>, at: nat) {
    at >= |data| || !Whole(data, at) || data[at + 1] == 0
  }

  lemma WalkStops(data: seq<byte>, at: nat)
    requires StopsAt(data, at)
    ensures WalkAt(data, at) == if at >= |data| then Walked([]) else if !Whole(data, at) then ShortField else Endless
  {
    if at < |data| {
      WholeIsEnough(data, at);
      WalkTurn(data, at);
    }
  }

  lemma {:induction false} PathOf(data: seq<byte>, from: nat) returns (offsets: seq<nat>)
    ensures Path(data, offsets) && offsets[0] == from && StopsAt(data, Last(offsets))
    decreases |data| - from
  {
    if StopsAt(data, from) {
      offsets := [from];
    } else {
      var rest := PathOf(data, from + data[from + 1] as nat * 4);
      offsets := [from] + rest;
      forall i | 0 <= i < |offsets| - 1 ensures HopAt(data, offsets, i) {
        if i > 0 { assert HopAt(data, rest, i - 1); }
      }
    }
  }

  /** The loop's way through the data, from its start to where it stops. */
  ghost predicate WayThrough(data: seq<byte>, offsets: seq<nat>) {
    Path(data, offsets) && offsets[0] == 0 && StopsAt(data, Last(offsets))
  }

  lemma WayDecides(data: seq<byte>, offsets: seq<nat>)
    requires WayThrough(data, offsets)
    ensures WalkFrom(data) == if Last(offsets) >= |data| then Walked(Shown(data, offsets))
                              else if !Whole(data, Last(offsets)) then ShortField else Endless
  {
    assert data[0..] == data;
    hide WalkFrom, StopsAt;
    PathDecides(data, offsets);
    WalkStops(data, Last(offsets));
    hide Shown;
  }

  /**
   * The walk exactly: its offsets hop from element to element by their lengths; it ends well if they pass the
   * end of the data, with the fields of every element on the way, raises if they stop in front of too few
   * bytes, and never ends if they reach an element of length zero, of any type.
   */
  lemma WalkExactly(data: seq<byte>)
    ensures exists offsets :: WayThrough(data, offsets)
    ensures forall offsets :: WayThrough(data, offsets) ==>
              WalkFrom(data) == if Last(offsets) >= |data| then Walked(Shown(data, offsets))
                                else if !Whole(data, Last(offsets)) then ShortField else Endless
  {
    var way := PathOf(data, 0);
    assert WayThrough(data, way);
    hide WayThrough, Shown, WalkFrom;
    forall offsets | WayThrough(data, offsets)
      ensures WalkFrom(data) == if Last(offsets) >= |data| then Walked(Shown(data, offsets))
                                else if !Whole(data, Last(offsets)) then ShortField else Endless
    {
      WayDecides(data, offsets);
    }
  }

  /** The walk never ends exactly when whole elements lead it to one of length zero, of any type. */
  lemma EndlessExactlyAtZeroLength(data: seq<byte>)
    ensures WalkFrom(data) == Endless <==>
              exists offsets :: Path(data, offsets) && offsets[0] == 0
                                && Last(offsets) < |data| && Whole(data, Last(offsets)) && data[Last(offsets) + 1] == 0
  {
    var way := PathOf(data, 0);
    WayDecides(data, way);
    forall offsets | Path(data, offsets) && offsets[0] == 0
                     && Last(offsets) < |data| && Whole(data, Last(offsets)) && data[Last(offsets) + 1] == 0
      ensures WalkFrom(data) == Endless
    {
      WayDecides(data, offsets);
    }
  }

  // ----- read_convert_header

  /** The types the server has a name for. */
  const CONVERT_TLVS: set<byte> := {TYPE_INFO, TYPE_CONNECT, TYPE_EXTENDED, TYPE_SUPPORTED, TYPE_COOKIE, TYPE_ERROR}

  datatype Request = NoHeader | Found(tlvs: seq<PyTlv>) | NeverEnds | Raises

  function OfWalk(w: Walk): Request {
    match w
    case Walked(tlvs) => Found(tlvs)
    case Endless => NeverEnds
    case ShortField => Raises
  }

  /**
   * Version and magic are not looked at, and the second receive asks for the whole total length again. Each
   * receive returns what is there: `first` bytes of the stream have arrived at the one, `second` behind the
   * header at the other.
   */
  function ReadRequest(stream: seq<byte>, first: nat, second: nat): (r: (Request, seq<byte>))
    ensures |r.1| <= |stream| && r.1 == stream[|stream| - |r.1|..]
  {
    var hdr := Front(Front(stream, first), HEADER_LEN);
    var q1 := stream[|hdr|..];
    if |hdr| != HEADER_LEN then (NoHeader, q1)
    else
      var data := Front(Front(q1, second), hdr[1] * PADDING);
      (OfWalk(WalkFrom(data)), q1[|data|..])
  }

  /** The types the server knows, by number. */
  lemma KnownTypes(kind: byte)
    ensures kind in CONVERT_TLVS
            <==> kind == 0x01 || kind == 0x0a || kind == 0x14 || kind == 0x15 || kind == 0x16 || kind == 0x1e
  {
  }

  /**
   * Any stream: without four bytes at the first receive there is no header; otherwise only the length byte of
   * the header matters, and the elements are those of what the second receive returns.
   */
  lemma RequestExactly(stream: seq<byte>, first: nat, second: nat)
    ensures ReadRequest(stream, first, second)
         == if first < 4 || |stream| < 4 then (NoHeader, stream[|Front(Front(stream, first), 4)|..])
            else
              var data := Front(Front(stream[4..], second), stream[1] as nat * 4);
              (OfWalk(WalkFrom(data)), stream[4 + |data|..])
  {
    hide WalkFrom;
    if first >= 4 && |stream| >= 4 {
      var data := Front(Front(stream[4..], second), stream[1] as nat * 4);
      DropDrop(stream, 4, |data|);
    }
  }

  /** A receive of at most n bytes when `there` have arrived. */
  method Recv(sock: Stream, there: nat, n: nat) returns (got: seq<byte>)
    modifies sock
    ensures got == Front(Front(old(sock.data), there), n) && sock.data == old(sock.data)[|got|..]
  {
    got := sock.RecvFrom(if n <= there then n else there, false);
  }

  method ReadConvertHeader(sock: Stream, first: nat, second: nat) returns (r: Request)
    modifies sock
    ensures (r, sock.data) == ReadRequest(old(sock.data), first, second)
  {
    var hdr := Recv(sock, first, HEADER_LEN);
    if |hdr| != HEADER_LEN { return NoHeader; }
    var data := Recv(sock, second, hdr[1] * PADDING);
    var w := WalkTlvs(data);
    r := OfWalk(w);
  }

  // ----- The length rule and the reply

  /** int(1 + l / 4) for l bytes of elements. */
  function PyTotalLength(l: nat): nat {
    1 + l / 4
  }

  /** Both sides compute the same length byte for every message that fits it. */
  lemma LengthRulesAgree(l: nat)
    requires l % PADDING == 0
    ensures PyTotalLength(l) == WordByte(HEADER_LEN + l) <==> HEADER_LEN + l <= MAX_MESSAGE
  {
  }

  /** The empty Convert header sent once the destination is connected: version 1, one word, magic 8803. */
  const REPLY: seq<byte> := [1, PyTotalLength(0), 8803 / 256, 8803 % 256]

  /** Version 1, one word, and the magic number 0x2263. */
  lemma ReplyOctets()
    ensures REPLY == [1, 1, 0x22, 0x63]
  {
  }

  /** The client takes exactly the reply off its stream, and finds no element in it. */
  lemma ReplyReadsExactly(rest: seq<byte>)
    ensures Read(REPLY + rest, false, NoFault) == (NoTlvs, rest)
  {
    ReplyOctets();
    var s := REPLY + rest;
    assert [1, 1, 0x22, 0x63] <= s && s[4..] == rest;
    ReadsExactly(s, false);
    LeavesExactly(s, false, NoFault);
    hide Read, CarriesOptions, CarriesError, CarriesHang;
  }

  // ----- The two parsers

  /** What the walk shows of an element. */
  function View(t: Tlv): PyTlv
    requires Fits(t)
  {
    if t.Connect? then PyConnect(5, t.port, t.addr) else PyOther(Kind(t), Size(t) / PADDING)
  }

  function Views(ts: seq<Tlv>): (v: seq<PyTlv>)
    requires AllFit(ts)
    ensures |v| == |ts| && forall i :: 0 <= i < |ts| ==> v[i] == View(ts[i])
  {
    seq(|ts|, i requires 0 <= i < |ts| => View(ts[i]))
  }

  lemma WalkOne(t: Tlv, rest: seq<byte>)
    requires Fits(t)
    ensures WalkFrom(Encode(t) + rest) == Prefixed([View(t)], WalkFrom(rest))
  {
    var b := Encode(t) + rest;
    assert b[2..Size(t)] == Value(t);
    if t.Connect? {
      assert b[2..4] == Value(t)[..2] == t.port && b[4..20] == Value(t)[2..] == t.addr;
    }
    assert Dissect(b) == View(t);
    assert b[Size(t)..] == rest;
  }

  lemma ConsEncoding(ts: seq<Tlv>)
    requires ts != [] && AllFit(ts)
    ensures AllFit(ts[1..]) && EncodeAll(ts) == Encode(ts[0]) + EncodeAll(ts[1..])
    ensures Views(ts) == [View(ts[0])] + Views(ts[1..])
  {
    EncodeAllCons(ts);
    ViewsCons(ts);
    hide *;
  }

  lemma ViewsCons(ts: seq<Tlv>)
    requires ts != [] && AllFit(ts)
    ensures Fits(ts[0]) && AllFit(ts[1..]) && Views(ts) == [View(ts[0])] + Views(ts[1..])
  {
    hide Fits, View;
  }

  lemma {:induction false} WalkEncoding(ts: seq<Tlv>)
    requires AllFit(ts)
    ensures WalkFrom(EncodeAll(ts)) == Walked(Views(ts))
    decreases |ts|
  {
    if ts != [] {
      hide WalkFrom, Encode, View, EncodeAll, Views;
      var rest := ts[1..];
      ConsEncoding(ts);
      WalkOne(ts[0], EncodeAll(rest));
      WalkEncoding(rest);
    }
  }

  datatype Target = NoTarget | To(port: Port, addr: Addr)

  /** The target of the last Connect in the walk. */
  function LastConnect(tlvs: seq<PyTlv>): Target {
    if tlvs == [] then NoTarget
    else
      var last := tlvs[|tlvs| - 1];
      if last.PyConnect? then To(last.port, last.addr) else LastConnect(tlvs[..|tlvs| - 1])
  }

  function TargetOf(o: Opts): Target {
    if F_CONNECT in o.flags then To(o.port, o.addr) else NoTarget
  }

  lemma ViewsSnoc(init: seq<Tlv>, last: Tlv)
    requires AllFit(init) && Fits(last)
    ensures AllFit(init + [last]) && Views(init + [last]) == Views(init) + [View(last)]
    ensures ApplyAll(EMPTY, init + [last]) == Apply(ApplyAll(EMPTY, init), last)
  {
    hide View;
    ApplyAllConcat(EMPTY, init, [last]);
    assert [last][1..] == [];
  }

  lemma LastConnectSnoc(tlvs: seq<PyTlv>, t: PyTlv)
    ensures LastConnect(tlvs + [t]) == if t.PyConnect? then To(t.port, t.addr) else LastConnect(tlvs)
  {
    assert (tlvs + [t])[..|tlvs|] == tlvs;
  }

  lemma TargetSnoc(o: Opts, t: Tlv)
    requires Fits(t)
    ensures TargetOf(Apply(o, t)) == if View(t).PyConnect? then To(View(t).port, View(t).addr) else TargetOf(o)
  {
  }

  lemma {:induction false} LastConnectIsTarget(ts: seq<Tlv>)
    requires AllFit(ts)
    ensures LastConnect(Views(ts)) == TargetOf(ApplyAll(EMPTY, ts))
  {
    if ts == [] {
      assert Views(ts) == [];
    } else {
      var init, last := ts[..|ts| - 1], ts[|ts| - 1];
      assert ts == init + [last];
      hide Views, View, ApplyAll, Apply, LastConnect, TargetOf;
      ViewsSnoc(init, last);
      TargetSnoc(ApplyAll(EMPTY, init), last);
      LastConnectIsTarget(init);
      LastConnectSnoc(Views(init), View(last));
    }
  }

  /** On every buffer the C parser accepts, the walk finds the same elements and the same target. */
  lemma ParsersAgree(b: seq<byte>)
    requires Parse(b).Accepted?
    ensures AllFit(Elements(b)) && EncodeAll(Elements(b)) == b
    ensures WalkFrom(b) == Walked(Views(Elements(b)))
    ensures LastConnect(WalkFrom(b).tlvs) == TargetOf(Parse(b).opts)
  {
    ElementsSplit(EMPTY, b);
    var ts := Elements(b);
    assert EncodeAll(ts) + [] == EncodeAll(ts);
    WalkEncoding(ts);
    LastConnectIsTarget(ts);
  }

  /**
   * A written request all of which is there is read whole. The second receive overruns it by one word, so it
   * takes bytes that follow the request exactly when there are any.
   */
  lemma RequestRead(o: Opts, extra: seq<byte>, first: nat, second: nat)
    requires Supported(o) && MessageSize(o) <= MAX_MESSAGE
    requires first >= HEADER_LEN && second >= |Message(o)|
    ensures AllFit(TlvsOf(o))
    ensures ReadRequest(Message(o) + extra, first, second).1 == extra[|Front(extra, 4)|..]
    ensures extra == [] ==> ReadRequest(Message(o) + extra, first, second).0 == Found(Views(TlvsOf(o)))
    ensures ReadRequest(Message(o) + extra, first, second).1 == extra <==> extra == []
  {
    hide Body, EncodeAll, WalkFrom, TlvsOf, MessageSize;
    MessageSizeIsLength(o);
    LengthByteFaithfulExactly(o);
    BodyIsEncoding(o);
    WalkEncoding(TlvsOf(o));
    var m, q := Message(o), Message(o) + extra;
    var q1 := q[HEADER_LEN..];
    assert Front(Front(q, first), HEADER_LEN) == m[..HEADER_LEN] && q1 == Body(o, 0) + extra;
    var taken := Front(Front(q1, second), m[1] * PADDING);
    assert taken == Body(o, 0) + Front(extra, 4);
    assert q1[|taken|..] == extra[|Front(extra, 4)|..];
    if extra == [] {
      assert taken == Body(o, 0);
    }
  }

  /** What the walk shows of a redirected client's Connect, and of the cookie behind it. */
  function ConnectView(o: Opts): PyTlv {
    PyConnect(5, o.port, o.addr)
  }

  function CookieView(o: Opts): PyTlv
    requires 4 + |o.cookie| <= MAX_MESSAGE
  {
    PyOther(TYPE_COOKIE, Align(4 + |o.cookie|) / PADDING)
  }

  function ClientViews(o: Opts): seq<PyTlv>
    requires F_COOKIE in o.flags ==> 4 + |o.cookie| <= MAX_MESSAGE
  {
    if F_COOKIE in o.flags then [ConnectView(o), CookieView(o)] else [ConnectView(o)]
  }

  /** How the first n bytes of a client's request read. */
  function CutRequest(o: Opts, n: nat): Request
    requires F_COOKIE in o.flags ==> 4 + |o.cookie| <= MAX_MESSAGE
  {
    if n < HEADER_LEN then NoHeader
    else if n == HEADER_LEN then Found([])
    else if n == 24 then Found([ConnectView(o)])
    else if n >= 28 && F_COOKIE in o.flags then Found([ConnectView(o), CookieView(o)])
    else Raises
  }

  /** How a whole request reads with x behind it, the word the second receive asks for too much. */
  function OverrunRequest(o: Opts, x: seq<byte>): Request
    requires F_COOKIE in o.flags ==> 4 + |o.cookie| <= MAX_MESSAGE
  {
    if |x| < 4 || x[0] == TYPE_CONNECT then Raises
    else if x[1] == 0 then NeverEnds
    else Found(ClientViews(o) + [PyOther(x[0], x[1])])
  }

  /** How the first n bytes of a client's request and of the data behind it read. */
  function ReadAs(o: Opts, data: seq<byte>, n: nat): Request
    requires MessageSize(o) <= MAX_MESSAGE && Supported(o) && n <= |Message(o)| + |data|
  {
    if n <= |Message(o)| then CutRequest(o, n) else OverrunRequest(o, data[..n - |Message(o)|])
  }

  /** The bytes that the two receives return of an m-byte request with d bytes of data behind it. */
  function Received(m: nat, d: nat, first: nat, second: nat): nat {
    var there := m + if d < 4 then d else 4;
    if first < HEADER_LEN then first
    else if HEADER_LEN + second <= there then HEADER_LEN + second else there
  }

  /** The request names at least one element. */
  predicate Names(r: Request) {
    r.Found? && r.tlvs != []
  }

  /** Whether n bytes of an m-byte request with data behind it let its Connect be found. */
  predicate ConnectComesIn(m: nat, data: seq<byte>, n: nat)
    requires n <= m + |data|
  {
    (n == 24 || n >= 28) && (n > m ==> n == m + 4 && data[0] != TYPE_CONNECT && data[1] != 0)
  }

  ghost predicate ClientRequest(o: Opts) {
    {F_CONNECT} <= o.flags <= {F_CONNECT, F_COOKIE} && MessageSize(o) <= MAX_MESSAGE
  }

  /**
   * A client's request delivered in pieces, with application data behind it or not. Its Connect is found exactly
   * when 24 bytes came in, which is all of it or all but the cookie, or at least 28, which cut inside the
   * cookie at worst, unless the second receive went on into the data and what it got there is no element, or
   * one that hangs the walk. What has not come in stays on the socket, to be taken for the application's.
   */
  lemma RequestInPieces(o: Opts, data: seq<byte>, first: nat, second: nat)
    requires ClientRequest(o)
    ensures var m := Message(o);
            var n := Received(|m|, |data|, first, second);
            && n <= |m + data| && ReadRequest(m + data, first, second) == (ReadAs(o, data, n), (m + data)[n..])
            && (Names(ReadAs(o, data, n)) <==> ConnectComesIn(|m|, data, n))
  {
    hide *;
    ClientMessage(o);
    var n := Received(|Message(o)|, |data|, first, second);
    ReceivedBounds(|Message(o)|, |data|, first, second);
    TakesFirst(Message(o), data, first, second);
    FoundExactly(o, data, n);
    if first >= HEADER_LEN {
      WalkReceived(o, data, n);
    } else {
      FewReceived(o, data, n);
    }
  }

  lemma ClientMessage(o: Opts)
    requires ClientRequest(o)
    ensures Supported(o) && |Message(o)| == MessageSize(o) == HEADER_LEN + |Body(o, 0)| <= MAX_MESSAGE
    ensures Message(o)[1] * PADDING == |Message(o)| && Message(o)[HEADER_LEN..] == Body(o, 0)
    ensures if F_COOKIE in o.flags then |Message(o)| >= 28 && 4 + |o.cookie| <= MAX_MESSAGE else |Message(o)| == 24
  {
    MessageSizeIsLength(o);
    LengthByteFaithfulExactly(o);
    hide Body;
  }

  lemma ReceivedBounds(m: nat, d: nat, first: nat, second: nat)
    requires m >= HEADER_LEN
    ensures var n := Received(m, d, first, second);
            n <= m + 4 && n <= m + d && (if first < HEADER_LEN then n == first else n >= HEADER_LEN)
  {
  }

  lemma FewReceived(o: Opts, data: seq<byte>, n: nat)
    requires MessageSize(o) <= MAX_MESSAGE && Supported(o) && n < HEADER_LEN
    ensures ReadAs(o, data, n) == NoHeader
  {
    hide Body, MessageSize;
  }

  lemma FoundExactly(o: Opts, data: seq<byte>, n: nat)
    requires MessageSize(o) <= MAX_MESSAGE && Supported(o) && n <= |Message(o)| + |data| && n <= |Message(o)| + 4
    requires if F_COOKIE in o.flags then |Message(o)| >= 28 && 4 + |o.cookie| <= MAX_MESSAGE else |Message(o)| == 24
    ensures Names(ReadAs(o, data, n)) <==> ConnectComesIn(|Message(o)|, data, n)
  {
    hide Message, MessageSize;
  }

  /** The two receives take a front of the stream. */
  lemma TakesFirst(m: seq<byte>, data: seq<byte>, first: nat, second: nat)
    requires HEADER_LEN <= |m| && m[1] * PADDING == |m|
    ensures var n := Received(|m|, |data|, first, second);
            && n <= |m + data|
            && ReadRequest(m + data, first, second)
               == (if first < HEADER_LEN then NoHeader else OfWalk(WalkFrom((m[HEADER_LEN..] + data)[..n - HEADER_LEN])),
                   (m + data)[n..])
  {
    var q := m + data;
    var n := Received(|m|, |data|, first, second);
    FrontTwice(q, first, HEADER_LEN);
    if first >= HEADER_LEN {
      assert q[..HEADER_LEN][1] == m[1] && q[HEADER_LEN..] == m[HEADER_LEN..] + data;
      var q1 := q[HEADER_LEN..];
      FrontTwice(q1, second, |m|);
      assert Front(Front(q1, second), |m|) == q1[..n - HEADER_LEN];
      assert q1[n - HEADER_LEN..] == q[n..];
    }
    hide WalkFrom, Front;
  }

  lemma FrontTwice(s: seq<byte>, k: nat, n: nat)
    ensures var f := if k <= n then k else n;
            Front(Front(s, k), n) == if f <= |s| then s[..f] else s
  {
  }

  lemma WalkReceived(o: Opts, data: seq<byte>, n: nat)
    requires ClientRequest(o) && |Body(o, 0)| == |Message(o)| - HEADER_LEN
    requires HEADER_LEN <= n <= |Message(o)| + 4 && n <= |Message(o)| + |data|
    requires F_COOKIE in o.flags ==> 4 + |o.cookie| <= MAX_MESSAGE
    ensures OfWalk(WalkFrom((Body(o, 0) + data)[..n - HEADER_LEN])) == ReadAs(o, data, n)
  {
    hide Body, Message, MessageSize, WalkFrom, CutRequest, OverrunRequest;
    if n <= |Message(o)| {
      assert (Body(o, 0) + data)[..n - HEADER_LEN] == Body(o, 0)[..n - HEADER_LEN];
      WalkCut(o, n - HEADER_LEN);
    } else {
      var x := data[..n - |Message(o)|];
      assert (Body(o, 0) + data)[..n - HEADER_LEN] == Body(o, 0) + x;
      WalkOverrun(o, x);
    }
  }

  lemma ClientViewsAre(o: Opts)
    requires Fits(FlagTlv(F_CONNECT, o)) && FlagTlv(F_CONNECT, o).Connect?
    requires F_COOKIE in o.flags ==>
               var cookie := FlagTlv(F_COOKIE, o);
               cookie.Cookie? && Fits(cookie) && Size(cookie) == Align(4 + |o.cookie|) && 4 + |o.cookie| <= MAX_MESSAGE
    ensures View(FlagTlv(F_CONNECT, o)) == ConnectView(o)
    ensures F_COOKIE in o.flags ==>
              && View(FlagTlv(F_COOKIE, o)) == CookieView(o) && ClientViews(o) == [ConnectView(o)] + [CookieView(o)]
    ensures F_COOKIE !in o.flags ==> ClientViews(o) == [ConnectView(o)]
  {
    hide Fits, Align;
  }

  lemma WalkOverrun(o: Opts, x: seq<byte>)
    requires ClientRequest(o) && 1 <= |x| <= 4
    requires F_COOKIE in o.flags ==> 4 + |o.cookie| <= MAX_MESSAGE
    ensures OfWalk(WalkFrom(Body(o, 0) + x)) == OverrunRequest(o, x)
  {
    ClientBody(o);
    OneWord(x);
    ClientViewsAre(o);
    hide Body, MessageSize, Message, ClientRequest, Encode, WalkFrom, Size, Fits;
    hide View, FlagTlv, ClientViews, ConnectView, CookieView;
    var connect := FlagTlv(F_CONNECT, o);
    if F_COOKIE in o.flags {
      var cookie := FlagTlv(F_COOKIE, o);
      ConcatAssoc(Encode(connect), Encode(cookie), x);
      WalkOne(connect, Encode(cookie) + x);
      WalkOne(cookie, x);
    } else {
      WalkOne(connect, x);
    }
  }

  /** A word or less of anything. */
  lemma OneWord(x: seq<byte>)
    requires 1 <= |x| <= 4
    ensures WalkFrom(x) == if |x| < 4 || x[0] == TYPE_CONNECT then ShortField
                           else if x[1] == 0 then Endless
                           else Walked([PyOther(x[0], x[1])])
  {
  }

  /** The body of a client's request is its Connect and then whole words of cookie, if any. */
  lemma ClientBody(o: Opts)
    requires ClientRequest(o)
    ensures var connect := FlagTlv(F_CONNECT, o);
            && Fits(connect) && |Encode(connect)| == 20 && |Body(o, 0)| == |Message(o)| - HEADER_LEN
            && (F_COOKIE !in o.flags ==> Body(o, 0) == Encode(connect))
            && (F_COOKIE in o.flags ==>
                  var cookie := FlagTlv(F_COOKIE, o);
                  && Fits(cookie) && Size(cookie) == Align(4 + |o.cookie|) && 4 + |o.cookie| <= MAX_MESSAGE
                  && Body(o, 0) == Encode(connect) + Encode(cookie))
  {
    MessageSizeIsLength(o);
    BodyIsEncoding(o);
    hide Body;
    var connect, cookie := FlagTlv(F_CONNECT, o), FlagTlv(F_COOKIE, o);
    if F_COOKIE in o.flags {
      assert TlvsOf(o) == [connect, cookie];
      ConsEncoding([connect, cookie]);
      ConsEncoding([cookie]);
      assert [connect, cookie][1..] == [cookie] && [cookie][1..] == [];
    } else {
      assert TlvsOf(o) == [connect];
      ConsEncoding([connect]);
      assert [connect][1..] == [];
    }
  }

  lemma WalkCut(o: Opts, n: nat)
    requires ClientRequest(o) && n <= |Body(o, 0)|
    requires F_COOKIE in o.flags ==> 4 + |o.cookie| <= MAX_MESSAGE
    ensures OfWalk(WalkFrom(Body(o, 0)[..n])) == CutRequest(o, HEADER_LEN + n)
  {
    ClientBody(o);
    ClientViewsAre(o);
    hide Body, MessageSize, Message, ClientRequest, Encode, WalkFrom, Size, Fits, View, FlagTlv, ConnectView, CookieView;
    var connect := FlagTlv(F_CONNECT, o);
    if n <= 20 {
      assert Body(o, 0)[..n] == Encode(connect)[..n];
      TruncatedConnect(connect, n);
    } else {
      var cookie := FlagTlv(F_COOKIE, o);
      var part := Encode(cookie)[..n - 20];
      assert Body(o, 0)[..n] == Encode(connect) + part;
      TruncatedCookie(cookie, n - 20);
      WalkOne(connect, part);
    }
  }

  lemma TruncatedConnect(t: Tlv, n: nat)
    requires t.Connect? && Fits(t) && n <= 20
    ensures WalkFrom(Encode(t)[..n]) == if n == 0 then Walked([]) else if n < 20 then ShortField else Walked([View(t)])
  {
    if n == 20 {
      WalkOne(t, []);
      assert Encode(t) + [] == Encode(t) == Encode(t)[..n];
    }
  }

  lemma TruncatedCookie(t: Tlv, n: nat)
    requires t.Cookie? && Fits(t) && 0 < n <= Size(t)
    ensures WalkFrom(Encode(t)[..n]) == if n < 4 then ShortField else Walked([View(t)])
  {
  }
}
