/** The codec as a whole: the fixed header, and what writing and parsing do to each other. */
module RoundTrip {
  import opened Bytes
  import opened Wire
  import opened Parser
  import opened Writer

  // ----- convert_parse_header

  datatype Header = BadHeader | TlvsFollow(length: nat)

  /** The number of bytes that follow, in size_t: a total length of zero words wraps around. */
  function ParseHeader(b: seq<byte>): Header {
    if |b| != HEADER_LEN then BadHeader
    else if b[0] != VERSION then BadHeader
    else if b[2] != MAGIC_HI || b[3] != MAGIC_LO then BadHeader
    else TlvsFollow(SizeSub(b[1] * PADDING, HEADER_LEN))
  }

  /** Which four bytes are a header, and how many bytes it says follow. */
  lemma HeaderExactly(b: seq<byte>)
    ensures ParseHeader(b).TlvsFollow? <==> |b| == 4 && b[0] == 1 && b[2] == 0x22 && b[3] == 0x63
    ensures ParseHeader(b).TlvsFollow? ==>
              ParseHeader(b).length == if b[1] >= 1 then b[1] as nat * 4 - 4 else 0xffff_ffff_ffff_fffc
  {
    if |b| == 4 && b[1] == 0 {
      assert SizeSub(0, HEADER_LEN) == SIZE_MODULUS - HEADER_LEN;
    }
  }

  // ----- The elements the writer emits

  function FlagTlv(i: nat, o: Opts): Tlv
    requires Writable(i)
  {
    if i == F_CONNECT then Connect(o.port, o.addr)
    else if i == F_EXTENDED then Extended([0, 0], Pad(o.tcpOptions))
    else if i == F_COOKIE then Cookie([0, 0], Pad(o.cookie))
    else Error(o.errorCode, [0])
  }

  function OneIf(i: nat, o: Opts): seq<Tlv>
    requires Writable(i)
  {
    if i in o.flags then [FlagTlv(i, o)] else []
  }

  function TlvsOf(o: Opts): seq<Tlv> {
    OneIf(F_CONNECT, o) + OneIf(F_EXTENDED, o) + OneIf(F_COOKIE, o) + OneIf(F_ERROR, o)
  }

  const WRITABLE: set<nat> := {F_CONNECT, F_EXTENDED, F_COOKIE, F_ERROR}

  /** What survives the trip: only flagged fields, data padded with zeros to whole words. */
  function Canonical(o: Opts): Opts {
    Opts(o.flags * WRITABLE,
         if F_CONNECT in o.flags then o.port else NO_PORT,
         if F_CONNECT in o.flags then o.addr else NO_ADDR,
         if F_ERROR in o.flags then o.errorCode else 0,
         if F_EXTENDED in o.flags then Pad(o.tcpOptions) else [],
         if F_COOKIE in o.flags then Pad(o.cookie) else [])
  }

  lemma ElementIsEncoding(i: nat, o: Opts)
    requires Writable(i) && 2 + |Payload(i, o)| <= MAX_MESSAGE
    ensures Fits(FlagTlv(i, o)) && Element(i, o) == Encode(FlagTlv(i, o))
  {
  }

  lemma OneIfIsPart(i: nat, o: Opts)
    requires Writable(i) && |Part(i, o)| <= MAX_MESSAGE
    ensures AllFit(OneIf(i, o)) && EncodeAll(OneIf(i, o)) == Part(i, o)
  {
    if i in o.flags {
      ElementIsEncoding(i, o);
      assert OneIf(i, o)[1..] == [];
      assert Encode(FlagTlv(i, o)) + EncodeAll([]) == Encode(FlagTlv(i, o));
    }
  }

  /** The body is the encoding of the elements, in flag order. */
  lemma BodyIsEncoding(o: Opts)
    requires Supported(o) && |Message(o)| <= MAX_MESSAGE
    ensures AllFit(TlvsOf(o)) && EncodeAll(TlvsOf(o)) == Body(o, 0)
  {
    hide Body, Part, OneIf, MessageSize, EncodeAll;
    BodyUnrolled(o);
    var a, b, c, d := OneIf(F_CONNECT, o), OneIf(F_EXTENDED, o), OneIf(F_COOKIE, o), OneIf(F_ERROR, o);
    PartsFit(o);
    OneIfIsPart(F_CONNECT, o); OneIfIsPart(F_EXTENDED, o); OneIfIsPart(F_COOKIE, o); OneIfIsPart(F_ERROR, o);
    EncodeAllConcat(c, d);
    EncodeAllConcat(b, c + d);
    EncodeAllConcat(a, b + (c + d));
    assert TlvsOf(o) == a + (b + (c + d));
  }

  lemma PartsFit(o: Opts)
    requires Supported(o) && |Message(o)| <= MAX_MESSAGE
    ensures forall i :: Writable(i) ==> |Part(i, o)| <= MAX_MESSAGE
  {
    BodyUnrolled(o);
  }

  lemma ApplyOneIf(base: Opts, i: nat, o: Opts)
    requires Writable(i)
    ensures ApplyAll(base, OneIf(i, o)) == if i in o.flags then Apply(base, FlagTlv(i, o)) else base
  {
    if i in o.flags {
      assert OneIf(i, o)[1..] == [];
    }
  }

  lemma ElementsMeanCanonical(o: Opts)
    ensures ApplyAll(EMPTY, TlvsOf(o)) == Canonical(o)
  {
    var a, b, c, d := OneIf(F_CONNECT, o), OneIf(F_EXTENDED, o), OneIf(F_COOKIE, o), OneIf(F_ERROR, o);
    ApplyAllConcat(EMPTY, a + b + c, d);
    ApplyAllConcat(EMPTY, a + b, c);
    ApplyAllConcat(EMPTY, a, b);
    ApplyOneIf(EMPTY, F_CONNECT, o);
    var o1 := ApplyAll(EMPTY, a);
    ApplyOneIf(o1, F_EXTENDED, o);
    var o2 := ApplyAll(o1, b);
    ApplyOneIf(o2, F_COOKIE, o);
    var o3 := ApplyAll(o2, c);
    ApplyOneIf(o3, F_ERROR, o);
    assert ApplyAll(o3, d).flags == Canonical(o).flags;
  }

  lemma CanonicalIsIdempotent(o: Opts)
    ensures Canonical(Canonical(o)) == Canonical(o)
    ensures TlvsOf(Canonical(o)) == TlvsOf(o)
  {
    PadTwice(o.tcpOptions);
    PadTwice(o.cookie);
  }

  lemma PadTwice(s: seq<byte>)
    ensures Pad(Pad(s)) == Pad(s)
  {
  }

  // ----- Main results

  /**
   * Round trip: parsing a written message of at most 1020 bytes gives the options back up to padding,
   * and writing those gives the same bytes.
   */
  lemma CodecRoundTrip(o: Opts)
    requires Supported(o) && o.flags * WRITABLE != {} && MessageSize(o) <= MAX_MESSAGE
    ensures var m := Message(o);
            && |m| == MessageSize(o)
            && ParseHeader(m[..HEADER_LEN]) == TlvsFollow(|m| - HEADER_LEN)
            && Parse(m[HEADER_LEN..]) == Accepted(Canonical(o))
    ensures Supported(Canonical(o)) && Message(Canonical(o)) == Message(o)
  {
    hide Body, Parse, ParseHeader, Canonical, MessageSize;
    BodyRoundTrip(o);
    MessageSizeIsLength(o);
    HeaderReadsBack(o);
    assert Message(o)[HEADER_LEN..] == Body(o, 0);
    RewriteIsSame(o);
  }

  lemma HeaderReadsBack(o: Opts)
    requires Supported(o) && |Message(o)| <= MAX_MESSAGE
    ensures ParseHeader(Message(o)[..HEADER_LEN]) == TlvsFollow(|Message(o)| - HEADER_LEN)
  {
    hide Body, MessageSize;
    MessageSizeIsLength(o);
    WholeWords(o);
    WordByteFaithful(|Message(o)|);
    var n := |Message(o)|;
    assert Message(o)[..HEADER_LEN] == [VERSION, WordByte(n), MAGIC_HI, MAGIC_LO];
    assert SizeSub(n, HEADER_LEN) == n - HEADER_LEN;
  }

  lemma BodyRoundTrip(o: Opts)
    requires Supported(o) && o.flags * WRITABLE != {} && MessageSize(o) <= MAX_MESSAGE
    ensures Parse(Body(o, 0)) == Accepted(Canonical(o))
  {
    hide Body, Canonical, FlagTlv, Parse;
    MessageSizeIsLength(o);
    BodyIsEncoding(o);
    ElementsMeanCanonical(o);
    var k :| k in o.flags * WRITABLE;
    assert FlagTlv(k, o) in TlvsOf(o);
    AcceptsExactlyEncodings(Body(o, 0));
  }

  lemma RewriteIsSame(o: Opts)
    requires Supported(o) && MessageSize(o) <= MAX_MESSAGE
    ensures Supported(Canonical(o)) && Message(Canonical(o)) == Message(o)
  {
    hide Body, TlvsOf, EncodeAll;
    var c := Canonical(o);
    CanonicalIsIdempotent(o);
    MessageSizeIsLength(o);
    MessageSizeIsLength(c);
    BodyIsEncoding(o);
    BodyIsEncoding(c);
  }

  /** A written message with no writable flag is the bare header, and there is nothing to parse after it. */
  lemma EmptyMessage(o: Opts)
    requires Supported(o) && o.flags * WRITABLE == {}
    ensures Message(o) == [VERSION, 1, MAGIC_HI, MAGIC_LO]
    ensures Parse(Message(o)[HEADER_LEN..]) == Rejected
  {
    BodyUnrolled(o);
    assert F_CONNECT !in o.flags && F_EXTENDED !in o.flags && F_COOKIE !in o.flags && F_ERROR !in o.flags by {
      assert forall k :: k in o.flags && k in WRITABLE ==> k in o.flags * WRITABLE;
    }
  }

  /** The header's single length byte is faithful exactly up to 1020 bytes. */
  lemma LengthByteFaithfulExactly(o: Opts)
    requires Supported(o)
    ensures Message(o)[1] * PADDING == |Message(o)| <==> MessageSize(o) <= MAX_MESSAGE
  {
    hide Body, MessageSize;
    MessageSizeIsLength(o);
    WholeWords(o);
    WordByteFaithful(MessageSize(o));
  }

  lemma WholeWords(o: Opts)
    ensures MessageSize(o) % PADDING == 0
  {
  }

  lemma WordByteFaithful(n: nat)
    requires n % PADDING == 0
    ensures WordByte(n) * PADDING == n <==> n <= MAX_MESSAGE
  {
    assert n == n / PADDING * PADDING;
  }

  /** Options as they come out of an accepted buffer of len bytes. */
  ghost predicate Parsed(o: Opts, len: nat) {
    && Canonical(o) == o
    && MessageSize(o) <= HEADER_LEN + len
  }

  lemma ApplyKeepsParsed(o: Opts, t: Tlv, len: nat)
    requires Parsed(o, len) && Fits(t)
    ensures Parsed(Apply(o, t), len + Size(t))
  {
    ApplyKeepsCanonical(o, t);
    hide Canonical;
    match t {
      case Connect(_, _) => assert Size(t) == CONNECT_LEN;
      case Extended(_, x) => assert Size(t) == 4 + |x| == Align(4 + |x|);
      case Cookie(_, x) => assert Size(t) == 4 + |x| == Align(4 + |x|);
      case Error(_, _) =>
    }
  }

  lemma ApplyKeepsCanonical(o: Opts, t: Tlv)
    requires Canonical(o) == o && Fits(t)
    ensures Canonical(Apply(o, t)) == Apply(o, t)
  {
    var r := Apply(o, t);
    assert Canonical(r).flags == r.flags;
  }

  lemma {:induction false} ApplyAllKeepsParsed(o: Opts, ts: seq<Tlv>, len: nat)
    requires Parsed(o, len) && AllFit(ts)
    ensures Parsed(ApplyAll(o, ts), len + |EncodeAll(ts)|)
    decreases |ts|
  {
    if ts != [] {
      ApplyKeepsParsed(o, ts[0], len);
      ApplyAllKeepsParsed(Apply(o, ts[0]), ts[1..], len + Size(ts[0]));
    }
  }

  /**
   * Normal form: whatever the order, duplicates or error values in an accepted buffer, its options can be
   * written in no more room, and the written form parses to the same options.
   */
  lemma NormalForm(b: seq<byte>)
    requires Parse(b).Accepted? && |b| <= MAX_MESSAGE - HEADER_LEN
    ensures var o := Parse(b).opts;
            && Supported(o) && |Message(o)| == MessageSize(o) <= HEADER_LEN + |b|
            && Parse(Message(o)[HEADER_LEN..]) == Accepted(o)
            && ParseHeader(Message(o)[..HEADER_LEN]) == TlvsFollow(|Message(o)| - HEADER_LEN)
  {
    hide Body, TlvsOf, Canonical, MessageSize, TlvStep;
    var o := Parse(b).opts;
    ParsedFromAccepted(b);
    CodecRoundTrip(o);
  }

  lemma ParsedFromAccepted(b: seq<byte>)
    requires Parse(b).Accepted?
    ensures Parsed(Parse(b).opts, |b|) && Supported(Parse(b).opts) && Parse(b).opts.flags * WRITABLE != {}
  {
    hide TlvStep;
    var o := Parse(b).opts;
    ElementsSplit(EMPTY, b);
    var ts := Elements(b);
    assert EncodeAll(ts) + [] == EncodeAll(ts);
    assert Canonical(EMPTY) == EMPTY;
    ApplyAllKeepsParsed(EMPTY, ts, 0);
    FlaggedByFirst(EMPTY, ts);
    assert o.flags <= WRITABLE;
  }

  lemma {:induction false} FlaggedByFirst(o: Opts, ts: seq<Tlv>)
    ensures ts != [] ==> ApplyAll(o, ts).flags * WRITABLE != {}
    ensures o.flags <= ApplyAll(o, ts).flags
    decreases |ts|
  {
    if ts != [] {
      var r := Apply(o, ts[0]);
      FlaggedByFirst(r, ts[1..]);
      var k: nat := match ts[0]
        case Connect(_, _) => F_CONNECT
        case Extended(_, _) => F_EXTENDED
        case Cookie(_, _) => F_COOKIE
        case Error(_, _) => F_ERROR;
      assert k in r.flags;
      assert k in ApplyAll(o, ts).flags * WRITABLE;
    }
  }

  // ----- The message, octet by octet

  /** A count of whole words in one byte. */
  function Words(n: nat): byte {
    n / 4 % 256
  }

  /** An element of whole words around some data: type, length in words, two zeros, the data, zeros to the end. */
  function OpaqueOctets(kind: byte, data: seq<byte>): seq<byte> {
    [kind, Words(Align(4 + |data|)), 0, 0] + data + Zeros(Align(|data|) - |data|)
  }

  /** The message written out: a fixed header, then Connect, Extended TCP Header, Cookie and Error where flagged. */
  function Octets(o: Opts): seq<byte> {
    var elements :=
      (if F_CONNECT in o.flags then [0x0a, 5] + o.port + o.addr else [])
      + ((if F_EXTENDED in o.flags then OpaqueOctets(0x14, o.tcpOptions) else [])
         + ((if F_COOKIE in o.flags then OpaqueOctets(0x16, o.cookie) else [])
            + if F_ERROR in o.flags then [0x1e, 1, o.errorCode, 0] else []));
    [1, Words(4 + |elements|), 0x22, 0x63] + elements
  }

  lemma ElementOctets(o: Opts)
    ensures Element(F_CONNECT, o) == [0x0a, 5] + o.port + o.addr
    ensures Element(F_EXTENDED, o) == OpaqueOctets(0x14, o.tcpOptions)
    ensures Element(F_COOKIE, o) == OpaqueOctets(0x16, o.cookie)
    ensures Element(F_ERROR, o) == [0x1e, 1, o.errorCode, 0]
  {
    PayloadIs(o);
    hide Align, Zeros;
  }

  lemma MessageIsOctets(o: Opts)
    requires Supported(o)
    ensures Message(o) == Octets(o)
  {
    BodyUnrolled(o);
    ElementOctets(o);
    hide Body, Element, OpaqueOctets;
  }
}
