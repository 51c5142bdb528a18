/**
 * convert_write: the caller's buffer is zeroed, the flags are walked in ascending order through the
 * table of callbacks, and the word counts are back-filled into single bytes.
 *
 * Message is the message as a value; ConvertWrite is the in-place writer proved against it.
 */
module Writer {
  import opened Bytes
  import opened Wire

  // ----- The message as a value

  /** A byte count stored as words in a uint8_t. */
  function WordByte(len: nat): byte {
    len / PADDING % 256
  }

  /** The type registered for flag i in the callback table. */
  function FlagType(i: nat): byte
    requires i < F_MAX
  {
    match i
    case 0 => TYPE_INFO
    case 1 => TYPE_CONNECT
    case 2 => TYPE_EXTENDED
    case 3 => TYPE_SUPPORTED
    case 4 => TYPE_COOKIE
    case _ => TYPE_ERROR
  }

  predicate Writable(i: nat) {
    i == F_CONNECT || i == F_EXTENDED || i == F_COOKIE || i == F_ERROR
  }

  /** What follows the type and length bytes of the element written for flag i. */
  function Payload(i: nat, o: Opts): (p: seq<byte>)
    requires Writable(i)
    ensures (2 + |p|) % PADDING == 0 && |p| >= 2
  {
    if i == F_CONNECT then o.port + o.addr
    else if i == F_EXTENDED then [0, 0] + Pad(o.tcpOptions)
    else if i == F_COOKIE then [0, 0] + Pad(o.cookie)
    else [o.errorCode, 0]
  }

  function Element(i: nat, o: Opts): seq<byte>
    requires Writable(i)
  {
    [FlagType(i), WordByte(2 + |Payload(i, o)|)] + Payload(i, o)
  }

  /** The elements for the flags from i on. */
  function Body(o: Opts, i: nat): seq<byte>
    requires i <= F_MAX && Supported(o)
    decreases F_MAX - i
  {
    if i == F_MAX then []
    else if i in o.flags then Element(i, o) + Body(o, i + 1)
    else Body(o, i + 1)
  }

  predicate Supported(o: Opts) {
    F_INFO !in o.flags && F_SUPPORTED !in o.flags
  }

  function Message(o: Opts): seq<byte>
    requires Supported(o)
  {
    var body := Body(o, 0);
    [VERSION, WordByte(HEADER_LEN + |body|), MAGIC_HI, MAGIC_LO] + body
  }

  /** The size of the message counted element by element. */
  function MessageSize(o: Opts): nat {
    HEADER_LEN
    + (if F_CONNECT in o.flags then CONNECT_LEN else 0)
    + (if F_EXTENDED in o.flags then Align(4 + |o.tcpOptions|) else 0)
    + (if F_COOKIE in o.flags then Align(4 + |o.cookie|) else 0)
    + (if F_ERROR in o.flags then 4 else 0)
  }

  function Part(i: nat, o: Opts): seq<byte>
    requires Writable(i)
  {
    if i in o.flags then Element(i, o) else []
  }

  lemma BodyUnrolled(o: Opts)
    requires Supported(o)
    ensures Body(o, 0) == Part(F_CONNECT, o) + (Part(F_EXTENDED, o) + (Part(F_COOKIE, o) + Part(F_ERROR, o)))
  {
    hide Element;
    assert Body(o, 6) == [] && Part(F_ERROR, o) + [] == Part(F_ERROR, o);
    assert Body(o, 5) == Part(F_ERROR, o);
    assert Body(o, 4) == Part(F_COOKIE, o) + Body(o, 5);
    assert Body(o, 3) == Body(o, 4) && Body(o, 2) == Part(F_EXTENDED, o) + Body(o, 3);
    assert Body(o, 1) == Part(F_CONNECT, o) + Body(o, 2) && Body(o, 0) == Body(o, 1);
  }

  /** The values the four callbacks write, and their sizes. */
  lemma PayloadIs(o: Opts)
    ensures forall i :: Writable(i) <==> i == F_CONNECT || i == F_EXTENDED || i == F_COOKIE || i == F_ERROR
    ensures Payload(F_CONNECT, o) == o.port + o.addr && 2 + |Payload(F_CONNECT, o)| == CONNECT_LEN
    ensures [0, 0] + Payload(F_EXTENDED, o) == [0, 0, 0, 0] + Pad(o.tcpOptions)
    ensures 2 + |Payload(F_EXTENDED, o)| == Align(4 + |o.tcpOptions|)
    ensures [0, 0] + Payload(F_COOKIE, o) == [0, 0, 0, 0] + Pad(o.cookie)
    ensures 2 + |Payload(F_COOKIE, o)| == Align(4 + |o.cookie|)
    ensures 2 + |Payload(F_ERROR, o)| == 4
  {
  }

  lemma PartSize(i: nat, o: Opts)
    requires Writable(i)
    ensures |Part(i, o)| == if i in o.flags then 2 + |Payload(i, o)| else 0
  {
    hide Payload;
  }

  lemma MessageSizeIsLength(o: Opts)
    requires Supported(o)
    ensures |Message(o)| == MessageSize(o)
  {
    BodyUnrolled(o);
    PayloadIs(o);
    hide Body, Part, Payload, Align, Pad;
    PartSize(F_CONNECT, o); PartSize(F_EXTENDED, o); PartSize(F_COOKIE, o); PartSize(F_ERROR, o);
  }

  // ----- The callbacks

  ghost predicate ZeroFrom(b: seq<byte>, at: nat) {
    forall k :: at <= k < |b| ==> b[k] == 0
  }

  /** Bytes [at, at + n) of b hold `piece`; everything else is as in a. */
  ghost predicate Spliced(a: seq<byte>, b: seq<byte>, at: nat, piece: seq<byte>) {
    && |b| == |a| && at + |piece| <= |a|
    && b == a[..at] + piece + a[at + |piece|..]
  }

  method Copy(buff: array<byte>, at: nat, data: seq<byte>)
    requires at + |data| <= buff.Length
    modifies buff
    ensures Spliced(old(buff[..]), buff[..], at, data)
  {
    ghost var was := buff[..];
    for i := 0 to |data|
      invariant buff[..] == was[..at] + data[..i] + was[at + i..]
    {
      buff[at + i] := data[i];
      SpliceOn(was, data, at, i);
    }
  }

  lemma SpliceOn(was: seq<byte>, data: seq<byte>, at: nat, i: nat)
    requires at + |data| <= |was| && i < |data|
    ensures (was[..at] + data[..i] + was[at + i..])[at + i := data[i]] == was[..at] + data[..i + 1] + was[at + i + 1..]
  {
  }

  lemma JoinSplices(a: seq<byte>, b: seq<byte>, c: seq<byte>, at: nat, first: seq<byte>, second: seq<byte>)
    requires Spliced(a, b, at, first) && Spliced(b, c, at + |first|, second)
    ensures Spliced(a, c, at, first + second)
  {
    assert c == a[..at] + (first + second) + a[at + |first| + |second|..];
  }

  /** A piece written into the middle of another. */
  lemma NestSplices(a: seq<byte>, b: seq<byte>, c: seq<byte>, at: nat, outer: seq<byte>, k: nat, inner: seq<byte>)
    requires Spliced(a, b, at, outer) && Spliced(b, c, at + k, inner) && k + |inner| <= |outer|
    ensures Spliced(a, c, at, outer[..k] + inner + outer[k + |inner|..])
  {
    assert b[..at + k] == a[..at] + outer[..k];
    assert b[at + k + |inner|..] == outer[k + |inner|..] + a[at + |outer|..];
    assert c == a[..at] + (outer[..k] + inner + outer[k + |inner|..]) + a[at + |outer|..];
  }

  lemma SplicedParts(a: seq<byte>, b: seq<byte>, at: nat, piece: seq<byte>)
    requires |b| == |a| && at + |piece| <= |a|
    requires b[..at] == a[..at] && b[at..at + |piece|] == piece && b[at + |piece|..] == a[at + |piece|..]
    ensures Spliced(a, b, at, piece)
  {
    assert b == b[..at] + b[at..at + |piece|] + b[at + |piece|..];
  }

  lemma PartsOfSpliced(a: seq<byte>, b: seq<byte>, at: nat, piece: seq<byte>)
    requires Spliced(a, b, at, piece)
    ensures b[..at] == a[..at] && b[at..at + |piece|] == piece && b[at + |piece|..] == a[at + |piece|..]
  {
  }

  method WriteConnect(buff: array<byte>, at: nat, o: Opts) returns (ret: int)
    requires at <= buff.Length
    modifies buff
    ensures ret == if at + CONNECT_LEN <= buff.Length then CONNECT_LEN else -1
    ensures ret < 0 ==> buff[..] == old(buff[..])
    ensures ret >= 0 ==> Spliced(old(buff[..]), buff[..], at + 2, o.port + o.addr)
  {
    if buff.Length - at < CONNECT_LEN { return -1; }
    ghost var was := buff[..];
    Copy(buff, at + 2, o.port);
    ghost var mid := buff[..];
    Copy(buff, at + 4, o.addr);
    JoinSplices(was, mid, buff[..], at + 2, o.port, o.addr);
    ret := CONNECT_LEN;
  }

  /** Only the code is written: the fourth byte stays as it was, zero once the whole buffer has been cleared. */
  method WriteError(buff: array<byte>, at: nat, o: Opts) returns (ret: int)
    requires at <= buff.Length
    modifies buff
    ensures ret == if at + 4 <= buff.Length then 4 else -1
    ensures ret < 0 ==> buff[..] == old(buff[..])
    ensures ret >= 0 ==> Spliced(old(buff[..]), buff[..], at + 2, [o.errorCode])
  {
    if buff.Length - at < 4 { return -1; }
    buff[at + 2] := o.errorCode;
    ret := 4;
  }

  /** The Extended TCP Header and Cookie callbacks: clear the aligned element, then copy the data. */
  method WriteOpaque(buff: array<byte>, at: nat, data: seq<byte>) returns (ret: int)
    requires at <= buff.Length
    modifies buff
    ensures ret == if at + Align(4 + |data|) <= buff.Length then Align(4 + |data|) else -1
    ensures ret < 0 ==> buff[..] == old(buff[..])
    ensures ret >= 0 ==> Spliced(old(buff[..]), buff[..], at, [0, 0, 0, 0] + Pad(data))
  {
    var length := Align(4 + |data|);
    if buff.Length - at < length { return -1; }
    ghost var was := buff[..];
    Copy(buff, at, Zeros(length));
    ghost var mid := buff[..];
    Copy(buff, at + 4, data);
    hide Spliced;
    NestSplices(was, mid, buff[..], at, Zeros(length), 4, data);
    assert Zeros(length)[..4] + data + Zeros(length)[4 + |data|..] == [0, 0, 0, 0] + Pad(data);
    ret := length;
  }

  /** The element's value once written over a byte `fill`: only an Error shows it. */
  function PayloadOver(i: nat, o: Opts, fill: byte): (p: seq<byte>)
    requires Writable(i)
    ensures |p| == |Payload(i, o)| && (fill == 0 ==> p == Payload(i, o))
  {
    if i == F_ERROR then [o.errorCode, fill] else Payload(i, o)
  }

  function ElementOver(i: nat, o: Opts, fill: byte): (e: seq<byte>)
    requires Writable(i)
    ensures |e| == 2 + |Payload(i, o)| && (fill == 0 ==> e == Element(i, o))
  {
    [FlagType(i), WordByte(2 + |Payload(i, o)|)] + PayloadOver(i, o, fill)
  }

  /** What a callback's splice means for the element it belongs to. */
  lemma PieceParts(a: seq<byte>, b: seq<byte>, at: nat, i: nat, o: Opts)
    requires Writable(i) && at + 2 + |Payload(i, o)| <= |a| && |b| == |a|
    requires i == F_CONNECT ==> Spliced(a, b, at + 2, Payload(i, o))
    requires i == F_EXTENDED || i == F_COOKIE ==> Spliced(a, b, at, [0, 0] + Payload(i, o))
    requires i == F_ERROR ==> Spliced(a, b, at + 2, [o.errorCode])
    ensures var end := at + 2 + |Payload(i, o)|;
            b[..at] == a[..at] && b[end..] == a[end..] && b[at + 2..end] == PayloadOver(i, o, a[end - 1])
  {
    if i == F_CONNECT {
      PartsOfSpliced(a, b, at + 2, Payload(i, o));
      assert b[..at] == b[..at + 2][..at] == a[..at + 2][..at] == a[..at];
    } else if i == F_ERROR {
      assert b[at + 2..at + 4] == [o.errorCode, a[at + 3]];
    } else {
      PartsOfSpliced(a, b, at, [0, 0] + Payload(i, o));
      assert b[at + 2..at + 2 + |Payload(i, o)|] == b[at..at + 2 + |Payload(i, o)|][2..];
    }
  }

  /** The callback registered for flag i: everything but the type and length bytes, and the size. */
  method WriteTlv(i: nat, buff: array<byte>, at: nat, o: Opts) returns (ret: int)
    requires i < F_MAX && at <= buff.Length
    modifies buff
    ensures ret == if Writable(i) && at + 2 + |Payload(i, o)| <= buff.Length then 2 + |Payload(i, o)| else -1
    ensures ret < 0 ==> buff[..] == old(buff[..])
    ensures ret >= 0 ==>
              && buff[..at] == old(buff[..at]) && buff[at + ret..] == old(buff[at + ret..])
              && buff[at + 2..at + ret] == PayloadOver(i, o, old(buff[at + ret - 1]))
  {
    hide Spliced, Payload, PayloadOver, Pad, Align;
    PayloadIs(o);
    ghost var was := buff[..];
    match i {
      case 1 => ret := WriteConnect(buff, at, o);
      case 2 => ret := WriteOpaque(buff, at, o.tcpOptions);
      case 4 => ret := WriteOpaque(buff, at, o.cookie);
      case 5 => ret := WriteError(buff, at, o);
      case _ => ret := -1;
    }
    if ret >= 0 {
      PieceParts(was, buff[..], at, i, o);
    }
  }

  // ----- The loop over the table

  /** Element i written at `at`, with type and length filled in by the loop. */
  method WriteElement(i: nat, buff: array<byte>, at: nat, o: Opts) returns (ret: int)
    requires i < F_MAX && at <= buff.Length
    modifies buff
    ensures ret == if Writable(i) && at + 2 + |Payload(i, o)| <= buff.Length then 2 + |Payload(i, o)| else -1
    ensures ret >= 0 ==> Spliced(old(buff[..]), buff[..], at, ElementOver(i, o, old(buff[at + ret - 1])))
  {
    ghost var was := buff[..];
    ret := WriteTlv(i, buff, at, o);
    if ret < 0 { return; }
    buff[at] := FlagType(i);
    buff[at + 1] := WordByte(ret);
    hide Payload, PayloadOver, Spliced;
    assert buff[at..at + ret] == [FlagType(i), WordByte(ret)] + PayloadOver(i, o, was[at + ret - 1]);
    SplicedParts(was, buff[..], at, ElementOver(i, o, was[at + ret - 1]));
  }

  /** Why writing the flags from i on fails: an unsupported flag, or not enough room. */
  function Needed(o: Opts, i: nat): nat
    requires i <= F_MAX
    decreases F_MAX - i
  {
    if i == F_MAX then 0
    else (if i in o.flags && Writable(i) then 2 + |Payload(i, o)| else 0) + Needed(o, i + 1)
  }

  predicate SupportedFrom(o: Opts, i: nat) {
    (i == 0 ==> F_INFO !in o.flags) && (i <= F_SUPPORTED ==> F_SUPPORTED !in o.flags)
  }

  /** The elements for the flags from i on, written over a last byte `fill`: an Error comes last. */
  function BodyOver(o: Opts, i: nat, fill: byte): (b: seq<byte>)
    requires i <= F_MAX && Supported(o)
    decreases F_MAX - i
    ensures |b| == |Body(o, i)| && (fill == 0 ==> b == Body(o, i))
  {
    if i == F_MAX then []
    else if i in o.flags then ElementOver(i, o, fill) + BodyOver(o, i + 1, fill)
    else BodyOver(o, i + 1, fill)
  }

  /** The last of the bytes the elements take, as it was before. */
  ghost function FillOf(was: seq<byte>, at: nat, o: Opts): byte {
    if 0 < Needed(o, 0) && at + Needed(o, 0) <= |was| then was[at + Needed(o, 0) - 1] else 0
  }

  /** The first i flags are dealt with and take the `len` bytes from `at`; the buffer was `was` before. */
  ghost predicate WrittenUpTo(was: seq<byte>, b: seq<byte>, at: nat, len: nat, o: Opts, i: nat) {
    && i <= F_MAX && |b| == |was| && at + len <= |b|
    && b[..at] == was[..at] && b[at + len..] == was[at + len..]
    && (SupportedFrom(o, i) <==> Supported(o))
    && len + Needed(o, i) == Needed(o, 0)
    && (Supported(o) ==> b[at..at + len] + BodyOver(o, i, FillOf(was, at, o)) == BodyOver(o, 0, FillOf(was, at, o)))
  }

  lemma SkipFlag(was: seq<byte>, b: seq<byte>, at: nat, len: nat, o: Opts, i: nat)
    requires i < F_MAX && WrittenUpTo(was, b, at, len, o, i) && i !in o.flags
    ensures WrittenUpTo(was, b, at, len, o, i + 1)
  {
    hide FillOf;
  }

  lemma AppendPiece(b: seq<byte>, c: seq<byte>, at: nat, len: nat, piece: seq<byte>, rest: seq<byte>)
    requires at + len <= |b| && Spliced(b, c, at + len, piece)
    ensures c[..at] == b[..at] && c[at + len + |piece|..] == b[at + len..][|piece|..]
    ensures c[at..at + len + |piece|] + rest == b[at..at + len] + (piece + rest)
  {
    assert c[..at + len] == b[..at + len] && c[at + len..at + len + |piece|] == piece;
    assert c[..at] == c[..at + len][..at] == b[..at + len][..at] == b[..at];
    assert c[at..at + len] == c[..at + len][at..] == b[..at + len][at..] == b[at..at + len];
    assert c[at..at + len + |piece|] == c[at..at + len] + c[at + len..at + len + |piece|];
  }

  /** What an element that fits is written over is what was there at the start. */
  lemma FillAt(was: seq<byte>, b: seq<byte>, at: nat, len: nat, o: Opts, i: nat)
    requires i < F_MAX && WrittenUpTo(was, b, at, len, o, i) && i in o.flags && Writable(i)
    requires at + len + 2 + |Payload(i, o)| <= |b|
    ensures ElementOver(i, o, b[at + len + 1 + |Payload(i, o)|]) == ElementOver(i, o, FillOf(was, at, o))
  {
    if i == F_ERROR {
      assert Needed(o, 5) == 4;
      assert b[at + len..][3] == was[at + len..][3];
    }
  }

  lemma WriteFlag(was: seq<byte>, b: seq<byte>, c: seq<byte>, at: nat, len: nat, o: Opts, i: nat, piece: seq<byte>)
    requires i < F_MAX && WrittenUpTo(was, b, at, len, o, i) && i in o.flags && Writable(i)
    requires piece == ElementOver(i, o, FillOf(was, at, o)) && Spliced(b, c, at + len, piece)
    ensures WrittenUpTo(was, c, at, len + |piece|, o, i + 1)
  {
    assert Needed(o, i) == |piece| + Needed(o, i + 1);
    var fill := FillOf(was, at, o);
    SupportedNext(o, i);
    assert i + 1 <= F_MAX && 2 + |Payload(i, o)| == |piece|;
    assert |c| == |b| && at + len + |piece| <= |b|;
    hide FillOf, ElementOver, Body, Payload, Element, Supported, SupportedFrom, Needed, Spliced;
    assert was[at + len..][|piece|..] == was[at + len + |piece|..];
    if Supported(o) {
      var rest := BodyOver(o, i + 1, fill);
      assert BodyOver(o, i, fill) == piece + rest;
      AppendPiece(b, c, at, len, piece, rest);
    } else {
      AppendPiece(b, c, at, len, piece, []);
    }
  }

  /** A flag that can be written was none of the two that cannot. */
  lemma SupportedNext(o: Opts, i: nat)
    requires Writable(i)
    ensures SupportedFrom(o, i + 1) <==> SupportedFrom(o, i)
  {
  }

  lemma AllWritten(was: seq<byte>, b: seq<byte>, at: nat, len: nat, o: Opts)
    requires WrittenUpTo(was, b, at, len, o, F_MAX)
    ensures Supported(o) && len == Needed(o, 0) == |Body(o, 0)| && Spliced(was, b, at, BodyOver(o, 0, FillOf(was, at, o)))
  {
    hide FillOf, Spliced, Body, Supported;
    assert BodyOver(o, F_MAX, FillOf(was, at, o)) == [] && Needed(o, F_MAX) == 0;
    hide BodyOver, Needed;
    assert b[at..at + len] + [] == b[at..at + len];
    SplicedParts(was, b, at, BodyOver(o, 0, FillOf(was, at, o)));
  }

  lemma NothingWritten(b: seq<byte>, at: nat, o: Opts)
    requires at <= |b|
    ensures WrittenUpTo(b, b, at, 0, o, 0)
  {
    if Supported(o) {
      var all := BodyOver(o, 0, FillOf(b, at, o));
      assert b[at..at + 0] + all == all;
    }
  }

  /** A flag that cannot be written or does not fit dooms the whole message. */
  lemma FailedFlag(o: Opts, i: nat, room: int)
    requires i < F_MAX && i in o.flags && !(Writable(i) && 2 + |Payload(i, o)| <= room)
    ensures Supported(o) && i != F_INFO && i != F_SUPPORTED ==> Needed(o, i) > room
  {
  }

  method WriteTlvs(buff: array<byte>, at: nat, o: Opts) returns (ret: int)
    requires at <= buff.Length
    modifies buff
    ensures ret >= 0 <==> F_INFO !in o.flags && F_SUPPORTED !in o.flags && at + Needed(o, 0) <= buff.Length
    ensures ret >= 0 ==> Supported(o) && ret == |Body(o, 0)| == Needed(o, 0)
    ensures ret >= 0 ==> Spliced(old(buff[..]), buff[..], at, BodyOver(o, 0, FillOf(old(buff[..]), at, o)))
  {
    hide Body, BodyOver, Needed, Payload, Element, ElementOver, FillOf;
    ghost var was := buff[..];
    var flags := o.flags;
    var len := 0;
    NothingWritten(was, at, o);
    for i := 0 to F_MAX
      invariant forall k :: i <= k < F_MAX ==> (k in flags <==> k in o.flags)
      invariant WrittenUpTo(was, buff[..], at, len, o, i)
    {
      if i in flags {
        ghost var before := buff[..];
        ret := WriteElement(i, buff, at + len, o);
        if ret < 0 {
          FailedFlag(o, i, buff.Length - at - len);
          return;
        }
        FillAt(was, before, at, len, o, i);
        WriteFlag(was, before, buff[..], at, len, o, i, ElementOver(i, o, FillOf(was, at, o)));
        len := len + ret;
        flags := flags - {i};
      } else {
        SkipFlag(was, buff[..], at, len, o, i);
      }
    }
    AllWritten(was, buff[..], at, len, o);
    ret := len;
  }

  /** The cleared buffer with all of the header but its length. */
  ghost predicate Cleared(b: seq<byte>) {
    |b| >= HEADER_LEN && b[0] == VERSION && b[2] == MAGIC_HI && b[3] == MAGIC_LO && ZeroFrom(b, HEADER_LEN)
  }

  lemma ClearedFill(was: seq<byte>, o: Opts)
    requires Cleared(was) && Supported(o)
    ensures BodyOver(o, 0, FillOf(was, HEADER_LEN, o)) == Body(o, 0)
  {
    assert FillOf(was, HEADER_LEN, o) == 0;
  }

  lemma HeaderCompletes(was: seq<byte>, b: seq<byte>, o: Opts)
    requires Cleared(was) && Supported(o) && Spliced(was, b, HEADER_LEN, Body(o, 0))
    ensures var n := |Message(o)|;
            var c := b[1 := WordByte(n)];
            n == HEADER_LEN + |Body(o, 0)| && n <= |c| && c[..n] == Message(o) && ZeroFrom(c, n)
  {
    hide Body;
    PartsOfSpliced(was, b, HEADER_LEN, Body(o, 0));
  }

  method ConvertWrite(buff: array<byte>, o: Opts) returns (ret: int)
    modifies buff
    ensures ret >= 0 <==> F_INFO !in o.flags && F_SUPPORTED !in o.flags && MessageSize(o) <= buff.Length
    ensures ret >= 0 ==> ret == |Message(o)| <= buff.Length
    ensures ret >= 0 ==> buff[..ret] == Message(o) && ZeroFrom(buff[..], ret)
  {
    Copy(buff, 0, Zeros(buff.Length));
    if buff.Length < HEADER_LEN {
      return -1;
    }
    assert ZeroFrom(buff[..], 0);
    buff[0] := VERSION;
    buff[2], buff[3] := MAGIC_HI, MAGIC_LO;
    ghost var was := buff[..];
    assert Cleared(was);
    hide Cleared, Body, BodyOver, FillOf, Spliced, Message, Needed, MessageSize;
    ret := WriteTlvs(buff, HEADER_LEN, o);
    NeededIsSize(o);
    if ret < 0 { return; }
    ClearedFill(was, o);
    HeaderCompletes(was, buff[..], o);
    ghost var b := buff[..];
    var length := HEADER_LEN + ret;
    buff[1] := WordByte(length);
    assert buff[..] == b[1 := WordByte(length)];
    return length;
  }

  lemma NeededIsSize(o: Opts)
    ensures HEADER_LEN + Needed(o, 0) == MessageSize(o)
  {
    assert Needed(o, 4) == (if F_COOKIE in o.flags then Align(4 + |o.cookie|) else 0) + Needed(o, 5);
    assert Needed(o, 2) == (if F_EXTENDED in o.flags then Align(4 + |o.tcpOptions|) else 0) + Needed(o, 3);
  }
}
