/**
 * read_convert_opts: taking one Convert message off a socket, with or without peeking at its header.
 *
 * The kernel is a queue of the bytes that arrive before the peer closes; a receive with MSG_WAITALL
 * returns as many as were asked for, or all that is left.
 */
module ReadOpts {
  import opened Bytes
  import opened Wire
  import opened Parser
  import opened Writer
  import opened RoundTrip

  class Stream {
    var data: seq<byte>

    constructor (arriving: seq<byte>)
      ensures data == arriving
    {
      data := arriving;
    }

    method RecvFrom(n: nat, peek: bool) returns (got: seq<byte>)
      modifies this
      ensures got == Front(old(data), n)
      ensures data == if peek then old(data) else old(data)[|got|..]
    {
      got := if n <= |data| then data[..n] else data;
      if !peek {
        data := data[|got|..];
      }
    }
  }

  function Front(s: seq<byte>, n: nat): (f: seq<byte>)
    ensures |f| <= n && f <= s
  {
    if n <= |s| then s[..n] else s
  }

  /** Which of the two receives the kernel fails, if any. */
  datatype Fault = NoFault | FirstFails | SecondFails

  datatype ReadResult =
    | Options(opts: Opts)
    | NoTlvs            // success on a bare header: the result pointer is never assigned
    | ErrorTlv(code: byte)
    | Unreadable        // the first receive failed
    | Malformed
    | Hangs             // the element loop does not end
    | Undefined         // a total length of zero words asks for a buffer of 2^64 - 4 bytes

  function Judge(outcome: Outcome): ReadResult {
    match outcome
    case Accepted(o) => if F_ERROR in o.flags then ErrorTlv(o.errorCode) else Options(o)
    case Rejected => Malformed
    case Diverges => Hangs
  }

  /** Result and remaining stream. */
  function Read(s: seq<byte>, peek: bool, fault: Fault): (ReadResult, seq<byte>) {
    if fault == FirstFails then (Unreadable, s) else
    var hdr := Front(s, HEADER_LEN);
    var s1 := if peek then s else s[|hdr|..];
    match ParseHeader(hdr)
    case BadHeader => (Malformed, s1)
    case TlvsFollow(length) =>
      if length == 0 then (NoTlvs, s1)
      else if !MallocSucceeds(length) then (Undefined, s1)
      else if fault == SecondFails then (Malformed, s1)
      else
        var offset := if peek then HEADER_LEN else 0;
        var got := Front(s1, length + offset);
        (if |got| == length + offset then Judge(Parse(got[offset..])) else Malformed, s1[|got|..])
  }

  method ReadConvertOpts(socket: Stream, peek: bool, fault: Fault) returns (r: ReadResult)
    modifies socket
    ensures (r, socket.data) == Read(old(socket.data), peek, fault)
  {
    if fault == FirstFails { return Unreadable; }
    var hdr := socket.RecvFrom(HEADER_LEN, peek);
    var header := ParseHeader(hdr);
    if header.BadHeader? { return Malformed; }
    var length := header.length;
    if length == 0 { return NoTlvs; }
    if !MallocSucceeds(length) { return Undefined; }
    if fault == SecondFails { return Malformed; }
    var offset := if peek then HEADER_LEN else 0;
    if peek {
      length := length + HEADER_LEN;
    }
    var got := socket.RecvFrom(length, false);
    if |got| != length { return Malformed; }
    var outcome := ParseBytes(got[offset..]);
    r := Judge(outcome);
  }

  /** The element loop on a buffer of its own; it gets every turn it could use. */
  method ParseBytes(data: seq<byte>) returns (outcome: Outcome)
    ensures outcome == Parse(data)
  {
    var buffer := new byte[|data|](i requires 0 <= i < |data| => data[i]);
    assert buffer[..] == data;
    var p := ConvertParseTlvs(buffer, Turns(|data|));
    if ParseFrom(EMPTY, data) == Diverges {
      RunNeverFinishes(EMPTY, data, Turns(|data|));
    } else {
      RunReachesOutcome(EMPTY, data, Turns(|data|));
    }
    outcome := if p.Running? then Diverges else p.outcome;
  }

  // ----- Main results

  /** The stream starts with a version 1 header of the protocol that announces at least `words` words. */
  predicate Announces(s: seq<byte>, words: nat) {
    4 <= |s| && s[0] == 1 && s[2] == 0x22 && s[3] == 0x63 && s[1] >= words
  }

  lemma AnnouncedLength(s: seq<byte>)
    requires HEADER_LEN <= |s|
    ensures ParseHeader(s[..HEADER_LEN]) != BadHeader <==> Announces(s, 0)
    ensures Announces(s, 0) ==>
              ParseHeader(s[..HEADER_LEN]).length
              == if s[1] >= 1 then s[1] * PADDING - HEADER_LEN else SIZE_MODULUS - HEADER_LEN
  {
    HeaderExactly(s[..HEADER_LEN]);
  }

  /**
   * Peeking never changes the result, whichever receive fails. It leaves the same stream exactly when the first
   * receive failed, or there was nothing to read, or neither failed and the header is good and announces at
   * least two words; otherwise the peeked header stays unread.
   */
  lemma PeekEquivalence(s: seq<byte>, fault: Fault)
    ensures Read(s, true, fault).0 == Read(s, false, fault).0
    ensures Read(s, true, fault).1 == Read(s, false, fault).1
            <==> fault == FirstFails || s == [] || (fault == NoFault && Announces(s, 2))
  {
    hide Parse, ParseHeader;
    var hdr := Front(s, HEADER_LEN);
    if |s| < HEADER_LEN {
      ShortHeader(hdr);
    } else {
      var s1 := s[HEADER_LEN..];
      assert hdr == s[..HEADER_LEN] && |s1| == |s| - HEADER_LEN;
      AnnouncedLength(s);
      if ParseHeader(hdr) != BadHeader {
        var length := ParseHeader(hdr).length;
        if length + HEADER_LEN <= |s| {
          assert s[..length + HEADER_LEN][HEADER_LEN..] == s1[..length];
          assert s1[length..] == s[length + HEADER_LEN..];
        }
      }
    }
  }

  lemma ShortHeader(b: seq<byte>)
    requires |b| < HEADER_LEN
    ensures ParseHeader(b) == BadHeader
  {
  }

  /** A whole message of at least two words: both modes judge its elements and consume exactly its length. */
  lemma ReadsWholeMessage(s: seq<byte>, peek: bool)
    requires Announces(s, 2) && s[1] * PADDING <= |s|
    ensures Read(s, peek, NoFault) == (Judge(Parse(s[HEADER_LEN..s[1] * PADDING])), s[s[1] * PADDING..])
  {
    hide Parse, ParseHeader;
    AnnouncedLength(s);
    var n := s[1] * PADDING;
    var s1 := s[HEADER_LEN..];
    assert s[..n][HEADER_LEN..] == s[HEADER_LEN..n] == s1[..n - HEADER_LEN];
    assert s1[n - HEADER_LEN..] == s[n..];
  }

  // ----- Every stream

  /** A whole message lies at the front of the stream: a header and the elements it announces. */
  ghost predicate Carries(s: seq<byte>, ts: seq<Tlv>, rest: seq<byte>) {
    && AllFit(ts) && ts != [] && |EncodeAll(ts)| <= 1016
    && s == [1, 1 + |EncodeAll(ts)| / 4, 0x22, 0x63] + EncodeAll(ts) + rest
  }

  /** A whole message lies at the front, and its elements lead the loop to an Error of length zero. */
  ghost predicate CarriesHang(s: seq<byte>) {
    Announces(s, 2) && s[1] as nat * 4 <= |s| && ReachesZeroLengthError(s[4..s[1] as nat * 4])
  }

  lemma {:induction false} WholeWordsOf(ts: seq<Tlv>)
    requires AllFit(ts)
    ensures |EncodeAll(ts)| % 4 == 0 && (ts != [] ==> |EncodeAll(ts)| >= 4)
  {
    if ts != [] {
      EncodeAllCons(ts);
      WholeWordsOf(ts[1..]);
    }
  }

  /** A carried message is read in either mode: its elements decide the result, and what follows is left. */
  lemma CarriedResult(s: seq<byte>, ts: seq<Tlv>, rest: seq<byte>, peek: bool)
    requires Carries(s, ts, rest)
    ensures Read(s, peek, NoFault)
         == (if HasError(ts) then ErrorTlv(ApplyAll(EMPTY, ts).errorCode) else Options(ApplyAll(EMPTY, ts)), rest)
  {
    WholeWordsOf(ts);
    hide EncodeAll, AllFit;
    var b := EncodeAll(ts);
    assert s[1] * PADDING == HEADER_LEN + |b| && s[HEADER_LEN..HEADER_LEN + |b|] == b && s[HEADER_LEN + |b|..] == rest;
    ReadsWholeMessage(s, peek);
    AcceptsExactlyEncodings(b);
    ErrorFlag(EMPTY, ts);
    hide Read, Parse, ApplyAll;
  }

  lemma CutAnnounced(s: seq<byte>)
    requires Announces(s, 2) && s[1] as nat * 4 <= |s|
    ensures var b := s[4..s[1] as nat * 4];
            && |b| <= 1016 && 1 + |b| / 4 == s[1] as nat
            && s == [1, s[1], 0x22, 0x63] + b + s[s[1] as nat * 4..]
  {
    assert s[..4] == [1, s[1], 0x22, 0x63];
    assert s == s[..4] + s[4..s[1] as nat * 4] + s[s[1] as nat * 4..];
  }

  /** Options or an error come only from such a message. */
  lemma OnlyCarried(s: seq<byte>) returns (ts: seq<Tlv>, rest: seq<byte>)
    requires Announces(s, 2) && s[1] as nat * 4 <= |s| && Parse(s[4..s[1] as nat * 4]).Accepted?
    ensures Carries(s, ts, rest)
  {
    var b := s[4..s[1] as nat * 4];
    CutAnnounced(s);
    hide Parse, EncodeAll, AllFit, Announces;
    AcceptsExactlyEncodings(b);
    ts :| ts != [] && AllFit(ts) && EncodeAll(ts) == b;
    rest := s[s[1] as nat * 4..];
  }

  ghost predicate CarriesOptions(s: seq<byte>) {
    exists ts, rest :: Carries(s, ts, rest) && !HasError(ts)
  }

  ghost predicate CarriesError(s: seq<byte>) {
    exists ts, rest :: Carries(s, ts, rest) && HasError(ts)
  }

  /** What is read off any stream when no receive fails: which bytes succeed, and which fail in what way. */
  lemma ReadsExactly(s: seq<byte>, peek: bool)
    ensures var r := Read(s, peek, NoFault).0;
            && (r.NoTlvs? <==> [1, 1, 0x22, 0x63] <= s)
            && (r.Undefined? <==> [1, 0, 0x22, 0x63] <= s)
            && (r.Options? <==> CarriesOptions(s))
            && (r.ErrorTlv? <==> CarriesError(s))
            && (r.Hangs? <==> CarriesHang(s))
            && !r.Unreadable?
  {
    ShortResults(s, peek);
    hide Read, Carries, HasError, ReachesZeroLengthError;
    forall ts, rest | Carries(s, ts, rest)
      ensures Read(s, peek, NoFault).0
           == if HasError(ts) then ErrorTlv(ApplyAll(EMPTY, ts).errorCode) else Options(ApplyAll(EMPTY, ts))
    {
      CarriedResult(s, ts, rest, peek);
    }
    if Announces(s, 2) && s[1] as nat * 4 <= |s| {
      ReadsWholeMessage(s, peek);
      DivergesExactlyAtZeroLengthError(EMPTY, s[4..s[1] as nat * 4]);
      NotEmpty(s);
      if Parse(s[4..s[1] as nat * 4]).Accepted? {
        var ts, rest := OnlyCarried(s);
        CarriedResult(s, ts, rest, peek);
      }
    }
  }

  lemma NotEmpty(s: seq<byte>)
    requires Announces(s, 2) && s[1] as nat * 4 <= |s|
    ensures Parse(s[4..s[1] as nat * 4]) == ParseFrom(EMPTY, s[4..s[1] as nat * 4])
  {
    hide ParseFrom;
  }

  /** Without a whole message of at least two words at the front. */
  lemma ShortResults(s: seq<byte>, peek: bool)
    ensures !Announces(s, 0) ==> Read(s, peek, NoFault).0 == Malformed
    ensures Announces(s, 0) && s[1] == 0 ==> Read(s, peek, NoFault).0 == Undefined
    ensures Announces(s, 0) && s[1] == 1 ==> Read(s, peek, NoFault).0 == NoTlvs
    ensures Announces(s, 2) && |s| < s[1] as nat * 4 ==> Read(s, peek, NoFault).0 == Malformed
  {
    hide Parse, ParseHeader;
    if |s| < HEADER_LEN {
      ShortHeader(Front(s, HEADER_LEN));
    } else {
      AnnouncedLength(s);
    }
  }

  /** When a receive fails: nothing is read, or the header alone decides. */
  lemma FailedReceive(s: seq<byte>, peek: bool)
    ensures Read(s, peek, FirstFails) == (Unreadable, s)
    ensures Read(s, peek, SecondFails).0 == if !Announces(s, 0) then Malformed
                                            else if s[1] == 0 then Undefined
                                            else if s[1] == 1 then NoTlvs else Malformed
  {
    hide Parse, ParseHeader;
    if |s| < HEADER_LEN {
      ShortHeader(Front(s, HEADER_LEN));
    } else {
      AnnouncedLength(s);
    }
  }

  /** What is left on the stream, whatever was there and whichever receive failed. */
  lemma LeavesExactly(s: seq<byte>, peek: bool, fault: Fault)
    ensures Read(s, peek, fault).1
         == if fault == FirstFails then s
            else if !Announces(s, 2) || fault == SecondFails then if peek then s else s[|Front(s, 4)|..]
            else s[|Front(s, s[1] as nat * 4)|..]
  {
    hide Parse, ParseHeader;
    if |s| < HEADER_LEN {
      ShortHeader(Front(s, HEADER_LEN));
    } else {
      AnnouncedLength(s);
      var s1 := s[HEADER_LEN..];
      if fault == NoFault && Announces(s, 2) && !peek {
        var n := s[1] * PADDING - HEADER_LEN;
        DropDrop(s, HEADER_LEN, |Front(s1, n)|);
      }
    }
  }

  /** What one side writes the other side reads, and the bytes behind it are untouched. */
  lemma ReadBackWritten(o: Opts, rest: seq<byte>, peek: bool)
    requires Supported(o) && o.flags * WRITABLE != {} && MessageSize(o) <= MAX_MESSAGE
    ensures Read(Message(o) + rest, peek, NoFault)
         == (if F_ERROR in o.flags then ErrorTlv(o.errorCode) else Options(Canonical(o)), rest)
  {
    hide Body, Parse, ParseHeader, MessageSize;
    CodecRoundTrip(o);
    LengthByteFaithfulExactly(o);
    var m, s := Message(o), Message(o) + rest;
    MoreThanHeader(o);
    assert s[..HEADER_LEN] == m[..HEADER_LEN] && s[1] == m[1];
    assert s[HEADER_LEN..|m|] == m[HEADER_LEN..] && s[|m|..] == rest;
    ReadsWholeMessage(s, peek);
  }

  lemma MoreThanHeader(o: Opts)
    requires Supported(o) && o.flags * WRITABLE != {}
    ensures |Message(o)| == MessageSize(o) > HEADER_LEN
  {
    hide Body;
    MessageSizeIsLength(o);
    var k :| k in o.flags * WRITABLE;
  }
}
