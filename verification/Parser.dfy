/**
 * convert_parse_tlvs: a cursor over the bytes that follow the fixed header.
 *
 * TlvStep is one turn of the loop; Run is the loop under a budget of turns; Parse says what the loop
 * does in the end, including never ending.
 */
module Parser {
  import opened Bytes
  import opened Wire

  // ----- One turn

  datatype StepResult = Fail | Advance(opts: Opts, used: nat)

  /** Two bytes of payload precede every variable part, so both length differences are taken in size_t. */
  function TlvStep(o: Opts, b: seq<byte>): (r: StepResult)
    requires b != []
    ensures r.Advance? ==> r.used % PADDING == 0 && PADDING <= |b| && r.used <= |b|
    ensures r.Advance? ==> (r.used == 0 <==> StuckAt(b))
  {
    if |b| < PADDING then Fail else
    var len := b[1] * PADDING;
    if |b| < len then Fail
    else if b[0] == TYPE_ERROR then
      Advance(o.(flags := o.flags + {F_ERROR}, errorCode := b[2]), len)
    else if b[0] == TYPE_CONNECT then
      if |b| < CONNECT_LEN then Fail
      else if len != CONNECT_LEN then Fail
      else Advance(o.(flags := o.flags + {F_CONNECT}, addr := b[4..20], port := b[2..4]), len)
    else if b[0] == TYPE_EXTENDED then
      if !MallocSucceeds(SizeSub(len, 4)) then Fail
      else Advance(o.(flags := o.flags + {F_EXTENDED}, tcpOptions := b[4..len]), len)
    else if b[0] == TYPE_COOKIE then
      if !MallocSucceeds(SizeSub(len, 4)) then Fail
      else Advance(o.(flags := o.flags + {F_COOKIE}, cookie := b[4..len]), len)
    else Fail
  }

  /** An Error element of length zero: the only input on which a turn succeeds without moving the cursor. */
  predicate StuckAt(b: seq<byte>) {
    |b| >= PADDING && b[0] == TYPE_ERROR && b[1] == 0
  }

  // ----- The outcome

  datatype Outcome = Accepted(opts: Opts) | Rejected | Diverges

  function ParseFrom(o: Opts, b: seq<byte>): Outcome
    decreases |b|
  {
    if b == [] then Accepted(o) else
    match TlvStep(o, b)
    case Fail => Rejected
    case Advance(o', used) => if used == 0 then Diverges else ParseFrom(o', b[used..])
  }

  /** No bytes means no options: NULL before anything is allocated. */
  function Parse(b: seq<byte>): Outcome {
    if b == [] then Rejected else ParseFrom(EMPTY, b)
  }

  // ----- The loop

  datatype Progress = Running(opts: Opts, rest: seq<byte>) | Finished(outcome: Outcome)

  function Run(o: Opts, b: seq<byte>, budget: nat): Progress
    decreases budget
  {
    if b == [] then Finished(Accepted(o))
    else if budget == 0 then Running(o, b)
    else
      match TlvStep(o, b)
      case Fail => Finished(Rejected)
      case Advance(o', used) => Run(o', b[used..], budget - 1)
  }

  /** The switch in the loop body, reading the caller's buffer at the cursor. */
  method TakeTlv(buff: array<byte>, at: nat, opts: Opts) returns (r: StepResult)
    requires at < buff.Length
    ensures r == TlvStep(opts, buff[at..])
  {
    ghost var b := buff[at..];
    if buff.Length - at < PADDING {
      return Fail;
    }
    var tlvLen := buff[at + 1] * PADDING;
    if buff.Length - at < tlvLen {
      return Fail;
    }
    match buff[at] {
      case 0x1e =>
        r := Advance(opts.(flags := opts.flags + {F_ERROR}, errorCode := buff[at + 2]), tlvLen);
      case 0x0a =>
        if buff.Length - at < CONNECT_LEN || tlvLen != CONNECT_LEN {
          return Fail;
        }
        assert b[4..20] == buff[at + 4..at + 20] && b[2..4] == buff[at + 2..at + 4];
        r := Advance(opts.(flags := opts.flags + {F_CONNECT},
                           addr := buff[at + 4..at + 20], port := buff[at + 2..at + 4]), tlvLen);
      case 0x14 =>
        if !MallocSucceeds(SizeSub(tlvLen, 4)) {
          return Fail;
        }
        assert b[4..tlvLen] == buff[at + 4..at + tlvLen];
        r := Advance(opts.(flags := opts.flags + {F_EXTENDED}, tcpOptions := buff[at + 4..at + tlvLen]), tlvLen);
      case 0x16 =>
        if !MallocSucceeds(SizeSub(tlvLen, 4)) {
          return Fail;
        }
        assert b[4..tlvLen] == buff[at + 4..at + tlvLen];
        r := Advance(opts.(flags := opts.flags + {F_COOKIE}, cookie := buff[at + 4..at + tlvLen]), tlvLen);
      case _ =>
        r := Fail;
    }
  }

  lemma DropDrop<T>(b: seq<T>, i: nat, j: nat)
    requires i + j <= |b|
    ensures b[i..][j..] == b[i + j..]
  {
  }

  lemma RunTurn(o: Opts, b: seq<byte>, at: nat, left: nat)
    requires at < |b| && left > 0
    ensures match TlvStep(o, b[at..])
            case Fail => Run(o, b[at..], left) == Finished(Rejected)
            case Advance(o', used) => at + used <= |b| && Run(o, b[at..], left) == Run(o', b[at + used..], left - 1)
  {
    hide TlvStep;
    var step := TlvStep(o, b[at..]);
    if step.Advance? {
      DropDrop(b, at, step.used);
    }
  }

  lemma RunStops(o: Opts, b: seq<byte>, at: nat, left: nat)
    requires at <= |b| && (at == |b| || left == 0)
    ensures Run(o, b[at..], left) == if at < |b| then Running(o, b[at..]) else Finished(Accepted(o))
  {
  }

  /** The loop itself, interrupted after at most `budget` turns. */
  method ConvertParseTlvs(buff: array<byte>, budget: nat) returns (r: Progress)
    ensures r == if buff.Length == 0 then Finished(Rejected) else Run(EMPTY, buff[..], budget)
  {
    hide TlvStep, Run;
    if buff.Length == 0 {
      return Finished(Rejected);
    }
    ghost var b := buff[..];
    var opts := EMPTY;
    var at, left := 0, budget;
    assert b[0..] == b;
    while at < buff.Length && left > 0
      invariant 0 <= at <= buff.Length
      invariant Run(EMPTY, b, budget) == Run(opts, b[at..], left)
      decreases left
    {
      assert buff[at..] == b[at..];
      RunTurn(opts, b, at, left);
      var step := TakeTlv(buff, at, opts);
      if step.Fail? {
        return Finished(Rejected);
      }
      opts, at, left := step.opts, at + step.used, left - 1;
    }
    RunStops(opts, b, at, left);
    r := if at < buff.Length then Running(opts, buff[at..]) else Finished(Accepted(opts));
  }

  // ----- Termination, exactly

  function Turns(len: nat): nat {
    (len + PADDING - 1) / PADDING
  }

  /** Every outcome but divergence is reached within one turn per started word. */
  lemma {:induction false} RunReachesOutcome(o: Opts, b: seq<byte>, budget: nat)
    requires ParseFrom(o, b) != Diverges && budget >= Turns(|b|)
    ensures Run(o, b, budget) == Finished(ParseFrom(o, b))
    decreases |b|
  {
    if b != [] && TlvStep(o, b).Advance? {
      var step := TlvStep(o, b);
      RunReachesOutcome(step.opts, b[step.used..], budget - 1);
    }
  }

  /** A diverging input is still running whatever the budget. */
  lemma {:induction false} RunNeverFinishes(o: Opts, b: seq<byte>, budget: nat)
    requires ParseFrom(o, b) == Diverges
    ensures Run(o, b, budget).Running?
    decreases budget
  {
    if budget > 0 {
      var step := TlvStep(o, b);
      if step.used == 0 {
        assert b[0..] == b;
        assert ParseFrom(step.opts, b) == Diverges;
      }
      RunNeverFinishes(step.opts, b[step.used..], budget - 1);
    }
  }

  /** Whole well-formed elements lead the cursor to a zero-length Error. */
  ghost predicate ReachesZeroLengthError(b: seq<byte>) {
    exists ts: seq<Tlv>, tail: seq<byte> :: LeadsTo(ts, tail, b) && StuckAt(tail)
  }

  ghost predicate LeadsTo(ts: seq<Tlv>, tail: seq<byte>, b: seq<byte>) {
    AllFit(ts) && b == EncodeAll(ts) + tail
  }

  // ----- Steps against the grammar

  /** The element at the front of the buffer. */
  function DecodeFirst(b: seq<byte>): Tlv
    requires b != [] && TlvStep(EMPTY, b).Advance? && !StuckAt(b)
  {
    var len := b[1] * PADDING;
    if b[0] == TYPE_ERROR then Error(b[2], b[3..len])
    else if b[0] == TYPE_CONNECT then Connect(b[2..4], b[4..20])
    else if b[0] == TYPE_EXTENDED then Extended(b[2..4], b[4..len])
    else Cookie(b[2..4], b[4..len])
  }

  lemma StepSound(o: Opts, b: seq<byte>)
    requires b != [] && TlvStep(o, b).Advance? && !StuckAt(b)
    ensures TlvStep(EMPTY, b).Advance?
    ensures var t := DecodeFirst(b);
            Fits(t) && TlvStep(o, b) == Advance(Apply(o, t), Size(t)) && b[..Size(t)] == Encode(t)
  {
    var t := DecodeFirst(b);
    assert Value(t) == b[2..b[1] * PADDING];
  }

  lemma StepComplete(o: Opts, t: Tlv, rest: seq<byte>)
    requires Fits(t)
    ensures TlvStep(o, Encode(t) + rest) == Advance(Apply(o, t), Size(t))
    ensures (Encode(t) + rest)[Size(t)..] == rest
  {
    var b := Encode(t) + rest;
    assert b[2..Size(t)] == Value(t);
    match t {
      case Connect(_, _) => ConnectStep(o, t, b);
      case Error(_, _) => assert b[2] == Value(t)[0];
      case _ => OpaqueStep(o, t, b);
    }
  }

  lemma ConnectStep(o: Opts, t: Tlv, b: seq<byte>)
    requires t.Connect? && Size(t) <= |b| && b[..2] == [Kind(t), Size(t) / PADDING] && b[2..Size(t)] == Value(t)
    ensures TlvStep(o, b) == Advance(Apply(o, t), Size(t))
  {
    assert b[0] == b[..2][0] && b[1] == b[..2][1];
    assert b[2..4] == Value(t)[..2] == t.port && b[4..20] == Value(t)[2..] == t.addr;
  }

  lemma OpaqueStep(o: Opts, t: Tlv, b: seq<byte>)
    requires (t.Extended? || t.Cookie?) && Fits(t) && Size(t) <= |b|
    requires b[..2] == [Kind(t), Size(t) / PADDING] && b[2..Size(t)] == Value(t)
    ensures TlvStep(o, b) == Advance(Apply(o, t), Size(t))
  {
    assert b[0] == b[..2][0] && b[1] == b[..2][1];
    assert b[4..Size(t)] == Value(t)[2..] == if t.Extended? then t.tcpOptions else t.data;
  }

  /** All elements before the end of the buffer or before the first one that does not advance. */
  function Elements(b: seq<byte>): seq<Tlv>
    decreases |b|
  {
    if b == [] || TlvStep(EMPTY, b).Fail? || StuckAt(b) then []
    else [DecodeFirst(b)] + Elements(b[TlvStep(EMPTY, b).used..])
  }

  /** What the loop does with a buffer depends on the options only through the flags and fields it sets. */
  lemma StepIndependent(o: Opts, b: seq<byte>)
    requires b != []
    ensures TlvStep(o, b).Advance? <==> TlvStep(EMPTY, b).Advance?
    ensures TlvStep(o, b).Advance? ==> TlvStep(o, b).used == TlvStep(EMPTY, b).used
  {
  }

  /** The loop over well-formed elements followed by anything goes on at that anything. */
  lemma {:induction false} ParseElements(o: Opts, ts: seq<Tlv>, rest: seq<byte>)
    requires AllFit(ts)
    ensures ParseFrom(o, EncodeAll(ts) + rest) == ParseFrom(ApplyAll(o, ts), rest)
    decreases |ts|
  {
    if ts == [] {
      assert EncodeAll(ts) + rest == rest;
    } else {
      var tail := EncodeAll(ts[1..]) + rest;
      ConcatAssoc(Encode(ts[0]), EncodeAll(ts[1..]), rest);
      StepComplete(o, ts[0], tail);
      ParseElements(Apply(o, ts[0]), ts[1..], rest);
    }
  }

  /** An element in front of a buffer that has been split. */
  lemma SplitCons(t: Tlv, rest: seq<byte>, ts: seq<Tlv>)
    requires Fits(t) && AllFit(ts) && |EncodeAll(ts)| <= |rest| && rest == EncodeAll(ts) + rest[|EncodeAll(ts)|..]
    ensures AllFit([t] + ts) && EncodeAll([t] + ts) == Encode(t) + EncodeAll(ts)
    ensures var b := Encode(t) + rest;
            var n := |EncodeAll([t] + ts)|;
            n <= |b| && b == EncodeAll([t] + ts) + b[n..] && b[n..] == rest[|EncodeAll(ts)|..]
  {
    hide Encode;
    assert ([t] + ts)[1..] == ts;
    var n := |EncodeAll(ts)|;
    ConcatAssoc(Encode(t), EncodeAll(ts), rest[n..]);
    assert (Encode(t) + rest)[|Encode(t)| + n..] == rest[n..];
  }

  lemma ApplyCons(o: Opts, t: Tlv, ts: seq<Tlv>)
    ensures ApplyAll(o, [t] + ts) == ApplyAll(Apply(o, t), ts)
  {
    assert ([t] + ts)[1..] == ts;
  }

  /** Running the cursor splits any buffer into its elements and the place where it stops. */
  lemma {:induction false} ElementsSplit(o: Opts, b: seq<byte>)
    ensures AllFit(Elements(b)) && |EncodeAll(Elements(b))| <= |b|
    ensures var n := |EncodeAll(Elements(b))|; b == EncodeAll(Elements(b)) + b[n..]
    ensures var tail := b[|EncodeAll(Elements(b))|..];
            match ParseFrom(o, b)
            case Accepted(r) => tail == [] && r == ApplyAll(o, Elements(b))
            case Rejected => tail != [] && TlvStep(EMPTY, tail).Fail?
            case Diverges => StuckAt(tail)
    decreases |b|
  {
    hide *;
    if b == [] || TlvStep(o, b).Fail? || StuckAt(b) {
      SplitStops(o, b);
    } else {
      StepIndependent(o, b);
      SplitGoesOn(o, b);
      var t := DecodeFirst(b);
      var rest := b[Size(t)..];
      ElementsSplit(Apply(o, t), rest);
      SplitCons(t, rest, Elements(rest));
      ApplyCons(o, t, Elements(rest));
    }
  }

  lemma SplitStops(o: Opts, b: seq<byte>)
    requires b == [] || TlvStep(o, b).Fail? || StuckAt(b)
    ensures Elements(b) == [] && AllFit([]) && EncodeAll([]) == [] && ApplyAll(o, []) == o && b[0..] == b == [] + b
    ensures match ParseFrom(o, b)
            case Accepted(r) => b == [] && r == o
            case Rejected => b != [] && TlvStep(EMPTY, b).Fail?
            case Diverges => StuckAt(b)
  {
    if b != [] {
      StepIndependent(o, b);
      if StuckAt(b) { StuckSteps(o, b); }
    }
    hide TlvStep, StuckAt;
  }

  lemma StuckSteps(o: Opts, b: seq<byte>)
    requires StuckAt(b)
    ensures b != [] && TlvStep(o, b).Advance? && TlvStep(o, b).used == 0
  {
  }

  lemma SplitGoesOn(o: Opts, b: seq<byte>)
    requires b != [] && TlvStep(o, b).Advance? && !StuckAt(b)
    ensures var t := DecodeFirst(b);
            && Fits(t) && 0 < Size(t) <= |b| && b == Encode(t) + b[Size(t)..]
            && Elements(b) == [t] + Elements(b[Size(t)..])
            && ParseFrom(o, b) == ParseFrom(Apply(o, t), b[Size(t)..])
  {
    StepIndependent(o, b);
    StepSound(o, b);
    hide TlvStep, StuckAt, Encode, DecodeFirst;
  }

  lemma ElementsCons(t: Tlv, rest: seq<byte>)
    requires Fits(t)
    ensures Elements(Encode(t) + rest) == [t] + Elements(rest)
  {
    hide TlvStep, StuckAt, Encode, DecodeFirst;
    var b := Encode(t) + rest;
    StepComplete(EMPTY, t, rest);
    StepSound(EMPTY, b);
    EncodeInjective(t, DecodeFirst(b));
  }

  /** The elements of an encoding are the elements encoded: the grammar is unambiguous. */
  lemma {:induction false} ElementsOfEncoding(ts: seq<Tlv>)
    requires AllFit(ts)
    ensures Elements(EncodeAll(ts)) == ts
    decreases |ts|
  {
    hide TlvStep, StuckAt, Encode, DecodeFirst;
    if ts == [] {
      assert EncodeAll(ts) == [];
    } else {
      hide *;
      EncodeAllCons(ts);
      ElementsCons(ts[0], EncodeAll(ts[1..]));
      ElementsOfEncoding(ts[1..]);
      assert ts == [ts[0]] + ts[1..];
    }
  }

  lemma EncodeInjective(t: Tlv, u: Tlv)
    requires Fits(t) && Fits(u) && Encode(t) == Encode(u)
    ensures t == u
  {
    assert Value(t) == Encode(t)[2..] == Encode(u)[2..] == Value(u);
    match t {
      case Connect(port, addr) => assert port == Value(t)[..2] == Value(u)[..2] && addr == Value(t)[2..] == Value(u)[2..];
      case Extended(x, y) => assert x == Value(t)[..2] == Value(u)[..2] && y == Value(t)[2..] == Value(u)[2..];
      case Cookie(x, y) => assert x == Value(t)[..2] == Value(u)[..2] && y == Value(t)[2..] == Value(u)[2..];
      case Error(code, value) => assert value == Value(t)[1..] == Value(u)[1..] && code == Value(u)[0];
    }
  }

  // ----- Main results about the parser

  /** Exact acceptance: precisely the encodings of non-empty element lists, and with their meaning. */
  lemma AcceptsExactlyEncodings(b: seq<byte>)
    ensures Parse(b).Accepted? <==> exists ts :: ts != [] && AllFit(ts) && EncodeAll(ts) == b
    ensures forall ts :: ts != [] && AllFit(ts) && EncodeAll(ts) == b ==> Parse(b) == Accepted(ApplyAll(EMPTY, ts))
  {
    if Parse(b).Accepted? {
      ElementsSplit(EMPTY, b);
      var ts := Elements(b);
      assert EncodeAll(ts) + [] == EncodeAll(ts);
      assert ts != [] && AllFit(ts) && EncodeAll(ts) == b;
    }
    forall ts | ts != [] && AllFit(ts) && EncodeAll(ts) == b
      ensures Parse(b) == Accepted(ApplyAll(EMPTY, ts))
    {
      ParseElements(EMPTY, ts, []);
      assert EncodeAll(ts) + [] == b;
    }
  }

  /** The loop never ends precisely on the inputs that lead it to a zero-length Error. */
  lemma DivergesExactlyAtZeroLengthError(o: Opts, b: seq<byte>)
    ensures ParseFrom(o, b) == Diverges <==> ReachesZeroLengthError(b)
  {
    if ParseFrom(o, b) == Diverges {
      ElementsSplit(o, b);
      var ts := Elements(b);
      assert LeadsTo(ts, b[|EncodeAll(ts)|..], b);
    }
    if ReachesZeroLengthError(b) {
      var ts: seq<Tlv>, tail: seq<byte> :| LeadsTo(ts, tail, b) && StuckAt(tail);
      ParseElements(o, ts, tail);
    }
  }

  /** Exact termination: one turn per started word is always enough, or no number of turns is. */
  lemma TerminatesExactly(b: seq<byte>)
    ensures !ReachesZeroLengthError(b) ==>
      forall budget: nat :: budget >= Turns(|b|) ==> Run(EMPTY, b, budget) == Finished(ParseFrom(EMPTY, b))
    ensures ReachesZeroLengthError(b) ==> forall budget: nat :: Run(EMPTY, b, budget).Running?
  {
    DivergesExactlyAtZeroLengthError(EMPTY, b);
    if ReachesZeroLengthError(b) {
      forall budget: nat ensures Run(EMPTY, b, budget).Running? {
        RunNeverFinishes(EMPTY, b, budget);
      }
    } else {
      forall budget: nat | budget >= Turns(|b|)
        ensures Run(EMPTY, b, budget) == Finished(ParseFrom(EMPTY, b))
      {
        RunReachesOutcome(EMPTY, b, budget);
      }
    }
  }

  /** After an accepted front, the outcome is that of the back, its options laid over those of the front. */
  lemma ParseComposes(a: seq<byte>, b: seq<byte>)
    requires Parse(a).Accepted? && b != []
    ensures Parse(a + b) == match Parse(b)
                            case Accepted(r) => Accepted(Override(Parse(a).opts, r))
                            case other => other
  {
    ElementsSplit(EMPTY, a);
    var ts, us := Elements(a), Elements(b);
    assert EncodeAll(ts) + [] == EncodeAll(ts);
    var front := ApplyAll(EMPTY, ts);
    ParseElements(EMPTY, ts, b);
    ElementsSplit(EMPTY, b);
    ElementsSplit(front, b);
    ApplyAllIsOverride(front, EMPTY, us);
    assert Override(front, EMPTY) == front;
  }
}
