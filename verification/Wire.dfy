/**
 * The Convert message of RFC 8803: a 4-byte fixed header (section 6.1) followed by
 * Type-Length-Value elements counted in 4-byte words (section 6.2).
 *
 * Tlv and Encode describe the bytes independently of both the parser and the writer.
 */
module Wire {
  import opened Bytes

  const VERSION: byte := 1
  const MAGIC_HI: byte := 0x22
  const MAGIC_LO: byte := 0x63
  const HEADER_LEN := 4

  const TYPE_INFO: byte := 0x01
  const TYPE_CONNECT: byte := 0x0a
  const TYPE_EXTENDED: byte := 0x14
  const TYPE_SUPPORTED: byte := 0x15
  const TYPE_COOKIE: byte := 0x16
  const TYPE_ERROR: byte := 0x1e

  const CONNECT_LEN := 20
  const MAX_MESSAGE := 1020

  /** A port and an address are kept as they travel, in network byte order. */
  type Port = s: seq<byte> | |s| == 2 witness [0, 0]
  type Addr = s: seq<byte> | |s| == 16 witness [0, 0, 0, 0, 0, 0, 0, 0, 0, 0, 0, 0, 0, 0, 0, 0]
  type Quad = s: seq<byte> | |s| == 4 witness [0, 0, 0, 0]

  // ----- struct convert_opts and its flag bits

  const F_INFO := 0
  const F_CONNECT := 1
  const F_EXTENDED := 2
  const F_SUPPORTED := 3
  const F_COOKIE := 4
  const F_ERROR := 5
  const F_MAX := 6

  /**
   * The flags byte as the set of its one bits: testing, setting and clearing the mask 1 << k are
   * membership, union and difference with {k}.
   */
  datatype Opts = Opts(flags: set<nat>, port: Port, addr: Addr, errorCode: byte, tcpOptions: seq<byte>, cookie: seq<byte>)

  const NO_PORT: Port := [0, 0]
  const NO_ADDR: Addr := Zeros(16)

  /** The zeroed structure calloc hands to the parser. */
  const EMPTY := Opts({}, NO_PORT, NO_ADDR, 0, [], [])

  // ----- The grammar

  /** One element; the two bytes after type and length are named as the RFC names them. */
  datatype Tlv =
    | Connect(port: Port, addr: Addr)
    | Extended(unassigned: Port, tcpOptions: seq<byte>)
    | Cookie(reserved: Port, data: seq<byte>)
    | Error(code: byte, value: seq<byte>)

  function Kind(t: Tlv): byte {
    match t
    case Connect(_, _) => TYPE_CONNECT
    case Extended(_, _) => TYPE_EXTENDED
    case Cookie(_, _) => TYPE_COOKIE
    case Error(_, _) => TYPE_ERROR
  }

  /** Everything after the type and length bytes. */
  function Value(t: Tlv): seq<byte> {
    match t
    case Connect(port, addr) => port + addr
    case Extended(unassigned, tcpOptions) => unassigned + tcpOptions
    case Cookie(reserved, data) => reserved + data
    case Error(code, value) => [code] + value
  }

  function Size(t: Tlv): nat {
    2 + |Value(t)|
  }

  /** Whole words, and few enough of them for the length byte. */
  ghost predicate Fits(t: Tlv) {
    Size(t) % PADDING == 0 && Size(t) <= MAX_MESSAGE
  }

  function Encode(t: Tlv): seq<byte>
    requires Fits(t)
  {
    [Kind(t), Size(t) / PADDING] + Value(t)
  }

  ghost predicate AllFit(ts: seq<Tlv>) {
    forall i :: 0 <= i < |ts| ==> Fits(ts[i])
  }

  function EncodeAll(ts: seq<Tlv>): seq<byte>
    requires AllFit(ts)
  {
    if ts == [] then [] else Encode(ts[0]) + EncodeAll(ts[1..])
  }

  /** The octets of each element, written out: types 10, 20, 22 and 30 of section 6.2 of RFC 8803. */
  lemma EncodingIs(t: Tlv)
    requires Fits(t)
    ensures Encode(t) == match t
                         case Connect(port, addr) => [0x0a, 5] + port + addr
                         case Extended(unassigned, tcpOptions) => [0x14, (4 + |tcpOptions|) / 4] + unassigned + tcpOptions
                         case Cookie(reserved, data) => [0x16, (4 + |data|) / 4] + reserved + data
                         case Error(code, value) => [0x1e, (3 + |value|) / 4, code] + value
  {
  }

  predicate HasError(ts: seq<Tlv>) {
    exists i :: 0 <= i < |ts| && ts[i].Error?
  }

  lemma EncodeAllCons(ts: seq<Tlv>)
    requires ts != [] && AllFit(ts)
    ensures Fits(ts[0]) && AllFit(ts[1..]) && EncodeAll(ts) == Encode(ts[0]) + EncodeAll(ts[1..])
  {
    hide Fits, Encode;
  }

  lemma ConcatAssoc<T>(a: seq<T>, b: seq<T>, c: seq<T>)
    ensures (a + b) + c == a + (b + c)
  {
  }

  lemma {:induction false} EncodeAllConcat(ts: seq<Tlv>, us: seq<Tlv>)
    requires AllFit(ts) && AllFit(us)
    ensures AllFit(ts + us) && EncodeAll(ts + us) == EncodeAll(ts) + EncodeAll(us)
  {
    hide Encode, Fits;
    if ts == [] {
      assert ts + us == us;
    } else {
      var all := ts + us;
      assert all[1..] == ts[1..] + us && all[0] == ts[0];
      assert AllFit(all);
      EncodeAllConcat(ts[1..], us);
      ConcatAssoc(Encode(ts[0]), EncodeAll(ts[1..]), EncodeAll(us));
    }
  }

  // ----- What a list of elements means

  /** The options after element t: a later element of the same type overrides an earlier one. */
  function Apply(o: Opts, t: Tlv): Opts {
    match t
    case Connect(port, addr) => o.(flags := o.flags + {F_CONNECT}, port := port, addr := addr)
    case Extended(_, tcpOptions) => o.(flags := o.flags + {F_EXTENDED}, tcpOptions := tcpOptions)
    case Cookie(_, data) => o.(flags := o.flags + {F_COOKIE}, cookie := data)
    case Error(code, _) => o.(flags := o.flags + {F_ERROR}, errorCode := code)
  }

  function ApplyAll(o: Opts, ts: seq<Tlv>): Opts
    decreases |ts|
  {
    if ts == [] then o else ApplyAll(Apply(o, ts[0]), ts[1..])
  }

  /** ts[i] is the last element of its type. */
  ghost predicate LastOfKind(ts: seq<Tlv>, i: nat)
    requires i < |ts|
  {
    forall j :: i < j < |ts| ==> Kind(ts[j]) != Kind(ts[i])
  }

  /** What an element left in the options is what they still say of it. */
  predicate Shows(o: Opts, t: Tlv) {
    match t
    case Connect(port, addr) => 1 in o.flags && o.port == port && o.addr == addr
    case Extended(_, tcpOptions) => 2 in o.flags && o.tcpOptions == tcpOptions
    case Cookie(_, data) => 4 in o.flags && o.cookie == data
    case Error(code, _) => 5 in o.flags && o.errorCode == code
  }

  lemma {:induction false} ShownOn(o: Opts, ts: seq<Tlv>, t: Tlv)
    requires Shows(o, t) && forall j :: 0 <= j < |ts| ==> Kind(ts[j]) != Kind(t)
    ensures Shows(ApplyAll(o, ts), t)
    decreases |ts|
  {
    if ts != [] {
      assert Kind(ts[0]) != Kind(t);
      ShownOn(Apply(o, ts[0]), ts[1..], t);
    }
  }

  /** Of each type the last element decides, whatever the options were before. */
  lemma {:induction false} LastDecides(o: Opts, ts: seq<Tlv>, i: nat)
    requires i < |ts| && LastOfKind(ts, i)
    ensures Shows(ApplyAll(o, ts), ts[i])
    decreases |ts|
  {
    hide Shows, Apply;
    var rest := ts[1..];
    if i == 0 {
      ApplyShows(o, ts[0]);
      assert forall j :: 0 <= j < |rest| ==> rest[j] == ts[j + 1];
      ShownOn(Apply(o, ts[0]), rest, ts[0]);
    } else {
      assert forall j :: i - 1 < j < |rest| ==> rest[j] == ts[j + 1];
      LastDecides(Apply(o, ts[0]), rest, i - 1);
    }
  }

  lemma ApplyShows(o: Opts, t: Tlv)
    ensures Shows(Apply(o, t), t)
  {
  }

  /** The bit an element's type stands for. */
  function FlagOf(t: Tlv): nat {
    match t
    case Connect(_, _) => 1
    case Extended(_, _) => 2
    case Cookie(_, _) => 4
    case Error(_, _) => 5
  }

  ghost predicate Sets(ts: seq<Tlv>, k: nat) {
    exists i :: 0 <= i < |ts| && FlagOf(ts[i]) == k
  }

  /** The flags set are those of the elements, on top of what was set. */
  lemma {:induction false} FlagSetExactly(o: Opts, ts: seq<Tlv>, k: nat)
    ensures k in ApplyAll(o, ts).flags <==> k in o.flags || Sets(ts, k)
    decreases |ts|
  {
    if ts != [] {
      FlagSetExactly(Apply(o, ts[0]), ts[1..], k);
      assert ts == [ts[0]] + ts[1..];
      assert Sets(ts, k) <==> FlagOf(ts[0]) == k || Sets(ts[1..], k);
    }
  }

  /** The error flag is set exactly by an Error element. */
  lemma ErrorFlag(o: Opts, ts: seq<Tlv>)
    ensures F_ERROR in ApplyAll(o, ts).flags <==> F_ERROR in o.flags || HasError(ts)
  {
    FlagSetExactly(o, ts, F_ERROR);
    assert forall i :: 0 <= i < |ts| ==> (FlagOf(ts[i]) == F_ERROR <==> ts[i].Error?);
  }

  /** Fields of b where b has the flag, fields of a elsewhere. */
  function Override(a: Opts, b: Opts): Opts {
    Opts(a.flags + b.flags,
         if F_CONNECT in b.flags then b.port else a.port,
         if F_CONNECT in b.flags then b.addr else a.addr,
         if F_ERROR in b.flags then b.errorCode else a.errorCode,
         if F_EXTENDED in b.flags then b.tcpOptions else a.tcpOptions,
         if F_COOKIE in b.flags then b.cookie else a.cookie)
  }

  lemma {:induction false} ApplyAllConcat(o: Opts, ts: seq<Tlv>, us: seq<Tlv>)
    ensures ApplyAll(o, ts + us) == ApplyAll(ApplyAll(o, ts), us)
    decreases |ts|
  {
    if ts == [] {
      assert ts + us == us;
    } else {
      ApplyAllConcat(Apply(o, ts[0]), ts[1..], us);
      assert (ts + us)[1..] == ts[1..] + us;
    }
  }

  lemma OverrideStep(a: Opts, b: Opts, t: Tlv)
    ensures Override(a, Apply(b, t)) == Apply(Override(a, b), t)
  {
  }

  lemma {:induction false} ApplyAllIsOverride(a: Opts, b: Opts, ts: seq<Tlv>)
    ensures ApplyAll(Override(a, b), ts) == Override(a, ApplyAll(b, ts))
    decreases |ts|
  {
    if ts != [] {
      OverrideStep(a, b, ts[0]);
      ApplyAllIsOverride(a, Apply(b, ts[0]), ts[1..]);
    }
  }
}
