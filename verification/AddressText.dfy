/**
 * The destination's address on its way to connect: the client packs it into 16 bytes, the converter prints
 * those the way inet_ntop does, keeps what stands behind the last colon, and hands that to an IPv4 socket.
 */
module AddressText {
  import opened Bytes
  import opened Wire

  /** The IPv4-mapped form of section 2.5.5.2 of RFC 4291. */
  function ToV4Mapped(from: Quad): Addr {
    Zeros(10) + [0xff, 0xff] + from
  }

  predicate IsMapped(addr: Addr) {
    addr[..12] == Zeros(10) + [0xff, 0xff]
  }

  lemma MappedForm(addr: Addr)
    ensures IsMapped(addr) <==> addr == ToV4Mapped(addr[12..16])
    ensures IsMapped(addr) <==> exists a: Quad :: ToV4Mapped(a) == addr
  {
    assert addr == addr[..12] + addr[12..16];
    forall a: Quad | ToV4Mapped(a) == addr ensures IsMapped(addr) {
      assert ToV4Mapped(a)[..12] == Zeros(10) + [0xff, 0xff];
    }
  }

  // ----- Numbers

  function Digit(d: nat): char
    requires d < 16
  {
    if d < 10 then '0' + d as char else 'a' + (d - 10) as char
  }

  function Decimal(n: byte): string {
    if n < 10 then [Digit(n)]
    else if n < 100 then [Digit(n / 10), Digit(n % 10)]
    else [Digit(n / 100), Digit(n / 10 % 10), Digit(n % 10)]
  }

  function Hex(n: nat): string
    requires n < 0x10000
  {
    if n < 16 then [Digit(n)] else Hex(n / 16) + [Digit(n % 16)]
  }

  function DottedQuad(a: Quad): string {
    Decimal(a[0]) + ['.'] + (Decimal(a[1]) + ['.'] + (Decimal(a[2]) + ['.'] + Decimal(a[3])))
  }

  lemma DecimalHasOnlyDigits(n: byte)
    ensures '.' !in Decimal(n) && ':' !in Decimal(n)
  {
  }

  lemma {:induction false} HexHasNoColon(n: nat)
    requires n < 0x10000
    ensures ':' !in Hex(n)
  {
    if n >= 16 {
      HexHasNoColon(n / 16);
    }
  }

  /** The value of a string of hexadecimal digits. */
  function HexValue(s: string): nat {
    if s == "" then 0
    else
      var c := s[|s| - 1];
      16 * HexValue(s[..|s| - 1]) + (if '0' <= c <= '9' then c as int - '0' as int
                                     else if 'a' <= c <= 'f' then c as int - 'a' as int + 10 else 0)
  }

  /** Hexadecimal text reads back, and has no zero in front. */
  lemma {:induction false} HexReads(n: nat)
    requires n < 0x10000
    ensures HexValue(Hex(n)) == n && Hex(n) != "" && (n > 0 ==> Hex(n)[0] != '0')
  {
    if n < 16 {
      assert Hex(n)[..0] == "";
    } else {
      HexReads(n / 16);
      assert Hex(n)[..|Hex(n)| - 1] == Hex(n / 16);
    }
  }

  /** The value of a string of decimal digits. */
  function Number(s: string): nat {
    if s == "" then 0
    else 10 * Number(s[..|s| - 1]) + (if s[|s| - 1] >= '0' then s[|s| - 1] as int - '0' as int else 0)
  }

  lemma NumberOfDecimal(n: byte)
    ensures Number(Decimal(n)) == n
  {
    var s := Decimal(n);
    if n >= 100 {
      assert s[..2] == [Digit(n / 100), Digit(n / 10 % 10)] && s[..2][..1] == [Digit(n / 100)];
      assert Number(s[..2][..1]) == n / 100;
      assert Number(s[..2]) == n / 10;
    } else if n >= 10 {
      assert s[..1] == [Digit(n / 10)];
      assert Number(s[..1]) == n / 10;
    }
  }

  // ----- Cutting text

  /** str.split on one character. */
  function Split(s: string, c: char): (pieces: seq<string>)
    ensures pieces != []
  {
    if s == "" then [""]
    else
      var rest := Split(s[1..], c);
      if s[0] == c then [""] + rest else [[s[0]] + rest[0]] + rest[1..]
  }

  function Ipv6ToIpv4(text: string): string {
    var pieces := Split(text, ':');
    pieces[|pieces| - 1]
  }

  lemma {:induction false} SplitAlone(p: string, c: char)
    requires c !in p
    ensures Split(p, c) == [p]
  {
    if p != "" {
      SplitAlone(p[1..], c);
      assert p[0] in p && p == [p[0]] + p[1..];
    }
  }

  lemma {:induction false} SplitPiece(p: string, c: char, t: string)
    requires c !in p
    ensures Split(p + [c] + t, c) == [p] + Split(t, c)
  {
    var s := p + [c] + t;
    if p == "" {
      assert s[1..] == t;
    } else {
      SplitPiece(p[1..], c, t);
      assert s[1..] == p[1..] + [c] + t;
      assert p[0] in p && p == [p[0]] + p[1..];
    }
  }

  lemma {:induction false} ColonSplits(t: string)
    requires ':' in t
    ensures |Split(t, ':')| >= 2
  {
    if t[0] != ':' {
      assert t == [t[0]] + t[1..];
      ColonSplits(t[1..]);
    }
  }

  /** Text in front of the last colon does not matter. */
  lemma {:induction false} FrontIsCutOff(x: string, t: string)
    requires ':' in t
    ensures Ipv6ToIpv4(x + t) == Ipv6ToIpv4(t)
  {
    if x == "" {
      assert x + t == t;
    } else {
      FrontIsCutOff(x[1..], t);
      assert (x + t)[1..] == x[1..] + t;
      assert ':' in x[1..] + t;
      ColonSplits(x[1..] + t);
    }
  }

  lemma BehindLastColon(p: string)
    requires ':' !in p
    ensures Ipv6ToIpv4([':'] + p) == p && ':' in [':'] + p
  {
    SplitPiece("", ':', p);
    SplitAlone(p, ':');
    assert "" + [':'] + p == [':'] + p;
  }

  /** The address a dotted quad stands for. */
  function QuadNumbers(s: string): seq<nat> {
    var pieces := Split(s, '.');
    seq(|pieces|, i requires 0 <= i < |pieces| => Number(pieces[i]))
  }

  lemma QuadRoundTrip(a: Quad)
    ensures QuadNumbers(DottedQuad(a)) == a
    ensures ':' !in DottedQuad(a)
  {
    hide Decimal, Number, Split;
    forall n: byte ensures '.' !in Decimal(n) && ':' !in Decimal(n) && Number(Decimal(n)) == n {
      DecimalHasOnlyDigits(n);
      NumberOfDecimal(n);
    }
    var q3 := Decimal(a[3]);
    var q2 := Decimal(a[2]) + ['.'] + q3;
    var q1 := Decimal(a[1]) + ['.'] + q2;
    SplitAlone(q3, '.');
    SplitPiece(Decimal(a[2]), '.', q3);
    SplitPiece(Decimal(a[1]), '.', q2);
    SplitPiece(Decimal(a[0]), '.', q1);
    assert Split(DottedQuad(a), '.') == [Decimal(a[0]), Decimal(a[1]), Decimal(a[2]), Decimal(a[3])];
  }

  // ----- inet_ntop

  function Word(addr: Addr, i: nat): (w: nat)
    requires i < 8
    ensures w < 0x10000
  {
    addr[2 * i] as nat * 256 + addr[2 * i + 1] as nat
  }

  /** How many words from i on are zero. */
  function ZeroRun(addr: Addr, i: nat): (n: nat)
    requires i <= 8
    ensures i + n <= 8
    decreases 8 - i
  {
    if i < 8 && Word(addr, i) == 0 then 1 + ZeroRun(addr, i + 1) else 0
  }

  datatype Run = Run(base: nat, len: nat)

  /** The first longest run of zero words from i on. */
  function BestFrom(addr: Addr, i: nat): (r: Run)
    requires i <= 8
    ensures i <= r.base && r.base + r.len <= 8
    decreases 8 - i
  {
    if i == 8 then Run(8, 0)
    else
      var later := BestFrom(addr, i + 1);
      if ZeroRun(addr, i) >= later.len then Run(i, ZeroRun(addr, i)) else later
  }

  /** The run written as a double colon; a single zero word is not. */
  function Shortened(addr: Addr): (r: Run)
    ensures r.base + r.len <= 8
  {
    var r := BestFrom(addr, 0);
    if r.len < 2 then Run(8, 0) else r
  }

  /** How many words from i on are zero, word by word. */
  lemma {:induction false} ZeroRunIs(addr: Addr, i: nat)
    requires i <= 8
    ensures forall j :: i <= j < i + ZeroRun(addr, i) ==> Word(addr, j) == 0
    ensures i + ZeroRun(addr, i) < 8 ==> Word(addr, i + ZeroRun(addr, i)) != 0
    decreases 8 - i
  {
    hide Word;
    if i < 8 && Word(addr, i) == 0 {
      ZeroRunIs(addr, i + 1);
    }
  }

  lemma {:induction false} BestIsFirstLongest(addr: Addr, i: nat, j: nat)
    requires i <= j <= 8
    ensures var r := BestFrom(addr, i);
            && ZeroRun(addr, j) <= r.len && (j < r.base ==> ZeroRun(addr, j) < r.len)
            && (r.base < 8 ==> r.len == ZeroRun(addr, r.base))
    decreases 8 - i
  {
    hide ZeroRun;
    if i < 8 {
      BestIsFirstLongest(addr, i + 1, if i == j then i + 1 else j);
    } else {
      EndRun(addr);
    }
  }

  lemma EndRun(addr: Addr)
    ensures ZeroRun(addr, 8) == 0
  {
  }

  /** What is written as a double colon is the first of the longest runs of zero words, if that has at least two. */
  lemma ShortenedIsFirstLongest(addr: Addr, j: nat)
    requires j <= 8
    ensures var r := Shortened(addr);
            if r.len == 0 then ZeroRun(addr, j) < 2
            else && r.len >= 2 && r.base < 8 && r.len == ZeroRun(addr, r.base)
                 && ZeroRun(addr, j) <= r.len && (j < r.base ==> ZeroRun(addr, j) < r.len)
  {
    BestIsFirstLongest(addr, 0, j);
    hide ZeroRun;
  }

  /** Whether the last 32 bits are written as a dotted quad. */
  predicate Embeds(addr: Addr, r: Run) {
    r.base == 0 && (r.len == 6 || (r.len == 5 && Word(addr, 5) == 0xffff))
  }

  /** The text from word i on. */
  function TextFrom(addr: Addr, r: Run, i: nat): string
    requires i <= 8
    decreases 8 - i
  {
    if i == 8 then (if r.len > 0 && r.base + r.len == 8 then ":" else "")
    else if r.base <= i < r.base + r.len then (if i == r.base then ":" else "") + TextFrom(addr, r, i + 1)
    else
      (if i != 0 then ":" else "")
      + if i == 6 && Embeds(addr, r) then DottedQuad(addr[12..16])
        else Hex(Word(addr, i)) + TextFrom(addr, r, i + 1)
  }

  function AddrText(addr: Addr): string {
    TextFrom(addr, Shortened(addr), 0)
  }

  /** The host the converter hands to connect. */
  function HostOf(addr: Addr): string {
    Ipv6ToIpv4(AddrText(addr))
  }

  /** Word i adds some text in front of that of the following words. */
  lemma TextStep(addr: Addr, r: Run, i: nat) returns (x: string)
    requires i < 8 && (Embeds(addr, r) ==> i < 6)
    ensures TextFrom(addr, r, i) == x + TextFrom(addr, r, i + 1)
  {
    hide Hex, DottedQuad, Word;
    var t := TextFrom(addr, r, i + 1);
    if r.base <= i < r.base + r.len {
      x := if i == r.base then ":" else "";
    } else {
      var colon, h := if i != 0 then ":" else "", Hex(Word(addr, i));
      x := colon + h;
      assert colon + (h + t) == x + t;
    }
  }

  /** Only the text from word j on decides, as long as it has a colon. */
  lemma {:induction false} TextTail(addr: Addr, r: Run, i: nat, j: nat)
    requires i <= j <= 8 && (Embeds(addr, r) ==> j <= 6) && ':' in TextFrom(addr, r, j)
    ensures ':' in TextFrom(addr, r, i) && Ipv6ToIpv4(TextFrom(addr, r, i)) == Ipv6ToIpv4(TextFrom(addr, r, j))
    decreases j - i
  {
    if i < j {
      hide Ipv6ToIpv4, TextFrom, Embeds;
      TextTail(addr, r, i + 1, j);
      var x := TextStep(addr, r, i);
      FrontIsCutOff(x, TextFrom(addr, r, i + 1));
    }
  }

  /** Exactly the addresses written with a dotted quad: IPv4-compatible ones of more than 16 bits, and mapped ones. */
  lemma EmbedsExactly(addr: Addr)
    ensures Embeds(addr, Shortened(addr))
            <==> && (forall i :: 0 <= i < 10 ==> addr[i] == 0)
                 && ((addr[10] == addr[11] == 0 && (addr[12] != 0 || addr[13] != 0)) || addr[10] == addr[11] == 0xff)
  {
    ZeroRunIs(addr, 0);
    ShortenedIsFirstLongest(addr, 0);
    WordsAreBytes(addr);
    hide Word, Shortened, BestFrom;
    if (forall i :: 0 <= i < 5 ==> Word(addr, i) == 0) && Word(addr, 5) == 0 && Word(addr, 6) != 0 {
      assert ZeroRun(addr, 6) == 0 && ZeroRun(addr, 4) == 2 && ZeroRun(addr, 2) == 4 && ZeroRun(addr, 0) == 6;
      ZeroRunBound(addr);
    }
    if (forall i :: 0 <= i < 5 ==> Word(addr, i) == 0) && Word(addr, 5) == 0xffff {
      assert ZeroRun(addr, 5) == 0 && ZeroRun(addr, 3) == 2 && ZeroRun(addr, 1) == 4 && ZeroRun(addr, 0) == 5;
      ZeroRunBound(addr);
    }
  }

  lemma WordsAreBytes(addr: Addr)
    ensures forall i :: 0 <= i < 8 ==> (Word(addr, i) == 0 <==> addr[2 * i] == 0 && addr[2 * i + 1] == 0)
    ensures (forall i :: 0 <= i < 5 ==> Word(addr, i) == 0) <==> (forall i :: 0 <= i < 10 ==> addr[i] == 0)
    ensures Word(addr, 5) == 0xffff <==> addr[10] == addr[11] == 0xff
  {
    if forall i :: 0 <= i < 5 ==> Word(addr, i) == 0 {
      assert Word(addr, 0) == Word(addr, 1) == Word(addr, 2) == Word(addr, 3) == Word(addr, 4) == 0;
    }
  }

  /** A run from the front of at least five words is the one written as a double colon. */
  lemma ZeroRunBound(addr: Addr)
    requires ZeroRun(addr, 0) >= 5
    ensures Shortened(addr) == Run(0, ZeroRun(addr, 0))
  {
    ShortenedIsFirstLongest(addr, 0);
    ZeroRunIs(addr, 0);
    var r := Shortened(addr);
    hide Shortened, Word, BestFrom;
    if r.base > 0 {
      assert ZeroRun(addr, 0) < r.len;
    }
  }

  /** What is left of each kind of address. */
  lemma HostCases(addr: Addr)
    ensures var r := Shortened(addr);
            HostOf(addr) == if Embeds(addr, r) then DottedQuad(addr[12..16])
                            else if r.len > 0 && r.base + r.len == 8 then ""
                            else Hex(Word(addr, 7))
  {
    var r := Shortened(addr);
    hide Ipv6ToIpv4, Shortened, Hex, DottedQuad;
    if Embeds(addr, r) {
      QuadRoundTrip(addr[12..16]);
      BehindLastColon(DottedQuad(addr[12..16]));
      TextTail(addr, r, 0, 6);
    } else if r.len > 0 && r.base + r.len == 8 {
      BehindLastColon("");
      assert [':'] + "" == ":";
      TextTail(addr, r, 0, 8);
    } else {
      HexHasNoColon(Word(addr, 7));
      BehindLastColon(Hex(Word(addr, 7)));
      assert Hex(Word(addr, 7)) + "" == Hex(Word(addr, 7));
      TextTail(addr, r, 0, 7);
    }
  }

  /** Five zero words, then ffff: the run written as a double colon is the first five. */
  lemma MappedRun(addr: Addr)
    requires IsMapped(addr)
    ensures Shortened(addr) == Run(0, 5) && Embeds(addr, Shortened(addr))
  {
    MappedForm(addr);
    assert Word(addr, 0) == Word(addr, 1) == Word(addr, 2) == Word(addr, 3) == Word(addr, 4) == 0;
    assert Word(addr, 5) == 0xffff;
    hide Word;
    assert BestFrom(addr, 5).len <= 3;
    assert ZeroRun(addr, 5) == 0 && ZeroRun(addr, 4) == 1 && ZeroRun(addr, 3) == 2;
    assert BestFrom(addr, 3).len <= 3;
    assert ZeroRun(addr, 2) == 3 && ZeroRun(addr, 1) == 4 && ZeroRun(addr, 0) == 5;
    assert BestFrom(addr, 1) == Run(1, 4);
  }

  // ----- What is dialled

  /** What a host name resolves to over IPv4. */
  datatype Peer = Nowhere | At(a: Quad)

  /** A dotted quad resolves to itself; any other text is looked up. */
  ghost function Resolve(names: string -> Peer, host: string): Peer {
    if a: Quad :| DottedQuad(a) == host then At(a) else names(host)
  }

  lemma QuadResolves(names: string -> Peer, a: Quad)
    ensures Resolve(names, DottedQuad(a)) == At(a)
  {
    forall b: Quad | DottedQuad(b) == DottedQuad(a) ensures b == a {
      QuadRoundTrip(a);
      QuadRoundTrip(b);
    }
  }

  /** An IPv4 target survives: mapped by the client, printed and cut at the last colon by the converter. */
  lemma MappedAddressRoundTrip(a: Quad)
    ensures HostOf(ToV4Mapped(a)) == DottedQuad(a) && QuadNumbers(HostOf(ToV4Mapped(a))) == a
  {
    assert ToV4Mapped(a)[12..16] == a;
    MappedForm(ToV4Mapped(a));
    MappedRun(ToV4Mapped(a));
    HostCases(ToV4Mapped(a));
    QuadRoundTrip(a);
  }

  ghost predicate Reaches(names: string -> Peer, addr: Addr) {
    var p := Resolve(names, HostOf(addr));
    p.At? && ToV4Mapped(p.a) == addr
  }

  /** The converter dials the address it was asked for exactly when that is an IPv4-mapped one. */
  lemma DialsWantedExactly(names: string -> Peer, addr: Addr)
    ensures Reaches(names, addr) <==> IsMapped(addr)
  {
    MappedForm(addr);
    if IsMapped(addr) {
      MappedAddressRoundTrip(addr[12..16]);
      QuadResolves(names, addr[12..16]);
    }
  }

  lemma NotEmbedded(addr: Addr)
    requires Shortened(addr).base == 2
    ensures !Embeds(addr, Shortened(addr))
  {
  }

  lemma UnmappedForm(addr: Addr)
    requires addr[0] == 0x20
    ensures !IsMapped(addr)
  {
  }

  lemma FiveAsHex()
    ensures Hex(5) == "5"
  {
  }

  /** Words 2 to 6 are zero and those in front are not: that run, and word 7 with it if it is zero, is the longest. */
  lemma LongRun(addr: Addr)
    requires Word(addr, 0) != 0 && Word(addr, 1) != 0
    requires Word(addr, 2) == Word(addr, 3) == Word(addr, 4) == Word(addr, 5) == Word(addr, 6) == 0
    ensures Shortened(addr) == Run(2, if Word(addr, 7) == 0 then 6 else 5)
  {
    hide Word;
    var tail := ZeroRun(addr, 7);
    assert BestFrom(addr, 8) == Run(8, 0) && BestFrom(addr, 7) == Run(7, tail);
    assert ZeroRun(addr, 6) == 1 + tail && ZeroRun(addr, 5) == 2 + tail && ZeroRun(addr, 4) == 3 + tail;
    assert BestFrom(addr, 5) == Run(5, 2 + tail) && BestFrom(addr, 3) == Run(3, 4 + tail);
    assert BestFrom(addr, 2) == Run(2, 5 + tail);
  }

  /** 2001:db8:: leaves no text at all, which is the converter's own host; 2001:db8::5 leaves "5". */
  lemma UnmappedHosts(addr: Addr)
    requires addr[..14] == [0x20, 0x01, 0x0d, 0xb8] + Zeros(10) && addr[14] == 0
    ensures addr[15] == 0 ==> HostOf(addr) == ""
    ensures addr[15] == 5 ==> HostOf(addr) == "5"
    ensures !IsMapped(addr)
  {
    assert addr[0] == 0x20 && addr[1] == 0x01 && addr[2] == 0x0d && addr[3] == 0xb8;
    assert forall i :: 4 <= i < 15 ==> addr[i] == 0;
    assert Word(addr, 0) != 0 && Word(addr, 1) != 0 && Word(addr, 7) == addr[15];
    assert Word(addr, 2) == Word(addr, 3) == Word(addr, 4) == Word(addr, 5) == Word(addr, 6) == 0;
    hide *;
    LongRun(addr);
    HostCases(addr);
    FiveAsHex();
    UnmappedForm(addr);
    NotEmbedded(addr);
  }
}
