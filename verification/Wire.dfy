/** The segment format: a 24-byte little-endian header followed by the data. */
module Wire {
  import opened Serial

  const OVERHEAD: nat := 24
  const CMD_PUSH: u8 := 81
  const CMD_ACK: u8 := 82
  const CMD_WASK: u8 := 83
  const CMD_WINS: u8 := 84

  /** One segment as it travels; the header's length field is |data|. */
  datatype WireSeg = WireSeg(conv: u32, cmd: u8, frg: u8, wnd: u16, ts: u32, sn: u32, una: u32, data: seq<u8>)

  type Packet = seq<WireSeg>

  predicate KnownCommand(cmd: u8) {
    cmd == CMD_PUSH || cmd == CMD_ACK || cmd == CMD_WASK || cmd == CMD_WINS
  }

  function Encode16(x: u16): seq<u8> {
    [x % 0x100, x / 0x100]
  }

  function Encode32(x: u32): seq<u8> {
    Encode16(x % 0x1_0000) + Encode16(x / 0x1_0000)
  }

  function Decode16(b: seq<u8>): u16
    requires |b| >= 2
  {
    var lo: int, hi: int := b[0], b[1];
    lo + 0x100 * hi
  }

  function Decode32(b: seq<u8>): u32
    requires |b| >= 4
  {
    Decode16(b) + 0x1_0000 * Decode16(b[2..])
  }

  lemma Decode32Inverts(x: u32, tail: seq<u8>)
    ensures |Encode32(x)| == 4
    ensures Decode32(Encode32(x) + tail) == x
  {
    var b := Encode32(x) + tail;
    assert b[2..] == Encode16(x / 0x1_0000) + tail;
  }

  function EncodeHeader(w: WireSeg): (b: seq<u8>)
    requires |w.data| < TWO32
    ensures |b| == OVERHEAD
  {
    Encode32(w.conv) + [w.cmd, w.frg] + Encode16(w.wnd) + Encode32(w.ts)
    + Encode32(w.sn) + Encode32(w.una) + Encode32(|w.data|)
  }

  predicate Sendable(w: WireSeg) {
    |w.data| < HALF && KnownCommand(w.cmd)
  }

  function EncodeSeg(w: WireSeg): (b: seq<u8>)
    requires Sendable(w)
    ensures |b| == OVERHEAD + |w.data|
  {
    EncodeHeader(w) + w.data
  }

  function Size(w: WireSeg): nat {
    OVERHEAD + |w.data|
  }

  function EncodePacket(p: Packet): seq<u8>
    requires forall w | w in p :: Sendable(w)
  {
    if p == [] then [] else EncodeSeg(p[0]) + EncodePacket(p[1..])
  }

  function PacketSize(p: Packet): nat {
    if p == [] then 0 else Size(p[0]) + PacketSize(p[1..])
  }

  /** The header at the front of `b`, with the length field still to be trusted. */
  function DecodeHeader(b: seq<u8>): (WireSeg, u32)
    requires |b| >= OVERHEAD
  {
    (WireSeg(Decode32(b), b[4], b[5], Decode16(b[6..]), Decode32(b[8..]), Decode32(b[12..]), Decode32(b[16..]), []),
     Decode32(b[20..]))
  }

  /** The layout on the wire: little-endian fields, at fixed offsets. */
  lemma HeaderLayout(w: WireSeg)
    requires |w.data| < TWO32
    ensures var b := EncodeHeader(w);
            && WordAt(b, 0) == w.conv && b[4] == w.cmd && b[5] == w.frg && HalfAt(b, 6) == w.wnd
            && WordAt(b, 8) == w.ts && WordAt(b, 12) == w.sn && WordAt(b, 16) == w.una && WordAt(b, 20) == |w.data|
  {
    LittleEndian(w.conv);
    LittleEndian(w.ts);
    LittleEndian(w.sn);
    LittleEndian(w.una);
    LittleEndian(|w.data|);
    var conv, ts, sn, una, len := Encode32(w.conv), Encode32(w.ts), Encode32(w.sn), Encode32(w.una), Encode32(|w.data|);
    var start := conv + [w.cmd, w.frg] + Encode16(w.wnd);
    assert EncodeHeader(w) == start + ts + sn + una + len;
    hide Encode32;
    assert start[0..4] == conv && start[6..8] == Encode16(w.wnd) && |start| == 8;
    Blocks(start, ts, sn, una, len);
  }

  lemma Blocks(start: seq<u8>, ts: seq<u8>, sn: seq<u8>, una: seq<u8>, len: seq<u8>)
    requires |start| == 8 && |ts| == |sn| == |una| == |len| == 4
    ensures var b := start + ts + sn + una + len;
            && b[..8] == start && b[8..12] == ts && b[12..16] == sn && b[16..20] == una && b[20..24] == len
  {
  }

  /** Two bytes, the less significant first. */
  function HalfAt(b: seq<u8>, i: nat): int
    requires i + 2 <= |b|
  {
    var lo: int, hi: int := b[i], b[i + 1];
    lo + 0x100 * hi
  }

  /** Four bytes, the least significant first. */
  function WordAt(b: seq<u8>, i: nat): int
    requires i + 4 <= |b|
  {
    HalfAt(b, i) + 0x1_0000 * HalfAt(b, i + 2)
  }

  lemma LittleEndian(x: u32)
    ensures |Encode32(x)| == 4 && WordAt(Encode32(x), 0) == x
  {
  }

  lemma HeaderRoundTrip(w: WireSeg, tail: seq<u8>)
    requires |w.data| < TWO32
    ensures DecodeHeader(EncodeHeader(w) + tail) == (w.(data := []), |w.data|)
  {
    var fromLen := Encode32(|w.data|) + tail;
    var fromUna := Encode32(w.una) + fromLen;
    var fromSn := Encode32(w.sn) + fromUna;
    var fromTs := Encode32(w.ts) + fromSn;
    var fromWnd := Encode16(w.wnd) + fromTs;
    var b := Encode32(w.conv) + ([w.cmd, w.frg] + fromWnd);
    assert b == EncodeHeader(w) + tail;
    assert b[6..] == fromWnd;
    assert b[8..] == fromWnd[2..] == fromTs;
    assert b[12..] == fromTs[4..] == fromSn;
    assert b[16..] == fromSn[4..] == fromUna;
    assert b[20..] == fromUna[4..] == fromLen;
    Decode32Inverts(w.conv, [w.cmd, w.frg] + fromWnd);
    Decode32Inverts(w.ts, fromSn);
    Decode32Inverts(w.sn, fromUna);
    Decode32Inverts(w.una, fromLen);
    Decode32Inverts(|w.data|, tail);
  }

  datatype Parsed = Malformed(code: int) | Segment(seg: WireSeg, rest: seq<u8>)

  /** What `ikcp_input` makes of the bytes still unread when at least a header's
      worth of them is left: a return code, or a segment and what follows it. */
  function ParseOne(conv: u32, b: seq<u8>): (r: Parsed)
    requires |b| >= OVERHEAD
    ensures r.Segment? ==> |r.rest| < |b|
  {
    var (h, len) := DecodeHeader(b);
    if h.conv != conv then Malformed(-1)
    else if |b| - OVERHEAD < len || len >= HALF then Malformed(-2)
    else if !KnownCommand(h.cmd) then Malformed(-3)
    else Segment(h.(data := b[OVERHEAD..OVERHEAD + len]), b[OVERHEAD + len..])
  }

  /** A whole datagram: the segments that get processed, and the return code. */
  function Parse(conv: u32, b: seq<u8>): (Packet, int)
    decreases |b|
  {
    if |b| < OVERHEAD then ([], 0)
    else
      match ParseOne(conv, b)
      case Malformed(code) => ([], code)
      case Segment(w, rest) =>
        var (ws, code) := Parse(conv, rest);
        ([w] + ws, code)
  }

  lemma ParseOneInverts(w: WireSeg, tail: seq<u8>)
    requires Sendable(w)
    ensures ParseOne(w.conv, EncodeSeg(w) + tail) == Segment(w, tail)
  {
    var b := EncodeSeg(w) + tail;
    assert b == EncodeHeader(w) + (w.data + tail);
    HeaderRoundTrip(w, w.data + tail);
    assert b[OVERHEAD..OVERHEAD + |w.data|] == w.data;
    assert b[OVERHEAD + |w.data|..] == tail;
  }

  lemma ParseStep(w: WireSeg, tail: seq<u8>)
    requires Sendable(w)
    ensures var (ws, code) := Parse(w.conv, tail); Parse(w.conv, EncodeSeg(w) + tail) == ([w] + ws, code)
  {
    ParseOneInverts(w, tail);
  }

  /** Wire round trip: parsing the concatenation of encoded segments gives back
      exactly those segments, with the success code. Fewer than 24 stray bytes at
      the end change nothing. */
  lemma {:induction false} ParseInvertsEncode(conv: u32, p: Packet, stray: seq<u8>)
    requires forall w | w in p :: Sendable(w) && w.conv == conv
    requires |stray| < OVERHEAD
    ensures Parse(conv, EncodePacket(p) + stray) == (p, 0)
  {
    if p == [] {
      assert EncodePacket(p) + stray == stray;
    } else {
      var tail := EncodePacket(p[1..]) + stray;
      assert EncodePacket(p) + stray == EncodeSeg(p[0]) + tail;
      ParseStep(p[0], tail);
      ParseInvertsEncode(conv, p[1..], stray);
      assert [p[0]] + p[1..] == p;
    }
  }

  lemma ParsePacket(conv: u32, p: Packet)
    requires p != [] && forall w | w in p :: Sendable(w) && w.conv == conv
    ensures Parse(conv, EncodePacket(p)) == (p, 0)
    ensures |EncodePacket(p)| == PacketSize(p) >= OVERHEAD
  {
    hide EncodeSeg, Parse;
    ParseInvertsEncode(conv, p, []);
    assert EncodePacket(p) + [] == EncodePacket(p);
    EncodedSize(p);
  }

  /** Every segment that parsing hands on is one that could have been sent. */
  lemma {:induction false} ParsedAreSendable(conv: u32, b: seq<u8>)
    ensures forall w | w in Parse(conv, b).0 :: Sendable(w) && w.conv == conv
    ensures Parse(conv, b).1 in {0, -1, -2, -3}
    decreases |b|
  {
    if |b| >= OVERHEAD && ParseOne(conv, b).Segment? {
      ParsedAreSendable(conv, ParseOne(conv, b).rest);
    }
  }

  /** ... and its bytes are exactly the front of the datagram: parsing invents
      nothing and skips nothing, and stops at the first malformed header. */
  lemma {:induction false} ParseReadsPrefix(conv: u32, b: seq<u8>)
    requires forall w | w in Parse(conv, b).0 :: Sendable(w)
    ensures EncodePacket(Parse(conv, b).0) <= b
    ensures Parse(conv, b).1 == 0 ==> |b| - |EncodePacket(Parse(conv, b).0)| < OVERHEAD
    decreases |b|
  {
    if |b| >= OVERHEAD && ParseOne(conv, b).Segment? {
      hide EncodeSeg, ParseOne, Sendable, EncodePacket;
      var w, rest := ParseOne(conv, b).seg, ParseOne(conv, b).rest;
      var (ws, _) := Parse(conv, rest);
      ParsedAreSendable(conv, rest);
      ParseReadsPrefix(conv, rest);
      ParseOneReadsPrefix(conv, b);
      EncodeCons(w, ws);
    } else {
      assert EncodePacket([]) == [];
    }
  }

  /** Why parsing stops at these bytes: too little for a header, a foreign conversation,
      more data announced than there is, or an unknown command, in this order. */
  predicate StopsFor(conv: u32, rest: seq<u8>, code: int) {
    if |rest| < 24 then code == 0
    else if WordAt(rest, 0) != conv then code == -1
    else if WordAt(rest, 20) > |rest| - 24 || WordAt(rest, 20) >= 0x8000_0000 then code == -2
    else code == -3 && rest[4] !in {81, 82, 83, 84}
  }

  /** `b` is the segments and, behind them, bytes for which parsing stops. */
  ghost predicate StopsAfter(conv: u32, b: seq<u8>, ws: Packet, code: int) {
    && (forall w | w in ws :: Sendable(w))
    && EncodePacket(ws) <= b
    && StopsFor(conv, b[|EncodePacket(ws)|..], code)
  }

  /** What is left unread behind the parsed segments decides the return code. */
  lemma {:induction false} ParseStopsWhere(conv: u32, b: seq<u8>)
    ensures StopsAfter(conv, b, Parse(conv, b).0, Parse(conv, b).1)
    decreases |b|
  {
    hide StopsAfter, ParseOne;
    if |b| < OVERHEAD || ParseOne(conv, b).Malformed? {
      StopsNow(conv, b);
    } else {
      var w, rest := ParseOne(conv, b).seg, ParseOne(conv, b).rest;
      ParseStopsWhere(conv, rest);
      ParseOneReadsPrefix(conv, b);
      StopsLater(conv, w, rest, Parse(conv, rest).0, Parse(conv, rest).1);
    }
  }

  lemma StopsNow(conv: u32, b: seq<u8>)
    requires |b| < OVERHEAD || ParseOne(conv, b).Malformed?
    ensures StopsAfter(conv, b, [], Parse(conv, b).1)
  {
    if |b| >= OVERHEAD { HeaderWords(b); }
    hide WordAt, DecodeHeader;
    assert EncodePacket([]) == [] && b[0..] == b;
  }

  lemma StopsLater(conv: u32, w: WireSeg, rest: seq<u8>, ws: Packet, code: int)
    requires Sendable(w) && StopsAfter(conv, rest, ws, code)
    ensures StopsAfter(conv, EncodeSeg(w) + rest, [w] + ws, code)
  {
    hide EncodeSeg, StopsFor, Sendable;
    EncodeCons(w, ws);
    hide EncodePacket;
    var k := |EncodeSeg(w)|;
    assert (EncodeSeg(w) + rest)[k + |EncodePacket(ws)|..] == rest[|EncodePacket(ws)|..];
  }

  lemma HeaderWords(b: seq<u8>)
    requires |b| >= OVERHEAD
    ensures var (h, len) := DecodeHeader(b); WordAt(b, 0) == h.conv && WordAt(b, 20) == len && b[4] == h.cmd
  {
  }

  lemma EncodeCons(w: WireSeg, ws: Packet)
    requires Sendable(w) && forall v | v in ws :: Sendable(v)
    ensures EncodePacket([w] + ws) == EncodeSeg(w) + EncodePacket(ws)
  {
    hide EncodeSeg;
    assert ([w] + ws)[1..] == ws;
  }

  lemma ParseOneReadsPrefix(conv: u32, b: seq<u8>)
    requires |b| >= OVERHEAD && ParseOne(conv, b).Segment?
    ensures Sendable(ParseOne(conv, b).seg)
    ensures b == EncodeSeg(ParseOne(conv, b).seg) + ParseOne(conv, b).rest
  {
    HeaderBytes(b);
  }

  lemma HeaderBytes(b: seq<u8>)
    requires |b| >= OVERHEAD
    ensures var (h, len) := DecodeHeader(b);
            Encode32(h.conv) + [h.cmd, h.frg] + Encode16(h.wnd) + Encode32(h.ts)
            + Encode32(h.sn) + Encode32(h.una) + Encode32(len) == b[..OVERHEAD]
  {
    Encode32Inverts(b[0..]);
    Encode32Inverts(b[8..]);
    Encode32Inverts(b[12..]);
    Encode32Inverts(b[16..]);
    Encode32Inverts(b[20..]);
    assert Encode16(Decode16(b[6..])) == b[6..8];
  }

  lemma Encode32Inverts(b: seq<u8>)
    requires |b| >= 4
    ensures Encode32(Decode32(b)) == b[..4]
  {
    Encode16Inverts(b);
    Encode16Inverts(b[2..]);
    var lo: int, hi: int := Decode16(b), Decode16(b[2..]);
    assert (lo + 0x1_0000 * hi) % 0x1_0000 == lo && (lo + 0x1_0000 * hi) / 0x1_0000 == hi;
    hide Encode16, Decode16;
  }

  lemma Encode16Inverts(b: seq<u8>)
    requires |b| >= 2
    ensures Encode16(Decode16(b)) == b[..2]
  {
  }

  lemma {:induction false} EncodeAppend(p: Packet, w: WireSeg)
    requires forall v | v in p + [w] :: Sendable(v)
    ensures EncodePacket(p + [w]) == EncodePacket(p) + EncodeSeg(w)
    ensures PacketSize(p + [w]) == PacketSize(p) + Size(w)
  {
    hide EncodeSeg;
    if p == [] {
      assert EncodePacket([w]) == EncodeSeg(w) + EncodePacket([]);
    } else {
      assert (p + [w])[1..] == p[1..] + [w];
      EncodeAppend(p[1..], w);
    }
  }

  lemma {:induction false} EncodedSize(p: Packet)
    requires forall v | v in p :: Sendable(v)
    ensures |EncodePacket(p)| == PacketSize(p)
  {
    if p != [] {
      EncodedSize(p[1..]);
    }
  }
}
