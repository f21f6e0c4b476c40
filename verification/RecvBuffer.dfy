/** The receive side: a reordering buffer that drops duplicates, and the queue of
    in-order fragments from which whole messages are taken. */
module RecvBuffer {
  import opened Serial
  import opened ControlBlock

  /** Strictly increasing in wrap order inside [base, base + n). */
  ghost predicate Ordered(buf: seq<RcvSeg>, base: u32, n: int) {
    && (forall i | 0 <= i < |buf| :: Sub32(buf[i].sn, base) < n)
    && (forall i, j | 0 <= i < j < |buf| :: Sub32(buf[i].sn, base) < Sub32(buf[j].sn, base))
  }

  /** Nothing that could be moved to the queue is left in the buffer. */
  predicate Drained(rcv: Receiver, wnd: u32) {
    rcv.buf == [] || rcv.buf[0].sn != rcv.nxt || |rcv.queue| >= wnd
  }

  ghost predicate Inv(rcv: Receiver, wnd: u32) {
    && Ordered(rcv.buf, rcv.nxt, wnd)
    && |rcv.queue| <= wnd
    && Drained(rcv, wnd)
  }

  /** Insertion in wrap order; a duplicate is dropped. */
  function Insert(buf: seq<RcvSeg>, base: u32, seg: RcvSeg): seq<RcvSeg> {
    if buf == [] || Sub32(seg.sn, base) < Sub32(buf[0].sn, base) then [seg] + buf
    else if buf[0].sn == seg.sn then buf
    else [buf[0]] + Insert(buf[1..], base, seg)
  }

  /** One move of the draining loop. */
  function MoveOne(rcv: Receiver): Receiver
    requires rcv.buf != []
  {
    Receiver(Add32(rcv.nxt, 1), rcv.queue + [rcv.buf[0].frag], rcv.buf[1..], rcv.acks)
  }

  /** Move what is in order, as far as the window has room. */
  function Drain(rcv: Receiver, wnd: u32): Receiver
    decreases |rcv.buf|
  {
    if Drained(rcv, wnd) then rcv
    else Drain(MoveOne(rcv), wnd)
  }

  predicate BelowWindowEnd(rcv: Receiver, wnd: u32, sn: u32) {
    Diff(sn, Add32(rcv.nxt, wnd)) < 0
  }

  predicate InWindow(rcv: Receiver, wnd: u32, sn: u32) {
    BelowWindowEnd(rcv, wnd, sn) && Diff(sn, rcv.nxt) >= 0
  }

  lemma InWindowIsOffset(rcv: Receiver, wnd: u32, sn: u32)
    requires 0 < wnd <= MAX_WND
    ensures InWindow(rcv, wnd, sn) <==> Sub32(sn, rcv.nxt) < wnd
  {
  }

  /** `ikcp_parse_data`. */
  function ParseData(rcv: Receiver, wnd: u32, seg: RcvSeg): Receiver {
    if InWindow(rcv, wnd, seg.sn) then Drain(rcv.(buf := Insert(rcv.buf, rcv.nxt, seg)), wnd) else rcv
  }

  /** The PUSH case of `ikcp_input`: acknowledge all but what lies beyond the window. */
  function HearPush(rcv: Receiver, wnd: u32, ack: Ack, frag: Frag): Receiver {
    if BelowWindowEnd(rcv, wnd, ack.sn) then
      ParseData(rcv.(acks := rcv.acks + [ack]), wnd, RcvSeg(ack.sn, frag))
    else
      rcv
  }

  // ---- messages ----

  /** How many fragments from the front make up the next message. */
  function MsgEnd(q: seq<Frag>): (n: nat)
    ensures n <= |q|
  {
    if q == [] then 0 else if q[0].frg == 0 then 1 else 1 + MsgEnd(q[1..])
  }

  function NextMsg(q: seq<Frag>): seq<u8> {
    Bytes(q[..MsgEnd(q)])
  }

  /** `ikcp_peeksize`. */
  function PeekSize(q: seq<Frag>): int {
    if q == [] then -1
    else if q[0].frg == 0 then |q[0].data|
    else if |q| < q[0].frg + 1 then -1
    else |NextMsg(q)|
  }

  // ---- insertion ----

  function MapOf(buf: seq<RcvSeg>): map<u32, Frag> {
    if buf == [] then map[] else MapOf(buf[1..])[buf[0].sn := buf[0].frag]
  }

  lemma OrderedBound(buf: seq<RcvSeg>, base: u32, n: int)
    requires Ordered(buf, base, n)
    ensures forall g | g in buf :: Sub32(g.sn, base) < n
  {
  }

  lemma OrderedTail(buf: seq<RcvSeg>, base: u32, n: int)
    requires Ordered(buf, base, n) && buf != []
    ensures Ordered(buf[1..], base, n)
    ensures Sub32(buf[0].sn, base) < n
    ensures forall g | g in buf[1..] :: Sub32(buf[0].sn, base) < Sub32(g.sn, base)
    ensures forall g :: g in buf <==> g == buf[0] || g in buf[1..]
  {
    assert forall i | 0 <= i < |buf[1..]| :: buf[1..][i] == buf[i + 1];
  }

  lemma OrderedCons(h: RcvSeg, t: seq<RcvSeg>, base: u32, n: int)
    requires Ordered(t, base, n) && Sub32(h.sn, base) < n
    requires forall g | g in t :: Sub32(h.sn, base) < Sub32(g.sn, base)
    ensures Ordered([h] + t, base, n)
  {
    var buf := [h] + t;
    forall i, j | 0 <= i < j < |buf| ensures Sub32(buf[i].sn, base) < Sub32(buf[j].sn, base) {
      assert buf[j] == t[j - 1] && buf[j] in t;
    }
  }

  lemma {:induction false} MapOfMember(buf: seq<RcvSeg>, base: u32, n: int, sn: u32)
    requires Ordered(buf, base, n)
    ensures sn in MapOf(buf) <==> exists g :: g in buf && g.sn == sn
    ensures forall g | g in buf && g.sn == sn :: MapOf(buf)[sn] == g.frag
  {
    if buf != [] {
      OrderedTail(buf, base, n);
      MapOfMember(buf[1..], base, n, sn);
      if buf[0].sn == sn { assert buf[0] in buf; }
      if sn in MapOf(buf[1..]) {
        var g :| g in buf[1..] && g.sn == sn;
        assert g in buf;
      }
    }
  }

  lemma {:induction false} InsertProps(buf: seq<RcvSeg>, base: u32, n: int, seg: RcvSeg)
    requires Ordered(buf, base, n) && Sub32(seg.sn, base) < n
    ensures forall g :: g in Insert(buf, base, seg) <==>
                        g in buf || (g == seg && forall h | h in buf :: h.sn != seg.sn)
    ensures Ordered(Insert(buf, base, seg), base, n)
  {
    if buf != [] {
      OrderedTail(buf, base, n);
      if Sub32(seg.sn, base) < Sub32(buf[0].sn, base) {
        OrderedCons(seg, buf, base, n);
      } else if buf[0].sn == seg.sn {
        assert buf[0] in buf;
      } else {
        InsertProps(buf[1..], base, n, seg);
        OrderedCons(buf[0], Insert(buf[1..], base, seg), base, n);
      }
    }
  }

  lemma MapOfCons(seg: RcvSeg, buf: seq<RcvSeg>)
    ensures MapOf([seg] + buf) == MapOf(buf)[seg.sn := seg.frag]
  {
    assert ([seg] + buf)[1..] == buf;
  }

  /** The ordered insertion is insertion into a map keyed by serial number that
      keeps the first arrival. */
  lemma {:induction false} InsertIsMapInsert(buf: seq<RcvSeg>, base: u32, n: int, seg: RcvSeg)
    requires Ordered(buf, base, n) && Sub32(seg.sn, base) < n
    ensures MapOf(Insert(buf, base, seg)) ==
            if seg.sn in MapOf(buf) then MapOf(buf) else MapOf(buf)[seg.sn := seg.frag]
  {
    hide Ordered, Sub32;
    MapOfMember(buf, base, n, seg.sn);
    if buf != [] {
      OrderedTail(buf, base, n);
      if Sub32(seg.sn, base) < Sub32(buf[0].sn, base) {
        MapOfCons(seg, buf);
        assert forall g | g in buf :: g.sn != seg.sn;
      } else if buf[0].sn == seg.sn {
        assert buf[0] in buf;
      } else {
        InsertIsMapInsert(buf[1..], base, n, seg);
        MapOfCons(buf[0], Insert(buf[1..], base, seg));
      }
    }
  }

  // ---- the invariant ----

  function FragsOf(buf: seq<RcvSeg>): seq<Frag> {
    if buf == [] then [] else [buf[0].frag] + FragsOf(buf[1..])
  }

  lemma MoveOneOrdered(rcv: Receiver, wnd: u32)
    requires Ordered(rcv.buf, rcv.nxt, wnd) && !Drained(rcv, wnd)
    ensures Ordered(MoveOne(rcv).buf, MoveOne(rcv).nxt, wnd)
  {
    var next := MoveOne(rcv);
    OrderedTail(rcv.buf, rcv.nxt, wnd);
    forall g | g in next.buf ensures Sub32(g.sn, next.nxt) == Sub32(g.sn, rcv.nxt) - 1 {
      Rebase(g.sn, rcv.nxt, 1);
    }
    assert forall i | 0 <= i < |next.buf| :: next.buf[i] in next.buf;
  }

  lemma {:induction false} DrainKeepsInv(rcv: Receiver, wnd: u32)
    requires Ordered(rcv.buf, rcv.nxt, wnd) && |rcv.queue| <= wnd
    ensures Inv(Drain(rcv, wnd), wnd)
    decreases |rcv.buf|
  {
    if !Drained(rcv, wnd) {
      MoveOneOrdered(rcv, wnd);
      DrainKeepsInv(MoveOne(rcv), wnd);
    }
  }

  /** What draining moves: a run of consecutive serial numbers from the front of
      the buffer, in order, no further than the window has room for. */
  lemma {:induction false} DrainMovesRun(rcv: Receiver, wnd: u32) returns (k: nat)
    requires |rcv.queue| <= wnd <= MAX_WND
    ensures k <= |rcv.buf| && k + |rcv.queue| <= wnd
    ensures forall i | 0 <= i < k :: rcv.buf[i].sn == Add32(rcv.nxt, i)
    ensures Drain(rcv, wnd) == Receiver(Add32(rcv.nxt, k), rcv.queue + FragsOf(rcv.buf[..k]), rcv.buf[k..], rcv.acks)
    ensures k == |rcv.buf| || rcv.buf[k].sn != Add32(rcv.nxt, k) || k + |rcv.queue| == wnd
    decreases |rcv.buf|
  {
    if Drained(rcv, wnd) {
      k := 0;
      assert rcv.queue + [] == rcv.queue;
    } else {
      var next := MoveOne(rcv);
      var k' := DrainMovesRun(next, wnd);
      k := k' + 1;
      assert rcv.buf[..k][1..] == next.buf[..k'];
      assert next.queue + FragsOf(next.buf[..k']) == rcv.queue + FragsOf(rcv.buf[..k]);
      forall i | 0 <= i < k ensures rcv.buf[i].sn == Add32(rcv.nxt, i) {
        if i > 0 { assert rcv.buf[i] == next.buf[i - 1]; }
      }
    }
  }

  /** Whatever segment arrives. */
  lemma ParseDataKeepsInv(rcv: Receiver, wnd: u32, seg: RcvSeg)
    requires Inv(rcv, wnd) && 0 < wnd <= MAX_WND
    ensures Inv(ParseData(rcv, wnd, seg), wnd)
  {
    InWindowIsOffset(rcv, wnd, seg.sn);
    if InWindow(rcv, wnd, seg.sn) {
      InsertProps(rcv.buf, rcv.nxt, wnd, seg);
      DrainKeepsInv(rcv.(buf := Insert(rcv.buf, rcv.nxt, seg)), wnd);
    }
  }

  lemma HearPushKeepsInv(rcv: Receiver, wnd: u32, ack: Ack, frag: Frag)
    requires Inv(rcv, wnd) && 0 < wnd <= MAX_WND
    ensures Inv(HearPush(rcv, wnd, ack, frag), wnd)
  {
    ParseDataKeepsInv(rcv.(acks := rcv.acks + [ack]), wnd, RcvSeg(ack.sn, frag));
  }

  lemma {:induction false} MsgEndProps(q: seq<Frag>)
    ensures q != [] ==> MsgEnd(q) > 0
    ensures forall i | 0 <= i < MsgEnd(q) - 1 :: q[i].frg != 0
    ensures MsgEnd(q) < |q| ==> q[MsgEnd(q) - 1].frg == 0
  {
    if q != [] && q[0].frg != 0 {
      MsgEndProps(q[1..]);
    }
  }

  /** A successful peek announces exactly the size of what a receive would merge. */
  lemma PeekSizeIsNextMsg(q: seq<Frag>)
    ensures PeekSize(q) >= 0 ==> q != [] && PeekSize(q) == |NextMsg(q)|
    ensures PeekSize(q) < 0 <==> q == [] || |q| <= q[0].frg
  {
    if q != [] && q[0].frg == 0 {
      assert q[..1] == [q[0]];
      assert Bytes([q[0]]) == q[0].data + Bytes([]);
    }
  }

  // ---- where a scan from the tail puts a segment ----

  /** `buf` with a segment put in at a place where the order allows it. */
  lemma {:induction false} InsertAt(buf: seq<RcvSeg>, base: u32, seg: RcvSeg, i: nat)
    requires i <= |buf|
    requires forall j | 0 <= j < i :: Sub32(buf[j].sn, base) < Sub32(seg.sn, base)
    requires i < |buf| ==> Sub32(seg.sn, base) < Sub32(buf[i].sn, base)
    ensures Insert(buf, base, seg) == buf[..i] + [seg] + buf[i..]
  {
    if i == 0 {
      assert buf[..0] + [seg] + buf[0..] == [seg] + buf;
    } else {
      InsertAt(buf[1..], base, seg, i - 1);
      assert buf[..i] + [seg] + buf[i..] == [buf[0]] + (buf[1..][..i - 1] + [seg] + buf[1..][i - 1..]);
    }
  }

  lemma {:induction false} InsertDuplicate(buf: seq<RcvSeg>, base: u32, n: int, seg: RcvSeg, i: nat)
    requires Ordered(buf, base, n) && i < |buf| && buf[i].sn == seg.sn
    ensures Insert(buf, base, seg) == buf
  {
    if i > 0 {
      OrderedTail(buf, base, n);
      hide Ordered;
      assert buf[1..][i - 1] == buf[i] && buf[i] in buf[1..];
      InsertDuplicate(buf[1..], base, n, seg, i - 1);
    }
  }
}
