/** One direction of a connection: a sending half, a receiving half, and the
    segments in the network between them. Every count that the code keeps in 32
    bits is paired with the unbounded count it stands for. */
module Link {
  import opened Serial
  import opened Wire
  import opened ControlBlock
  import SendBuffer
  import RecvBuffer

  /** A segment in the network with the unbounded numbers that its `sn` and `una`
      fields are the low 32 bits of. */
  datatype Tag = Tag(w: WireSeg, sn: nat, una: nat)

  type Datagram = seq<Tag>

  /** The sending half: all the fragments it ever numbered, in order, and the
      number of the oldest one that may be unacknowledged. */
  datatype Tx = Tx(snd: Sender, una: nat, sent: seq<Frag>)

  /** The receiving half: the number it expects next, the numbers of the pending
      acknowledgements, and the fragments the application already took. */
  datatype Rx = Rx(rcv: Receiver, nxt: nat, acks: seq<nat>, delivered: seq<Frag>)

  function SndNo(tx: Tx, sn: u32): nat { tx.una + Sub32(sn, tx.snd.una) }

  function RcvNo(rx: Rx, sn: u32): nat { rx.nxt + Sub32(sn, rx.rcv.nxt) }

  ghost predicate TxInv(tx: Tx, mss: u32) {
    && SendBuffer.Inv(tx.snd, mss)
    && tx.snd.una == Low32(tx.una)
    && tx.una + SendBuffer.InFlight(tx.snd) == |tx.sent|
    && (forall g | g in tx.snd.buf :: SndNo(tx, g.sn) < |tx.sent| && tx.sent[SndNo(tx, g.sn)] == g.frag)
  }

  ghost predicate RxInv(rx: Rx, wnd: u32) {
    && WND_RCV <= wnd <= MAX_WND
    && RecvBuffer.Ordered(rx.rcv.buf, rx.rcv.nxt, wnd)
    && |rx.rcv.queue| <= wnd
    && rx.rcv.nxt == Low32(rx.nxt)
    && |rx.acks| == |rx.rcv.acks|
    && (forall i | 0 <= i < |rx.acks| :: rx.rcv.acks[i].sn == Low32(rx.acks[i]))
  }

  ghost predicate InBuf(tx: Tx, no: nat) {
    exists g | g in tx.snd.buf :: SndNo(tx, g.sn) == no
  }

  /** The receiving half has the fragment: in the queue, delivered, or waiting in
      the reordering buffer. */
  ghost predicate Accepted(rx: Rx, no: nat) {
    no < rx.nxt || exists g | g in rx.rcv.buf :: RcvNo(rx, g.sn) == no
  }

  /** What was delivered plus what is queued is what was numbered, in order. */
  ghost predicate InOrder(tx: Tx, rx: Rx) {
    && rx.nxt <= |tx.sent|
    && rx.delivered + rx.rcv.queue == tx.sent[..rx.nxt]
    && (forall g | g in rx.rcv.buf :: RcvNo(rx, g.sn) < |tx.sent| && tx.sent[RcvNo(rx, g.sn)] == g.frag)
  }

  /** Every numbered fragment is still in flight or was accepted. */
  ghost predicate NothingLost(tx: Tx, rx: Rx) {
    forall no: nat | no < |tx.sent| :: InBuf(tx, no) || Accepted(rx, no)
  }

  ghost predicate PushOk(sent: seq<Frag>, t: Tag) {
    t.w.cmd == CMD_PUSH ==>
      t.sn < |sent| && t.w.sn == Low32(t.sn) && sent[t.sn] == Frag(t.w.frg, t.w.data)
  }

  ghost predicate AckOk(rx: Rx, t: Tag) {
    && t.una <= rx.nxt
    && t.w.una == Low32(t.una)
    && (t.w.cmd == CMD_ACK ==> t.w.sn == Low32(t.sn) && Accepted(rx, t.sn))
  }

  /** The connection in this direction: `fwd` are the datagrams that the sending
      side ever sent, `bwd` those that the receiving side ever sent. */
  ghost predicate Linked(tx: Tx, rx: Rx, fwd: set<Datagram>, bwd: set<Datagram>) {
    && InOrder(tx, rx)
    && NothingLost(tx, rx)
    && (forall no | no in rx.acks :: Accepted(rx, no))
    && (forall d, t | d in fwd && t in d :: PushOk(tx.sent, t))
    && (forall d, t | d in bwd && t in d :: AckOk(rx, t))
  }

  // ---- what the sending half hears ----

  function TxHearUna(tx: Tx, una: u32): Tx {
    var snd := SendBuffer.HearUna(tx.snd, una);
    tx.(snd := snd, una := tx.una + Sub32(snd.una, tx.snd.una))
  }

  function TxHearAck(tx: Tx, sn: u32): Tx {
    var snd := SendBuffer.HearAck(tx.snd, sn);
    tx.(snd := snd, una := tx.una + Sub32(snd.una, tx.snd.una))
  }

  /** Moving `una` forward leaves every segment its number. */
  lemma ShrunkTx(tx: Tx, snd: Sender, mss: u32)
    requires TxInv(tx, mss) && SendBuffer.Inv(snd, mss)
    requires snd.nxt == tx.snd.nxt && Sub32(snd.una, tx.snd.una) + SendBuffer.InFlight(snd) == SendBuffer.InFlight(tx.snd)
    requires forall g | g in snd.buf :: g in tx.snd.buf
    ensures var tx' := tx.(snd := snd, una := tx.una + Sub32(snd.una, tx.snd.una));
            && TxInv(tx', mss)
            && forall g | g in snd.buf :: SndNo(tx', g.sn) == SndNo(tx, g.sn)
  {
    hide SendBuffer.Ordered, Low32;
    var d := Sub32(snd.una, tx.snd.una);
    var tx' := tx.(snd := snd, una := tx.una + d);
    Low32Add(tx.una, d);
    SendBuffer.OrderedBound(snd.buf, snd.una, SendBuffer.InFlight(snd));
    SendBuffer.OrderedBound(tx.snd.buf, tx.snd.una, SendBuffer.InFlight(tx.snd));
    forall g | g in snd.buf ensures SndNo(tx', g.sn) == SndNo(tx, g.sn) {
      assert g in tx.snd.buf;
    }
  }

  /** Segments may leave the send buffer if the peer accepted them. */
  lemma DroppedWereAccepted(tx: Tx, tx': Tx, rx: Rx, fwd: set<Datagram>, bwd: set<Datagram>)
    requires Linked(tx, rx, fwd, bwd) && tx'.sent == tx.sent
    requires forall g | g in tx.snd.buf :: Accepted(rx, SndNo(tx, g.sn)) || (g in tx'.snd.buf && SndNo(tx', g.sn) == SndNo(tx, g.sn))
    ensures Linked(tx', rx, fwd, bwd)
  {
    forall no: nat | no < |tx'.sent| ensures InBuf(tx', no) || Accepted(rx, no) {
      if InBuf(tx, no) {
        var g :| g in tx.snd.buf && SndNo(tx, g.sn) == no;
      }
    }
  }

  /** The cumulative acknowledgement of an honest peer that is at most 2^31 numbers
      old drops only what the peer accepted. */
  lemma HearUnaKeepsLink(tx: Tx, rx: Rx, fwd: set<Datagram>, bwd: set<Datagram>, t: Tag, mss: u32)
    requires TxInv(tx, mss) && Linked(tx, rx, fwd, bwd)
    requires AckOk(rx, t) && |tx.sent| - HALF <= t.una
    ensures TxInv(TxHearUna(tx, t.w.una), mss)
    ensures Linked(TxHearUna(tx, t.w.una), rx, fwd, bwd)
    ensures TxHearUna(tx, t.w.una).una >= Max(tx.una, t.una)
  {
    hide SendBuffer.Ordered, SendBuffer.HearUna, Low32, SendBuffer.FragOk, Accepted;
    var tx' := TxHearUna(tx, t.w.una);
    SendBuffer.HearUnaKeepsInv(tx.snd, t.w.una, mss);
    HearUnaFields(tx.snd, t.w.una);
    ShrunkTx(tx, tx'.snd, mss);
    if t.una >= tx.una { Low32Sub(tx.una, t.una); } else { Low32Sub(t.una, tx.una); }
    forall g | g in tx.snd.buf && g !in tx'.snd.buf ensures Accepted(rx, SndNo(tx, g.sn)) {
      assert SndNo(tx, g.sn) < t.una;
      BelowNextIsAccepted(rx, SndNo(tx, g.sn));
    }
    DroppedWereAccepted(tx, tx', rx, fwd, bwd);
    if tx'.snd.buf != [] {
      assert tx'.snd.buf[0] in tx'.snd.buf;
    }
  }

  lemma HearUnaFields(snd: Sender, una: u32)
    ensures SendBuffer.HearUna(snd, una).nxt == snd.nxt
  {
  }

  lemma BelowNextIsAccepted(rx: Rx, no: nat)
    requires no < rx.nxt
    ensures Accepted(rx, no)
  {
  }

  /** A selective acknowledgement of an honest peer that is at most 2^31 numbers old
      drops only the segment it names, which the peer accepted. */
  lemma HearAckKeepsLink(tx: Tx, rx: Rx, fwd: set<Datagram>, bwd: set<Datagram>, t: Tag, mss: u32)
    requires TxInv(tx, mss) && Linked(tx, rx, fwd, bwd)
    requires AckOk(rx, t) && t.w.cmd == CMD_ACK && |tx.sent| - HALF <= t.sn
    ensures TxInv(TxHearAck(tx, t.w.sn), mss)
    ensures Linked(TxHearAck(tx, t.w.sn), rx, fwd, bwd)
    ensures TxHearAck(tx, t.w.sn).una >= tx.una
    ensures !InBuf(TxHearAck(tx, t.w.sn), t.sn)
  {
    hide SendBuffer.Inv, SendBuffer.HearAck, Low32, SendBuffer.FragOk;
    var tx' := TxHearAck(tx, t.w.sn);
    SendBuffer.HearAckKeepsInv(tx.snd, t.w.sn, mss);
    HearAckFields(tx.snd, t.w.sn);
    ShrunkTx(tx, tx'.snd, mss);
    AcceptedWasSent(tx, rx, t.sn);
    hide Accepted;
    if t.sn >= tx.una { Low32Sub(tx.una, t.sn); } else { Low32Sub(t.sn, tx.una); }
    forall g | g in tx.snd.buf ensures SndNo(tx, g.sn) == t.sn <==> g.sn == t.w.sn {}
    DroppedWereAccepted(tx, tx', rx, fwd, bwd);
  }

  lemma HearAckFields(snd: Sender, sn: u32)
    ensures SendBuffer.HearAck(snd, sn).nxt == snd.nxt
  {
  }

  lemma AcceptedWasSent(tx: Tx, rx: Rx, no: nat)
    requires InOrder(tx, rx) && Accepted(rx, no)
    ensures no < |tx.sent|
  {
  }

  // ---- what the receiving half hears ----

  function RxDrain(rx: Rx, wnd: u32): Rx {
    var rcv := RecvBuffer.Drain(rx.rcv, wnd);
    rx.(rcv := rcv, nxt := rx.nxt + Sub32(rcv.nxt, rx.rcv.nxt))
  }

  function RxHearPush(rx: Rx, wnd: u32, t: Tag): Rx {
    var rcv := RecvBuffer.HearPush(rx.rcv, wnd, Ack(t.w.sn, t.w.ts), Frag(t.w.frg, t.w.data));
    Rx(rcv, rx.nxt + Sub32(rcv.nxt, rx.rcv.nxt), if |rcv.acks| > |rx.rcv.acks| then rx.acks + [t.sn] else rx.acks, rx.delivered)
  }

  /** The sender is never more than a window ahead of what the peer expects; it can
      be ahead, because segments held back by a full queue are acknowledged. */
  lemma UnaWithinWindow(tx: Tx, rx: Rx, wnd: u32)
    requires RxInv(rx, wnd) && NothingLost(tx, rx) && tx.una <= |tx.sent|
    ensures tx.una <= rx.nxt + wnd
  {
    if tx.una > 0 {
      assert InBuf(tx, tx.una - 1) || Accepted(rx, tx.una - 1);
      if Accepted(rx, tx.una - 1) && tx.una - 1 >= rx.nxt {
        var g :| g in rx.rcv.buf && RcvNo(rx, g.sn) == tx.una - 1;
        var i :| 0 <= i < |rx.rcv.buf| && rx.rcv.buf[i] == g;
      }
    }
  }

  ghost predicate Extends(rx: Rx, rx': Rx) {
    rx.nxt <= rx'.nxt && forall no: nat | Accepted(rx, no) :: Accepted(rx', no)
  }

  /** The receiving half may change in any way that loses nothing it accepted. */
  lemma ExtendKeepsLink(tx: Tx, rx: Rx, rx': Rx, fwd: set<Datagram>, bwd: set<Datagram>)
    requires Linked(tx, rx, fwd, bwd) && Extends(rx, rx') && InOrder(tx, rx')
    requires forall no | no in rx'.acks :: no in rx.acks || Accepted(rx', no)
    ensures Linked(tx, rx', fwd, bwd)
  {
    hide InOrder;
    forall no: nat | no < |tx.sent| ensures InBuf(tx, no) || Accepted(rx', no) {}
    forall d, t | d in bwd && t in d ensures AckOk(rx', t) { assert AckOk(rx, t); }
  }

  lemma {:induction false} FragsOfAt(buf: seq<RcvSeg>)
    ensures |RecvBuffer.FragsOf(buf)| == |buf|
    ensures forall i | 0 <= i < |buf| :: RecvBuffer.FragsOf(buf)[i] == buf[i].frag
  {
    if buf != [] { FragsOfAt(buf[1..]); }
  }

  /** `rx'` is `rx` after a run of `k` fragments moved from the buffer to the queue. */
  ghost predicate RunMoved(rx: Rx, rx': Rx, k: nat) {
    && k <= |rx.rcv.buf| && k < TWO32
    && (forall i | 0 <= i < k :: rx.rcv.buf[i].sn == Add32(rx.rcv.nxt, i))
    && rx' == Rx(Receiver(Add32(rx.rcv.nxt, k), rx.rcv.queue + RecvBuffer.FragsOf(rx.rcv.buf[..k]), rx.rcv.buf[k..], rx.rcv.acks),
                 rx.nxt + k, rx.acks, rx.delivered)
  }

  lemma DrainMoves(rx: Rx, wnd: u32) returns (k: nat)
    requires |rx.rcv.queue| <= wnd <= MAX_WND
    ensures RunMoved(rx, RxDrain(rx, wnd), k)
  {
    k := RecvBuffer.DrainMovesRun(rx.rcv, wnd);
  }

  lemma MovedAt(tx: Tx, rx: Rx, rx': Rx, k: nat, i: nat)
    requires InOrder(tx, rx) && RunMoved(rx, rx', k) && i < k
    ensures rx.nxt + i < |tx.sent| && tx.sent[rx.nxt + i] == rx.rcv.buf[i].frag
  {
    assert rx.rcv.buf[i] in rx.rcv.buf && RcvNo(rx, rx.rcv.buf[i].sn) == rx.nxt + i;
  }

  /** The run that moves is the next stretch of what was sent. */
  lemma MovedRun(tx: Tx, rx: Rx, rx': Rx, k: nat)
    requires InOrder(tx, rx) && RunMoved(rx, rx', k)
    ensures rx.nxt + k <= |tx.sent|
    ensures RecvBuffer.FragsOf(rx.rcv.buf[..k]) == tx.sent[rx.nxt..rx.nxt + k]
  {
    assert k <= |rx.rcv.buf| && rx.nxt <= |tx.sent|;
    hide InOrder, RunMoved, RecvBuffer.FragsOf;
    if k > 0 { MovedAt(tx, rx, rx', k, k - 1); }
    forall i | 0 <= i < k ensures tx.sent[rx.nxt..rx.nxt + k][i] == rx.rcv.buf[i].frag { MovedAt(tx, rx, rx', k, i); }
    FragsOfAt(rx.rcv.buf[..k]);
  }

  /** What stays in the buffer keeps its number. */
  lemma MovedRest(rx: Rx, rx': Rx, wnd: u32, k: nat)
    requires RxInv(rx, wnd) && RunMoved(rx, rx', k)
    ensures forall g | g in rx'.rcv.buf :: g in rx.rcv.buf && RcvNo(rx', g.sn) == RcvNo(rx, g.sn)
    ensures Extends(rx, rx')
  {
    forall j | 0 <= j < |rx.rcv.buf|
      ensures j < k ==> RcvNo(rx, rx.rcv.buf[j].sn) == rx.nxt + j
      ensures j >= k ==> RcvNo(rx', rx.rcv.buf[j].sn) == RcvNo(rx, rx.rcv.buf[j].sn)
    {
      if j >= k {
        if k > 0 { assert Sub32(rx.rcv.buf[k - 1].sn, rx.rcv.nxt) == k - 1; }
        Rebase(rx.rcv.buf[j].sn, rx.rcv.nxt, k);
      }
    }
    forall no: nat | Accepted(rx, no) ensures Accepted(rx', no) {
      if no >= rx.nxt {
        var g :| g in rx.rcv.buf && RcvNo(rx, g.sn) == no;
        var j :| 0 <= j < |rx.rcv.buf| && rx.rcv.buf[j] == g;
        if j >= k { assert rx'.rcv.buf[j - k] == g; }
      }
    }
  }

  lemma MovedKeepsOrder(tx: Tx, rx: Rx, rx': Rx, wnd: u32, k: nat)
    requires RxInv(rx, wnd) && InOrder(tx, rx) && RunMoved(rx, rx', k)
    ensures InOrder(tx, rx') && Extends(rx, rx')
  {
    MovedRun(tx, rx, rx', k);
    MovedRest(rx, rx', wnd, k);
    hide RxInv, RcvNo, Extends;
    var moved := RecvBuffer.FragsOf(rx.rcv.buf[..k]);
    assert rx'.delivered + rx'.rcv.queue == (rx.delivered + rx.rcv.queue) + moved;
    assert tx.sent[..rx.nxt + k] == tx.sent[..rx.nxt] + tx.sent[rx.nxt..rx.nxt + k];
  }

  /** Draining moves fragments on without losing or reordering any. */
  lemma DrainKeepsOrder(tx: Tx, rx: Rx, wnd: u32)
    requires RxInv(rx, wnd) && InOrder(tx, rx)
    ensures RxInv(RxDrain(rx, wnd), wnd) && RecvBuffer.Inv(RxDrain(rx, wnd).rcv, wnd)
    ensures InOrder(tx, RxDrain(rx, wnd)) && Extends(rx, RxDrain(rx, wnd))
  {
    var rx' := RxDrain(rx, wnd);
    RecvBuffer.DrainKeepsInv(rx.rcv, wnd) by { hide RecvBuffer.Ordered; }
    var k := DrainMoves(rx, wnd) by { hide RecvBuffer.Ordered; }
    hide RxInv, RxDrain, RunMoved, Extends, InOrder, RecvBuffer.Drain, RecvBuffer.Inv;
    MovedKeepsOrder(tx, rx, rx', wnd, k);
    MovedKeepsInv(rx, rx', wnd, k);
  }

  lemma MovedKeepsInv(rx: Rx, rx': Rx, wnd: u32, k: nat)
    requires RxInv(rx, wnd) && RunMoved(rx, rx', k) && RecvBuffer.Inv(rx'.rcv, wnd)
    ensures RxInv(rx', wnd)
  {
    hide RecvBuffer.Ordered, Low32;
    Low32Add(rx.nxt, k);
  }

  /** What insertion makes of the numbers in the reordering buffer. */
  lemma InsertedNumbers(rx: Rx, wnd: u32, t: Tag)
    requires RxInv(rx, wnd) && t.w.sn == Low32(t.sn) && rx.nxt <= t.sn < rx.nxt + wnd
    ensures var seg, rx' := RcvSeg(t.w.sn, Frag(t.w.frg, t.w.data)), Inserted(rx, t);
            && RxInv(rx', wnd) && RcvNo(rx, seg.sn) == t.sn
            && (forall g | g in rx'.rcv.buf :: g in rx.rcv.buf || g == seg)
            && (forall g | g in rx.rcv.buf :: g in rx'.rcv.buf)
            && (seg in rx'.rcv.buf || exists g :: g in rx.rcv.buf && g.sn == seg.sn)
  {
    Low32Sub(rx.nxt, t.sn);
    hide RecvBuffer.Ordered, RecvBuffer.Insert, Low32;
    RecvBuffer.InsertProps(rx.rcv.buf, rx.rcv.nxt, wnd, RcvSeg(t.w.sn, Frag(t.w.frg, t.w.data)));
  }

  /** Inserting a fragment of the peer under its own number. */
  lemma InsertKeepsOrder(tx: Tx, rx: Rx, wnd: u32, t: Tag)
    requires RxInv(rx, wnd) && InOrder(tx, rx) && PushOk(tx.sent, t) && t.w.cmd == CMD_PUSH
    requires rx.nxt <= t.sn < rx.nxt + wnd
    ensures var rx' := Inserted(rx, t);
            RxInv(rx', wnd) && InOrder(tx, rx') && Extends(rx, rx') && Accepted(rx', t.sn)
  {
    InsertedNumbers(rx, wnd, t);
    hide RxInv, RecvBuffer.Insert, Low32;
    var seg, rx' := RcvSeg(t.w.sn, Frag(t.w.frg, t.w.data)), Inserted(rx, t);
    assert forall sn :: RcvNo(rx', sn) == RcvNo(rx, sn);
    forall no: nat | Accepted(rx, no) ensures Accepted(rx', no) {
      if no >= rx.nxt {
        var g :| g in rx.rcv.buf && RcvNo(rx, g.sn) == no;
        assert g in rx'.rcv.buf;
      }
    }
    assert exists g :: g in rx'.rcv.buf && g.sn == seg.sn;
  }

  /** How a number at most 2^31 old compares with the receive window. */
  lemma WindowOfNumber(rx: Rx, wnd: u32, t: Tag)
    requires RxInv(rx, wnd) && t.w.sn == Low32(t.sn)
    requires rx.nxt - HALF <= t.sn < rx.nxt + HALF
    ensures RecvBuffer.InWindow(rx.rcv, wnd, t.w.sn) <==> rx.nxt <= t.sn < rx.nxt + wnd
    ensures RecvBuffer.BelowWindowEnd(rx.rcv, wnd, t.w.sn) ==> t.sn < rx.nxt + wnd
    ensures rx.nxt + wnd - HALF <= t.sn < rx.nxt + wnd ==> RecvBuffer.BelowWindowEnd(rx.rcv, wnd, t.w.sn)
  {
    DiffOfCounts(t.sn, rx.nxt);
    RecvBuffer.InWindowIsOffset(rx.rcv, wnd, t.w.sn);
    Low32Add(rx.nxt, wnd);
    if t.sn >= rx.nxt { Low32Sub(rx.nxt, t.sn); } else { Low32Sub(t.sn, rx.nxt); }
    if rx.nxt + wnd - HALF <= t.sn { DiffOfCounts(t.sn, rx.nxt + wnd); }
  }

  /** A data segment that is at most 2^31 numbers old is accepted under its own
      number or refused, and acknowledged only if it is or was accepted. */
  lemma HearPushKeepsLink(tx: Tx, rx: Rx, fwd: set<Datagram>, bwd: set<Datagram>, t: Tag, mss: u32, wnd: u32)
    requires TxInv(tx, mss) && RxInv(rx, wnd) && Linked(tx, rx, fwd, bwd) && RecvBuffer.Inv(rx.rcv, wnd)
    requires t.w.cmd == CMD_PUSH && PushOk(tx.sent, t) && |tx.sent| - HALF <= t.sn
    ensures RxInv(RxHearPush(rx, wnd, t), wnd) && RecvBuffer.Inv(RxHearPush(rx, wnd, t).rcv, wnd)
    ensures Linked(tx, RxHearPush(rx, wnd, t), fwd, bwd)
    ensures RxHearPush(rx, wnd, t).acks == rx.acks || RxHearPush(rx, wnd, t).acks == rx.acks + [t.sn]
    ensures rx.nxt + wnd - HALF <= t.sn < rx.nxt + wnd ==> t.sn in RxHearPush(rx, wnd, t).acks
    ensures Extends(rx, RxHearPush(rx, wnd, t))
  {
    hide TxInv, RxInv, RecvBuffer.Inv, RecvBuffer.Drain, RecvBuffer.Insert, RecvBuffer.Ordered, Linked, InOrder, Low32, Extends;
    PushFacts(tx, rx, fwd, bwd, t, mss, wnd);
    RecvBuffer.HearPushKeepsInv(rx.rcv, wnd, Ack(t.w.sn, t.w.ts), Frag(t.w.frg, t.w.data));
    ExtendsSelf(rx);
    if RecvBuffer.BelowWindowEnd(rx.rcv, wnd, t.w.sn) {
      if RecvBuffer.InWindow(rx.rcv, wnd, t.w.sn) {
        HearInWindow(tx, rx, fwd, bwd, wnd, t);
      } else {
        AckKeepsLink(tx, rx, fwd, bwd, wnd, Ack(t.w.sn, t.w.ts), t.sn);
      }
    }
  }

  lemma ExtendsSelf(rx: Rx)
    ensures Extends(rx, rx)
  {
  }

  lemma PushFacts(tx: Tx, rx: Rx, fwd: set<Datagram>, bwd: set<Datagram>, t: Tag, mss: u32, wnd: u32)
    requires TxInv(tx, mss) && RxInv(rx, wnd) && Linked(tx, rx, fwd, bwd)
    requires t.w.cmd == CMD_PUSH && PushOk(tx.sent, t) && |tx.sent| - HALF <= t.sn
    ensures RecvBuffer.InWindow(rx.rcv, wnd, t.w.sn) <==> rx.nxt <= t.sn < rx.nxt + wnd
    ensures RecvBuffer.BelowWindowEnd(rx.rcv, wnd, t.w.sn) ==> t.sn < rx.nxt + wnd
    ensures rx.nxt + wnd - HALF <= t.sn < rx.nxt + wnd ==> RecvBuffer.BelowWindowEnd(rx.rcv, wnd, t.w.sn)
    ensures WND_RCV <= wnd <= MAX_WND && t.w.sn == Low32(t.sn) && rx.nxt - HALF <= t.sn
  {
    UnaWithinWindow(tx, rx, wnd);
    assert |tx.sent| <= tx.una + MAX_WND && rx.nxt <= |tx.sent|;
    hide RecvBuffer.InWindow, RecvBuffer.BelowWindowEnd, RecvBuffer.Ordered, NothingLost, Low32;
    WindowOfNumber(rx, wnd, t);
  }

  /** A segment inside the window is put in its place, acknowledged, and moved on. */
  lemma HearInWindow(tx: Tx, rx: Rx, fwd: set<Datagram>, bwd: set<Datagram>, wnd: u32, t: Tag)
    requires RxInv(rx, wnd) && Linked(tx, rx, fwd, bwd)
    requires t.w.cmd == CMD_PUSH && PushOk(tx.sent, t) && rx.nxt <= t.sn < rx.nxt + wnd
    requires RecvBuffer.InWindow(rx.rcv, wnd, t.w.sn)
    ensures RxInv(RxHearPush(rx, wnd, t), wnd) && Linked(tx, RxHearPush(rx, wnd, t), fwd, bwd)
    ensures RxHearPush(rx, wnd, t).acks == rx.acks + [t.sn] && Extends(rx, RxHearPush(rx, wnd, t))
  {
    LinkedInOrder(tx, rx, fwd, bwd);
    hide RxInv, RecvBuffer.Inv, RecvBuffer.InWindow, Linked, InOrder, Accepted, Extends, RxHearPush, RxDrain, Inserted, Low32;
    var rx1 := Inserted(rx, t);
    InsertKeepsOrder(tx, rx, wnd, t);
    InsertedAcks(rx, t);
    ExtendKeepsLink(tx, rx, rx1, fwd, bwd);
    var rx2 := WithAck(rx1, Ack(t.w.sn, t.w.ts), t.sn);
    AckKeepsLink(tx, rx1, fwd, bwd, wnd, Ack(t.w.sn, t.w.ts), t.sn);
    LinkedInOrder(tx, rx2, fwd, bwd);
    DrainKeepsOrder(tx, rx2, wnd);
    DrainKeepsAcks(rx2, wnd);
    ExtendKeepsLink(tx, rx2, RxDrain(rx2, wnd), fwd, bwd);
    ExtendsTrans(rx, rx1, rx2);
    ExtendsTrans(rx, rx2, RxDrain(rx2, wnd));
    HearPushIs(rx, wnd, t);
  }

  /** The segment in its place in the reordering buffer. */
  function Inserted(rx: Rx, t: Tag): Rx {
    rx.(rcv := rx.rcv.(buf := RecvBuffer.Insert(rx.rcv.buf, rx.rcv.nxt, RcvSeg(t.w.sn, Frag(t.w.frg, t.w.data)))))
  }

  lemma InsertedAcks(rx: Rx, t: Tag)
    ensures Inserted(rx, t).acks == rx.acks && Inserted(rx, t).rcv.acks == rx.rcv.acks
  {
  }

  lemma ExtendsTrans(rx: Rx, rx1: Rx, rx2: Rx)
    requires Extends(rx, rx1) && Extends(rx1, rx2)
    ensures Extends(rx, rx2)
  {
    hide Accepted;
  }

  lemma HearPushIs(rx: Rx, wnd: u32, t: Tag)
    requires RecvBuffer.InWindow(rx.rcv, wnd, t.w.sn)
    ensures RxHearPush(rx, wnd, t).rcv == RxDrain(WithAck(Inserted(rx, t), Ack(t.w.sn, t.w.ts), t.sn), wnd).rcv
    ensures |RxDrain(WithAck(Inserted(rx, t), Ack(t.w.sn, t.w.ts), t.sn), wnd).rcv.acks| == |rx.rcv.acks| + 1 ==>
              RxHearPush(rx, wnd, t) == RxDrain(WithAck(Inserted(rx, t), Ack(t.w.sn, t.w.ts), t.sn), wnd)
  {
    hide RecvBuffer.Drain, RecvBuffer.Insert;
  }

  function WithAck(rx: Rx, ack: Ack, no: nat): Rx {
    rx.(rcv := rx.rcv.(acks := rx.rcv.acks + [ack]), acks := rx.acks + [no])
  }

  /** One more pending acknowledgement changes nothing else. */
  lemma AckKeepsLink(tx: Tx, rx: Rx, fwd: set<Datagram>, bwd: set<Datagram>, wnd: u32, ack: Ack, no: nat)
    requires RxInv(rx, wnd) && Linked(tx, rx, fwd, bwd) && Accepted(rx, no) && ack.sn == Low32(no)
    ensures RxInv(WithAck(rx, ack, no), wnd) && Linked(tx, WithAck(rx, ack, no), fwd, bwd) && Extends(rx, WithAck(rx, ack, no))
    ensures |rx.rcv.queue| <= wnd <= MAX_WND
  {
    var rx' := WithAck(rx, ack, no);
    LinkedInOrder(tx, rx, fwd, bwd);
    AckIsPending(tx, rx, wnd, ack, no);
    hide RxInv, InOrder;
    ExtendKeepsLink(tx, rx, rx', fwd, bwd);
  }

  lemma AckIsPending(tx: Tx, rx: Rx, wnd: u32, ack: Ack, no: nat)
    requires RxInv(rx, wnd) && InOrder(tx, rx) && Accepted(rx, no) && ack.sn == Low32(no)
    ensures RxInv(WithAck(rx, ack, no), wnd) && InOrder(tx, WithAck(rx, ack, no))
    ensures forall k: nat :: Accepted(WithAck(rx, ack, no), k) <==> Accepted(rx, k)
  {
  }

  lemma LinkedInOrder(tx: Tx, rx: Rx, fwd: set<Datagram>, bwd: set<Datagram>)
    requires Linked(tx, rx, fwd, bwd)
    ensures InOrder(tx, rx)
  {
    hide InOrder;
  }

  lemma DrainKeepsAcks(rx: Rx, wnd: u32)
    requires |rx.rcv.queue| <= wnd <= MAX_WND
    ensures RxDrain(rx, wnd).acks == rx.acks && RxDrain(rx, wnd).rcv.acks == rx.rcv.acks
  {
    var _ := DrainMoves(rx, wnd);
  }
}
