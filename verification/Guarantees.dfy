/** The promises of the protocol, for every state that two endpoints can reach over
    a network that loses, duplicates and reorders datagrams. Each is stated for the
    traffic from `a` to `b`; the other direction is the same statement about the
    swapped system, which is reachable too. */
module Guarantees {
  import opened Serial
  import opened Wire
  import opened ControlBlock
  import opened Link
  import opened Endpoint
  import opened Network
  import opened Safety
  import opened Messages
  import EndpointInvariant
  import SendBuffer
  import RecvBuffer

  function SwapEvent(e: Event): Event { Event(!e.atA, e.act) }

  function SwapEvents(es: seq<Event>): seq<Event> {
    seq(|es|, i requires 0 <= i < |es| => SwapEvent(es[i]))
  }

  lemma {:induction false} SwapRun(s: Sys, es: seq<Event>)
    requires Possible(s, es)
    ensures Possible(Swap(s), SwapEvents(es)) && Run(Swap(s), SwapEvents(es)) == Swap(Run(s, es))
    decreases |es|
  {
    hide StepAtA, EnabledAtA;
    if es != [] {
      assert SwapEvents(es)[1..] == SwapEvents(es[1..]);
      assert Swap(Swap(s)) == s;
      assert Next(Swap(s), SwapEvents(es)[0]) == Swap(Next(s, es[0]));
      SwapRun(Next(s, es[0]), es[1..]);
    }
  }

  /** The two sides play the same part. */
  lemma SwapReachable(s: Sys)
    requires Reachable(s)
    ensures Reachable(Swap(s))
  {
    var cfgA, cfgB, es :| InitOk(cfgA, cfgB) && Possible(Init(cfgA, cfgB), es) && s == Run(Init(cfgA, cfgB), es);
    SwapRun(Init(cfgA, cfgB), es);
    assert Swap(Init(cfgA, cfgB)) == Init(cfgB, cfgA);
    assert InitOk(cfgB, cfgA) && Possible(Init(cfgB, cfgA), SwapEvents(es)) && Swap(s) == Run(Init(cfgB, cfgA), SwapEvents(es));
  }

  /** End-to-end safety: what `b` delivered and what its queue holds are exactly the
      first fragments that `a` numbered, contents and fragment numbers included, and
      their count is what `rcv_nxt` counts. */
  lemma EndToEndSafety(s: Sys)
    requires Reachable(s)
    ensures s.b.nxt <= |s.a.sent|
    ensures s.b.delivered + s.b.st.rcv.queue == s.a.sent[..s.b.nxt]
    ensures s.b.st.rcv.nxt == Low32(s.b.nxt) && s.a.st.snd.nxt == Low32(|s.a.sent|)
  {
    hide EndpointInvariant.Inv, Low32, SendBuffer.Inv, NothingLost, Accepted;
    ReachableInv(s);
    CountsOf(TxOf(s.a), s.a.st.cfg.Mss());
  }

  lemma CountsOf(tx: Tx, mss: u32)
    requires TxInv(tx, mss)
    ensures tx.snd.nxt == Low32(|tx.sent|)
  {
    Low32Add(tx.una, SendBuffer.InFlight(tx.snd));
  }

  /** Nothing is lost in between: every numbered fragment is in the send buffer or
      was accepted, every acknowledgement in the network names an accepted fragment,
      and so does every pending one; `snd_una` is at most a window ahead of what the
      peer expects. */
  lemma NothingIsLost(s: Sys)
    requires Reachable(s)
    ensures forall no: nat | no < |s.a.sent| :: InBuf(TxOf(s.a), no) || Accepted(RxOf(s.b), no)
    ensures forall d, t | d in s.ba && t in d && t.w.cmd == CMD_ACK :: t.w.sn == Low32(t.sn) && Accepted(RxOf(s.b), t.sn)
    ensures forall no | no in s.b.acks :: Accepted(RxOf(s.b), no)
    ensures s.a.una <= s.b.nxt + s.b.st.cfg.rcvWnd
    ensures |s.a.sent| - s.a.una <= MAX_WND
  {
    ReachableInv(s);
    forall d, t | d in s.ba && t in d ensures AckOk(RxOf(s.b), t) {}
    hide EndpointInvariant.Inv;
    UnaWithinWindow(TxOf(s.a), RxOf(s.b), s.b.st.cfg.rcvWnd);
  }

  /** `snd_una` is ahead of what the peer expects only while the peer's queue is full. */
  lemma AheadOnlyWhenFull(s: Sys)
    requires SysInv(s)
    requires s.a.una > s.b.nxt
    ensures |s.b.st.rcv.queue| >= s.b.st.cfg.rcvWnd
  {
    hide EndpointInvariant.Inv;
    var rx := RxOf(s.b);
    assert RecvBuffer.Drained(rx.rcv, s.b.st.cfg.rcvWnd) by { DrainedOf(s.b.st); }
    assert InBuf(TxOf(s.a), s.b.nxt) || Accepted(rx, s.b.nxt);
    var g :| g in rx.rcv.buf && RcvNo(rx, g.sn) == rx.nxt;
    assert g.sn == rx.rcv.nxt;
    HeadIsSmallest(rx.rcv.buf, rx.rcv.nxt, s.b.st.cfg.rcvWnd, g);
  }

  lemma DrainedOf(st: State)
    requires EndpointInvariant.Inv(st)
    ensures RecvBuffer.Drained(st.rcv, st.cfg.rcvWnd)
  {
  }

  lemma HeadIsSmallest(buf: seq<RcvSeg>, base: u32, n: int, g: RcvSeg)
    requires RecvBuffer.Ordered(buf, base, n) && g in buf && g.sn == base
    ensures buf[0].sn == base
  {
    var i :| 0 <= i < |buf| && buf[i] == g;
  }

  /** That it can be: the receiving half acknowledges what a full queue keeps in its
      reordering buffer, so `snd_una <= rcv_nxt` is not among the promises. */
  lemma HeldBackIsAcknowledged(rx: Rx, t: Tag, wnd: u32)
    requires RxInv(rx, wnd) && RecvBuffer.Inv(rx.rcv, wnd)
    requires |rx.rcv.queue| == wnd && rx.rcv.buf == []
    requires t.w.cmd == CMD_PUSH && t.sn == rx.nxt && t.w.sn == Low32(t.sn)
    ensures var rx' := RxHearPush(rx, wnd, t);
            rx'.nxt == rx.nxt && Accepted(rx', rx.nxt) && rx'.acks == rx.acks + [rx.nxt]
  {
    var seg := RcvSeg(t.w.sn, Frag(t.w.frg, t.w.data));
    assert RecvBuffer.Insert([], rx.rcv.nxt, seg) == [seg];
    var rx' := RxHearPush(rx, wnd, t);
    assert rx'.rcv.buf == [seg];
    assert seg in rx'.rcv.buf && RcvNo(rx', seg.sn) == rx.nxt;
  }

  /** Message mode: the results of successful receives are a prefix of the messages
      that sends accepted, byte for byte. */
  lemma MessagesArriveInOrder(s: Sys)
    requires Reachable(s) && !s.a.st.cfg.stream
    ensures |s.b.got| <= |s.a.msgs| && s.b.got == s.a.msgs[..|s.b.got|]
  {
    ReachableAppInv(s);
    hide SysInv, HistoryInv;
  }

  /** Either mode: the bytes received, followed by those in the queue, are a prefix
      of the bytes that sends took over; these are the bytes of the successful sends
      unless a failing send left some behind. */
  lemma BytesArriveInOrder(s: Sys)
    requires Reachable(s)
    ensures Concat(s.b.got) + Bytes(s.b.st.rcv.queue) <= s.a.bytes
    ensures s.a.leaked == 0 ==> s.a.bytes == Concat(s.a.msgs)
    ensures !s.a.st.cfg.stream ==> s.a.leaked == 0
  {
    ReachableAppInv(s);
    EndToEndSafety(s);
    BytesPrefix(s.a, s.b);
    hide SysInv, HandedOver, Concat, Bytes, Flat;
  }

  lemma BytesPrefix(a: Node, b: Node)
    requires b.nxt <= |a.sent| && b.delivered + b.st.rcv.queue == a.sent[..b.nxt]
    requires HandedOver(a, b) && Bytes(Offered(a)) == a.bytes
    ensures Concat(b.got) + Bytes(b.st.rcv.queue) <= a.bytes
  {
    var front, rest := b.delivered + b.st.rcv.queue, Offered(a)[b.nxt..];
    BytesConcat(b.delivered, b.st.rcv.queue);
    BytesConcat(front, rest);
    hide Concat, Bytes, Flat;
    assert front + rest == Offered(a);
  }

  /** A full receive window never blocks reassembly: the queue starts at a message
      boundary, a message has at most 127 fragments, and the window is larger. */
  lemma FullQueueIsReadable(s: Sys)
    requires Reachable(s)
    requires |s.b.st.rcv.queue| >= s.b.st.cfg.rcvWnd
    ensures RecvBuffer.PeekSize(s.b.st.rcv.queue) >= 0
    ensures var size := RecvBuffer.PeekSize(s.b.st.rcv.queue);
            Recv(s.b.st, size).1 == size && |Recv(s.b.st, size).0.rcv.queue| <= s.b.st.cfg.rcvWnd
    ensures !s.a.st.cfg.stream ==>
              |s.b.got| < |s.a.msgs| && RecvBuffer.NextMsg(s.b.st.rcv.queue) == s.a.msgs[|s.b.got|]
  {
    ReachableAppInv(s);
    EndToEndSafety(s);
    var q := s.b.st.rcv.queue;
    assert s.b.st.cfg.rcvWnd >= WND_RCV;
    QueueFromHistory(s.a, s.b);
    RecvBuffer.PeekSizeIsNextMsg(q);
    EndpointInvariant.RecvKeepsInv(s.b.st, RecvBuffer.PeekSize(q));
    if !s.a.st.cfg.stream {
      QueueStartsAtMessage(s.a, s.b);
      var m, mss := s.a.msgs[|s.b.got|], s.a.st.cfg.Mss();
      var rest :| q <= Fragment(m, mss, false) + rest;
      FrontMessage(q, m, rest, mss);
    }
  }

  lemma QueueFromHistory(a: Node, b: Node)
    requires InOrder(TxOf(a), RxOf(b)) && HistoryInv(a)
    ensures forall f | f in b.st.rcv.queue :: f.frg < WND_RCV - 1
  {
    forall f | f in b.st.rcv.queue ensures f in Offered(a) {
      var i :| 0 <= i < |b.st.rcv.queue| && b.st.rcv.queue[i] == f;
      assert (b.delivered + b.st.rcv.queue)[|b.delivered| + i] == f;
    }
  }
}
