/** What holds in every reachable state of two endpoints and the network. */
module Safety {
  import opened Serial
  import opened Wire
  import opened ControlBlock
  import opened Link
  import opened Endpoint
  import opened Network
  import Packing
  import Retransmission
  import EndpointInvariant
  import SendBuffer
  import RecvBuffer
  import FlushClock

  /** Everything about the traffic from `a` to `b`. */
  ghost predicate LinkedNodes(a: Node, b: Node, ab: set<Datagram>, ba: set<Datagram>) {
    Linked(TxOf(a), RxOf(b), ab, ba)
  }

  ghost predicate SysInv(s: Sys) {
    && NodeInv(s.a) && NodeInv(s.b)
    && s.a.st.cfg.conv == s.b.st.cfg.conv
    && LinkedNodes(s.a, s.b, s.ab, s.ba)
    && LinkedNodes(s.b, s.a, s.ba, s.ab)
    && (forall d | d in s.ab :: WireOk(s.a.st.cfg.conv, d))
    && (forall d | d in s.ba :: WireOk(s.a.st.cfg.conv, d))
  }

  lemma SwapInv(s: Sys)
    ensures SysInv(s) <==> SysInv(Swap(s))
  {
  }

  lemma InitInv(cfgA: Config, cfgB: Config)
    requires InitOk(cfgA, cfgB)
    ensures SysInv(Init(cfgA, cfgB))
  {
    hide NodeInv, Fresh;
    FreshInv(cfgA);
    FreshInv(cfgB);
    FreshLinks(cfgA, cfgB);
    FreshLinks(cfgB, cfgA);
  }

  lemma FreshLinks(cfgA: Config, cfgB: Config)
    ensures LinkedNodes(Fresh(cfgA), Fresh(cfgB), {}, {})
    ensures Fresh(cfgA).st.cfg == cfgA
  {
  }

  lemma FreshInv(cfg: Config)
    requires cfg.Valid()
    ensures NodeInv(Fresh(cfg))
  {
    hide EndpointInvariant.Inv;
    EndpointInvariant.CreateInv(cfg);
    SndInvOf(Create(cfg)) by { EndpointInvariant.CreateInv(cfg); }
  }

  // ---- send ----

  lemma SendKeepsSysInv(s: Sys, buffer: seq<u8>, len: int)
    requires SysInv(s) && len <= |buffer|
    ensures SysInv(s.(a := NodeSend(s.a, buffer, len)))
  {
    var a := NodeSend(s.a, buffer, len);
    EndpointInvariant.SendKeepsInv(s.a.st, buffer, len);
    EndpointInvariant.SendChangesQueueOnly(s.a.st, buffer, len);
    hide Send, EndpointInvariant.Inv, TxInv, RxInv, Linked, WireOk, Absorbed;
    assert SendBuffer.Inv(a.st.snd, a.st.cfg.Mss()) by { SndInvOf(a.st); }
    QueueKeepsTx(TxOf(s.a), a.st.snd.queue, RxOf(s.b), s.ab, s.ba, s.a.st.cfg.Mss());
  }

  lemma QueueKeepsTx(tx: Tx, queue: seq<Frag>, rx: Rx, fwd: set<Datagram>, bwd: set<Datagram>, mss: u32)
    requires TxInv(tx, mss) && Linked(tx, rx, fwd, bwd) && SendBuffer.Inv(tx.snd.(queue := queue), mss)
    ensures var tx' := tx.(snd := tx.snd.(queue := queue)); TxInv(tx', mss) && Linked(tx', rx, fwd, bwd)
  {
    hide SendBuffer.Inv, Accepted;
    var tx' := tx.(snd := tx.snd.(queue := queue));
    assert forall no: nat :: InBuf(tx', no) <==> InBuf(tx, no);
  }

  lemma SndInvOf(st: State)
    requires EndpointInvariant.Inv(st)
    ensures SendBuffer.Inv(st.snd, st.cfg.Mss())
  {
  }

  // ---- recv ----

  /** Taking a message, then draining: still the same sequence of fragments. */
  lemma RecvKeepsNode(n: Node, tx: Tx, fwd: set<Datagram>, bwd: set<Datagram>, len: int)
    requires NodeInv(n) && Linked(tx, RxOf(n), fwd, bwd)
    ensures NodeInv(NodeRecv(n, len)) && Linked(tx, RxOf(NodeRecv(n, len)), fwd, bwd)
    ensures NodeRecv(n, len).st.snd == n.st.snd && NodeRecv(n, len).st.cfg == n.st.cfg
  {
    var wnd := n.st.cfg.rcvWnd;
    EndpointInvariant.RecvKeepsInv(n.st, len);
    EndpointInvariant.RecvFields(n.st, len);
    var n' := NodeRecv(n, len);
    if Recv(n.st, len).1 < 0 {
      hide Recv, EndpointInvariant.Inv, Linked, RxInv, TxInv;
      assert RxOf(n') == RxOf(n);
    } else {
      var k := EndpointInvariant.Taken(n.st, len);
      var rx1 := TakeFront(RxOf(n), k);
      TakeKeepsOrder(tx, RxOf(n), wnd, k);
      DrainKeepsOrder(tx, rx1, wnd);
      DrainKeepsAcks(rx1, wnd);
      hide Recv, EndpointInvariant.Inv, RxInv, TxInv, InOrder, Accepted, RecvBuffer.Drain, RecvBuffer.Inv;
      assert RxOf(n') == RxDrain(rx1, wnd);
      ExtendKeepsLink(tx, RxOf(n), RxDrain(rx1, wnd), fwd, bwd);
    }
  }

  function TakeFront(rx: Rx, k: nat): Rx
    requires k <= |rx.rcv.queue|
  {
    rx.(rcv := rx.rcv.(queue := rx.rcv.queue[k..]), delivered := rx.delivered + rx.rcv.queue[..k])
  }

  lemma TakeKeepsOrder(tx: Tx, rx: Rx, wnd: u32, k: nat)
    requires RxInv(rx, wnd) && InOrder(tx, rx) && k <= |rx.rcv.queue|
    ensures RxInv(TakeFront(rx, k), wnd) && InOrder(tx, TakeFront(rx, k)) && Extends(rx, TakeFront(rx, k))
    ensures forall no: nat :: Accepted(TakeFront(rx, k), no) <==> Accepted(rx, no)
  {
    var rx1 := TakeFront(rx, k);
    assert rx1.delivered + rx1.rcv.queue == rx.delivered + rx.rcv.queue;
  }

  lemma RecvKeepsSysInv(s: Sys, len: int)
    requires SysInv(s)
    ensures SysInv(s.(a := NodeRecv(s.a, len)))
  {
    hide NodeInv, NodeRecv, Linked;
    RecvKeepsNode(s.a, TxOf(s.b), s.ba, s.ab, len);
    RecvKeepsTx(s.a, len);
  }

  lemma RecvKeepsTx(n: Node, len: int)
    ensures TxOf(NodeRecv(n, len)).snd == Recv(n.st, len).0.snd
    ensures TxOf(NodeRecv(n, len)) == TxOf(n)
  {
  }

  // ---- delivery ----

  /** What the sending half makes of any segment: its `una`, then its `sn` if it is
      an acknowledgement. */
  function HeardTx(tx: Tx, t: Tag): Tx {
    if t.w.cmd == CMD_ACK then TxHearAck(TxHearUna(tx, t.w.una), t.w.sn) else TxHearUna(tx, t.w.una)
  }

  function HeardRx(rx: Rx, wnd: u32, t: Tag): Rx {
    if t.w.cmd == CMD_PUSH then RxHearPush(rx, wnd, t) else rx
  }

  lemma ListenSplits(e: Ear, t: Tag)
    requires NodeInv(e.n)
    ensures TxOf(Listen(e, t).n) == HeardTx(TxOf(e.n), t)
    ensures RxOf(Listen(e, t).n) == HeardRx(RxOf(e.n), e.n.st.cfg.rcvWnd, t)
    ensures Listen(e, t).n.st.cfg == e.n.st.cfg && Listen(e, t).n.sent == e.n.sent
  {
    hide RecvBuffer.HearPush, SendBuffer.HearUna, SendBuffer.HearAck, SendBuffer.Ordered, RecvBuffer.Ordered;
    var snd, mss := e.n.st.snd, e.n.st.cfg.Mss();
    var snd1 := SendBuffer.HearUna(snd, t.w.una);
    SendBuffer.HearUnaKeepsInv(snd, t.w.una, mss);
    SendBuffer.HearAckKeepsInv(snd1, t.w.sn, mss);
  }

  /** One segment of an honest peer. */
  lemma HeardKeepsLinks(a: Node, b: Node, ab: set<Datagram>, ba: set<Datagram>, t: Tag)
    requires NodeInv(a) && TxInv(TxOf(b), b.st.cfg.Mss()) && LinkedNodes(a, b, ab, ba) && LinkedNodes(b, a, ba, ab)
    requires AckOk(RxOf(b), t) && PushOk(b.sent, t)
    requires |a.sent| - HALF <= t.una
    requires t.w.cmd == CMD_ACK ==> |a.sent| - HALF <= t.sn
    requires t.w.cmd == CMD_PUSH ==> |b.sent| - HALF <= t.sn
    ensures TxInv(HeardTx(TxOf(a), t), a.st.cfg.Mss()) && Linked(HeardTx(TxOf(a), t), RxOf(b), ab, ba)
    ensures RxInv(HeardRx(RxOf(a), a.st.cfg.rcvWnd, t), a.st.cfg.rcvWnd)
    ensures Linked(TxOf(b), HeardRx(RxOf(a), a.st.cfg.rcvWnd, t), ba, ab)
  {
    hide Linked, TxInv, RxInv, TxHearUna, TxHearAck, RxHearPush, AckOk, PushOk;
    var mss, wnd := a.st.cfg.Mss(), a.st.cfg.rcvWnd;
    HearUnaKeepsLink(TxOf(a), RxOf(b), ab, ba, t, mss);
    if t.w.cmd == CMD_ACK {
      assert TxHearUna(TxOf(a), t.w.una).sent == a.sent by { TxHearUnaSent(TxOf(a), t.w.una); }
      HearAckKeepsLink(TxHearUna(TxOf(a), t.w.una), RxOf(b), ab, ba, t, mss);
    } else if t.w.cmd == CMD_PUSH {
      assert RecvBuffer.Inv(a.st.rcv, wnd);
      HearPushKeepsLink(TxOf(b), RxOf(a), ba, ab, t, b.st.cfg.Mss(), wnd);
    }
  }

  lemma TxHearUnaSent(tx: Tx, una: u32)
    ensures TxHearUna(tx, una).sent == tx.sent
  {
  }

  lemma ListenKeepsLinks(e: Ear, b: Node, ab: set<Datagram>, ba: set<Datagram>, t: Tag)
    requires NodeInv(e.n) && TxInv(TxOf(b), b.st.cfg.Mss()) && LinkedNodes(e.n, b, ab, ba) && LinkedNodes(b, e.n, ba, ab)
    requires AckOk(RxOf(b), t) && PushOk(b.sent, t) && Recent(e.n, b, [t])
    ensures NodeInv(Listen(e, t).n) && LinkedNodes(Listen(e, t).n, b, ab, ba) && LinkedNodes(b, Listen(e, t).n, ba, ab)
    ensures Listen(e, t).n.st.cfg == e.n.st.cfg && Listen(e, t).n.sent == e.n.sent
  {
    assert t in [t];
    HeardKeepsLinks(e.n, b, ab, ba, t);
    ListenSplits(e, t);
    EndpointInvariant.HearSegKeepsInv(Hearing(e.n.st, e.flag, e.maxack), t.w);
    ListenState(e, t);
    hide Listen, HeardTx, HeardRx, TxInv, RxInv, Linked, EndpointInvariant.Inv, HearSeg;
  }

  lemma ListenState(e: Ear, t: Tag)
    ensures HearSeg(Hearing(e.n.st, e.flag, e.maxack), t.w) == Hearing(Listen(e, t).n.st, Listen(e, t).flag, Listen(e, t).maxack)
  {
  }

  lemma {:induction false} ListenAllKeepsLinks(e: Ear, b: Node, ab: set<Datagram>, ba: set<Datagram>, d: Datagram)
    requires NodeInv(e.n) && TxInv(TxOf(b), b.st.cfg.Mss()) && LinkedNodes(e.n, b, ab, ba) && LinkedNodes(b, e.n, ba, ab)
    requires forall t | t in d :: AckOk(RxOf(b), t) && PushOk(b.sent, t)
    requires Recent(e.n, b, d)
    ensures NodeInv(ListenAll(e, d).n) && LinkedNodes(ListenAll(e, d).n, b, ab, ba) && LinkedNodes(b, ListenAll(e, d).n, ba, ab)
    ensures ListenAll(e, d).n.st.cfg == e.n.st.cfg && ListenAll(e, d).n.sent == e.n.sent
    decreases |d|
  {
    hide NodeInv, TxInv, LinkedNodes, AckOk, PushOk, Listen;
    if d != [] {
      assert d[0] in d && forall t | t in d[1..] :: t in d;
      ListenKeepsLinks(e, b, ab, ba, d[0]);
      ListenAllKeepsLinks(Listen(e, d[0]), b, ab, ba, d[1..]);
    }
  }

  lemma {:induction false} ListenIsHear(e: Ear, d: Datagram)
    ensures HearAll(Hearing(e.n.st, e.flag, e.maxack), Strip(d)) ==
            Hearing(ListenAll(e, d).n.st, ListenAll(e, d).flag, ListenAll(e, d).maxack)
    decreases |d|
  {
    hide HearSeg, Listen;
    if d != [] {
      assert Strip(d)[1..] == Strip(d[1..]);
      ListenState(e, d[0]);
      ListenIsHear(Listen(e, d[0]), d[1..]);
    }
  }

  /** The final steps of `ikcp_input` touch neither numbers nor contents. */
  lemma FinishKeepsLinks(n: Node, flag: bool, maxack: u32, prevUna: u32, b: Node, ab: set<Datagram>, ba: set<Datagram>)
    requires NodeInv(n) && LinkedNodes(n, b, ab, ba) && LinkedNodes(b, n, ba, ab)
    ensures var n' := n.(st := FinishInput(Hearing(n.st, flag, maxack), prevUna));
            NodeInv(n') && LinkedNodes(n', b, ab, ba) && LinkedNodes(b, n', ba, ab) && n'.st.cfg == n.st.cfg
  {
    EndpointInvariant.FinishKeepsInv(Hearing(n.st, flag, maxack), prevUna);
    FinishFields(Hearing(n.st, flag, maxack), prevUna);
    var n' := n.(st := FinishInput(Hearing(n.st, flag, maxack), prevUna));
    hide FinishInput, EndpointInvariant.Inv, SendBuffer.Ordered, RxInv;
    assert SendBuffer.Inv(n'.st.snd, n'.st.cfg.Mss()) by { SndInvOf(n'.st); }
    SameNumbers(TxOf(n), TxOf(n'), n.st.cfg.Mss());
    SameSegmentsKeepLink(TxOf(n), TxOf(n'), RxOf(b), ab, ba);
    assert RxOf(n') == RxOf(n);
  }

  lemma FinishFields(h: Hearing, prevUna: u32)
    requires h.s.cfg.Mss() > 0
    ensures var s := FinishInput(h, prevUna);
            && s.rcv == h.s.rcv && s.cfg == h.s.cfg
            && s.snd == h.s.snd.(buf := s.snd.buf)
            && |s.snd.buf| == |h.s.snd.buf|
            && forall i | 0 <= i < |s.snd.buf| :: s.snd.buf[i].sn == h.s.snd.buf[i].sn && s.snd.buf[i].frag == h.s.snd.buf[i].frag
  {
  }

  /** Two send buffers with the same numbers and contents. */
  ghost predicate SameSegments(tx: Tx, tx': Tx) {
    && tx' == tx.(snd := tx.snd.(buf := tx'.snd.buf, queue := tx'.snd.queue))
    && |tx'.snd.buf| == |tx.snd.buf|
    && forall i | 0 <= i < |tx'.snd.buf| :: tx'.snd.buf[i].sn == tx.snd.buf[i].sn && tx'.snd.buf[i].frag == tx.snd.buf[i].frag
  }

  lemma SameNumbers(tx: Tx, tx': Tx, mss: u32)
    requires SameSegments(tx, tx') && TxInv(tx, mss) && SendBuffer.Inv(tx'.snd, mss)
    ensures TxInv(tx', mss)
  {
    forall g | g in tx'.snd.buf ensures SndNo(tx', g.sn) < |tx'.sent| && tx'.sent[SndNo(tx', g.sn)] == g.frag {
      var i :| 0 <= i < |tx'.snd.buf| && tx'.snd.buf[i] == g;
      assert tx.snd.buf[i] in tx.snd.buf;
    }
  }

  lemma SameSegmentsKeepLink(tx: Tx, tx': Tx, rx: Rx, fwd: set<Datagram>, bwd: set<Datagram>)
    requires SameSegments(tx, tx') && Linked(tx, rx, fwd, bwd)
    ensures Linked(tx', rx, fwd, bwd)
  {
    forall no: nat | no < |tx.sent| && InBuf(tx, no) ensures InBuf(tx', no) {
      var g :| g in tx.snd.buf && SndNo(tx, g.sn) == no;
      var i :| 0 <= i < |tx.snd.buf| && tx.snd.buf[i] == g;
      assert tx'.snd.buf[i] in tx'.snd.buf && SndNo(tx', tx'.snd.buf[i].sn) == no;
    }
  }

  lemma HearIsListen(n: Node, d: Datagram)
    requires EndpointInvariant.Inv(n.st) && WireOk(n.st.cfg.conv, d)
    ensures ListenAll(Ear(n, false, 0), d).n.st.cfg == n.st.cfg
    ensures var e := ListenAll(Ear(n, false, 0), d);
            NodeHear(n, d) == e.n.(st := FinishInput(Hearing(e.n.st, e.flag, e.maxack), n.st.snd.una))
  {
    hide ListenAll, HearAll, FinishInput, EndpointInvariant.Inv, Input;
    assert n.st.cfg.Valid() by { CfgOf(n.st); }
    EndpointInvariant.InputOfPacket(n.st, Strip(d));
    ListenIsHear(Ear(n, false, 0), d);
  }

  lemma CfgOf(st: State)
    requires EndpointInvariant.Inv(st)
    ensures st.cfg.Valid()
  {
  }

  lemma HearFacts(s: Sys, d: Datagram)
    requires SysInv(s) && d in s.ba
    ensures forall t | t in d :: AckOk(RxOf(s.b), t) && PushOk(s.b.sent, t)
    ensures EndpointInvariant.Inv(s.a.st) && TxInv(TxOf(s.b), s.b.st.cfg.Mss())
  {
    hide AckOk, PushOk, TxInv, RxInv, EndpointInvariant.Inv, InOrder, NothingLost, Accepted;
  }

  /** Delivery of any datagram of the peer, however often and in whatever order. */
  lemma HearKeepsSysInv(s: Sys, d: Datagram)
    requires SysInv(s) && d in s.ba && Recent(s.a, s.b, d)
    ensures WireOk(s.a.st.cfg.conv, d)
    ensures SysInv(s.(a := NodeHear(s.a, d)))
    ensures NodeHear(s.a, d).sent == s.a.sent
  {
    hide Linked, NodeInv, TxInv, RxInv, AckOk, PushOk, ListenAll, Recent, WireOk, EndpointInvariant.Inv, FinishInput, NodeHear;
    var e0 := Ear(s.a, false, 0);
    var e := ListenAll(e0, d);
    HearFacts(s, d);
    ListenAllKeepsLinks(e0, s.b, s.ab, s.ba, d);
    FinishKeepsLinks(e.n, e.flag, e.maxack, s.a.st.snd.una, s.b, s.ab, s.ba);
    HearIsListen(s.a, d);
  }

  // ---- flush ----

  lemma {:induction false} DataTagsOf(n: Node, buf: seq<SndSeg>)
    ensures forall t | t in DataTags(n, buf) ::
              exists g :: g in buf && t == Tag(PushItem(n.st, g), SndNo(TxOf(n), g.sn), n.nxt)
    ensures Strip(DataTags(n, buf)) == DataItems(n.st, buf)
  {
    hide PushItem, SndNo, EnvOf, Retransmission.Due;
    if buf != [] {
      var g := buf[|buf| - 1];
      DataTagsOf(n, buf[..|buf| - 1]);
      assert g in buf && forall h | h in buf[..|buf| - 1] :: h in buf;
      assert Strip(DataTags(n, buf)) == DataItems(n.st, buf) by {
        assert Strip([Tag(PushItem(n.st, g), SndNo(TxOf(n), g.sn), n.nxt)]) == [PushItem(n.st, g)];
      }
    }
  }

  lemma StripConcat(d: Datagram, d': Datagram)
    ensures Strip(d + d') == Strip(d) + Strip(d')
  {
  }

  lemma FlushTagsOf(n: Node)
    requires |n.acks| == |n.st.rcv.acks|
    ensures Strip(FlushTags(n)) == FlushItems(n.st)
  {
    DataTagsOf(n, Number(n.st).buf);
    StripConcat(AckTags(n) + ProbeTags(n), DataTags(n, Number(n.st).buf));
    StripConcat(AckTags(n), ProbeTags(n));
    assert Strip(AckTags(n)) == AckItems(n.st);
    assert Strip(ProbeTags(n)) == ProbeItems(n.st);
  }

  /** Cutting the tags like the segments gives datagrams that carry the packets. */
  lemma {:induction false} CutProps(tags: seq<Tag>, ps: seq<Packet>)
    requires Packing.Flatten(ps) == Strip(tags)
    ensures |Cut(tags, ps)| == |ps|
    ensures forall i | 0 <= i < |ps| :: Strip(Cut(tags, ps)[i]) == ps[i]
    ensures forall d, t | d in Cut(tags, ps) && t in d :: t in tags
    ensures forall t | t in tags :: exists d :: d in Cut(tags, ps) && t in d
    decreases |ps|
  {
    if ps != [] {
      var front, last := ps[..|ps| - 1], ps[|ps| - 1];
      var k := |tags| - |last|;
      assert |Strip(tags)| == |tags|;
      assert k >= 0;
      assert Strip(tags[..k]) == Strip(tags)[..k] == Packing.Flatten(front);
      assert Strip(tags[k..]) == Strip(tags)[k..] == last;
      CutProps(tags[..k], front);
      assert Cut(tags, ps) == Cut(tags[..k], front) + [tags[k..]];
      forall t | t in tags ensures exists d :: d in Cut(tags, ps) && t in d {
        if t in tags[k..] {
          assert tags[k..] in Cut(tags, ps);
        } else {
          assert t in tags[..k];
          var d :| d in Cut(tags[..k], front) && t in d;
          assert d in Cut(tags, ps);
        }
      }
    }
  }

  /** The sending half once a flush has numbered what the window admits. */
  function NumberedTx(n: Node): Tx {
    Tx(Number(n.st), n.una, n.sent + n.st.snd.queue[..Admitted(n.st)])
  }

  lemma NewNumbers(n: Node)
    requires NodeInv(n)
    ensures forall i | 0 <= i < Admitted(n.st) ::
              SndNo(NumberedTx(n), Numbered(n.st, i).sn) == |n.sent| + i
              && NumberedTx(n).sent[|n.sent| + i] == Numbered(n.st, i).frag
    ensures forall sn :: SndNo(NumberedTx(n), sn) == SndNo(TxOf(n), sn)
  {
    EndpointInvariant.NumberOrdered(n.st);
    hide EndpointInvariant.Inv, SendBuffer.Ordered;
  }

  /** Numbering: the new segments continue the history ... */
  lemma NumberKeepsTx(n: Node)
    requires NodeInv(n)
    ensures TxInv(NumberedTx(n), n.st.cfg.Mss())
  {
    var s, tx' := n.st, NumberedTx(n);
    EndpointInvariant.NumberKeepsInv(s);
    EndpointInvariant.NumberMembers(s);
    NewNumbers(n);
    NumberCount(n);
    hide EndpointInvariant.Inv, SendBuffer.Inv, Number, SndNo, Numbered;
    forall g | g in tx'.snd.buf ensures SndNo(tx', g.sn) < |tx'.sent| && tx'.sent[SndNo(tx', g.sn)] == g.frag {
      if g !in s.snd.buf {
        var i :| 0 <= i < Admitted(s) && g == Numbered(s, i);
      } else {
        assert SndNo(tx', g.sn) == SndNo(TxOf(n), g.sn);
      }
    }
  }

  /** ... and all of them are in flight. */
  lemma NumberCovers(n: Node)
    requires NodeInv(n)
    ensures forall no: nat | no < |n.sent| && InBuf(TxOf(n), no) :: InBuf(NumberedTx(n), no)
    ensures forall no: nat | |n.sent| <= no < |NumberedTx(n).sent| :: InBuf(NumberedTx(n), no)
  {
    var s, tx' := n.st, NumberedTx(n);
    EndpointInvariant.NumberMembers(s);
    NewNumbers(n);
    hide EndpointInvariant.Inv, SendBuffer.Inv, Number, SndNo, Numbered;
    forall no: nat | no < |n.sent| && InBuf(TxOf(n), no) ensures InBuf(tx', no) {
      var g :| g in s.snd.buf && SndNo(TxOf(n), g.sn) == no;
      assert g in tx'.snd.buf && SndNo(tx', g.sn) == no;
    }
    forall no: nat | |n.sent| <= no < |tx'.sent| ensures InBuf(tx', no) {
      var i := no - |n.sent|;
      assert Numbered(s, i) in tx'.snd.buf;
    }
  }

  lemma NumberCount(n: Node)
    requires NodeInv(n)
    ensures Number(n.st).una == Low32(n.una)
    ensures n.una + SendBuffer.InFlight(Number(n.st)) == |n.sent| + Admitted(n.st)
  {
    EndpointInvariant.NumberInFlight(n.st);
  }

  /** The sending half after a flush. */
  function FlushedTx(n: Node): Tx {
    var tx := NumberedTx(n);
    tx.(snd := tx.snd.(buf := FlushedBuf(tx.snd.buf, EnvOf(n.st))))
  }

  lemma FlushedKeepsTx(n: Node)
    requires NodeInv(n)
    ensures TxInv(FlushedTx(n), n.st.cfg.Mss()) && SameSegments(NumberedTx(n), FlushedTx(n))
  {
    NumberKeepsTx(n);
    EndpointInvariant.FlushedKeepsInv(Number(n.st), EnvOf(n.st), n.st.cfg.Mss());
    FlushedIsSame(NumberedTx(n), EnvOf(n.st));
    hide NodeInv, TxInv, SendBuffer.Inv, Number, FlushedBuf;
    assert SendBuffer.Inv(FlushedTx(n).snd, n.st.cfg.Mss());
    SameNumbers(NumberedTx(n), FlushedTx(n), n.st.cfg.Mss());
  }

  lemma FlushedIsSame(tx: Tx, e: Retransmission.Env)
    ensures SameSegments(tx, tx.(snd := tx.snd.(buf := FlushedBuf(tx.snd.buf, e))))
  {
  }

  /** The traffic in the direction of the flushed data. */
  lemma FlushKeepsForward(n: Node, rx: Rx, fwd: set<Datagram>, bwd: set<Datagram>, more: set<Datagram>)
    requires NodeInv(n) && Linked(TxOf(n), rx, fwd, bwd)
    requires forall d, t | d in more && t in d :: PushOk(FlushedTx(n).sent, t)
    ensures Linked(FlushedTx(n), rx, fwd + more, bwd)
  {
    var tx, tx' := TxOf(n), NumberedTx(n);
    NumberCovers(n);
    FlushedKeepsTx(n);
    hide NodeInv, FlushedBuf, Number;
    assert tx'.sent[..rx.nxt] == tx.sent[..rx.nxt];
    assert InOrder(tx', rx);
    forall no: nat | no < |tx'.sent| ensures InBuf(tx', no) || Accepted(rx, no) {
      if no < |tx.sent| { assert InBuf(tx, no) || Accepted(rx, no); }
    }
    forall d, t | d in fwd + more && t in d ensures PushOk(tx'.sent, t) {
      if d in fwd { assert PushOk(tx.sent, t); }
    }
    assert Linked(tx', rx, fwd + more, bwd);
    SameSegmentsKeepLink(tx', FlushedTx(n), rx, fwd + more, bwd);
  }

  /** The traffic whose acknowledgements the flush sent. */
  lemma FlushKeepsBackward(n: Node, tx: Tx, fwd: set<Datagram>, bwd: set<Datagram>, more: set<Datagram>)
    requires Linked(tx, RxOf(n), fwd, bwd)
    requires forall d, t | d in more && t in d :: AckOk(RxOf(n), t)
    ensures Linked(tx, Rx(n.st.rcv.(acks := []), n.nxt, [], n.delivered), fwd, bwd + more)
  {
    var rx' := Rx(n.st.rcv.(acks := []), n.nxt, [], n.delivered);
    assert forall no: nat :: Accepted(rx', no) <==> Accepted(RxOf(n), no);
    forall d, t | d in bwd + more && t in d ensures AckOk(rx', t) { assert AckOk(RxOf(n), t); }
  }

  lemma AckTagOk(n: Node, tx: Tx, fwd: set<Datagram>, bwd: set<Datagram>, t: Tag)
    requires RxInv(RxOf(n), n.st.cfg.rcvWnd) && Linked(tx, RxOf(n), fwd, bwd) && t in AckTags(n)
    ensures t.w.cmd == CMD_ACK && AckOk(RxOf(n), t)
  {
    var i :| 0 <= i < |n.acks| && t == AckTags(n)[i];
    assert n.acks[i] in n.acks;
    assert t.w == AckItems(n.st)[i] == Outgoing(n.st, CMD_ACK, 0, n.st.rcv.acks[i].ts, n.st.rcv.acks[i].sn, []);
  }

  lemma ProbeTagOk(n: Node, t: Tag)
    requires n.st.rcv.nxt == Low32(n.nxt) && t in ProbeTags(n)
    ensures (t.w.cmd == CMD_WASK || t.w.cmd == CMD_WINS) && AckOk(RxOf(n), t)
  {
    var i :| 0 <= i < |ProbeTags(n)| && t == ProbeTags(n)[i];
  }

  lemma PushTagOk(n: Node, g: SndSeg, sent: seq<Frag>)
    requires n.st.rcv.nxt == Low32(n.nxt)
    requires var no := SndNo(TxOf(n), g.sn);
             no < |sent| && sent[no] == g.frag && g.sn == Low32(no) && g.frag.frg < 0x100
    ensures var t := Tag(PushItem(n.st, g), SndNo(TxOf(n), g.sn), n.nxt);
            t.w.cmd == CMD_PUSH && AckOk(RxOf(n), t) && PushOk(sent, t)
  {
    hide SndNo, Low32, Unused;
  }

  lemma DataTagOk(n: Node, t: Tag)
    requires NodeInv(n) && t in DataTags(n, Number(n.st).buf)
    ensures t.w.cmd == CMD_PUSH && AckOk(RxOf(n), t) && PushOk(FlushedTx(n).sent, t)
  {
    DataTagsOf(n, Number(n.st).buf);
    var g :| g in Number(n.st).buf && t == Tag(PushItem(n.st, g), SndNo(TxOf(n), g.sn), n.nxt);
    NumberKeepsTx(n);
    NewNumbers(n);
    hide EndpointInvariant.Inv, TxInv, Admitted, SendBuffer.Ordered, Number, PushItem, SndNo, AckOk, PushOk;
    SegmentTag(NumberedTx(n), g, n.st.cfg.Mss());
    PushTagOk(n, g, NumberedTx(n).sent);
  }

  /** What a flush sends is what the invariant promises of datagrams. */
  lemma FlushTagsOk(n: Node, tx: Tx, fwd: set<Datagram>, bwd: set<Datagram>, t: Tag)
    requires NodeInv(n) && Linked(tx, RxOf(n), fwd, bwd)
    requires t in FlushTags(n)
    ensures PushOk(FlushedTx(n).sent, t) && AckOk(RxOf(n), t)
  {
    hide AckOk, AckTags, ProbeTags, DataTags, Linked, EndpointInvariant.Inv, TxInv;
    if t in AckTags(n) {
      AckTagOk(n, tx, fwd, bwd, t);
    } else if t in ProbeTags(n) {
      ProbeTagOk(n, t);
    } else {
      DataTagOk(n, t);
    }
  }

  lemma SegmentTag(tx: Tx, g: SndSeg, mss: u32)
    requires TxInv(tx, mss) && g in tx.snd.buf
    ensures SndNo(tx, g.sn) < |tx.sent| && tx.sent[SndNo(tx, g.sn)] == g.frag
    ensures g.sn == Low32(SndNo(tx, g.sn)) && g.frag.frg < 0x100
  {
    Low32Add(tx.una, Sub32(g.sn, tx.snd.una));
  }

  lemma {:induction false} FlattenMembers(ps: seq<Packet>)
    ensures forall p, w | p in ps && w in p :: w in Packing.Flatten(ps)
  {
    if ps != [] {
      FlattenMembers(ps[..|ps| - 1]);
      assert forall p | p in ps :: p in ps[..|ps| - 1] || p == ps[|ps| - 1];
    }
  }

  lemma MtuFits(s: State)
    requires EndpointInvariant.Inv(s)
    ensures s.cfg.mtu <= 65535
  {
  }

  /** The datagrams of a flush are well formed. */
  lemma FlushedDatagrams(n: Node)
    requires NodeInv(n) && n.st.clock.updated
    ensures var ds := NodeFlush(n).1;
            && (forall d | d in ds :: WireOk(n.st.cfg.conv, d))
            && (forall d, t | d in ds && t in d :: t in FlushTags(n))
            && (forall t | t in FlushTags(n) :: exists d :: d in ds && t in d)
  {
    hide FlushItems, FlushTags, EndpointInvariant.Inv, TxInv, RxInv, Cut, AfterFlush, Packing.Pack, Packing.Packets,
      Packing.Flatten, Sendable;
    var s := n.st;
    var ps := Packing.Packets(Packing.Pack(s.cfg.mtu, FlushItems(s)));
    EndpointInvariant.FlushItemsOk(s);
    MtuFits(s);
    NoAcksLeft(RxOf(n), s.cfg.rcvWnd);
    FlushTagsOf(n);
    Packing.PackingIsFaithful(s.cfg.mtu, FlushItems(s));
    CutProps(FlushTags(n), ps);
    FlattenMembers(ps);
    assert NodeFlush(n).1 == Cut(FlushTags(n), ps);
    forall d | d in Cut(FlushTags(n), ps) ensures WireOk(s.cfg.conv, d) {
      var i :| 0 <= i < |ps| && d == Cut(FlushTags(n), ps)[i];
      assert Strip(d) == ps[i] && ps[i] in ps;
      assert Packing.Fits(s.cfg.mtu, ps[i]);
      assert |Strip(d)| == |d|;
    }
  }

  lemma FlushKeepsLinks(s: Sys)
    requires SysInv(s) && s.a.st.clock.updated
    ensures var (a, ds) := NodeFlush(s.a);
            var ab := s.ab + set d | d in ds;
            LinkedNodes(a, s.b, ab, s.ba) && LinkedNodes(s.b, a, s.ba, ab)
  {
    var (a, ds) := NodeFlush(s.a);
    var more := set d | d in ds;
    hide Linked, WireOk, Flush, AfterFlush, FlushTags, PushOk, AckOk, NodeFlush, EndpointInvariant.Inv, TxInv, RxInv;
    FlushedDatagrams(s.a);
    forall d, t | d in more && t in d ensures PushOk(FlushedTx(s.a).sent, t) && AckOk(RxOf(s.a), t) {
      FlushTagsOk(s.a, TxOf(s.b), s.ba, s.ab, t);
    }
    FlushKeepsForward(s.a, RxOf(s.b), s.ab, s.ba, more);
    FlushKeepsBackward(s.a, TxOf(s.b), s.ba, s.ab, more);
    FlushFields(s.a);
  }

  lemma FlushKeepsSysInv(s: Sys)
    requires SysInv(s)
    ensures var (a, ds) := NodeFlush(s.a);
            SysInv(s.(a := a, ab := s.ab + set d | d in ds))
  {
    var (a, ds) := NodeFlush(s.a);
    if s.a.st.clock.updated {
      hide Linked, WireOk, Flush, FlushTags, NodeFlush, EndpointInvariant.Inv, TxInv, RxInv;
      FlushKeepsLinks(s);
      FlushKeepsNode(s.a);
      FlushedDatagrams(s.a);
    } else {
      assert s.ab + (set d | d in ds) == s.ab;
    }
  }

  lemma FlushFields(n: Node)
    requires n.st.clock.updated && |n.acks| == |n.st.rcv.acks|
    ensures var n' := NodeFlush(n).0;
            && n'.st == AfterFlush(n.st)
            && TxOf(n') == FlushedTx(n)
            && RxOf(n') == Rx(n.st.rcv.(acks := []), n.nxt, [], n.delivered)
            && n'.st.cfg == n.st.cfg
  {
    hide Number, FlushedBuf, ProbeTimer, FlushItems, Cut, FlushTags, Packing.Pack;
  }

  lemma FlushKeepsNode(n: Node)
    requires NodeInv(n) && n.st.clock.updated
    ensures NodeInv(NodeFlush(n).0) && NodeFlush(n).0.st.cfg == n.st.cfg
  {
    hide TxInv, AfterFlush, FlushedTx, NodeFlush, EndpointInvariant.Inv, RxInv;
    EndpointInvariant.AfterFlushKeepsInv(n.st);
    FlushedKeepsTx(n);
    NoAcksLeft(RxOf(n), n.st.cfg.rcvWnd);
    FlushFields(n);
  }

  lemma NoAcksLeft(rx: Rx, wnd: u32)
    requires RxInv(rx, wnd)
    ensures RxInv(rx.(rcv := rx.rcv.(acks := []), acks := []), wnd) && |rx.acks| == |rx.rcv.acks|
  {
  }

  /** The clock is no part of any of this. */
  lemma ClockKeepsSysInv(s: Sys, clock: Clock)
    requires SysInv(s)
    ensures SysInv(s.(a := s.a.(st := s.a.st.(clock := clock))))
  {
    hide SendBuffer.Inv, RecvBuffer.Inv, Linked, WireOk;
  }

  lemma UpdateKeepsSysInv(s: Sys, now: u32)
    requires SysInv(s)
    ensures var (a, ds) := NodeUpdate(s.a, now);
            SysInv(s.(a := a, ab := s.ab + set d | d in ds))
  {
    var (clock, flush) := FlushClock.Tick(s.a.st.clock, now, s.a.st.cfg.interval);
    var s1 := s.(a := s.a.(st := s.a.st.(clock := clock)));
    ClockKeepsSysInv(s, clock);
    hide NodeInv, NodeFlush, LinkedNodes, WireOk;
    if flush {
      FlushKeepsSysInv(s1);
    } else {
      var ds: seq<Datagram> := [];
      assert s.ab + (set d | d in ds) == s.ab;
    }
  }

  // ---- runs ----

  lemma StepKeepsSysInv(s: Sys, act: Action)
    requires SysInv(s) && EnabledAtA(s, act)
    ensures SysInv(StepAtA(s, act))
  {
    hide SysInv, NodeSend, NodeRecv, NodeUpdate, NodeFlush, NodeHear;
    match act
    case DoSend(buffer, len) => SendKeepsSysInv(s, buffer, len);
    case DoRecv(len) => RecvKeepsSysInv(s, len);
    case DoUpdate(now) => UpdateKeepsSysInv(s, now);
    case DoFlush => FlushKeepsSysInv(s);
    case Deliver(d) => HearKeepsSysInv(s, d);
  }

  lemma NextKeepsSysInv(s: Sys, e: Event)
    requires SysInv(s) && Enabled(s, e)
    ensures SysInv(Next(s, e))
  {
    hide SysInv, StepAtA;
    if e.atA {
      StepKeepsSysInv(s, e.act);
    } else {
      SwapInv(s);
      StepKeepsSysInv(Swap(s), e.act);
      SwapInv(StepAtA(Swap(s), e.act));
    }
  }

  /** The invariant holds after any run: any calls at either side with any
      arguments, any loss, duplication and reordering, and any number of wraps. */
  lemma {:induction false} RunKeepsSysInv(s: Sys, es: seq<Event>)
    requires SysInv(s) && Possible(s, es)
    ensures SysInv(Run(s, es))
    decreases |es|
  {
    hide SysInv, Next;
    if es != [] {
      NextKeepsSysInv(s, es[0]);
      RunKeepsSysInv(Next(s, es[0]), es[1..]);
    }
  }

  ghost predicate Reachable(s: Sys) {
    exists cfgA, cfgB, es :: InitOk(cfgA, cfgB) && Possible(Init(cfgA, cfgB), es) && s == Run(Init(cfgA, cfgB), es)
  }

  lemma ReachableInv(s: Sys)
    requires Reachable(s)
    ensures SysInv(s)
  {
    hide SysInv;
    var cfgA, cfgB, es :| InitOk(cfgA, cfgB) && Possible(Init(cfgA, cfgB), es) && s == Run(Init(cfgA, cfgB), es);
    InitInv(cfgA, cfgB);
    RunKeepsSysInv(Init(cfgA, cfgB), es);
  }
}
