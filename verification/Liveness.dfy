/** In every fair run everything that was offered is delivered and acknowledged. */
module Liveness {
  import opened Serial
  import opened Wire
  import opened ControlBlock
  import opened Link
  import opened Endpoint
  import opened Network
  import opened Safety
  import opened Messages
  import opened Continuations
  import opened FairRuns
  import Guarantees
  import Progress
  import EndpointInvariant
  import EndpointGuarantees
  import SegmentLife
  import Retransmission
  import SendBuffer
  import RecvBuffer
  import FlushClock

  // ---- what a step without a flush keeps ----

  /** The segment is the same but for what overtook it. */
  predicate SameTimer(g: SndSeg, g': SndSeg) {
    g' == g.(fastack := g'.fastack)
  }

  ghost predicate Kept(n: Node, n': Node) {
    && (forall no | no in n.acks :: no in n'.acks)
    && n'.st.probe.wait == n.st.probe.wait && n'.st.probe.ts == n.st.probe.ts
    && (n.st.probe.tell ==> n'.st.probe.tell)
    && n.st.cong.cwnd <= n'.st.cong.cwnd
  }

  lemma {:induction false} ListenAllProbe(e: Ear, d: Datagram)
    ensures var p, p' := e.n.st.probe, ListenAll(e, d).n.st.probe; p'.wait == p.wait && p'.ts == p.ts
    decreases |d|
  {
    if d != [] { ListenAllProbe(Listen(e, d[0]), d[1..]); }
  }

  lemma HearKeeps(s: Sys, d: Datagram)
    requires Good(s) && d in s.ba && s.a.st.cfg.Mss() > 0 && forall w | w in Strip(d) :: Sendable(w)
    ensures Kept(s.a, NodeHear(s.a, d))
    ensures exists p :: p in d && NodeHear(s.a, d).st.rmtWnd == p.w.wnd
  {
    HeardOne(s, d);
    GoodHearFields(s, d);
    hide Good, NodeHear, ListenAll, HeardSegment;
    ListenAllProbe(Ear(s.a, false, 0), d);
    assert forall p | exists c :: c in [d] && p in c :: p in d;
  }

  lemma OtherKeeps(s: Sys, act: Action)
    requires Good(s) && EnabledAtA(s, act) && !Flushes(s.a, act) && !act.DoSend?
    ensures Kept(s.a, StepAtA(s, act).a)
    ensures !act.Deliver? ==> StepAtA(s, act).a.st.rmtWnd == s.a.st.rmtWnd
  {
    hide Good, NodeHear, FlushClock.Tick, WireOk, Flush, FlushTags, Recv, Recent;
    match act
    case DoRecv(len) => RecvKeeps(s.a, len);
    case Deliver(d) => HearKeeps(s, d);
    case _ =>
  }

  lemma RecvKeeps(n: Node, len: int)
    ensures Kept(n, NodeRecv(n, len)) && NodeRecv(n, len).st.rmtWnd == n.st.rmtWnd
  {
    hide RecvBuffer.Drain, RecvBuffer.MsgEnd, RecvBuffer.PeekSize, RecvBuffer.NextMsg;
  }

  lemma StepKeeps(r: Trace, i: nat)
    requires IsFair(r) && Good(r.at(i)) && !FlushAt(r, i)
    ensures Kept(r.at(i).a, r.at(i + 1).a)
    ensures !(r.ev(i).atA && r.ev(i).act.Deliver?) ==> r.at(i + 1).a.st.rmtWnd == r.at(i).a.st.rmtWnd
  {
    StepTrend(r, i);
    hide IsFair, Good, Flushes, StepAtA, EnabledAtA, Trend;
    if r.ev(i).atA {
      OtherKeeps(r.at(i), r.ev(i).act);
    }
  }

  // ---- the oldest segment in flight ----

  function CallOf(act: Action): EndpointGuarantees.Call
    requires act.Deliver? ==> forall w | w in Strip(act.d) :: Sendable(w)
  {
    match act
    case DoSend(buffer, len) => EndpointGuarantees.Sending(buffer, len)
    case DoRecv(len) => EndpointGuarantees.Receiving(len)
    case DoUpdate(now) => EndpointGuarantees.Updating(now)
    case DoFlush => EndpointGuarantees.Flushing
    case Deliver(d) => EndpointGuarantees.Arriving(EncodePacket(Strip(d)))
  }

  lemma StepIsCall(s: Sys, act: Action)
    requires EnabledAtA(s, act)
    ensures act.Deliver? ==> forall w | w in Strip(act.d) :: Sendable(w)
    ensures EndpointGuarantees.Legal(CallOf(act))
    ensures StepAtA(s, act).a.st == EndpointGuarantees.Apply(s.a.st, CallOf(act))
  {
    hide Send, Recv, Flush, FlushTags, Cut, Input, FlushClock.Tick, ListenAll;
    match act
    case DoUpdate(now) => UpdateIsCall(s.a, now);
    case DoFlush => FlushIsCall(s.a);
    case _ =>
  }

  lemma FlushIsCall(n: Node)
    requires |n.acks| == |n.st.rcv.acks|
    ensures NodeFlush(n).0.st == Endpoint.Flush(n.st).0
  {
    hide FlushTags, Cut, AfterFlush;
  }

  lemma UpdateIsCall(n: Node, now: u32)
    requires |n.acks| == |n.st.rcv.acks|
    ensures NodeUpdate(n, now).0.st == Update(n.st, now).0
  {
    hide NodeFlush, Endpoint.Flush, FlushClock.Tick;
    FlushIsCall(n.(st := n.st.(clock := FlushClock.Tick(n.st.clock, now, n.st.cfg.interval).0)));
  }

  /** While something is in flight its head has the number `snd_una`. */
  lemma HeadNumber(s: Sys)
    requires Good(s) && s.a.st.snd.buf != []
    ensures s.a.st.snd.buf[0].sn == Low32(s.a.una) && s.a.st.snd.buf[0] in s.a.st.snd.buf
    ensures EndpointInvariant.Inv(s.a.st)
  {
    NodeInvOf(s);
    hide Good, SendBuffer.Ordered, Low32;
  }

  lemma InFlight(s: Sys)
    requires Good(s)
    ensures s.a.st.snd.buf == [] <==> s.a.una == |s.a.sent|
    ensures s.a.una <= |s.a.sent|
  {
    NodeInvOf(s);
    hide Good, EndpointInvariant.Inv, RxInv;
    OldestIsInBuf(TxOf(s.a), s.a.st.cfg.Mss());
  }

  /** As long as `snd_una` stays, the oldest segment keeps its deadline until a flush
      sends it. */
  lemma HeadKept(r: Trace, i: nat)
    requires IsFair(r) && Good(r.at(i)) && r.at(i).a.st.snd.buf != [] && r.at(i + 1).a.una == r.at(i).a.una
    requires !FlushAt(r, i)
    ensures r.at(i + 1).a.st.snd.buf != [] && SameTimer(r.at(i).a.st.snd.buf[0], r.at(i + 1).a.st.snd.buf[0])
  {
    StepTrend(r, i);
    var s, t, e := r.at(i), r.at(i + 1), r.ev(i);
    hide IsFair, Good, StepAtA, Trend, EnabledAtA, Flushes;
    if e.atA {
      HeadThrough(r, i);
    }
  }

  lemma StillInFlight(r: Trace, i: nat)
    requires IsFair(r) && Good(r.at(i)) && r.at(i).a.st.snd.buf != [] && r.at(i + 1).a.una == r.at(i).a.una
    ensures Good(r.at(i + 1)) && r.at(i + 1).a.st.snd.buf != []
  {
    hide IsFair, Good, Offered;
    StepTrend(r, i);
    InFlight(r.at(i));
    InFlight(r.at(i + 1));
  }

  lemma HeadThrough(r: Trace, i: nat)
    requires IsFair(r) && Good(r.at(i)) && r.at(i).a.st.snd.buf != [] && r.at(i + 1).a.una == r.at(i).a.una
    requires r.ev(i).atA && !FlushAt(r, i)
    ensures r.at(i + 1).a.st.snd.buf != [] && SameTimer(r.at(i).a.st.snd.buf[0], r.at(i + 1).a.st.snd.buf[0])
  {
    assert StepOk(r, i);
    hide IsFair, Good, StepAtA, EnabledAtA, SameTimer, Flushes;
    StillInFlight(r, i);
    HeadOfStep(r.at(i), r.ev(i).act);
  }

  lemma HeadOfStep(s: Sys, act: Action)
    requires Good(s) && EnabledAtA(s, act) && Good(StepAtA(s, act)) && !Flushes(s.a, act)
    requires StepAtA(s, act).a.una == s.a.una && s.a.st.snd.buf != [] && StepAtA(s, act).a.st.snd.buf != []
    ensures SameTimer(s.a.st.snd.buf[0], StepAtA(s, act).a.st.snd.buf[0])
  {
    hide Good, StepAtA, EnabledAtA, Low32, EndpointInvariant.Inv, EndpointGuarantees.Apply, FlushClock.Tick, SameTimer;
    var t := StepAtA(s, act);
    HeadNumber(s);
    HeadNumber(t);
    StepIsCall(s, act);
    MssPositive(s);
    HappensToHead(s.a.st, CallOf(act), s.a.st.snd.buf[0], t.a.st.snd.buf[0]);
  }

  lemma MssPositive(s: Sys)
    requires Good(s)
    ensures s.a.st.cfg.Mss() > 0
  {
    NodeInvOf(s);
    hide Good;
  }

  lemma HappensToHead(s: State, c: EndpointGuarantees.Call, g: SndSeg, g': SndSeg)
    requires EndpointInvariant.Inv(s) && EndpointGuarantees.Legal(c) && s.cfg.Mss() > 0
    requires g in s.snd.buf && g' in EndpointGuarantees.Apply(s, c).snd.buf && g'.sn == g.sn
    requires c.Updating? ==> !FlushClock.Tick(s.clock, c.now, s.cfg.interval).1
    requires c.Flushing? ==> !s.clock.updated
    ensures SameTimer(g, g')
  {
    SegmentLife.CallHappens(s, c, g, g');
    hide EndpointInvariant.Inv, EndpointGuarantees.Apply, SegmentLife.Overtakes, FlushClock.Tick, EnvOf;
    SegmentLife.LiveOne(g, Retransmission.Event.Skip(1));
  }

  // ---- what leaves sooner or later ----

  /** At `k` that side hands over a datagram with the segment `p` in it. */
  ghost predicate Leaves(r: Trace, k: nat, atA: bool, d: Datagram, p: Tag) {
    r.ev(k).atA == atA && Emits(r, k, d) && p in d
  }

  lemma FlushKeepsHead(r: Trace, i: nat)
    requires IsFair(r) && Good(r.at(i)) && FlushAt(r, i) && r.at(i).a.st.snd.buf != []
    requires !Retransmission.Due(r.at(i).a.st.snd.buf[0], EnvOf(AtFlush(r.at(i).a, r.ev(i).act).st))
    ensures r.at(i + 1).a.una == r.at(i).a.una && r.at(i + 1).a.st.snd.buf != []
    ensures r.at(i + 1).a.st.snd.buf[0] == r.at(i).a.st.snd.buf[0]
    ensures Diff(AtFlush(r.at(i).a, r.ev(i).act).st.clock.current, r.at(i).a.st.snd.buf[0].resendts) < 0
  {
    hide IsFair, Good, NodeInv, NodeFlush, FlushAt, AtFlush, EnvOf, Retransmission.Due, FlushTags, FlushedTx, Emits;
    FlushStep(r, i);
    HeadStays(AtFlush(r.at(i).a, r.ev(i).act));
  }

  lemma FlushSendsHead(r: Trace, i: nat) returns (d: Datagram, p: Tag)
    requires IsFair(r) && Good(r.at(i)) && FlushAt(r, i) && r.at(i).a.st.snd.buf != []
    requires Retransmission.Due(r.at(i).a.st.snd.buf[0], EnvOf(AtFlush(r.at(i).a, r.ev(i).act).st))
    ensures Leaves(r, i, true, d, p) && p.w.cmd == CMD_PUSH && p.sn == r.at(i).a.una
  {
    assert r.ev(i).atA;
    hide IsFair, Good, NodeInv, NodeFlush, FlushAt, AtFlush, EnvOf, Retransmission.Due, FlushEffect, Emits;
    FlushStep(r, i);
    d, p := HeadIsSent(AtFlush(r.at(i).a, r.ev(i).act));
  }

  lemma UnaGrows(r: Trace, i: nat)
    requires IsFair(r) && Good(r.at(i))
    ensures Good(r.at(i + 1)) && r.at(i).a.una <= r.at(i + 1).a.una
  {
    hide IsFair, Good, Offered;
    StepTrend(r, i);
  }

  /** The oldest segment is sent, or acknowledged before. */
  lemma {:induction false} OldestLeaves(r: Trace, i: nat, j: nat) returns (k: nat, d: Datagram, p: Tag)
    requires IsFair(r) && Good(r.at(i)) && i <= j && r.at(i).a.st.snd.buf != []
    requires FlushAt(r, j)
    requires Diff(AtFlush(r.at(j).a, r.ev(j).act).st.clock.current, r.at(i).a.st.snd.buf[0].resendts) >= 0
    ensures i <= k
    ensures || r.at(k).a.una > r.at(i).a.una
            || (Leaves(r, k, true, d, p) && p.w.cmd == CMD_PUSH && p.sn == r.at(i).a.una)
    decreases j - i
  {
    hide IsFair, Good, FlushAt, AtFlush, EnvOf, Retransmission.Due, Leaves;
    k, d, p := i, [], NO_TAG;
    if FlushAt(r, i) && Retransmission.Due(r.at(i).a.st.snd.buf[0], EnvOf(AtFlush(r.at(i).a, r.ev(i).act).st)) {
      d, p := FlushSendsHead(r, i);
    } else {
      UnaGrows(r, i);
      if r.at(i + 1).a.una > r.at(i).a.una {
        k := i + 1;
      } else {
        if FlushAt(r, i) { FlushKeepsHead(r, i); } else { HeadKept(r, i); }
        k, d, p := OldestLeaves(r, i + 1, j);
      }
    }
  }

  lemma FlushSendsAck(r: Trace, i: nat, no: nat) returns (d: Datagram, p: Tag)
    requires IsFair(r) && Good(r.at(i)) && FlushAt(r, i) && no in r.at(i).a.acks
    ensures Leaves(r, i, true, d, p) && p.w.cmd == CMD_ACK && p.sn == no
  {
    assert r.ev(i).atA;
    hide IsFair, Good, NodeInv, NodeFlush, FlushAt, AtFlush, FlushEffect, Emits;
    FlushStep(r, i);
    d, p := AckIsSent(AtFlush(r.at(i).a, r.ev(i).act), no);
  }

  lemma FlushTells(r: Trace, i: nat) returns (d: Datagram)
    requires IsFair(r) && Good(r.at(i)) && FlushAt(r, i) && r.at(i).a.st.probe.tell
    ensures r.ev(i).atA && Emits(r, i, d)
  {
    assert r.ev(i).atA;
    hide IsFair, Good, NodeInv, NodeFlush, FlushAt, AtFlush, FlushEffect, Emits, Unused;
    FlushStep(r, i);
    var m := AtFlush(r.at(i).a, r.ev(i).act);
    TellIsSent(m);
    d := NodeFlush(m).1[0];
  }

  lemma FlushAsks(r: Trace, i: nat) returns (d: Datagram, p: Tag)
    requires IsFair(r) && Good(r.at(i)) && FlushAt(r, i) && r.at(i).a.st.rmtWnd == 0 && r.at(i).a.st.probe.wait != 0
    requires Diff(AtFlush(r.at(i).a, r.ev(i).act).st.clock.current, r.at(i).a.st.probe.ts) >= 0
    ensures Leaves(r, i, true, d, p) && p.w.cmd == CMD_WASK
  {
    assert r.ev(i).atA;
    hide IsFair, Good, NodeInv, NodeFlush, FlushAt, AtFlush, FlushEffect, Emits;
    FlushStep(r, i);
    d, p := AskIsSent(AtFlush(r.at(i).a, r.ev(i).act));
  }

  lemma FlushKeepsProbe(r: Trace, i: nat)
    requires IsFair(r) && Good(r.at(i)) && FlushAt(r, i) && r.at(i).a.st.rmtWnd == 0
    ensures var n, n' := r.at(i).a, r.at(i + 1).a;
            && n'.st.rmtWnd == 0 && n'.st.probe.wait != 0 && n'.st.cong.cwnd >= 1
            && (n.st.probe.wait != 0 && Diff(AtFlush(n, r.ev(i).act).st.clock.current, n.st.probe.ts) < 0 ==>
                  n'.st.probe.ts == n.st.probe.ts)
  {
    hide IsFair, Good, NodeInv, NodeFlush, FlushAt, AtFlush, FlushTags, FlushedTx, Emits;
    FlushStep(r, i);
  }

  /** A pending acknowledgement is sent. */
  lemma {:induction false} AckLeaves(r: Trace, i: nat, j: nat, no: nat) returns (k: nat, d: Datagram, p: Tag)
    requires IsFair(r) && Good(r.at(i)) && i <= j && FlushAt(r, j) && no in r.at(i).a.acks
    ensures i <= k && Leaves(r, k, true, d, p) && p.w.cmd == CMD_ACK && p.sn == no
    decreases j - i
  {
    hide IsFair, Good, FlushAt, Leaves;
    if FlushAt(r, i) {
      k := i;
      d, p := FlushSendsAck(r, i, no);
    } else {
      TrendIsGood(r, i);
      StepKeeps(r, i);
      k, d, p := AckLeaves(r, i + 1, j, no);
    }
  }

  /** An announcement that is owed is sent. */
  lemma {:induction false} TellLeaves(r: Trace, i: nat, j: nat) returns (k: nat, d: Datagram)
    requires IsFair(r) && Good(r.at(i)) && i <= j && FlushAt(r, j) && r.at(i).a.st.probe.tell
    ensures i <= k && r.ev(k).atA && Emits(r, k, d)
    decreases j - i
  {
    hide IsFair, Good, FlushAt, Emits;
    if FlushAt(r, i) {
      k := i;
      d := FlushTells(r, i);
    } else {
      TrendIsGood(r, i);
      StepKeeps(r, i);
      k, d := TellLeaves(r, i + 1, j);
    }
  }

  const NO_TAG := Tag(WireSeg(0, 0, 0, 0, 0, 0, 0, []), 0, 0)

  /** A probe of the shut window is sent, or the window opens before. */
  lemma {:induction false} AskLeaves(r: Trace, i: nat, j: nat) returns (k: nat, d: Datagram, p: Tag)
    requires IsFair(r) && Good(r.at(i)) && i <= j && FlushAt(r, j)
    requires r.at(i).a.st.rmtWnd == 0 && r.at(i).a.st.probe.wait != 0
    requires Diff(AtFlush(r.at(j).a, r.ev(j).act).st.clock.current, r.at(i).a.st.probe.ts) >= 0
    ensures i <= k && (r.at(k).a.st.rmtWnd != 0 || (Leaves(r, k, true, d, p) && p.w.cmd == CMD_WASK))
    decreases j - i
  {
    hide IsFair, Good, FlushAt, AtFlush, Leaves;
    k, d, p := i, [], NO_TAG;
    if FlushAt(r, i) && Diff(AtFlush(r.at(i).a, r.ev(i).act).st.clock.current, r.at(i).a.st.probe.ts) >= 0 {
      d, p := FlushAsks(r, i);
    } else {
      TrendIsGood(r, i);
      if FlushAt(r, i) { FlushKeepsProbe(r, i); } else { StepKeeps(r, i); }
      if r.at(i + 1).a.st.rmtWnd != 0 {
        k := i + 1;
      } else {
        k, d, p := AskLeaves(r, i + 1, j);
      }
    }
  }

  // ---- what arrives ----

  /** A datagram that was sent arrives later. */
  lemma Arrival(r: Trace, k: nat, d: Datagram) returns (j: nat)
    requires IsFair(r) && Emits(r, k, d)
    ensures k < j && Gets(r, j, !r.ev(k).atA, d)
  {
    assert Arrives(r, k, !r.ev(k).atA, d);
    hide IsFair, Emits, Gets;
    j :| k < j && Gets(r, j, !r.ev(k).atA, d);
  }

  lemma HeardAtA(r: Trace, j: nat, d: Datagram)
    requires IsFair(r) && Good(r.at(j)) && Gets(r, j, true, d)
    ensures Heard(r.at(j).b, r.at(j).a, r.at(j + 1).a, [d]) && d != []
  {
    assert StepOk(r, j);
    hide IsFair, Good, NodeHear, Heard, Recent;
    HeardOne(r.at(j), d);
  }

  lemma AckArrives(r: Trace, j: nat, d: Datagram, p: Tag)
    requires IsFair(r) && Good(r.at(j)) && Gets(r, j, true, d) && p in d && p.w.cmd == CMD_ACK && p.sn <= r.at(j).a.una
    ensures r.at(j + 1).a.una > p.sn
  {
    hide IsFair, Good, Gets;
    HeardAtA(r, j, d);
    assert d in [d] && HeardSegment(r.at(j).b, r.at(j).a, r.at(j + 1).a, p);
  }

  lemma AskArrives(r: Trace, j: nat, d: Datagram, p: Tag)
    requires IsFair(r) && Good(r.at(j)) && Gets(r, j, true, d) && p in d && p.w.cmd == CMD_WASK
    ensures r.at(j + 1).a.st.probe.tell
  {
    hide IsFair, Good, Gets;
    HeardAtA(r, j, d);
    assert d in [d] && HeardSegment(r.at(j).b, r.at(j).a, r.at(j + 1).a, p);
  }

  /** The oldest segment of the other side, if it is in the window. */
  lemma PushArrives(r: Trace, j: nat, d: Datagram, p: Tag)
    requires IsFair(r) && Good(r.at(j)) && Gets(r, j, true, d) && p in d && p.w.cmd == CMD_PUSH
    requires p.sn == r.at(j).b.una && p.sn < r.at(j).a.nxt + r.at(j).a.st.cfg.rcvWnd
    ensures p.sn in r.at(j + 1).a.acks
  {
    hide IsFair, Good, Gets;
    HeardAtA(r, j, d);
    GoodSwap(r.at(j));
    Progress.FlightIsRecent(Swap(r.at(j)));
    assert d in [d] && HeardSegment(r.at(j).b, r.at(j).a, r.at(j + 1).a, p);
  }

  // ---- the oldest segment is acknowledged ----

  /** What leaves the other side of the swapped run leaves this one. */
  lemma LeavesB(r: Trace, k: nat, d: Datagram, p: Tag)
    requires Leaves(SwapTrace(r), k, true, d, p)
    ensures Leaves(r, k, false, d, p)
  {
    SwapStep(r, k);
    hide Emits;
  }

  lemma AckLeavesB(r: Trace, i: nat, no: nat) returns (k: nat, d: Datagram, p: Tag)
    requires IsFair(r) && Good(r.at(i)) && no in r.at(i).b.acks
    ensures i <= k && Leaves(r, k, false, d, p) && p.w.cmd == CMD_ACK && p.sn == no
  {
    SwapFair(r);
    GoodSwap(r.at(i));
    hide IsFair, Good, FlushAt, AtFlush, Leaves;
    var t := SwapTrace(r);
    var f := FlushAfter(t, i, 0);
    k, d, p := AckLeaves(t, i, f, no);
    LeavesB(r, k, d, p);
  }

  /** A pending acknowledgement at `b` reaches `a`. */
  lemma AckComes(r: Trace, i: nat, no: nat) returns (j: nat)
    requires IsFair(r) && Good(r.at(i)) && no in r.at(i).b.acks && no <= r.at(i).a.una
    ensures i <= j && r.at(j).a.una > no
  {
    hide IsFair, Good, Emits, Gets, Offered;
    var k, d, p := AckLeavesB(r, i, no);
    var g := Arrival(r, k, d);
    RunTrend(r, i, g);
    AckArrives(r, g, d, p);
    j := g + 1;
  }

  /** From a window that reaches the oldest segment: it is sent, accepted, acknowledged. */
  lemma OldestIsAcked(r: Trace, i: nat) returns (j: nat)
    requires IsFair(r) && Good(r.at(i)) && r.at(i).a.st.snd.buf != []
    requires r.at(i).a.una < r.at(i).b.nxt + r.at(i).b.st.cfg.rcvWnd
    ensures i <= j && r.at(j).a.una > r.at(i).a.una
  {
    hide IsFair, Good, FlushAt, AtFlush, Emits, Gets, Offered;
    var f := FlushAfter(r, i, r.at(i).a.st.snd.buf[0].resendts);
    var k, d, p := OldestLeaves(r, i, f);
    if r.at(k).a.una > r.at(i).a.una {
      j := k;
    } else {
      var g := Arrival(r, k, d);
      RunTrend(r, i, g);
      if r.at(g).a.una > r.at(i).a.una {
        j := g;
      } else {
        PushArrivesAtB(r, g, d, p);
        UnaGrows(r, g);
        j := AckComes(r, g + 1, p.sn);
      }
    }
  }

  lemma PushArrivesAtB(r: Trace, j: nat, d: Datagram, p: Tag)
    requires IsFair(r) && Good(r.at(j)) && Gets(r, j, false, d) && p in d && p.w.cmd == CMD_PUSH
    requires p.sn == r.at(j).a.una && p.sn < r.at(j).b.nxt + r.at(j).b.st.cfg.rcvWnd
    ensures p.sn in r.at(j + 1).b.acks
  {
    SwapFair(r);
    SwapStep(r, j);
    GoodSwap(r.at(j));
    hide IsFair, Good, Gets;
    PushArrives(SwapTrace(r), j, d, p);
  }

  // ---- the window reaches it ----

  /** `b` expects what it delivered and queued, and `snd_una` is at most a window ahead. */
  lemma NextIsCount(s: Sys)
    requires Good(s)
    ensures s.b.nxt == |s.b.delivered| + |s.b.st.rcv.queue| && |s.b.st.rcv.queue| <= s.b.st.cfg.rcvWnd
    ensures s.a.una <= s.b.nxt + s.b.st.cfg.rcvWnd && s.b.nxt <= |s.a.sent| && WND_RCV <= s.b.st.cfg.rcvWnd
    ensures s.a.una > s.b.nxt ==> |s.b.st.rcv.queue| == s.b.st.cfg.rcvWnd
  {
    NodeInvOf(s);
    hide EndpointInvariant.Inv, HistoryInv, HandedOver, TxInv, NothingLost, Accepted;
    assert SysInv(s) && InOrder(TxOf(s.a), RxOf(s.b));
    assert |s.b.delivered + s.b.st.rcv.queue| == s.b.nxt;
    LinkWithin(s);
    if s.a.una > s.b.nxt { Guarantees.AheadOnlyWhenFull(s); }
  }

  lemma LinkWithin(s: Sys)
    requires Good(s)
    ensures s.a.una <= s.b.nxt + s.b.st.cfg.rcvWnd
  {
    NodeInvOf(s);
    hide HistoryInv, HandedOver, EndpointInvariant.Inv, TxInv, InOrder;
    UnaWithinWindow(TxOf(s.a), RxOf(s.b), s.b.st.cfg.rcvWnd);
  }

  lemma NextRead(r: Trace, i: nat) returns (j: nat)
    requires IsFair(r)
    ensures i <= j && Reads(r, j, false)
  {
    assert KeepsReading(r, i, false);
    hide IsFair, Reads;
    j :| i <= j && Reads(r, j, false);
  }

  /** A receive takes the next message, if there is a whole one. */
  lemma ReadTakes(r: Trace, i: nat)
    requires IsFair(r) && Good(r.at(i)) && Reads(r, i, false) && RecvBuffer.PeekSize(r.at(i).b.st.rcv.queue) >= 0
    ensures |r.at(i + 1).b.delivered| > |r.at(i).b.delivered| && r.at(i + 1).a == r.at(i).a
  {
    assert StepOk(r, i);
    hide IsFair, Good, NodeRecv, RecvBuffer.PeekSize;
    Progress.RecvTakes(r.at(i).b, r.ev(i).act.len);
  }

  lemma FullIsReadable(s: Sys)
    requires Good(s) && |s.b.st.rcv.queue| >= WND_RCV
    ensures RecvBuffer.PeekSize(s.b.st.rcv.queue) >= 0
  {
    hide Good, RecvBuffer.PeekSize;
    if RecvBuffer.PeekSize(s.b.st.rcv.queue) < 0 { Progress.ShortQueue(s); }
  }

  /** The next receive at `b` makes room for the oldest segment of `a`. */
  lemma WindowComes(r: Trace, i: nat) returns (j: nat)
    requires IsFair(r) && Good(r.at(i))
    ensures i <= j && Good(r.at(j))
    ensures r.at(j).a.una > r.at(i).a.una || r.at(j).a.una < r.at(j).b.nxt + r.at(j).b.st.cfg.rcvWnd
  {
    hide IsFair, Good, Reads, Offered, RecvBuffer.PeekSize;
    j := NextRead(r, i);
    RunTrend(r, i, j);
    NextIsCount(r.at(j));
    if r.at(j).a.una > r.at(j).b.nxt {
      FullIsReadable(r.at(j));
      ReadTakes(r, j);
      StepTrend(r, j);
      j := j + 1;
      NextIsCount(r.at(j));
    }
  }

  /** Whatever is in flight, `snd_una` moves on. */
  lemma InFlightAdvances(r: Trace, i: nat) returns (j: nat)
    requires IsFair(r) && Good(r.at(i)) && r.at(i).a.st.snd.buf != []
    ensures i <= j && r.at(j).a.una > r.at(i).a.una
  {
    hide IsFair, Good, Offered;
    j := WindowComes(r, i);
    RunTrend(r, i, j);
    if r.at(j).a.una <= r.at(i).a.una {
      InFlight(r.at(i));
      InFlight(r.at(j));
      j := OldestIsAcked(r, j);
    }
  }

  // ---- the window opens ----

  /** Nothing is in flight, and `snd_una` is still where it was. */
  ghost predicate Stuck(r: Trace, i: nat, una: nat) {
    r.at(i).a.una == una && r.at(i).a.st.snd.buf == []
  }

  lemma StuckBetween(r: Trace, i: nat, k: nat, j: nat, una: nat)
    requires IsFair(r) && Good(r.at(i)) && i <= k <= j && Stuck(r, i, una) && Stuck(r, j, una)
    ensures Stuck(r, k, una) && |r.at(k).a.sent| == una && Good(r.at(k))
  {
    hide IsFair, Good, Offered;
    RunTrend(r, i, k);
    RunTrend(r, k, j);
    InFlight(r.at(i));
    InFlight(r.at(k));
    InFlight(r.at(j));
  }

  /** The application at `b` comes to a state in which no whole message is left. */
  lemma {:induction false} ReadsOut(r: Trace, i: nat) returns (j: nat)
    requires IsFair(r) && Good(r.at(i))
    ensures i <= j && Good(r.at(j)) && RecvBuffer.PeekSize(r.at(j).b.st.rcv.queue) < 0
    decreases |Offered(r.at(i).a)| - |r.at(i).b.delivered|
  {
    hide IsFair, Good, Reads, Offered, RecvBuffer.PeekSize;
    j := NextRead(r, i);
    RunTrend(r, i, j);
    if RecvBuffer.PeekSize(r.at(j).b.st.rcv.queue) >= 0 {
      ReadTakes(r, j);
      RunTrend(r, i, j + 1);
      Progress.DeliveredIsOffered(r.at(j + 1));
      j := ReadsOut(r, j + 1);
    }
  }

  /** From then on, as long as nothing is numbered, `b` has room. */
  lemma RoomStays(r: Trace, i: nat, j: nat, una: nat)
    requires IsFair(r) && Good(r.at(i)) && i <= j && Stuck(r, i, una) && Stuck(r, j, una)
    requires RecvBuffer.PeekSize(r.at(i).b.st.rcv.queue) < 0
    ensures |r.at(j).b.st.rcv.queue| < WND_RCV
  {
    hide IsFair, Good, Offered, RecvBuffer.PeekSize;
    Progress.ShortQueue(r.at(i));
    StuckBetween(r, i, j, j, una);
    RunTrend(r, i, j);
    NextIsCount(r.at(i));
    NextIsCount(r.at(j));
  }

  /** Only flushes hand anything to the network. */
  lemma EmitsAtFlush(r: Trace, i: nat, d: Datagram)
    requires IsFair(r) && Good(r.at(i)) && r.ev(i).atA && Emits(r, i, d)
    ensures FlushAt(r, i) && |r.at(i).a.acks| == |r.at(i).a.st.rcv.acks|
    ensures NodeInv(AtFlush(r.at(i).a, r.ev(i).act)) && d in NodeFlush(AtFlush(r.at(i).a, r.ev(i).act)).1
  {
    NodeInvOf(r.at(i));
    EmittedAtFlush(r.at(i).a, r.ev(i), r.at(i), d);
    hide IsFair, Good, NodeInv, NodeFlush, AtFlush, Emits, FlushEffect;
    FlushStep(r, i);
  }

  lemma EmittedAtFlush(n: Node, e: Event, s: Sys, d: Datagram)
    requires NodeInv(n) && e.atA && n == s.a && Enabled(s, e) && d in Emitted(s, e)
    ensures Flushes(n, e.act) && |n.acks| == |n.st.rcv.acks| && |AtFlush(n, e.act).acks| == |AtFlush(n, e.act).st.rcv.acks|
    ensures d in NodeFlush(AtFlush(n, e.act)).1
  {
    hide NodeInv, Flush, FlushTags, Cut, FlushClock.Tick, Recent, WireOk;
  }

  /** What `a` sends while it has room announces an open window. */
  lemma Announces(r: Trace, i: nat, d: Datagram)
    requires IsFair(r) && Good(r.at(i)) && r.ev(i).atA && Emits(r, i, d) && |r.at(i).a.st.rcv.queue| < WND_RCV
    ensures forall p | p in d :: p.w.wnd > 0
  {
    EmitsAtFlush(r, i, d);
    NodeInvOf(r.at(i));
    var n, act := r.at(i).a, r.ev(i).act;
    Room(n, act);
    hide IsFair, Good, NodeInv, NodeFlush, AtFlush, Emits, FlushEffect, Unused;
    FlushStep(r, i);
    TellIsSent(AtFlush(n, act));
  }

  lemma Room(n: Node, act: Action)
    requires NodeInv(n) && |n.st.rcv.queue| < WND_RCV
    ensures Unused(AtFlush(n, act).st) > 0
  {
    hide TxInv, RxInv, FlushClock.Tick;
  }

  lemma AnnouncesB(r: Trace, i: nat, d: Datagram)
    requires IsFair(r) && Good(r.at(i)) && !r.ev(i).atA && Emits(r, i, d) && |r.at(i).b.st.rcv.queue| < WND_RCV
    ensures forall p | p in d :: p.w.wnd > 0
  {
    SwapFair(r);
    SwapStep(r, i);
    GoodSwap(r.at(i));
    hide IsFair, Good, Emits;
    Announces(SwapTrace(r), i, d);
  }

  /** `a` is stuck from `q` to `i`, `b` has room since, and what was sent before no longer
      arrives. */
  ghost predicate Quieted(r: Trace, q: nat, m: nat, i: nat, una: nat) {
    && q <= m <= i && Good(r.at(q)) && Stuck(r, q, una) && Stuck(r, i, una)
    && RecvBuffer.PeekSize(r.at(q).b.st.rcv.queue) < 0 && OnlyNew(r, q, m)
  }

  /** So every datagram that reaches `a` opens the window. */
  lemma DeliveryOpens(r: Trace, q: nat, m: nat, i: nat, una: nat, d: Datagram)
    requires IsFair(r) && Quieted(r, q, m, i, una) && Gets(r, i, true, d)
    ensures r.at(i + 1).a.st.rmtWnd > 0
  {
    assert SentBetween(r, q, i, false, d);
    hide IsFair, Good, OnlyNew, RecvBuffer.PeekSize, Emits, Gets, Stuck;
    var k: nat :| q <= k < i && !r.ev(k).atA && Emits(r, k, d);
    hide SentBetween;
    StuckBetween(r, q, k, i, una);
    StuckBetween(r, q, i, i, una);
    RoomStays(r, q, k, una);
    AnnouncesB(r, k, d);
    WindowArrives(r, i, d);
  }

  lemma WindowArrives(r: Trace, i: nat, d: Datagram)
    requires IsFair(r) && Good(r.at(i)) && Gets(r, i, true, d) && forall p | p in d :: p.w.wnd > 0
    ensures r.at(i + 1).a.st.rmtWnd > 0
  {
    hide IsFair, Good, Gets, HeardSegment;
    HeardAtA(r, i, d);
  }

  lemma WindowKept(r: Trace, i: nat)
    requires IsFair(r) && Good(r.at(i)) && FlushAt(r, i)
    ensures r.at(i + 1).a.st.rmtWnd == r.at(i).a.st.rmtWnd && r.at(i + 1).a.st.cong.cwnd >= 1
    ensures |r.at(i + 1).a.sent| == |r.at(i).a.sent| + Admitted(AtFlush(r.at(i).a, r.ev(i).act).st)
    ensures r.at(i + 1).a.una == r.at(i).a.una
  {
    hide IsFair, Good, NodeInv, NodeFlush, AtFlush, Emits, FlushAt, FlushTags, FlushedTx;
    FlushStep(r, i);
  }

  lemma {:induction false} CwndStays(r: Trace, i: nat, j: nat)
    requires IsFair(r) && Good(r.at(i)) && i <= j && r.at(i).a.st.cong.cwnd > 0
    ensures r.at(j).a.st.cong.cwnd > 0
    decreases j - i
  {
    hide IsFair, Good, FlushAt;
    if i < j {
      if FlushAt(r, i) { WindowKept(r, i); } else { StepKeeps(r, i); }
      TrendIsGood(r, i);
      CwndStays(r, i + 1, j);
    }
  }

  /** An open window stays open. */
  lemma {:induction false} OpenStays(r: Trace, q: nat, m: nat, i: nat, j: nat, una: nat)
    requires IsFair(r) && Quieted(r, q, m, i, una) && i <= j && Stuck(r, j, una) && r.at(i).a.st.rmtWnd > 0
    ensures Quieted(r, q, m, j, una) && r.at(j).a.st.rmtWnd > 0
    decreases j - i
  {
    hide IsFair, Good, FlushAt, RecvBuffer.PeekSize, OnlyNew, Stuck;
    if i < j {
      StuckBetween(r, q, i, j, una);
      StuckBetween(r, q, i + 1, j, una);
      if FlushAt(r, i) {
        WindowKept(r, i);
      } else if r.ev(i).atA && r.ev(i).act.Deliver? {
        DeliveryOpens(r, q, m, i, una, r.ev(i).act.d);
      } else {
        StepKeeps(r, i);
      }
      OpenStays(r, q, m, i + 1, j, una);
    }
  }

  /** With an open window the next flush puts something in flight. */
  lemma OpenLeads(r: Trace, q: nat, m: nat, i: nat, una: nat) returns (j: nat)
    requires IsFair(r) && Quieted(r, q, m, i, una) && r.at(i).a.st.rmtWnd > 0 && r.at(i).a.st.cong.cwnd > 0
    requires una < |Offered(r.at(i).a)|
    ensures i <= j && !Stuck(r, j, una)
  {
    hide IsFair, Good, FlushAt, AtFlush, RecvBuffer.PeekSize, OnlyNew, Offered;
    StuckBetween(r, q, i, i, una);
    j := FlushAfter(r, i, 0);
    if Stuck(r, j, una) {
      OpenStays(r, q, m, i, j, una);
      CwndStays(r, i, j);
      RunTrend(r, i, j);
      FlushAdmits(r, j);
      j := j + 1;
    }
  }

  lemma FlushAdmits(r: Trace, i: nat)
    requires IsFair(r) && Good(r.at(i)) && FlushAt(r, i)
    requires r.at(i).a.st.snd.buf == [] && r.at(i).a.una < |Offered(r.at(i).a)|
    requires r.at(i).a.st.rmtWnd > 0 && r.at(i).a.st.cong.cwnd > 0
    ensures r.at(i + 1).a.st.snd.buf != []
  {
    Progress.AllAcked(r.at(i));
    hide IsFair, Good, NodeInv, NodeFlush, AtFlush, Emits, FlushAt, FlushEffect, Offered, Admitted;
    FlushStep(r, i);
    Progress.WindowOpen(AtFlush(r.at(i).a, r.ev(i).act));
    WindowKept(r, i);
    TrendIsGood(r, i);
    InFlight(r.at(i));
    InFlight(r.at(i + 1));
  }

  /** A flush of `a` that finds nothing in flight: the congestion window is open after it,
      and the probe timer runs if the remote window is shut. */
  lemma FirstFlush(r: Trace, i: nat) returns (j: nat)
    requires IsFair(r) && Good(r.at(i))
    ensures i < j && Good(r.at(j)) && r.at(j).a.st.cong.cwnd >= 1
    ensures r.at(j).a.st.rmtWnd == 0 ==> r.at(j).a.st.probe.wait != 0
  {
    hide IsFair, Good, FlushAt, AtFlush;
    j := FlushAfter(r, i, 0);
    TrendIsGood(r, j);
    WindowKept(r, j);
    if r.at(j).a.st.rmtWnd == 0 { FlushKeepsProbe(r, j); }
    j := j + 1;
  }

  lemma AskArrivesAtB(r: Trace, j: nat, d: Datagram, p: Tag)
    requires IsFair(r) && Good(r.at(j)) && Gets(r, j, false, d) && p in d && p.w.cmd == CMD_WASK
    ensures r.at(j + 1).b.st.probe.tell
  {
    SwapFair(r);
    SwapStep(r, j);
    GoodSwap(r.at(j));
    hide IsFair, Good, Gets;
    AskArrives(SwapTrace(r), j, d, p);
  }

  lemma TellLeavesB(r: Trace, i: nat) returns (k: nat, d: Datagram)
    requires IsFair(r) && Good(r.at(i)) && r.at(i).b.st.probe.tell
    ensures i <= k && !r.ev(k).atA && Emits(r, k, d)
  {
    SwapFair(r);
    GoodSwap(r.at(i));
    hide IsFair, Good, FlushAt, AtFlush, Emits;
    var t := SwapTrace(r);
    var f := FlushAfter(t, i, 0);
    k, d := TellLeaves(t, i, f);
    SwapStep(r, k);
  }

  /** A probe that left `a` is answered: some datagram reaches `a` afterwards. */
  lemma ProbeIsAnswered(r: Trace, k: nat, d: Datagram, p: Tag) returns (j: nat, e: Datagram)
    requires IsFair(r) && Good(r.at(k)) && Leaves(r, k, true, d, p) && p.w.cmd == CMD_WASK
    ensures k < j && Gets(r, j, true, e)
  {
    hide IsFair, Good, Emits, Gets;
    var g := Arrival(r, k, d);
    GoodAt(r, k, g);
    AskArrivesAtB(r, g, d, p);
    TrendIsGood(r, g);
    var l;
    l, e := TellLeavesB(r, g + 1);
    j := Arrival(r, l, e);
  }

  lemma GoodAt(r: Trace, i: nat, j: nat)
    requires IsFair(r) && Good(r.at(i)) && i <= j
    ensures Good(r.at(j)) && Offered(r.at(j).a) == Offered(r.at(i).a)
  {
    hide IsFair, Good, Offered;
    RunTrend(r, i, j);
  }

  /** Quiet, with the window shut and the probe timer running: the probe opens it. */
  lemma ProbeLeads(r: Trace, q: nat, m: nat, i: nat, una: nat) returns (j: nat)
    requires IsFair(r) && Quieted(r, q, m, i, una) && Good(r.at(i)) && r.at(i).a.st.cong.cwnd > 0
    requires r.at(i).a.st.rmtWnd == 0 && r.at(i).a.st.probe.wait != 0
    ensures i <= j && (!Stuck(r, j, una) || (Quieted(r, q, m, j, una) && r.at(j).a.st.rmtWnd > 0))
  {
    hide IsFair, Good, FlushAt, AtFlush, RecvBuffer.PeekSize, OnlyNew, Leaves, Gets;
    var f := FlushAfter(r, i, r.at(i).a.st.probe.ts);
    var k, d, p := AskLeaves(r, i, f);
    j := k;
    if Stuck(r, k, una) && r.at(k).a.st.rmtWnd == 0 {
      GoodAt(r, i, k);
      var g, e := ProbeIsAnswered(r, k, d, p);
      j := g;
      if Stuck(r, g, una) {
        DeliveryOpens(r, q, m, g, una, e);
        j := g + 1;
      }
    }
  }

  /** Whatever keeps the window shut, it opens: from a state with nothing in flight and
      something left to send, something gets in flight. */
  lemma WindowMoves(r: Trace, i: nat) returns (j: nat)
    requires IsFair(r) && Good(r.at(i)) && r.at(i).a.una < |Offered(r.at(i).a)|
    ensures i <= j && !Stuck(r, j, r.at(i).a.una)
  {
    hide IsFair, Good, RecvBuffer.PeekSize, OnlyNew, Offered, Stuck;
    var una := r.at(i).a.una;
    j := FirstFlush(r, i);
    var q := ReadsOut(r, j);
    CwndStays(r, j, q);
    if !Stuck(r, q, una) {
      j := q;
      return;
    }
    var m := Settles(r, q);
    CwndStays(r, q, m);
    GoodAt(r, q, m);
    if !Stuck(r, m, una) {
      j := m;
      return;
    }
    var f := FirstFlush(r, m);
    if !Stuck(r, f, una) {
      j := f;
      return;
    }
    var o := f;
    if r.at(f).a.st.rmtWnd == 0 {
      o := ProbeLeads(r, q, m, f, una);
    }
    j := o;
    if Stuck(r, o, una) {
      CwndStays(r, f, o);
      GoodAt(r, i, o);
      j := OpenLeads(r, q, m, o, una);
    }
  }

  lemma Settles(r: Trace, q: nat) returns (m: nat)
    requires IsFair(r)
    ensures q <= m && OnlyNew(r, q, m)
  {
    assert DieOut(r, q);
    hide IsFair, OnlyNew;
    m :| q <= m && OnlyNew(r, q, m);
  }

  // ---- the whole way ----

  lemma Acknowledged(r: Trace, i: nat) returns (j: nat)
    requires IsFair(r) && Good(r.at(i)) && r.at(i).a.una < |Offered(r.at(i).a)|
    ensures i <= j && r.at(j).a.una > r.at(i).a.una
  {
    hide IsFair, Good, Offered;
    j := WindowMoves(r, i);
    RunTrend(r, i, j);
    if r.at(j).a.una <= r.at(i).a.una {
      j := InFlightAdvances(r, j);
    }
  }

  lemma {:induction false} AllAcknowledged(r: Trace, i: nat) returns (j: nat)
    requires IsFair(r) && Good(r.at(i))
    ensures i <= j && Good(r.at(j)) && r.at(j).a.una == |Offered(r.at(j).a)|
    decreases |Offered(r.at(i).a)| - r.at(i).a.una
  {
    hide IsFair, Good, Offered;
    Progress.AllAcked(r.at(i));
    j := i;
    if r.at(i).a.una < |Offered(r.at(i).a)| {
      j := Acknowledged(r, i);
      GoodAt(r, i, j);
      Progress.AllAcked(r.at(j));
      j := AllAcknowledged(r, j);
    }
  }

  /** One direction: from some state on, everything is acknowledged and delivered. */
  lemma Completes(r: Trace, i: nat) returns (j: nat)
    requires IsFair(r) && Good(r.at(i))
    ensures i <= j && forall k: nat | j <= k :: Good(r.at(k)) && Progress.Complete(r.at(k).a, r.at(k).b)
  {
    hide IsFair, Good, Offered, RecvBuffer.PeekSize, Progress.Complete;
    var h := AllAcknowledged(r, i);
    j := ReadsOut(r, h);
    IsComplete(r, h, j);
    forall k: nat | j <= k ensures Good(r.at(k)) && Progress.Complete(r.at(k).a, r.at(k).b) {
      CompleteStays(r, j, k);
    }
  }

  lemma IsComplete(r: Trace, h: nat, j: nat)
    requires IsFair(r) && Good(r.at(h)) && h <= j && r.at(h).a.una == |Offered(r.at(h).a)|
    requires RecvBuffer.PeekSize(r.at(j).b.st.rcv.queue) < 0
    ensures Good(r.at(j)) && Progress.Complete(r.at(j).a, r.at(j).b)
  {
    hide IsFair, Good, Offered, RecvBuffer.PeekSize;
    RunTrend(r, h, j);
    Progress.AllAcked(r.at(j));
    Progress.ShortQueue(r.at(j));
    Progress.AckedIsDelivered(r.at(j));
  }

  lemma CompleteStays(r: Trace, j: nat, k: nat)
    requires IsFair(r) && Good(r.at(j)) && j <= k && Progress.Complete(r.at(j).a, r.at(j).b)
    ensures Good(r.at(k)) && Progress.Complete(r.at(k).a, r.at(k).b)
  {
    hide IsFair, Good, Offered;
    RunTrend(r, j, k);
    Progress.AllAcked(r.at(k));
    Progress.DeliveredIsOffered(r.at(k));
  }

  /** Everything that was offered in the state `s` has arrived in the state `t`: nothing
      is queued or in flight, and the applications have every message and every byte. */
  ghost predicate AllArrived(s: Sys, t: Sys) {
    && t.a.st.snd.queue == [] && t.a.st.snd.buf == [] && t.b.st.snd.queue == [] && t.b.st.snd.buf == []
    && Concat(t.b.got) == s.a.bytes && Concat(t.a.got) == s.b.bytes
    && (!s.a.st.cfg.stream ==> t.b.got == s.a.msgs)
    && (!s.b.st.cfg.stream ==> t.a.got == s.b.msgs)
  }

  /** Liveness: in every fair run from a reachable state in which fewer than 2^31 fragments
      were offered per direction, from some moment on everything has arrived. */
  lemma EveryFairRunDelivers(r: Trace) returns (k: nat)
    requires IsFair(r) && Reachable(r.at(0))
    requires |Offered(r.at(0).a)| < HALF && |Offered(r.at(0).b)| < HALF
    ensures forall j: nat | k <= j :: AllArrived(r.at(0), r.at(j))
  {
    ReachableAppInv(r.at(0));
    assert Good(r.at(0)) by { hide AppInv, Offered; }
    SwapFair(r);
    GoodSwap(r.at(0));
    hide IsFair, Good, Offered, Progress.Complete, AllArrived, Reachable;
    var t := SwapTrace(r);
    var x := Completes(r, 0);
    var y := Completes(t, 0);
    k := if x < y then y else x;
    forall j: nat | k <= j ensures AllArrived(r.at(0), r.at(j)) {
      assert Good(t.at(j)) && Progress.Complete(t.at(j).a, t.at(j).b);
      RunTrend(r, 0, j);
      Arrived(r.at(0), r.at(j));
    }
  }

  lemma Arrived(s: Sys, t: Sys)
    requires Good(s) && Trend(s, t) && Progress.Complete(t.a, t.b) && Progress.Complete(t.b, t.a)
    ensures AllArrived(s, t)
  {
    GoodSwap(s);
    GoodSwap(t);
    hide Good, Offered, Progress.Complete, Concat;
    Progress.CompleteMeans(t);
    Progress.CompleteMeans(Swap(t));
    Progress.BytesUnchanged(s, t);
    Progress.BytesUnchanged(Swap(s), Swap(t));
  }
}
