/** Continuations of a run of the two-endpoint system in which no datagram is lost
    and time does not run backwards, and what a flush and the delivery of all its
    datagrams are sure to do in them. */
module Continuations {
  import opened Serial
  import opened Wire
  import opened ControlBlock
  import opened Link
  import opened Endpoint
  import opened Network
  import opened Safety
  import opened Messages
  import Guarantees
  import Retransmission
  import EndpointInvariant
  import SendBuffer
  import RecvBuffer
  import Congestion
  import FlushClock

  /** Fewer than 2^31 fragments per direction, so that no delivery is too late. */
  ghost predicate Good(s: Sys) {
    AppInv(s) && |Offered(s.a)| < HALF && |Offered(s.b)| < HALF
  }

  /** A continuation sends nothing new. */
  ghost predicate NoSends(es: seq<Event>) {
    forall e | e in es :: !e.act.DoSend?
  }

  /** Nothing that was numbered, acknowledged or delivered is taken back. */
  ghost predicate NotBehind(n: Node, n': Node) {
    n.una <= n'.una && |n.sent| <= |n'.sent| && |n.delivered| <= |n'.delivered|
  }

  ghost predicate Steps(s: Sys, es: seq<Event>, t: Sys) {
    && NoSends(es) && Possible(s, es) && Run(s, es) == t
    && Good(t)
    && Offered(t.a) == Offered(s.a) && Offered(t.b) == Offered(s.b)
    && t.a.msgs == s.a.msgs && t.b.msgs == s.b.msgs
    && t.a.st.cfg == s.a.st.cfg && t.b.st.cfg == s.b.st.cfg
    && NotBehind(s.a, t.a) && NotBehind(s.b, t.b)
    && s.ab <= t.ab && s.ba <= t.ba
  }

  // ---- no losses, and time goes forward ----

  function Actor(s: Sys, e: Event): Node { if e.atA then s.a else s.b }

  /** What a step hands to the network. */
  ghost function Emitted(s: Sys, e: Event): seq<Datagram>
    requires Enabled(s, e)
  {
    match e.act
    case DoUpdate(now) => NodeUpdate(Actor(s, e), now).1
    case DoFlush => NodeFlush(Actor(s, e)).1
    case _ => []
  }

  /** Each datagram that the step hands to the network is delivered to the other side
      by one of the later steps, and the step does not turn its clock back. */
  ghost predicate Honest(s: Sys, e: Event, later: seq<Event>)
    requires Enabled(s, e)
  {
    && (forall d | d in Emitted(s, e) :: Event(!e.atA, Deliver(d)) in later)
    && (e.act.DoUpdate? ==> Diff(e.act.now, Actor(s, e).st.clock.current) >= 0)
  }

  /** Nothing sent in the run is lost, and time only moves forward. */
  ghost predicate Fair(s: Sys, es: seq<Event>)
    requires Possible(s, es)
    decreases |es|
  {
    es == [] || (Honest(s, es[0], es[1..]) && Fair(Next(s, es[0]), es[1..]))
  }

  ghost predicate Leads(s: Sys, es: seq<Event>, t: Sys) {
    Steps(s, es, t) && Fair(s, es)
  }

  lemma {:induction false} RunConcat(s: Sys, es: seq<Event>, fs: seq<Event>)
    requires Possible(s, es) && Possible(Run(s, es), fs)
    ensures Possible(s, es + fs) && Run(s, es + fs) == Run(Run(s, es), fs)
    decreases |es|
  {
    hide Next, Enabled;
    if es == [] {
      assert es + fs == fs;
    } else {
      assert (es + fs)[1..] == es[1..] + fs;
      RunConcat(Next(s, es[0]), es[1..], fs);
    }
  }

  lemma HonestWithMore(s: Sys, e: Event, later: seq<Event>, more: seq<Event>)
    requires Enabled(s, e) && Honest(s, e, later)
    ensures Honest(s, e, later + more)
  {
    hide Enabled, Emitted;
  }

  lemma FairCons(s: Sys, e: Event, later: seq<Event>)
    requires Enabled(s, e) && Possible(Next(s, e), later) && Honest(s, e, later) && Fair(Next(s, e), later)
    ensures Possible(s, [e] + later) && Run(s, [e] + later) == Run(Next(s, e), later) && Fair(s, [e] + later)
  {
    hide Next, Enabled, Honest;
    assert ([e] + later)[1..] == later;
  }

  lemma {:induction false} FairConcat(s: Sys, es: seq<Event>, fs: seq<Event>)
    requires Possible(s, es) && Possible(Run(s, es), fs) && Fair(s, es) && Fair(Run(s, es), fs)
    ensures Possible(s, es + fs) && Fair(s, es + fs)
    decreases |es|
  {
    hide Next, Enabled, Honest;
    if es == [] {
      assert es + fs == fs;
    } else {
      assert es + fs == [es[0]] + (es[1..] + fs);
      FairConcat(Next(s, es[0]), es[1..], fs);
      HonestWithMore(s, es[0], es[1..], fs);
      FairCons(s, es[0], es[1..] + fs);
    }
  }

  lemma HonestSwap(s: Sys, e: Event, later: seq<Event>)
    requires Enabled(s, e) && Honest(s, e, later)
    ensures Enabled(Swap(s), Guarantees.SwapEvent(e))
    ensures Honest(Swap(s), Guarantees.SwapEvent(e), Guarantees.SwapEvents(later))
    ensures Next(Swap(s), Guarantees.SwapEvent(e)) == Swap(Next(s, e))
  {
    hide StepAtA, EnabledAtA, NodeUpdate, NodeFlush;
    assert Swap(Swap(s)) == s;
    var e', later' := Guarantees.SwapEvent(e), Guarantees.SwapEvents(later);
    forall d | d in Emitted(Swap(s), e') ensures Event(!e'.atA, Deliver(d)) in later' {
      var i :| 0 <= i < |later| && later[i] == Event(!e.atA, Deliver(d));
      assert later'[i] == Guarantees.SwapEvent(later[i]);
    }
  }

  lemma {:induction false} FairSwap(s: Sys, es: seq<Event>)
    requires Possible(s, es) && Fair(s, es)
    ensures Possible(Swap(s), Guarantees.SwapEvents(es)) && Fair(Swap(s), Guarantees.SwapEvents(es))
    decreases |es|
  {
    Guarantees.SwapRun(s, es);
    hide Next, Enabled, Honest;
    if es != [] {
      assert Guarantees.SwapEvents(es)[1..] == Guarantees.SwapEvents(es[1..]);
      HonestSwap(s, es[0], es[1..]);
      FairSwap(Next(s, es[0]), es[1..]);
    }
  }

  lemma StepsTrans(s: Sys, es: seq<Event>, t: Sys, fs: seq<Event>, u: Sys)
    requires Steps(s, es, t) && Steps(t, fs, u)
    ensures Steps(s, es + fs, u)
  {
    hide Possible, Run, Good;
    RunConcat(s, es, fs);
  }

  lemma LeadsTrans(s: Sys, es: seq<Event>, t: Sys, fs: seq<Event>, u: Sys)
    requires Leads(s, es, t) && Leads(t, fs, u)
    ensures Leads(s, es + fs, u)
  {
    StepsTrans(s, es, t, fs, u);
    hide Possible, Run, Good, Fair;
    FairConcat(s, es, fs);
  }

  lemma LeadsRefl(s: Sys)
    requires Good(s)
    ensures Leads(s, [], s)
  {
    hide Good;
  }

  lemma SwapLeads(s: Sys, es: seq<Event>, t: Sys)
    requires Leads(s, es, t)
    ensures Leads(Swap(s), Guarantees.SwapEvents(es), Swap(t))
  {
    GoodSwap(t);
    hide Good, Possible, Run, Fair;
    Guarantees.SwapRun(s, es);
    FairSwap(s, es);
  }

  // ---- single steps ----

  ghost predicate Harmless(s: Sys, act: Action) {
    !act.DoSend? && (act.Deliver? ==> act.d in s.ba)
  }

  /** A step that hands nothing to the network. */
  predicate Quiet(act: Action) { !act.DoUpdate? && !act.DoFlush? }

  lemma QuietIsFair(s: Sys, e: Event)
    requires Enabled(s, e) && Quiet(e.act)
    ensures Possible(s, [e]) && Fair(s, [e])
  {
    OneStep(s, e);
    assert Fair(Next(s, e), []);
    assert [e][1..] == [];
    hide Next, Enabled;
  }

  lemma HarmlessIsEnabled(s: Sys, act: Action)
    requires Good(s) && Harmless(s, act)
    ensures EnabledAtA(s, act)
  {
    hide EndpointInvariant.Inv, HistoryInv, HandedOver, Linked;
    assert s.a.st.cfg.Valid() by { CfgOf(s.a.st); }
    if act.Deliver? {
      assert WireOk(s.a.st.cfg.conv, act.d);
    }
  }

  lemma RecvOffered(n: Node, len: int)
    ensures Offered(NodeRecv(n, len)) == Offered(n) && NodeRecv(n, len).msgs == n.msgs && NodeRecv(n, len).st.cfg == n.st.cfg
  {
    EndpointInvariant.RecvFields(n.st, len);
    hide Recv;
  }

  lemma StepNotBehind(s: Sys, act: Action)
    requires Good(s) && Harmless(s, act) && EnabledAtA(s, act)
    ensures NotBehind(s.a, StepAtA(s, act).a)
  {
    hide Good, EndpointInvariant.Inv, WireOk, NodeHear, NodeFlush;
    match act
    case DoRecv(len) =>
    case DoUpdate(now) => FlushNotBehind(AtTime(s.a, now));
    case DoFlush => FlushNotBehind(s.a);
    case Deliver(d) =>
      GoodHears(s, d);
      ListenAllNotBehind(Ear(s.a, false, 0), d);
      HearIsListen(s.a, d);
  }

  lemma FlushNotBehind(n: Node)
    requires |n.acks| == |n.st.rcv.acks|
    ensures NotBehind(n, NodeFlush(n).0)
  {
    hide Flush, FlushTags, Cut;
  }

  lemma {:induction false} ListenAllNotBehind(e: Ear, d: Datagram)
    ensures NotBehind(e.n, ListenAll(e, d).n)
    decreases |d|
  {
    hide HearSeg;
    if d != [] { ListenAllNotBehind(Listen(e, d[0]), d[1..]); }
  }

  lemma StepOffers(s: Sys, act: Action)
    requires Good(s) && Harmless(s, act) && EnabledAtA(s, act)
    ensures var t := StepAtA(s, act);
            Offered(t.a) == Offered(s.a) && t.a.msgs == s.a.msgs && t.a.st.cfg == s.a.st.cfg && NotBehind(s.a, t.a)
  {
    StepNotBehind(s, act);
    assert act.Deliver? ==> EndpointInvariant.Inv(s.a.st) && WireOk(s.a.st.cfg.conv, act.d);
    hide AppInv, SysInv, NodeRecv, NodeUpdate, NodeFlush, NodeHear, EndpointInvariant.Inv, WireOk, Offered, Good, NotBehind;
    match act
    case DoRecv(len) => RecvOffered(s.a, len);
    case DoUpdate(now) => UpdateKeepsApp(s.a, now);
    case DoFlush => FlushKeepsApp(s.a);
    case Deliver(d) => HearKeepsApp(s.a, d);
  }

  lemma StaysPut(n: Node)
    ensures NotBehind(n, n)
  {
  }

  lemma StepSides(s: Sys, act: Action)
    requires EnabledAtA(s, act)
    ensures StepAtA(s, act).b == s.b && s.ab <= StepAtA(s, act).ab && StepAtA(s, act).ba == s.ba
  {
    hide NodeSend, NodeRecv, NodeUpdate, NodeFlush, NodeHear;
  }

  /** Any step but a send leaves the state good and the offers as they were. */
  lemma StepAtALeads(s: Sys, act: Action)
    requires Good(s) && Harmless(s, act)
    ensures EnabledAtA(s, act)
    ensures Steps(s, [Event(true, act)], StepAtA(s, act))
    ensures Quiet(act) ==> Leads(s, [Event(true, act)], StepAtA(s, act))
    ensures StepAtA(s, act).b == s.b && s.ab <= StepAtA(s, act).ab && StepAtA(s, act).ba == s.ba
  {
    hide AppInv, StepAtA, EnabledAtA, Offered, NotBehind;
    HarmlessIsEnabled(s, act);
    StepKeepsAppInv(s, act);
    StepOffers(s, act);
    StepSides(s, act);
    StaysPut(s.b);
    OneStep(s, Event(true, act));
    if Quiet(act) { QuietIsFair(s, Event(true, act)); }
  }

  lemma OneStep(s: Sys, e: Event)
    requires Enabled(s, e)
    ensures Possible(s, [e]) && Run(s, [e]) == Next(s, e)
  {
    hide Next, Enabled;
    assert [e][1..] == [];
    assert Possible(Next(s, e), []);
    assert Run(Next(s, e), []) == Next(s, e);
  }

  lemma GoodSwap(s: Sys)
    ensures Good(s) <==> Good(Swap(s))
  {
    SwapAppInv(s);
    hide AppInv;
  }

  /** The same step at `b`. */
  lemma StepAtBLeads(s: Sys, act: Action)
    requires Good(s) && Harmless(Swap(s), act)
    ensures EnabledAtA(Swap(s), act)
    ensures Steps(s, [Event(false, act)], Swap(StepAtA(Swap(s), act)))
    ensures Quiet(act) ==> Leads(s, [Event(false, act)], Swap(StepAtA(Swap(s), act)))
    ensures StepAtA(Swap(s), act).b == s.a && s.ba <= StepAtA(Swap(s), act).ab && StepAtA(Swap(s), act).ba == s.ab
  {
    GoodSwap(s);
    StepAtALeads(Swap(s), act);
    GoodSwap(StepAtA(Swap(s), act));
    hide Good, StepAtA, EnabledAtA, Offered;
    OneStep(s, Event(false, act));
    if Quiet(act) { QuietIsFair(s, Event(false, act)); }
  }

  // ---- what a flush is sure to do ----

  /** A deadline that one step forward can reach: not too close to the antipode. */
  predicate Near(deadline: u32, current: u32) {
    Sub32(deadline, current) <= HALF - 20001 || Sub32(deadline, current) >= HALF + 20001
  }

  /** A time, not before the present, at which an update flushes. A given deadline has
      passed by then, or one step reaches it from there. */
  lemma PickTime(c: Clock, interval: u32, deadline: u32) returns (now: u32)
    ensures Diff(now, c.current) >= 0 && FlushClock.Tick(c, now, interval).1
    ensures Diff(now, deadline) >= 0 || (Near(deadline, now) && !Near(deadline, c.current))
  {
    var x := Sub32(deadline, c.current);
    now := if x <= HALF - 20001 then deadline else if x >= HALF + 20001 then c.current else Add32(c.current, 0x4000_0000);
    if !FlushClock.Tick(c, now, interval).1 {
      now := Add32(now, 20000);
    }
  }

  /** The node whose flush an update at `now` performs. */
  function AtTime(n: Node, now: u32): Node {
    n.(st := n.st.(clock := FlushClock.Tick(n.st.clock, now, n.st.cfg.interval).0))
  }

  lemma AcksAtTime(n: Node, now: u32)
    ensures var m := AtTime(n, now);
            && m.acks == n.acks && m.una == n.una && m.nxt == n.nxt && m.sent == n.sent && m.delivered == n.delivered
            && m.st == n.st.(clock := m.st.clock)
  {
  }

  lemma AtTimeInv(n: Node, now: u32)
    requires NodeInv(n)
    ensures NodeInv(AtTime(n, now))
    ensures AtTime(n, now).st.clock.updated && AtTime(n, now).st.clock.current == now
  {
    FlushClock.TickUpdates(n.st.clock, now, n.st.cfg.interval);
    hide SendBuffer.Inv, RecvBuffer.Inv, FlushClock.Tick, TxInv, RxInv;
    assert TxInv(TxOf(AtTime(n, now)), n.st.cfg.Mss()) && RxInv(RxOf(AtTime(n, now)), n.st.cfg.rcvWnd);
  }

  /** What a flush of `m` is sure to do: every segment it owes is in a datagram, and
      the congestion window is open afterwards. */
  ghost predicate FlushEffect(m: Node, n': Node, ds: seq<Datagram>)
    requires |m.acks| == |m.st.rcv.acks|
  {
    && (forall t | t in FlushTags(m) :: exists d :: d in ds && t in d)
    && (forall d, t | d in ds && t in d :: t in FlushTags(m))
    && n'.una == m.una && n'.nxt == m.nxt && n'.delivered == m.delivered && n'.got == m.got
    && |n'.sent| == |m.sent| + Admitted(m.st)
    && n'.st.rcv == m.st.rcv.(acks := [])
    && n'.st.cfg == m.st.cfg && n'.st.rmtWnd == m.st.rmtWnd && n'.st.clock == m.st.clock
    && n'.st.snd == FlushedTx(m).snd
    && n'.st.cong.cwnd >= 1
    && (m.st.rmtWnd == 0 ==> n'.st.probe.wait != 0)
    && (m.st.rmtWnd == 0 && m.st.probe.wait != 0 && Diff(m.st.clock.current, m.st.probe.ts) < 0 ==> n'.st.probe.ts == m.st.probe.ts)
  }

  lemma FlushHasEffect(m: Node)
    requires NodeInv(m) && m.st.clock.updated
    ensures FlushEffect(m, NodeFlush(m).0, NodeFlush(m).1)
  {
    FlushedDatagrams(m);
    FlushFields(m);
    EndpointInvariant.AfterFlushKeepsInv(m.st);
    FlushHistory(m);
    AfterFlushFields(m.st);
    hide NodeInv, FlushTags, EndpointInvariant.Inv, Number, FlushedBuf, Congestion.OnFlush, FlushedTx, NodeFlush, WireOk, AfterFlush;
  }

  lemma AfterFlushFields(s: State)
    requires s.probe.wait <= PROBE_LIMIT
    ensures var s' := AfterFlush(s);
            && s'.rcv == s.rcv.(acks := []) && s'.cfg == s.cfg && s'.rmtWnd == s.rmtWnd && s'.clock == s.clock
            && (s.rmtWnd == 0 ==> s'.probe.wait != 0)
            && (s.rmtWnd == 0 && s.probe.wait != 0 && Diff(s.clock.current, s.probe.ts) < 0 ==> s'.probe.ts == s.probe.ts)
  {
    hide Number, FlushedBuf, Congestion.OnFlush;
  }

  /** An update at a flushing time is a flush. */
  lemma UpdateFlushes(n: Node, now: u32)
    requires NodeInv(n) && FlushClock.Tick(n.st.clock, now, n.st.cfg.interval).1
    ensures NodeInv(AtTime(n, now)) && AtTime(n, now).st.clock.updated && AtTime(n, now).st.clock.current == now
    ensures NodeUpdate(n, now) == NodeFlush(AtTime(n, now))
  {
    hide NodeInv, FlushClock.Tick, NodeFlush;
    AtTimeInv(n, now);
  }

  lemma FlushHistory(n: Node)
    requires |n.acks| == |n.st.rcv.acks|
    ensures var n' := NodeFlush(n).0;
            && n'.una == n.una && n'.nxt == n.nxt && n'.delivered == n.delivered && n'.got == n.got
            && (n.st.clock.updated ==> |n'.sent| == |n.sent| + Admitted(n.st))
  {
    hide Flush, FlushTags, Cut;
  }

  /** How many segments are in flight after the flush. */
  lemma FlushedCount(n: Node)
    ensures |FlushedTx(n).snd.buf| == |n.st.snd.buf| + Admitted(n.st)
    ensures FlushedTx(n).snd.queue == n.st.snd.queue[Admitted(n.st)..]
  {
  }

  lemma {:induction false} DueIsSent(n: Node, buf: seq<SndSeg>, g: SndSeg)
    requires g in buf && Retransmission.Due(g, EnvOf(n.st))
    ensures Tag(PushItem(n.st, g), SndNo(TxOf(n), g.sn), n.nxt) in DataTags(n, buf)
  {
    hide Retransmission.Due, EnvOf, PushItem, SndNo;
    var last := buf[|buf| - 1];
    if g != last {
      assert g in buf[..|buf| - 1];
      DueIsSent(n, buf[..|buf| - 1], g);
    }
  }

  /** The oldest segment in flight is first in the buffer of the flush. */
  lemma HeadOf(m: Node)
    requires NodeInv(m) && m.st.snd.buf != []
    ensures var buf, g := Number(m.st).buf, m.st.snd.buf[0];
            && buf != [] && buf[0] == g && g.sn == m.st.snd.una
            && FlushedTx(m).snd.buf != []
            && FlushedTx(m).snd.buf[0] == Retransmission.Flushed(g, EnvOf(m.st))
    ensures |m.acks| == |m.st.rcv.acks|
  {
    hide Retransmission.Flushed, EnvOf;
  }

  /** A flush of `m` sends it (again) if it is due ... */
  lemma HeadIsSent(m: Node) returns (d: Datagram, t: Tag)
    requires NodeInv(m) && m.st.clock.updated
    requires m.st.snd.buf != [] && Retransmission.Due(m.st.snd.buf[0], EnvOf(m.st))
    ensures d in NodeFlush(m).1 && t in d && t.w.cmd == CMD_PUSH && t.sn == m.una
  {
    hide NodeFlush, Number, Retransmission.Due, EnvOf, NodeInv, AckTags, ProbeTags, DataTags, FlushedTx;
    var g := m.st.snd.buf[0];
    HeadOf(m);
    FlushHasEffect(m);
    DueIsSent(m, Number(m.st).buf, g);
    t := Tag(PushItem(m.st, g), SndNo(TxOf(m), g.sn), m.nxt);
    assert t in FlushTags(m);
    d :| d in NodeFlush(m).1 && t in d;
  }

  /** ... as it is once its deadline has passed, and leaves it as it was if it is not. */
  lemma HeadStays(m: Node)
    requires NodeInv(m) && m.st.clock.updated
    requires m.st.snd.buf != [] && !Retransmission.Due(m.st.snd.buf[0], EnvOf(m.st))
    ensures NodeFlush(m).0.st.snd.buf != [] && NodeFlush(m).0.st.snd.buf[0] == m.st.snd.buf[0]
    ensures NodeFlush(m).0.st.clock.current == m.st.clock.current
    ensures Diff(m.st.clock.current, m.st.snd.buf[0].resendts) < 0
  {
    HeadOf(m);
    hide Number;
    FlushHasEffect(m);
    hide NodeInv, NodeFlush;
  }

  /** Every pending acknowledgement is sent. */
  lemma AckIsSent(m: Node, no: nat) returns (d: Datagram, t: Tag)
    requires NodeInv(m) && m.st.clock.updated && no in m.acks
    ensures d in NodeFlush(m).1 && t in d && t.w.cmd == CMD_ACK && t.sn == no
  {
    FlushHasEffect(m);
    var i :| 0 <= i < |m.acks| && m.acks[i] == no;
    t := AckTags(m)[i];
    assert t.w == AckItems(m.st)[i] == Outgoing(m.st, CMD_ACK, 0, m.st.rcv.acks[i].ts, m.st.rcv.acks[i].sn, []);
    assert t in AckTags(m);
    hide NodeFlush, NodeInv;
    assert t in FlushTags(m);
    d :| d in NodeFlush(m).1 && t in d;
  }

  /** A zero remote window is probed once the probe timer has run out. */
  lemma AskIsSent(m: Node) returns (d: Datagram, t: Tag)
    requires NodeInv(m) && m.st.clock.updated
    requires m.st.rmtWnd == 0 && m.st.probe.wait != 0 && Diff(m.st.clock.current, m.st.probe.ts) >= 0
    ensures d in NodeFlush(m).1 && t in d && t.w.cmd == CMD_WASK
  {
    FlushHasEffect(m);
    assert ProbeTimer(m.st.probe, m.st.rmtWnd, m.st.clock.current).ask;
    t := ProbeTags(m)[0];
    assert t.w == ProbeItems(m.st)[0] && t.w.cmd == CMD_WASK;
    hide NodeFlush, NodeInv;
    assert t in FlushTags(m);
    d :| d in NodeFlush(m).1 && t in d;
  }

  /** A window announcement that was asked for is sent, and every segment of the
      flush announces the same. */
  lemma TellIsSent(m: Node)
    requires NodeInv(m) && m.st.clock.updated
    ensures m.st.probe.tell ==> NodeFlush(m).1 != []
    ensures forall d, u | d in NodeFlush(m).1 && u in d :: u.w.wnd == Unused(m.st)
  {
    hide NodeFlush, Unused, FlushTags, EndpointInvariant.Inv, TxInv, FlushedTx;
    FlushHasEffect(m);
    UnusedFits(m);
    if m.st.probe.tell {
      var t := TellTag(m);
      var d :| d in NodeFlush(m).1 && t in d;
    }
    forall d, u | d in NodeFlush(m).1 && u in d ensures u.w.wnd == Unused(m.st) {
      assert u in FlushTags(m);
      TagWnd(m, u);
    }
  }

  lemma UnusedFits(n: Node)
    requires EndpointInvariant.Inv(n.st)
    ensures Unused(n.st) <= MAX_WND
  {
  }

  lemma UnusedAtTime(n: Node, now: u32)
    ensures Unused(AtTime(n, now).st) == Unused(n.st)
  {
  }

  lemma TellTag(n: Node) returns (t: Tag)
    requires |n.acks| == |n.st.rcv.acks| && n.st.probe.tell
    ensures t in FlushTags(n)
  {
    hide AckTags, DataTags, ProbeTimer, Number;
    t := ProbeTags(n)[|ProbeItems(n.st)| - 1];
    assert t in ProbeTags(n);
  }

  lemma AckTagWnd(n: Node, t: Tag)
    requires |n.acks| == |n.st.rcv.acks| && t in AckTags(n)
    ensures t.w.wnd == Unused(n.st) % 0x1_0000
  {
    var i :| 0 <= i < |n.acks| && t == AckTags(n)[i];
    hide Unused;
    assert t.w == AckItems(n.st)[i] == Outgoing(n.st, CMD_ACK, 0, n.st.rcv.acks[i].ts, n.st.rcv.acks[i].sn, []);
  }

  lemma ProbeTagWnd(n: Node, t: Tag)
    requires t in ProbeTags(n)
    ensures t.w.wnd == Unused(n.st) % 0x1_0000
  {
    hide Unused, ProbeTimer;
    var i :| 0 <= i < |ProbeTags(n)| && t == ProbeTags(n)[i];
  }

  lemma DataTagWnd(n: Node, buf: seq<SndSeg>, t: Tag)
    requires t in DataTags(n, buf)
    ensures t.w.wnd == Unused(n.st) % 0x1_0000
  {
    DataTagsOf(n, buf);
    hide Unused, DataTags;
    var g :| g in buf && t == Tag(PushItem(n.st, g), SndNo(TxOf(n), g.sn), n.nxt);
  }

  /** All segments of a flush announce the same window. */
  lemma TagWnd(n: Node, t: Tag)
    requires |n.acks| == |n.st.rcv.acks| && t in FlushTags(n)
    ensures t.w.wnd == Unused(n.st) % 0x1_0000
  {
    hide AckTags, ProbeTags, DataTags, Number, Unused;
    if t in AckTags(n) {
      AckTagWnd(n, t);
    } else if t in ProbeTags(n) {
      ProbeTagWnd(n, t);
    } else {
      DataTagWnd(n, Number(n.st).buf, t);
    }
  }

  // ---- what hearing a datagram is sure to do ----

  /** `e.n` reads a datagram of `b`, a recent one. */
  ghost predicate Hears(e: Ear, b: Node, ab: set<Datagram>, ba: set<Datagram>, d: Datagram) {
    && NodeInv(e.n) && TxInv(TxOf(b), b.st.cfg.Mss())
    && LinkedNodes(e.n, b, ab, ba) && LinkedNodes(b, e.n, ba, ab)
    && (forall t | t in d :: AckOk(RxOf(b), t) && PushOk(b.sent, t))
    && Recent(e.n, b, d)
  }

  lemma HearsNext(e: Ear, b: Node, ab: set<Datagram>, ba: set<Datagram>, d: Datagram)
    requires Hears(e, b, ab, ba, d) && d != []
    ensures Hears(Listen(e, d[0]), b, ab, ba, d[1..])
  {
    hide NodeInv, TxInv, LinkedNodes, AckOk, PushOk, Listen;
    assert d[0] in d && forall t | t in d[1..] :: t in d;
    ListenKeepsLinks(e, b, ab, ba, d[0]);
  }

  lemma GoodHears(s: Sys, d: Datagram)
    requires Good(s) && d in s.ba
    ensures Hears(Ear(s.a, false, 0), s.b, s.ab, s.ba, d)
    ensures EndpointInvariant.Inv(s.a.st) && WireOk(s.a.st.cfg.conv, d)
  {
    hide EndpointInvariant.Inv, HistoryInv, HandedOver, TxInv, RxInv;
    forall t | t in d ensures AckOk(RxOf(s.b), t) && PushOk(s.b.sent, t) {}
    assert |s.a.sent| < HALF && |s.b.sent| < HALF;
  }

  /** The acknowledgement of the oldest segment moves `snd_una` past it. */
  lemma AckAdvancesOne(e: Ear, b: Node, ab: set<Datagram>, ba: set<Datagram>, d: Datagram)
    requires Hears(e, b, ab, ba, d) && d != [] && d[0].w.cmd == CMD_ACK && d[0].sn <= e.n.una
    ensures Listen(e, d[0]).n.una > d[0].sn
  {
    var t, tx, rx := d[0], TxOf(e.n), RxOf(b);
    assert t in d;
    ListenSplits(e, t);
    var mss := e.n.st.cfg.Mss();
    hide Linked, EndpointInvariant.Inv, Listen;
    HearUnaKeepsLink(tx, rx, ab, ba, t, mss);
    var tx1 := TxHearUna(tx, t.w.una);
    TxHearUnaSent(tx, t.w.una);
    assert RxInv(RxOf(e.n), e.n.st.cfg.rcvWnd);
    hide TxInv, RxInv, TxHearUna;
    HearAckKeepsLink(tx1, rx, ab, ba, t, mss);
    var tx2 := TxHearAck(tx1, t.w.sn);
    AcceptedIsSent(tx1, rx, ab, ba, t.sn);
    OldestIsInBuf(tx2, mss);
    assert tx2.sent == tx1.sent;
  }

  lemma AcceptedIsSent(tx: Tx, rx: Rx, fwd: set<Datagram>, bwd: set<Datagram>, no: nat)
    requires Linked(tx, rx, fwd, bwd) && Accepted(rx, no)
    ensures no < |tx.sent|
  {
  }

  lemma OldestIsInBuf(tx: Tx, mss: u32)
    requires TxInv(tx, mss)
    ensures tx.una == |tx.sent| || InBuf(tx, tx.una)
    ensures tx.una == |tx.sent| ==> tx.snd.buf == []
    ensures tx.snd.buf == [] ==> tx.una == |tx.sent|
  {
    if tx.snd.buf != [] {
      var g := tx.snd.buf[0];
      assert g in tx.snd.buf && SndNo(tx, g.sn) == tx.una;
    }
  }

  lemma {:induction false} AckAdvances(e: Ear, b: Node, ab: set<Datagram>, ba: set<Datagram>, d: Datagram, t: Tag)
    requires Hears(e, b, ab, ba, d) && t in d && t.w.cmd == CMD_ACK && t.sn <= e.n.una
    ensures ListenAll(e, d).n.una > t.sn
    decreases |d|
  {
    HearsNext(e, b, ab, ba, d);
    ListenAllNotBehind(Listen(e, d[0]), d[1..]);
    if d[0] == t {
      AckAdvancesOne(e, b, ab, ba, d);
    } else {
      hide Hears;
      assert e.n.una <= Listen(e, d[0]).n.una;
      assert t in d[1..];
      AckAdvances(Listen(e, d[0]), b, ab, ba, d[1..], t);
    }
  }

  /** A data segment inside the window is acknowledged. */
  lemma PushAckedOne(e: Ear, b: Node, ab: set<Datagram>, ba: set<Datagram>, d: Datagram)
    requires Hears(e, b, ab, ba, d) && d != [] && d[0].w.cmd == CMD_PUSH
    requires |b.sent| + e.n.st.cfg.rcvWnd - HALF <= d[0].sn < e.n.nxt + e.n.st.cfg.rcvWnd
    ensures d[0].sn in Listen(e, d[0]).n.acks
  {
    var t, wnd := d[0], e.n.st.cfg.rcvWnd;
    assert t in d;
    ListenSplits(e, t);
    assert RecvBuffer.Inv(e.n.st.rcv, wnd);
    assert e.n.nxt <= |b.sent|;
    hide Linked, EndpointInvariant.Inv, TxInv, RxInv, RxHearPush, Listen;
    HearPushKeepsLink(TxOf(b), RxOf(e.n), ba, ab, t, b.st.cfg.Mss(), wnd);
  }

  lemma {:induction false} PushAcked(e: Ear, b: Node, ab: set<Datagram>, ba: set<Datagram>, d: Datagram, t: Tag)
    requires Hears(e, b, ab, ba, d) && t in d && t.w.cmd == CMD_PUSH
    requires |b.sent| + e.n.st.cfg.rcvWnd - HALF <= t.sn < e.n.nxt + e.n.st.cfg.rcvWnd
    ensures t.sn in ListenAll(e, d).n.acks
    decreases |d|
  {
    HearsNext(e, b, ab, ba, d);
    if d[0] == t {
      PushAckedOne(e, b, ab, ba, d);
      AcksGrow(Listen(e, d[0]), d[1..], t.sn);
    } else {
      hide Hears;
      assert t in d[1..];
      assert Listen(e, d[0]).n.st.cfg == e.n.st.cfg && e.n.nxt <= Listen(e, d[0]).n.nxt;
      PushAcked(Listen(e, d[0]), b, ab, ba, d[1..], t);
    }
  }

  lemma {:induction false} AcksGrow(e: Ear, d: Datagram, no: nat)
    requires no in e.n.acks
    ensures no in ListenAll(e, d).n.acks
    decreases |d|
  {
    hide HearSeg;
    if d != [] { AcksGrow(Listen(e, d[0]), d[1..], no); }
  }

  /** A window probe makes the endpoint owe an announcement, which no other segment
      clears. */
  lemma {:induction false} AskTells(e: Ear, d: Datagram)
    requires e.n.st.probe.tell || exists t :: t in d && t.w.cmd == CMD_WASK
    ensures ListenAll(e, d).n.st.probe.tell
    decreases |d|
  {
    if d != [] {
      if !(e.n.st.probe.tell || d[0].w.cmd == CMD_WASK) {
        var t :| t in d && t.w.cmd == CMD_WASK;
        assert t in d[1..];
      }
      AskTells(Listen(e, d[0]), d[1..]);
    }
  }

  /** The window is one that was announced. */
  lemma {:induction false} WindowHeard(e: Ear, d: Datagram)
    ensures d != [] ==> exists p :: p in d && ListenAll(e, d).n.st.rmtWnd == p.w.wnd
    ensures d == [] ==> ListenAll(e, d) == e
    decreases |d|
  {
    if d != [] {
      WindowHeard(Listen(e, d[0]), d[1..]);
      assert Listen(e, d[0]).n.st.rmtWnd == d[0].w.wnd && d[0] in d;
      hide Listen;
      assert forall p | p in d[1..] :: p in d;
    }
  }

  /** A full queue takes nothing, and the next number expected stays. */
  lemma {:induction false} FullStays(e: Ear, d: Datagram)
    requires |e.n.st.rcv.queue| >= e.n.st.cfg.rcvWnd
    ensures var n := ListenAll(e, d).n; n.nxt == e.n.nxt && n.st.rcv.queue == e.n.st.rcv.queue && n.st.cfg == e.n.st.cfg
    decreases |d|
  {
    if d != [] {
      FullStaysOne(e, d[0]);
      hide Listen;
      FullStays(Listen(e, d[0]), d[1..]);
    }
  }

  lemma FullStaysOne(e: Ear, t: Tag)
    requires |e.n.st.rcv.queue| >= e.n.st.cfg.rcvWnd
    ensures var n := Listen(e, t).n; n.nxt == e.n.nxt && n.st.rcv.queue == e.n.st.rcv.queue && n.st.cfg == e.n.st.cfg
  {
    hide SendBuffer.HearUna, SendBuffer.HearAck, RecvBuffer.Insert;
  }

  /** The cumulative acknowledgement of every segment is heard. */
  lemma {:induction false} UnaHeard(e: Ear, b: Node, ab: set<Datagram>, ba: set<Datagram>, d: Datagram, t: Tag)
    requires Hears(e, b, ab, ba, d) && t in d
    ensures ListenAll(e, d).n.una >= t.una
    decreases |d|
  {
    HearsNext(e, b, ab, ba, d);
    ListenAllNotBehind(Listen(e, d[0]), d[1..]);
    if d[0] == t {
      UnaHeardOne(e, b, ab, ba, d);
    } else {
      hide Hears;
      assert t in d[1..];
      UnaHeard(Listen(e, d[0]), b, ab, ba, d[1..], t);
    }
  }

  lemma UnaHeardOne(e: Ear, b: Node, ab: set<Datagram>, ba: set<Datagram>, d: Datagram)
    requires Hears(e, b, ab, ba, d) && d != []
    ensures Listen(e, d[0]).n.una >= d[0].una
  {
    var t, tx, rx := d[0], TxOf(e.n), RxOf(b);
    assert t in d;
    ListenSplits(e, t);
    var mss := e.n.st.cfg.Mss();
    hide Linked, EndpointInvariant.Inv, Listen;
    HearUnaKeepsLink(tx, rx, ab, ba, t, mss);
    var tx1 := TxHearUna(tx, t.w.una);
    TxHearUnaSent(tx, t.w.una);
    hide TxInv, RxInv, TxHearUna;
    if t.w.cmd == CMD_ACK {
      HearAckKeepsLink(tx1, rx, ab, ba, t, mss);
    }
  }

  /** Hearing touches neither the flush clock nor the congestion window, before the
      final step, and an empty send buffer stays empty. */
  lemma {:induction false} ListenAllFields(e: Ear, d: Datagram)
    ensures var s := ListenAll(e, d).n.st;
            s.cong == e.n.st.cong && s.clock == e.n.st.clock && (e.n.st.snd.buf == [] ==> s.snd.buf == [])
    decreases |d|
  {
    if d != [] { ListenAllFields(Listen(e, d[0]), d[1..]); }
  }

  lemma HearFields(n: Node, d: Datagram)
    requires EndpointInvariant.Inv(n.st) && WireOk(n.st.cfg.conv, d)
    requires Congestion.Inv(ListenAll(Ear(n, false, 0), d).n.st.cong, n.st.cfg.Mss())
    requires ListenAll(Ear(n, false, 0), d).n.st.rmtWnd <= MAX_WND
    ensures var (n', e) := (NodeHear(n, d), ListenAll(Ear(n, false, 0), d));
            && n'.una == e.n.una && n'.acks == e.n.acks && n'.nxt == e.n.nxt && n'.delivered == e.n.delivered
            && n'.st.rcv == e.n.st.rcv && n'.st.probe == e.n.st.probe && n'.st.rmtWnd == e.n.st.rmtWnd
            && n'.st.snd.queue == e.n.st.snd.queue && n'.st.clock == e.n.st.clock
            && (e.n.st.snd.buf == [] ==> n'.st.snd.buf == [])
            && n'.st.cong.cwnd >= e.n.st.cong.cwnd
  {
    HearIsListen(n, d);
    var e := ListenAll(Ear(n, false, 0), d);
    assert n.st.cfg.Valid() by { CfgOf(n.st); }
    hide NodeHear, EndpointInvariant.Inv, ListenAll, WireOk;
    FinishFields(Hearing(e.n.st, e.flag, e.maxack), n.st.snd.una);
    Congestion.OnAckKeepsInv(e.n.st.cong, n.st.cfg.Mss(), e.n.st.rmtWnd);
  }

  lemma GoodHearFields(s: Sys, d: Datagram)
    requires Good(s) && d in s.ba
    ensures WireOk(s.a.st.cfg.conv, d) && s.a.st.cfg.Mss() > 0
    ensures var (n', e) := (NodeHear(s.a, d), ListenAll(Ear(s.a, false, 0), d));
            && n'.una == e.n.una && n'.acks == e.n.acks && n'.nxt == e.n.nxt && n'.delivered == e.n.delivered
            && n'.st.rcv == e.n.st.rcv && n'.st.probe == e.n.st.probe && n'.st.rmtWnd == e.n.st.rmtWnd
            && n'.st.snd.queue == s.a.st.snd.queue && n'.st.clock == s.a.st.clock
            && (s.a.st.snd.buf == [] ==> n'.st.snd.buf == [])
            && n'.st.cong.cwnd >= s.a.st.cong.cwnd
  {
    var e0 := Ear(s.a, false, 0);
    GoodHears(s, d);
    hide Good, NodeHear, WireOk, ListenAll;
    ListenAllKeepsLinks(e0, s.b, s.ab, s.ba, d);
    ListenAllKeepsApp(e0, d);
    ListenAllFields(e0, d);
    HearFields(s.a, d) by { hide LinkedNodes; }
  }


  // ---- delivering everything that a flush sent ----

  /** What hearing datagrams of `peer`, one after the other, is sure to do to a node. */
  ghost predicate Heard(peer: Node, n: Node, n': Node, ds: seq<Datagram>) {
    var wnd := n.st.cfg.rcvWnd;
    && n'.st.cfg == n.st.cfg && n.una <= n'.una && n.nxt <= n'.nxt && n'.delivered == n.delivered
    && (forall no | no in n.acks :: no in n'.acks)
    && (forall d, p | d in ds && p in d :: n'.una >= p.una && HeardSegment(peer, n, n', p))
    && (n.st.probe.tell ==> n'.st.probe.tell)
    && (if ds == [] then n'.st.rmtWnd == n.st.rmtWnd else exists d, p :: d in ds && p in d && n'.st.rmtWnd == p.w.wnd)
    && n'.st.snd.queue == n.st.snd.queue && (n.st.snd.buf == [] ==> n'.st.snd.buf == [])
    && n'.st.cong.cwnd >= n.st.cong.cwnd
    && (|n.st.rcv.queue| >= wnd ==> n'.nxt == n.nxt && n'.st.rcv.queue == n.st.rcv.queue)
  }

  /** A segment within the window gets acknowledged, an acknowledgement of the oldest
      segment moves `snd_una` past it, and a probe makes the node owe an announcement. */
  ghost predicate HeardSegment(peer: Node, n: Node, n': Node, p: Tag) {
    && (p.w.cmd == CMD_PUSH && |peer.sent| + n.st.cfg.rcvWnd - HALF <= p.sn < n.nxt + n.st.cfg.rcvWnd ==> p.sn in n'.acks)
    && (p.w.cmd == CMD_ACK && p.sn <= n.una ==> n'.una > p.sn)
    && (p.w.cmd == CMD_WASK ==> n'.st.probe.tell)
  }

  lemma HeardNone(peer: Node, n: Node)
    ensures Heard(peer, n, n, [])
  {
  }

  lemma HeardMore(peer: Node, n: Node, n1: Node, n2: Node, d: Datagram, ds: seq<Datagram>)
    requires Heard(peer, n, n1, [d]) && Heard(peer, n1, n2, ds)
    ensures Heard(peer, n, n2, [d] + ds)
  {
    assert forall c :: c in [d] + ds <==> c == d || c in ds;
    assert d in [d];
  }

  lemma HeardTags(s: Sys, d: Datagram)
    requires Good(s) && d in s.ba
    ensures var n' := ListenAll(Ear(s.a, false, 0), d).n;
            forall p | p in d :: n'.una >= p.una && HeardSegment(s.b, s.a, n', p)
  {
    var e := Ear(s.a, false, 0);
    GoodHears(s, d);
    hide Good, Hears, ListenAll, EndpointInvariant.Inv, WireOk;
    forall p | p in d ensures ListenAll(e, d).n.una >= p.una && HeardSegment(s.b, s.a, ListenAll(e, d).n, p) {
      UnaHeard(e, s.b, s.ab, s.ba, d, p);
      if p.w.cmd == CMD_PUSH && |s.b.sent| + s.a.st.cfg.rcvWnd - HALF <= p.sn < s.a.nxt + s.a.st.cfg.rcvWnd {
        PushAcked(e, s.b, s.ab, s.ba, d, p);
      }
      if p.w.cmd == CMD_ACK && p.sn <= s.a.una {
        AckAdvances(e, s.b, s.ab, s.ba, d, p);
      }
      if p.w.cmd == CMD_WASK {
        AskTells(e, d);
      }
    }
  }

  lemma HeardOne(s: Sys, d: Datagram)
    requires Good(s) && d in s.ba
    ensures s.a.st.cfg.Mss() > 0 && WireOk(s.a.st.cfg.conv, d)
    ensures Heard(s.b, s.a, NodeHear(s.a, d), [d])
  {
    hide Good, Hears, ListenAll, NodeHear, HeardSegment, EndpointInvariant.Inv;
    var e := Ear(s.a, false, 0);
    GoodHears(s, d);
    GoodHearFields(s, d);
    HeardTags(s, d);
    WindowHeard(e, d);
    ListenAllNotBehind(e, d);
    forall no | no in s.a.acks ensures no in ListenAll(e, d).n.acks { AcksGrow(e, d, no); }
    if |s.a.st.rcv.queue| >= s.a.st.cfg.rcvWnd { FullStays(e, d); }
    if s.a.st.probe.tell { AskTells(e, d); }
    NextNotBehind(e, d);
    ListenAllKeepsApp(e, d);
    HearCfg(s.a, d);
    SegmentsHeard(s.b, s.a, ListenAll(e, d).n, NodeHear(s.a, d), d);
  }

  lemma SegmentsHeard(peer: Node, n: Node, m: Node, n': Node, d: Datagram)
    requires n'.una == m.una && n'.acks == m.acks && n'.st.probe == m.st.probe
    requires forall p | p in d :: m.una >= p.una && HeardSegment(peer, n, m, p)
    ensures forall p | p in d :: n'.una >= p.una && HeardSegment(peer, n, n', p)
  {
  }

  lemma HearCfg(n: Node, d: Datagram)
    requires EndpointInvariant.Inv(n.st) && WireOk(n.st.cfg.conv, d)
    ensures n.st.cfg.Mss() > 0 && NodeHear(n, d).st.cfg == n.st.cfg && d != []
  {
    assert n.st.cfg.Valid() by { CfgOf(n.st); }
    HearIsListen(n, d);
    var e := ListenAll(Ear(n, false, 0), d);
    hide NodeHear, ListenAll, EndpointInvariant.Inv;
    FinishFields(Hearing(e.n.st, e.flag, e.maxack), n.st.snd.una);
  }

  lemma {:induction false} NextNotBehind(e: Ear, d: Datagram)
    ensures e.n.nxt <= ListenAll(e, d).n.nxt
    decreases |d|
  {
    hide HearSeg;
    if d != [] { NextNotBehind(Listen(e, d[0]), d[1..]); }
  }

  /** The deliveries of the datagrams to `b`, in order. */
  function Deliveries(ds: seq<Datagram>): seq<Event> {
    seq(|ds|, i requires 0 <= i < |ds| => Event(false, Deliver(ds[i])))
  }

  /** Every datagram of a sequence reaches `b`. */
  lemma {:induction false} DeliverAll(s: Sys, ds: seq<Datagram>) returns (t: Sys)
    requires Good(s) && forall d | d in ds :: d in s.ab
    ensures Leads(s, Deliveries(ds), t) && t.a == s.a && Heard(s.a, s.b, t.b, ds)
    decreases |ds|
  {
    hide Good, Heard, NodeHear, Possible, Run, Fair, NotBehind, StepAtA, EnabledAtA;
    if ds == [] {
      t := s;
      LeadsRefl(s);
      HeardNone(s.a, s.b);
    } else {
      var s1 := DeliverOne(s, ds[0]);
      t := DeliverAll(s1, ds[1..]);
      assert Deliveries(ds) == [Event(false, Deliver(ds[0]))] + Deliveries(ds[1..]);
      LeadsTrans(s, [Event(false, Deliver(ds[0]))], s1, Deliveries(ds[1..]), t);
      HeardMore(s.a, s.b, s1.b, t.b, ds[0], ds[1..]);
      assert ds == [ds[0]] + ds[1..];
    }
  }

  lemma DeliverOne(s: Sys, d: Datagram) returns (t: Sys)
    requires Good(s) && d in s.ab
    ensures Leads(s, [Event(false, Deliver(d))], t) && t.a == s.a && t.ab == s.ab && Heard(s.a, s.b, t.b, [d])
  {
    GoodSwap(s);
    hide Good, Heard, NodeHear, Leads, EnabledAtA;
    StepAtBLeads(s, Deliver(d));
    HeardOne(Swap(s), d);
    t := Swap(StepAtA(Swap(s), Deliver(d)));
  }

  /** What an update at a flushing time makes of a node. */
  ghost predicate JustFlushed(n: Node, now: u32, n': Node) {
    && n'.una == n.una && n'.nxt == n.nxt && n'.delivered == n.delivered && |n'.sent| == |n.sent| + Admitted(n.st)
    && n'.st.rcv.queue == n.st.rcv.queue && n'.st.cfg == n.st.cfg
    && n'.st.rmtWnd == n.st.rmtWnd && n'.st.cong.cwnd >= 1 && n'.st.clock.current == now
    && |n'.st.snd.buf| == |n.st.snd.buf| + Admitted(n.st) && n'.st.snd.queue == n.st.snd.queue[Admitted(n.st)..]
    && (n.st.rmtWnd == 0 ==> n'.st.probe.wait != 0)
    && (n.st.rmtWnd == 0 && n.st.probe.wait != 0 && Diff(now, n.st.probe.ts) < 0 ==> n'.st.probe.ts == n.st.probe.ts)
  }

  lemma UpdateJustFlushes(n: Node, now: u32)
    requires NodeInv(n) && FlushClock.Tick(n.st.clock, now, n.st.cfg.interval).1
    ensures JustFlushed(n, now, NodeUpdate(n, now).0)
  {
    hide NodeInv, FlushedTx, FlushTags, Admitted, FlushClock.Tick, NodeUpdate, NodeFlush;
    UpdateFlushes(n, now);
    FlushHasEffect(AtTime(n, now));
    FlushedCount(AtTime(n, now));
    AdmittedAnytime(n, now);
  }

  lemma AdmittedAnytime(n: Node, now: u32)
    ensures Admitted(AtTime(n, now).st) == Admitted(n.st)
  {
  }

  /** A flush at `a`, all of which reaches `b`. */
  lemma FlushA(s: Sys, now: u32) returns (es: seq<Event>, t: Sys)
    requires Good(s) && Diff(now, s.a.st.clock.current) >= 0
    requires FlushClock.Tick(s.a.st.clock, now, s.a.st.cfg.interval).1
    ensures NodeInv(s.a) && |s.a.acks| == |s.a.st.rcv.acks| && t.a == NodeUpdate(s.a, now).0
    ensures Leads(s, es, t) && JustFlushed(s.a, now, t.a) && Heard(t.a, s.b, t.b, NodeUpdate(s.a, now).1)
    ensures forall d | d in NodeUpdate(s.a, now).1 :: d in t.ab
  {
    hide Good, NodeInv, FlushClock.Tick, NodeUpdate, JustFlushed, Heard, EnabledAtA, Fair, Possible, Run, NotBehind, Honest;
    NodeInvOf(s);
    UpdateJustFlushes(s.a, now);
    var e, ds := Event(true, DoUpdate(now)), NodeUpdate(s.a, now).1;
    StepAtALeads(s, e.act);
    var s1 := StepAtA(s, e.act);
    assert s1.ab == s.ab + set d | d in ds;
    t := DeliverAll(s1, ds);
    es := [e] + Deliveries(ds);
    StepsTrans(s, [e], s1, Deliveries(ds), t);
    UpdateIsHonest(s, now);
    FairCons(s, e, Deliveries(ds));
  }

  lemma UpdateIsHonest(s: Sys, now: u32)
    requires EnabledAtA(s, DoUpdate(now)) && Diff(now, s.a.st.clock.current) >= 0
    ensures Enabled(s, Event(true, DoUpdate(now))) && |s.a.acks| == |s.a.st.rcv.acks|
    ensures Honest(s, Event(true, DoUpdate(now)), Deliveries(NodeUpdate(s.a, now).1))
  {
    hide NodeUpdate, Deliveries;
    AllDelivered(NodeUpdate(s.a, now).1);
  }

  lemma AllDelivered(ds: seq<Datagram>)
    ensures forall d | d in ds :: Event(false, Deliver(d)) in Deliveries(ds)
  {
    forall d | d in ds ensures Event(false, Deliver(d)) in Deliveries(ds) {
      var i :| 0 <= i < |ds| && ds[i] == d;
      assert Deliveries(ds)[i] == Event(false, Deliver(d));
    }
  }

  lemma NodeInvOf(s: Sys)
    requires Good(s)
    ensures NodeInv(s.a) && NodeInv(s.b)
    ensures |s.a.acks| == |s.a.st.rcv.acks| && |s.b.acks| == |s.b.st.rcv.acks|
  {
    hide EndpointInvariant.Inv, TxInv, LinkedNodes, HistoryInv, HandedOver;
  }
}
