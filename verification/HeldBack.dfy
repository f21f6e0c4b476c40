/** That `snd_una` stays at or below the `rcv_nxt` of the peer is not among the
    promises: when it can be lost, and a run that loses it. */
module HeldBack {
  import opened Serial
  import opened Wire
  import opened ControlBlock
  import opened Link
  import opened Endpoint
  import opened Network
  import opened Safety
  import opened Messages
  import opened Continuations
  import Guarantees
  import Progress
  import Retransmission
  import EndpointInvariant
  import RecvBuffer
  import FlushClock

  /** It can be lost whenever the peer's queue is full and the segment at `rcv_nxt` is
      in flight: the peer keeps the segment back and acknowledges it. */
  lemma FullQueueLosesIt(s: Sys) returns (es: seq<Event>, t: Sys)
    requires Good(s) && s.a.st.snd.buf != [] && s.a.una == s.b.nxt && Progress.Full(s.b)
    ensures Leads(s, es, t) && t.a.una > t.b.nxt
  {
    hide Good, NotBehind, Fair, Possible, Run;
    NodeInvOf(s);
    assert s.b.st.cfg.rcvWnd > 0 by { WindowPositive(s.b); }
    var s1, fs;
    es, s1 := Progress.SendOldest(s);
    fs, t := Progress.AckOldest(s1);
    LeadsTrans(s, es, s1, fs, t);
    es := es + fs;
  }

  lemma WindowPositive(n: Node)
    requires NodeInv(n)
    ensures n.st.cfg.rcvWnd > 0
  {
  }

  // ---- a run that loses it ----

  /** No congestion window, a send window larger than the receive window, the smallest MTU. */
  const CFG: Config := Config(1, 50, 256, 128, 100, 0, 100, 0, 5, true, false, 20)

  ghost predicate Running(s: Sys) {
    Reachable(s) && s.a.st.cfg == CFG && s.b.st.cfg == CFG && |Offered(s.a)| <= 129 && |Offered(s.b)| <= 129
  }

  lemma RunningIsGood(s: Sys)
    requires Running(s)
    ensures Good(s)
  {
    ReachableAppInv(s);
  }

  lemma {:induction false} Longer(s: Sys, es: seq<Event>)
    requires Reachable(s) && Possible(s, es)
    ensures Reachable(Run(s, es))
  {
    hide Next, Enabled;
    var cfgA, cfgB, fs :| InitOk(cfgA, cfgB) && Possible(Init(cfgA, cfgB), fs) && s == Run(Init(cfgA, cfgB), fs);
    RunConcat(Init(cfgA, cfgB), fs, es);
  }

  lemma LeadsOn(s: Sys, es: seq<Event>, t: Sys)
    requires Running(s) && Leads(s, es, t)
    ensures Running(t)
  {
    hide Offered, Possible, Run, Fair, Good, Reachable;
    Longer(s, es);
  }

  lemma SwapRunning(s: Sys)
    requires Running(s)
    ensures Running(Swap(s))
  {
    hide Reachable;
    Guarantees.SwapReachable(s);
  }

  /** The application at `a` sends a message. */
  lemma SendAtA(s: Sys, msg: seq<u8>) returns (t: Sys)
    requires Running(s) && |msg| <= 127 * 26
    requires |Offered(s.a)| + |Fragment(msg, 26, false)| <= 129
    ensures Running(t) && t.b == s.b && t.ab == s.ab && t.ba == s.ba
    ensures t.a.una == s.a.una && t.a.sent == s.a.sent && t.a.nxt == s.a.nxt && t.a.delivered == s.a.delivered
    ensures t.a.st == s.a.st.(snd := s.a.st.snd.(queue := s.a.st.snd.queue + Fragment(msg, 26, false)))
  {
    hide Reachable, Send, Fragment;
    assert CFG.Mss() == 26;
    RunningIsGood(s);
    NodeInvOf(s);
    var e := Event(true, DoSend(msg, |msg|));
    t := s.(a := NodeSend(s.a, msg, |msg|));
    SendLeaksExactly(s.a.st, msg, |msg|);
    SendQueueIs(s.a.st, msg, |msg|);
    EndpointInvariant.SendChangesQueueOnly(s.a.st, msg, |msg|);
    assert msg[0..|msg|] == msg;
    assert Enabled(s, e) && Next(s, e) == t;
    OneStep(s, e);
    Longer(s, [e]);
  }

  /** A newly numbered segment is sent. */
  lemma NewIsSent(n: Node, now: u32, i: nat) returns (d: Datagram, p: Tag)
    requires NodeInv(n) && FlushClock.Tick(n.st.clock, now, n.st.cfg.interval).1 && i < Admitted(n.st)
    ensures |n.acks| == |n.st.rcv.acks|
    ensures d in NodeUpdate(n, now).1 && p in d && p.w.cmd == CMD_PUSH && p.sn == |n.sent| + i
  {
    var m := AtTime(n, now);
    AdmittedAnytime(n, now);
    AtTimeInv(n, now);
    p := NewTag(m, i);
    assert m.sent == n.sent;
    hide NodeInv, FlushClock.Tick, NodeUpdate, NodeFlush, FlushTags, AtTime, Admitted, FlushedTx;
    UpdateFlushes(n, now);
    FlushHasEffect(m);
    d :| d in NodeUpdate(n, now).1 && p in d;
  }

  lemma NewTag(m: Node, i: nat) returns (p: Tag)
    requires NodeInv(m) && i < Admitted(m.st)
    ensures p in FlushTags(m) && p.w.cmd == CMD_PUSH && p.sn == |m.sent| + i
  {
    EndpointInvariant.NumberOrdered(m.st);
    EndpointInvariant.NumberMembers(m.st);
    var g := Numbered(m.st, i);
    assert Retransmission.Due(g, EnvOf(m.st));
    hide Number, Retransmission.Due, EnvOf, DataTags, AckTags, ProbeTags, Admitted;
    DueIsSent(m, Number(m.st).buf, g);
    p := Tag(PushItem(m.st, g), SndNo(TxOf(m), g.sn), m.nxt);
  }

  /** Every segment of a flush acknowledges all before `rcv_nxt`. */
  lemma TagUna(n: Node, t: Tag)
    requires |n.acks| == |n.st.rcv.acks| && t in FlushTags(n)
    ensures t.una == n.nxt
  {
    hide ProbeItems, AckItems, Number;
    if t in AckTags(n) {
      var i :| 0 <= i < |n.acks| && t == AckTags(n)[i];
    } else if t in ProbeTags(n) {
      var i :| 0 <= i < |ProbeItems(n.st)| && t == ProbeTags(n)[i];
    } else {
      DataTagsOf(n, Number(n.st).buf);
    }
  }

  lemma UpdateUna(n: Node, now: u32)
    requires NodeInv(n) && FlushClock.Tick(n.st.clock, now, n.st.cfg.interval).1 && |n.acks| == |n.st.rcv.acks|
    ensures forall d, u | d in NodeUpdate(n, now).1 && u in d :: u.una == n.nxt
  {
    hide NodeInv, NodeUpdate, NodeFlush, FlushTags, FlushClock.Tick, FlushedTx;
    UpdateFlushes(n, now);
    FlushHasEffect(AtTime(n, now));
    forall d, u | d in NodeUpdate(n, now).1 && u in d ensures u.una == n.nxt {
      TagUna(AtTime(n, now), u);
    }
  }

  /** With everything acknowledged and all 128 fragments accepted, `b` expects 128. */
  lemma AllInQueue(s: Sys)
    requires Good(s) && |s.a.sent| == 128 == s.b.st.cfg.rcvWnd && s.b.delivered == []
    requires forall no: nat | no < 128 :: no in s.b.acks
    ensures s.b.nxt == 128 == |s.b.st.rcv.queue|
  {
    var rx := RxOf(s.b);
    assert InOrder(TxOf(s.a), rx) && (forall no | no in rx.acks :: Accepted(rx, no)) && EndpointInvariant.Inv(s.b.st) by {
      hide EndpointInvariant.Inv, HistoryInv, HandedOver, InOrder, Accepted;
    }
    hide Good, EndpointInvariant.Inv;
    assert RecvBuffer.Drained(rx.rcv, 128) && RecvBuffer.Ordered(rx.rcv.buf, rx.rcv.nxt, 128) by { DrainedOrdered(s.b.st); }
    assert |rx.delivered + rx.rcv.queue| == rx.nxt;
    if rx.nxt < 128 {
      NextAcceptedMeansFull(rx, 128);
    }
  }

  lemma NextAcceptedMeansFull(rx: Rx, wnd: u32)
    requires RecvBuffer.Drained(rx.rcv, wnd) && RecvBuffer.Ordered(rx.rcv.buf, rx.rcv.nxt, wnd)
    requires Accepted(rx, rx.nxt)
    ensures |rx.rcv.queue| >= wnd
  {
    var g :| g in rx.rcv.buf && RcvNo(rx, g.sn) == rx.nxt;
    assert g.sn == rx.rcv.nxt;
    Guarantees.HeadIsSmallest(rx.rcv.buf, rx.rcv.nxt, wnd, g);
  }

  lemma DrainedOrdered(st: State)
    requires EndpointInvariant.Inv(st)
    ensures RecvBuffer.Drained(st.rcv, st.cfg.rcvWnd) && RecvBuffer.Ordered(st.rcv.buf, st.rcv.nxt, st.cfg.rcvWnd)
  {
  }

  // ---- the five stages ----

  /** A flush at `a` at the present or soon after. */
  lemma FlushSoon(s: Sys) returns (es: seq<Event>, t: Sys, now: u32)
    requires Running(s)
    ensures Running(t) && Leads(s, es, t) && NodeInv(s.a) && NodeInv(t.a) && NodeInv(t.b) && |s.a.acks| == |s.a.st.rcv.acks|
    ensures FlushClock.Tick(s.a.st.clock, now, s.a.st.cfg.interval).1 && t.a == NodeUpdate(s.a, now).0
    ensures JustFlushed(s.a, now, t.a) && Heard(t.a, s.b, t.b, NodeUpdate(s.a, now).1)
    ensures forall d, p | d in NodeUpdate(s.a, now).1 && p in d :: d in t.ab && p.w.wnd == Unused(s.a.st) && p.una == s.a.nxt
  {
    hide Running, Good, NodeInv, JustFlushed, Heard, FlushClock.Tick, NodeUpdate, NodeFlush, Fair, Possible, Run, Unused;
    RunningIsGood(s);
    now := PickTime(s.a.st.clock, s.a.st.cfg.interval, s.a.st.clock.current);
    es, t := FlushA(s, now);
    LeadsOn(s, es, t);
    NodeInvOf(t) by { RunningIsGood(t); }
    UpdateFlushes(s.a, now);
    UnusedAtTime(s.a, now);
    TellIsSent(AtTime(s.a, now));
    UpdateUna(s.a, now);
  }

  /** With nothing in flight and the window at 128, a flush numbers all that is queued. */
  lemma AdmitsAll(n: Node)
    requires NodeInv(n) && n.st.cfg == CFG && n.st.snd.buf == [] && n.st.rmtWnd == 128 && |n.st.snd.queue| <= 128
    ensures Admitted(n.st) == |n.st.snd.queue|
  {
  }

  lemma AnnouncesAll(s: State)
    requires s.cfg == CFG && s.rcv.queue == []
    ensures Unused(s) == 128
  {
  }

  /** First `b` sends a byte, in datagrams that announce an empty queue. */
  lemma First() returns (s: Sys, x: Datagram)
    ensures Running(s) && s.a.st.snd.buf == [] && Offered(s.a) == [] && s.a.st.rmtWnd == 128
    ensures s.b.nxt == 0 && s.b.delivered == [] && s.b.st.rcv.queue == []
    ensures x in s.ba && x != [] && forall p | p in x :: p.w.wnd == 128
  {
    InitRuns();
    var s0 := Init(CFG, CFG);
    SwapRunning(s0);
    OneByte();
    hide Running, Fragment, JustFlushed, NodeUpdate, FlushClock.Tick, NodeInv, Unused, Admitted, Good, Possible, Run, Fair;
    var s1 := SendAtA(Swap(s0), [0]);
    var es, t, now := FlushSoon(s1);
    AnnouncesAll(s1.a.st);
    AdmitsAll(s1.a);
    var p;
    x, p := NewIsSent(s1.a, now, 0);
    Unchanged(s1, now, t);
    s := Swap(t);
    SwapRunning(t);
  }

  lemma Unchanged(s: Sys, now: u32, t: Sys)
    requires JustFlushed(s.a, now, t.a)
    ensures t.a.nxt == s.a.nxt && t.a.delivered == s.a.delivered && t.a.st.rcv.queue == s.a.st.rcv.queue && t.a.una == s.a.una
    ensures t.a.st.rmtWnd == s.a.st.rmtWnd && t.a.st.cfg == s.a.st.cfg
    ensures |t.a.sent| == |s.a.sent| + Admitted(s.a.st)
  {
  }

  lemma InitRuns()
    ensures Running(Init(CFG, CFG))
  {
    var s0 := Init(CFG, CFG);
    assert InitOk(CFG, CFG) && Possible(s0, []) && Run(s0, []) == s0;
  }

  /** `a` queues 128 fragments. */
  lemma Queue(s: Sys) returns (t: Sys)
    requires Running(s) && Offered(s.a) == []
    ensures Running(t) && t.b == s.b && t.ba == s.ba && t.a.sent == [] && |t.a.st.snd.queue| == 128
    ensures t.a.st.snd.buf == s.a.st.snd.buf && t.a.st.rmtWnd == s.a.st.rmtWnd
  {
    var long := seq(127 * 26, _ => 0);
    EndpointInvariant.FragmentCount(long, 26, false);
    assert |Fragment(long, 26, false)| == 127 && |Fragment([0], 26, false)| == 1;
    hide Running, Fragment;
    t := SendAtA(s, long);
    t := SendAtA(t, [0]);
  }

  /** Then `a` fills the receive queue of `b`: 128 fragments, all accepted. */
  lemma Fill(s: Sys) returns (es: seq<Event>, t: Sys)
    requires Running(s) && s.a.st.snd.buf == [] && s.a.sent == [] && |s.a.st.snd.queue| == 128 && s.a.st.rmtWnd == 128
    requires s.b.nxt == 0 && s.b.delivered == []
    ensures Running(t) && |t.a.sent| == 128 == |Offered(t.a)| && s.ba <= t.ba
    ensures t.b.nxt == 128 && Progress.Full(t.b) && 0 in t.b.acks
  {
    hide Running, JustFlushed, NodeUpdate, FlushClock.Tick, NodeInv, Admitted, Good, Possible, Run, Fair, Heard;
    var now;
    es, t, now := FlushSoon(s);
    Unchanged(s, now, t);
    RunningCfg(s);
    AdmitsAll(s.a);
    RunningIsGood(t);
    RunningCfg(t);
    forall no: nat | no < 128 ensures no in t.b.acks {
      var d, p := NewIsSent(s.a, now, no);
      SegmentIsHeard(t.a, s.b, t.b, NodeUpdate(s.a, now).1, d, p);
    }
    StillDelivered(t.a, s.b, t.b, NodeUpdate(s.a, now).1);
    AllInQueue(t);
  }

  lemma SegmentIsHeard(peer: Node, n: Node, n': Node, ds: seq<Datagram>, d: Datagram, p: Tag)
    requires Heard(peer, n, n', ds) && d in ds && p in d
    ensures HeardSegment(peer, n, n', p) && n'.una >= p.una
  {
  }

  lemma StillDelivered(peer: Node, n: Node, n': Node, ds: seq<Datagram>)
    requires Heard(peer, n, n', ds)
    ensures n'.delivered == n.delivered && (Progress.Full(n) ==> n'.nxt == n.nxt && Progress.Full(n'))
    ensures n'.st.snd.queue == n.st.snd.queue && n'.st.cfg == n.st.cfg
  {
  }

  lemma RunningCfg(s: Sys)
    requires Running(s)
    ensures s.a.st.cfg == CFG && s.b.st.cfg == CFG
  {
  }

  /** `b` acknowledges all of it, with a closed window. */
  lemma Acknowledge(s: Sys) returns (es: seq<Event>, t: Sys)
    requires Running(s) && |s.a.sent| == 128 == |Offered(s.a)|
    requires s.b.nxt == 128 && Progress.Full(s.b) && 0 in s.b.acks
    ensures Running(t) && |t.a.sent| == 128 == |Offered(t.a)| && t.a.una == 128 && t.a.st.snd.buf == [] && s.ba <= t.ba
    ensures t.b.nxt == 128 && Progress.Full(t.b)
  {
    hide Running, JustFlushed, NodeUpdate, NodeFlush, AtTime, FlushClock.Tick, NodeInv, Admitted, Good, Possible, Run, Fair,
      Heard, Offered;
    SwapRunning(s);
    RunningIsGood(s);
    var t', now;
    es, t', now := FlushSoon(Swap(s));
    t := Swap(t');
    SwapRunning(t');
    Unchanged(Swap(s), now, t');
    NodeInvOf(s) by { RunningIsGood(s); }
    UpdateFlushes(s.b, now);
    AcksAtTime(s.b, now);
    var d, p := AckIsSent(AtTime(s.b, now), 0);
    SegmentIsHeard(t.b, s.a, t.a, NodeUpdate(s.b, now).1, d, p);
    StillDelivered(t.b, s.a, t.a, NodeUpdate(s.b, now).1);
    RunningIsGood(t);
    Progress.AllAcked(t);
  }

  /** The first datagram of `b` arrives once more, and opens the window again. */
  lemma Reopen(s: Sys, x: Datagram) returns (t: Sys)
    requires Running(s) && x in s.ba && x != [] && forall p | p in x :: p.w.wnd == 128
    requires |s.a.sent| == 128 == |Offered(s.a)| && s.a.una == 128 && s.a.st.snd.buf == []
    ensures Running(t) && t.b == s.b && |t.a.sent| == 128 == |Offered(t.a)| && t.a.st.snd.buf == [] && t.a.una == 128
    ensures t.a.st.rmtWnd == 128
  {
    hide Running, NodeInv, Good, Possible, Run, Fair, NodeHear, EnabledAtA, HeardSegment, WireOk;
    RunningIsGood(s);
    StepAtALeads(s, Deliver(x));
    HeardOne(s, x);
    t := StepAtA(s, Deliver(x));
    LeadsOn(s, [Event(true, Deliver(x))], t);
    RunningIsGood(t);
    Progress.AllAcked(t);
  }

  lemma OneByte()
    ensures |Fragment([0], 26, false)| == 1
  {
  }

  /** One more fragment goes out, and the full queue cannot take it. */
  lemma Overfill(s: Sys) returns (es: seq<Event>, t: Sys)
    requires Running(s) && |s.a.sent| == 128 == |Offered(s.a)| && s.a.st.snd.buf == [] && s.a.una == 128 && s.a.st.rmtWnd == 128
    requires s.b.nxt == 128 && Progress.Full(s.b)
    ensures Running(t) && t.a.una == 128 == t.b.nxt && 128 in t.b.acks
  {
    hide Running, Fragment, JustFlushed, NodeUpdate, FlushClock.Tick, NodeInv, Admitted, Good, Possible, Run, Fair, Heard;
    OneByte();
    assert s.a.st.snd.queue == [];
    var s1 := SendAtA(s, [0]);
    var now;
    es, t, now := FlushSoon(s1);
    Unchanged(s1, now, t);
    RunningCfg(t);
    RunningCfg(s1);
    AdmitsAll(s1.a);
    var d, p := NewIsSent(s1.a, now, 0);
    SegmentIsHeard(t.a, s1.b, t.b, NodeUpdate(s1.a, now).1, d, p);
    StillDelivered(t.a, s1.b, t.b, NodeUpdate(s1.a, now).1);
  }

  /** A reachable state in which `snd_una` is past the `rcv_nxt` of the peer: an old
      announcement, delivered twice, makes `a` send more than the queue of `b` holds,
      and `b` acknowledges what it has to hold back. */
  lemma UnaOvertakesNext() returns (s: Sys)
    ensures Reachable(s) && s.a.una > s.b.nxt
  {
    var x, es;
    s, x := First();
    s := Queue(s);
    es, s := Fill(s);
    es, s := Acknowledge(s);
    s := Reopen(s, x);
    es, s := Overfill(s);
    RunningIsGood(s);
    var t;
    hide Good, Possible, Run, Fair;
    es, t := Progress.AckOldest(s);
    LeadsOn(s, es, t);
    s := t;
  }
}
