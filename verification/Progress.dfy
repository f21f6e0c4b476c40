/** Progress is always possible: from every reachable state there is a continuation
    without losses in which everything queued is delivered and acknowledged. */
module Progress {
  import opened Serial
  import opened ControlBlock
  import opened Link
  import opened Endpoint
  import opened Network
  import opened Safety
  import opened Messages
  import opened Continuations
  import Guarantees
  import Retransmission
  import EndpointInvariant
  import RecvBuffer
  import FlushClock

  // ---- the continuation ----

  /** The application at `b` receives until no whole message is left. */
  lemma ReceiveAll(s: Sys) returns (es: seq<Event>, t: Sys)
    requires Good(s)
    ensures Leads(s, es, t) && t.a == s.a && t.ab == s.ab && t.ba == s.ba
    ensures RecvBuffer.PeekSize(t.b.st.rcv.queue) < 0 && |t.b.st.rcv.queue| < WND_RCV - 1
    ensures s.b.st.probe.tell ==> t.b.st.probe.tell
    decreases |Offered(s.a)| - |s.b.delivered|
  {
    hide Good, StepAtA, EnabledAtA, Offered, Possible, Run, Fair;
    DeliveredIsOffered(s);
    var size := RecvBuffer.PeekSize(s.b.st.rcv.queue);
    if size < 0 {
      es, t := [], s;
      LeadsRefl(s);
      ShortQueue(s);
    } else {
      var u := ReceiveOne(s, size);
      DeliveredIsOffered(u);
      var fs;
      fs, t := ReceiveAll(u);
      es := [Event(false, DoRecv(size))] + fs;
      LeadsTrans(s, [Event(false, DoRecv(size))], u, fs, t);
    }
  }

  lemma ReceiveOne(s: Sys, size: nat) returns (u: Sys)
    requires Good(s) && RecvBuffer.PeekSize(s.b.st.rcv.queue) == size
    ensures Leads(s, [Event(false, DoRecv(size))], u) && u.a == s.a && u.ab == s.ab && u.ba == s.ba
    ensures |u.b.delivered| > |s.b.delivered| && (s.b.st.probe.tell ==> u.b.st.probe.tell)
  {
    hide Good, EnabledAtA, NodeRecv, Leads;
    StepAtBLeads(s, DoRecv(size));
    u := Swap(StepAtA(Swap(s), DoRecv(size)));
    RecvTakes(s.b, size);
  }

  lemma DeliveredIsOffered(s: Sys)
    requires Good(s)
    ensures |s.b.delivered| <= |s.a.sent| <= |Offered(s.a)|
  {
    hide EndpointInvariant.Inv, HistoryInv, HandedOver, NothingLost;
    assert InOrder(TxOf(s.a), RxOf(s.b));
    assert |s.b.delivered + s.b.st.rcv.queue| == s.b.nxt;
  }

  lemma ShortQueue(s: Sys)
    requires Good(s) && RecvBuffer.PeekSize(s.b.st.rcv.queue) < 0
    ensures |s.b.st.rcv.queue| < WND_RCV - 1
  {
    var q := s.b.st.rcv.queue;
    assert InOrder(TxOf(s.a), RxOf(s.b)) && HistoryInv(s.a) by { hide EndpointInvariant.Inv, HandedOver; }
    hide Good, HistoryInv, InOrder;
    Guarantees.QueueFromHistory(s.a, s.b);
    RecvBuffer.PeekSizeIsNextMsg(q);
    if q != [] { assert q[0] in q; }
  }

  lemma RecvTakes(n: Node, len: int)
    requires 0 <= RecvBuffer.PeekSize(n.st.rcv.queue) <= len
    ensures |NodeRecv(n, len).delivered| > |n.delivered|
    ensures n.st.probe.tell ==> NodeRecv(n, len).st.probe.tell
  {
    RecvBuffer.PeekSizeIsNextMsg(n.st.rcv.queue);
    RecvBuffer.MsgEndProps(n.st.rcv.queue);
    hide RecvBuffer.Drain, RecvBuffer.NextMsg, RecvBuffer.MsgEnd;
  }

  /** With room in the queue of `b` the oldest segment lies inside its window. */
  lemma WindowReaches(s: Sys)
    requires Good(s) && |s.b.st.rcv.queue| < WND_RCV
    ensures s.a.una < s.b.nxt + s.b.st.cfg.rcvWnd
  {
    NodeInvOf(s);
    hide HistoryInv, HandedOver, LinkedNodes;
    if s.a.una > s.b.nxt {
      Guarantees.AheadOnlyWhenFull(s);
    }
  }

  /** No segment in flight is too old for the window of `b`. */
  lemma FlightIsRecent(s: Sys)
    requires Good(s)
    ensures |s.a.sent| + s.b.st.cfg.rcvWnd - HALF <= s.a.una
  {
    NodeInvOf(s);
    hide Good;
  }

  /** Flushes of `a`, all of which reaches `b`, until the oldest segment in flight was
      sent: at once, or after one more flush when its deadline is too far away. */
  lemma SendOldest(s: Sys) returns (es: seq<Event>, t: Sys)
    requires Good(s) && s.a.st.snd.buf != [] && s.a.una < s.b.nxt + s.b.st.cfg.rcvWnd
    ensures Leads(s, es, t) && t.a.una == s.a.una && s.a.una in t.b.acks
    ensures Full(s.b) ==> Full(t.b) && t.b.nxt == s.b.nxt
    decreases if Near(s.a.st.snd.buf[0].resendts, s.a.st.clock.current) then 0 else 1
  {
    hide Good, NodeInv, FlushClock.Tick, NodeUpdate, NodeFlush, AtTime, EnvOf, Retransmission.Due, Possible, Run, Fair, NotBehind;
    var g := s.a.st.snd.buf[0];
    var now := PickTime(s.a.st.clock, s.a.st.cfg.interval, g.resendts);
    es, t := FlushA(s, now);
    UpdateFlushes(s.a, now);
    AcksAtTime(s.a, now);
    if Retransmission.Due(g, EnvOf(AtTime(s.a, now).st)) {
      var d, p := HeadIsSent(AtTime(s.a, now));
      FlightIsRecent(t);
      assert HeardSegment(t.a, s.b, t.b, p);
    } else {
      HeadStays(AtTime(s.a, now));
      var fs, u := SendOldest(t);
      LeadsTrans(s, es, t, fs, u);
      es, t := es + fs, u;
    }
  }

  /** The receive queue takes no more. */
  predicate Full(n: Node) { |n.st.rcv.queue| >= n.st.cfg.rcvWnd }

  /** A flush of `b` acknowledges the oldest segment, and all of it reaches `a`. */
  lemma AckOldest(s: Sys) returns (es: seq<Event>, t: Sys)
    requires Good(s) && s.a.una in s.b.acks
    ensures Leads(s, es, t) && t.a.una > s.a.una && t.b.nxt == s.b.nxt
  {
    var now := PickTime(s.b.st.clock, s.b.st.cfg.interval, s.b.st.clock.current);
    GoodSwap(s);
    hide Good, NodeInv, FlushClock.Tick, NodeUpdate, NodeFlush, AtTime;
    var t';
    es, t' := FlushA(Swap(s), now);
    SwapLeads(Swap(s), es, t');
    es, t := Guarantees.SwapEvents(es), Swap(t');
    UpdateFlushes(s.b, now);
    AcksAtTime(s.b, now);
    var d, p := AckIsSent(AtTime(s.b, now), s.a.una);
    assert HeardSegment(t.b, s.a, t.a, p);
  }

  /** One round: the oldest segment in flight gets acknowledged. */
  lemma Round(s: Sys) returns (es: seq<Event>, t: Sys)
    requires Good(s) && s.a.st.snd.buf != []
    ensures Leads(s, es, t) && t.a.una > s.a.una
  {
    hide Good, NotBehind, Fair, Possible, Run;
    var s1, s2, fs;
    es, s1 := ReceiveAll(s);
    WindowReaches(s1);
    fs, s2 := SendOldest(s1);
    LeadsTrans(s, es, s1, fs, s2);
    es := es + fs;
    fs, t := AckOldest(s2);
    LeadsTrans(s, es, s2, fs, t);
    es := es + fs;
  }

  // ---- opening the window ----

  /** `a` has something queued and nothing in flight. */
  ghost predicate Waiting(s: Sys) {
    Good(s) && s.a.st.snd.buf == [] && s.a.st.snd.queue != []
  }

  /** A flush at `a` at any time it can. */
  lemma FlushNow(s: Sys) returns (es: seq<Event>, t: Sys)
    requires Good(s)
    ensures Leads(s, es, t)
    ensures |t.a.st.snd.buf| == |s.a.st.snd.buf| + Admitted(s.a.st)
    ensures t.a.st.snd.queue == s.a.st.snd.queue[Admitted(s.a.st)..]
    ensures t.a.st.cong.cwnd >= 1 && t.a.st.rmtWnd == s.a.st.rmtWnd
    ensures s.a.st.rmtWnd == 0 ==> t.a.st.probe.wait != 0
  {
    var now := PickTime(s.a.st.clock, s.a.st.cfg.interval, s.a.st.clock.current);
    hide Good, NodeInv, FlushClock.Tick, NodeUpdate, AtTime, Heard, Admitted;
    es, t := FlushA(s, now);
  }

  /** With an open window a flush puts something in flight. */
  lemma AdmitSome(s: Sys) returns (es: seq<Event>, t: Sys)
    requires Waiting(s) && s.a.st.rmtWnd > 0 && s.a.st.cong.cwnd > 0
    ensures Leads(s, es, t) && t.a.st.snd.buf != []
  {
    NodeInvOf(s);
    WindowOpen(s.a);
    hide Good, Admitted;
    es, t := FlushNow(s);
  }

  lemma WindowOpen(n: Node)
    requires NodeInv(n) && n.st.snd.buf == [] && n.st.snd.queue != []
    requires n.st.rmtWnd > 0 && n.st.cong.cwnd > 0
    ensures Admitted(n.st) >= 1
  {
  }

  lemma WindowShut(s: State)
    requires s.rmtWnd == 0
    ensures Admitted(s) == 0
  {
  }

  /** Flushes of `a` until the probe of the shut window went out: all of it reaches
      `b`, which then owes an announcement. */
  lemma AskAndHear(s: Sys) returns (es: seq<Event>, t: Sys)
    requires Waiting(s) && s.a.st.rmtWnd == 0 && s.a.st.probe.wait != 0
    ensures Leads(s, es, t) && Waiting(t) && t.a.st.cong.cwnd > 0
    ensures t.b.st.probe.tell
    decreases if Near(s.a.st.probe.ts, s.a.st.clock.current) then 0 else 1
  {
    var now := PickTime(s.a.st.clock, s.a.st.cfg.interval, s.a.st.probe.ts);
    WindowShut(s.a.st);
    hide Good, NodeInv, FlushClock.Tick, NodeUpdate, NodeFlush, AtTime, Admitted;
    es, t := FlushA(s, now);
    if Diff(now, s.a.st.probe.ts) >= 0 {
      UpdateFlushes(s.a, now);
      AcksAtTime(s.a, now);
      var d, p := AskIsSent(AtTime(s.a, now));
      assert HeardSegment(t.a, s.b, t.b, p);
    } else {
      var fs, u := AskAndHear(t);
      LeadsTrans(s, es, t, fs, u);
      es, t := es + fs, u;
    }
  }

  /** The announcement reaches `a`, with room since the queue of `b` was emptied: all
      segments of one flush announce the same window. */
  lemma TellAndHear(s: Sys) returns (es: seq<Event>, t: Sys)
    requires Waiting(s) && s.a.st.cong.cwnd > 0 && s.b.st.probe.tell && |s.b.st.rcv.queue| < WND_RCV
    ensures Leads(s, es, t) && Waiting(t) && t.a.st.cong.cwnd > 0 && t.a.st.rmtWnd > 0
  {
    var now := PickTime(s.b.st.clock, s.b.st.cfg.interval, s.b.st.clock.current);
    NodeInvOf(s);
    assert Unused(s.b.st) > 0 by { hide Good; }
    GoodSwap(s);
    hide Good, NodeInv, FlushClock.Tick, NodeUpdate, NodeFlush, AtTime, Unused;
    var t';
    es, t' := FlushA(Swap(s), now);
    SwapLeads(Swap(s), es, t');
    es, t := Guarantees.SwapEvents(es), Swap(t');
    UpdateFlushes(s.b, now);
    AcksAtTime(s.b, now);
    UnusedAtTime(s.b, now);
    TellIsSent(AtTime(s.b, now));
    hide Fair, Possible, Run;
  }

  /** Whatever keeps the window shut, it can be opened and something put in flight. */
  lemma OpenWindow(s: Sys) returns (es: seq<Event>, t: Sys)
    requires Waiting(s)
    ensures Leads(s, es, t) && t.a.st.snd.buf != []
  {
    hide Good, Admitted, NotBehind, Fair, Possible, Run;
    var s1, fs;
    es, s1 := FlushNow(s);
    if s1.a.st.snd.buf != [] {
      t := s1;
    } else if s1.a.st.rmtWnd > 0 {
      fs, t := AdmitSome(s1);
      LeadsTrans(s, es, s1, fs, t);
      es := es + fs;
    } else {
      var s2, s3, s4;
      fs, s2 := AskAndHear(s1);
      LeadsTrans(s, es, s1, fs, s2);
      es := es + fs;
      fs, s3 := ReceiveAll(s2);
      LeadsTrans(s, es, s2, fs, s3);
      es := es + fs;
      fs, s4 := TellAndHear(s3);
      LeadsTrans(s, es, s3, fs, s4);
      es := es + fs;
      fs, t := AdmitSome(s4);
      LeadsTrans(s, es, s4, fs, t);
      es := es + fs;
    }
  }

  // ---- the whole way ----

  lemma AllAcked(s: Sys)
    requires Good(s)
    ensures s.a.una <= |s.a.sent| <= |Offered(s.a)|
    ensures s.a.una == |Offered(s.a)| <==> s.a.st.snd.buf == [] && s.a.st.snd.queue == []
  {
    NodeInvOf(s);
    hide Good, EndpointInvariant.Inv, RxInv;
    OldestIsInBuf(TxOf(s.a), s.a.st.cfg.Mss());
  }

  /** Rounds until nothing of `a` is queued or in flight. */
  lemma DrainA(s: Sys) returns (es: seq<Event>, t: Sys)
    requires Good(s)
    ensures Leads(s, es, t) && t.a.una == |Offered(s.a)|
    decreases |Offered(s.a)| - s.a.una
  {
    AllAcked(s);
    if s.a.una == |Offered(s.a)| {
      es, t := [], s;
      LeadsRefl(s);
    } else {
      var s1, s2, fs;
      if s.a.st.snd.buf == [] {
        es, s1 := OpenWindow(s);
      } else {
        es, s1 := [], s;
        LeadsRefl(s);
      }
      assert s1.a.una >= s.a.una && Offered(s1.a) == Offered(s.a);
      hide Good, Offered;
      fs, s2 := Round(s1);
      LeadsTrans(s, es, s1, fs, s2);
      es := es + fs;
      AllAcked(s2);
      fs, t := DrainA(s2);
      LeadsTrans(s, es, s2, fs, t);
      es := es + fs;
    }
  }

  /** Everything that the application at `a` offered was acknowledged and delivered. */
  ghost predicate Complete(a: Node, b: Node) {
    a.una == |Offered(a)| && |b.delivered| == |Offered(a)|
  }

  /** If everything is acknowledged and no whole message waits, all is delivered. */
  lemma AckedIsDelivered(s: Sys)
    requires Good(s) && s.a.una == |Offered(s.a)|
    requires RecvBuffer.PeekSize(s.b.st.rcv.queue) < 0 && |s.b.st.rcv.queue| < WND_RCV
    ensures s.b.delivered == Offered(s.a)
  {
    AllAcked(s);
    NodeInvOf(s);
    assert s.a.una <= s.b.nxt by {
      hide HistoryInv, HandedOver, LinkedNodes;
      if s.a.una > s.b.nxt { Guarantees.AheadOnlyWhenFull(s); }
    }
    assert InOrder(TxOf(s.a), RxOf(s.b)) && HistoryInv(s.a) && HandedOver(s.a, s.b) by { hide EndpointInvariant.Inv, InOrder; }
    assert s.a.st.snd.queue == [];
    hide Good, NodeInv;
    DeliveredAll(s.a, s.b);
  }

  /** When all that was offered has been numbered and accepted in order, what is left
      in the queue can be read. */
  lemma RestIsReadable(a: Node, b: Node)
    requires InOrder(TxOf(a), RxOf(b)) && HistoryInv(a) && HandedOver(a, b)
    requires b.delivered + b.st.rcv.queue == Offered(a) && b.st.rcv.queue != []
    ensures RecvBuffer.PeekSize(b.st.rcv.queue) >= 0
  {
    var q := b.st.rcv.queue;
    assert (b.delivered + q)[|b.delivered|] == q[0];
    assert q[0] in Offered(a);
    if !a.st.cfg.stream {
      QueueStartsAtMessage(a, b);
      var k, mss := |b.got|, a.st.cfg.Mss();
      var m := a.msgs[k];
      var rest :| q <= Fragment(m, mss, false) + rest;
      FrontMessage(q, m, rest, mss);
      FlatSplit(a.msgs, k, mss);
      hide Flat, Fragment;
      assert |b.delivered + Fragment(m, mss, false)| <= |Offered(a)|;
    }
  }

  lemma DeliveredAll(a: Node, b: Node)
    requires InOrder(TxOf(a), RxOf(b)) && HistoryInv(a) && HandedOver(a, b)
    requires a.st.snd.queue == [] && b.nxt == |a.sent|
    requires RecvBuffer.PeekSize(b.st.rcv.queue) < 0
    ensures b.delivered == Offered(a)
  {
    hide HistoryInv, HandedOver, RecvBuffer.PeekSize;
    assert a.sent[..b.nxt] == a.sent == Offered(a);
    if b.st.rcv.queue != [] {
      RestIsReadable(a, b);
    }
  }

  lemma CompleteAtB(s: Sys) returns (es: seq<Event>, t: Sys)
    requires Good(s)
    ensures Leads(s, es, t) && Complete(t.a, t.b)
  {
    var s1, fs;
    es, s1 := DrainA(s);
    hide Good, Offered;
    fs, t := ReceiveAll(s1);
    LeadsTrans(s, es, s1, fs, t);
    es := es + fs;
    AckedIsDelivered(t);
  }

  lemma CompleteStays(s: Sys, es: seq<Event>, t: Sys)
    requires Good(s) && Leads(s, es, t) && Complete(s.a, s.b)
    ensures Complete(t.a, t.b)
  {
    hide Good, Possible, Run, Fair;
    AllAcked(t);
    DeliveredIsOffered(t);
  }

  /** Progress is always possible: from every reachable state in which fewer than
      2^31 fragments were offered per direction, a continuation without any further
      send leads to a state in which, in both directions, nothing is queued or in
      flight, and the receiving application has every message and every byte. */
  lemma ProgressIsPossible(s: Sys) returns (es: seq<Event>)
    requires Reachable(s)
    requires |Offered(s.a)| < HALF && |Offered(s.b)| < HALF
    ensures NoSends(es) && Possible(s, es) && Fair(s, es)
    ensures var t := Run(s, es);
            && t.a.st.snd.queue == [] && t.a.st.snd.buf == [] && t.b.st.snd.queue == [] && t.b.st.snd.buf == []
            && Concat(t.b.got) == s.a.bytes && Concat(t.a.got) == s.b.bytes
            && (!s.a.st.cfg.stream ==> t.b.got == s.a.msgs)
            && (!s.b.st.cfg.stream ==> t.a.got == s.b.msgs)
  {
    ReachableAppInv(s);
    var t;
    hide AppInv, Offered, Complete, Leads, Reachable;
    assert Good(s);
    hide Good;
    es, t := CompleteBoth(s);
    LeadsFields(s, es, t);
    GoodSwap(t);
    CompleteMeans(t);
    CompleteMeans(Swap(t));
    hide Run, Possible, Fair, Concat;
  }

  lemma CompleteBoth(s: Sys) returns (es: seq<Event>, t: Sys)
    requires Good(s)
    ensures Leads(s, es, t) && Complete(t.a, t.b) && Complete(t.b, t.a)
    ensures t.a.bytes == s.a.bytes && t.b.bytes == s.b.bytes && Good(t)
  {
    var s1, t', fs;
    hide Good, Offered, NotBehind;
    es, s1 := CompleteAtB(s);
    GoodSwap(s1);
    fs, t' := CompleteAtB(Swap(s1));
    SwapLeads(Swap(s1), fs, t');
    t, fs := Swap(t'), Guarantees.SwapEvents(fs);
    CompleteStays(s1, fs, t);
    LeadsTrans(s, es, s1, fs, t);
    es := es + fs;
    BytesUnchanged(s, t);
    GoodSwap(s);
    GoodSwap(t);
    BytesUnchanged(Swap(s), Swap(t));
  }

  lemma LeadsFields(s: Sys, es: seq<Event>, t: Sys)
    requires Leads(s, es, t)
    ensures NoSends(es) && Possible(s, es) && Fair(s, es) && Run(s, es) == t && s.a.msgs == t.a.msgs && s.b.msgs == t.b.msgs
    ensures t.a.st.cfg == s.a.st.cfg && t.b.st.cfg == s.b.st.cfg
  {
    hide Possible, Run;
  }

  lemma BytesUnchanged(s: Sys, t: Sys)
    requires Good(s) && Good(t) && Offered(t.a) == Offered(s.a)
    ensures t.a.bytes == s.a.bytes
  {
    hide SysInv, HandedOver, Offered;
  }

  lemma CompleteMeans(s: Sys)
    requires Good(s) && Complete(s.a, s.b)
    ensures s.a.st.snd.queue == [] && s.a.st.snd.buf == []
    ensures Concat(s.b.got) == s.a.bytes
    ensures !s.a.st.cfg.stream ==> s.b.got == s.a.msgs
  {
    hide Bytes, Concat, EndpointInvariant.Inv, Flat;
    AllAcked(s) by { hide Good; }
    assert InOrder(TxOf(s.a), RxOf(s.b)) && HistoryInv(s.a) && HandedOver(s.a, s.b) by { hide InOrder; }
    hide Good;
    assert s.b.delivered == Offered(s.a) by {
      assert |s.b.delivered + s.b.st.rcv.queue| <= |s.a.sent|;
      assert s.b.st.rcv.queue == [];
    }
    if !s.a.st.cfg.stream {
      FlatSplit(s.a.msgs, |s.b.got|, s.a.st.cfg.Mss());
      assert s.a.msgs[..|s.a.msgs|] == s.a.msgs;
    }
  }
}
