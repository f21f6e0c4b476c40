/** Infinite runs of the two-endpoint system in which the network loses nothing for good
    and keeps nothing for ever, time passes at both sides, and both applications keep
    receiving; and what the flush clock does in them. */
module FairRuns {
  import opened Serial
  import opened Wire
  import opened ControlBlock
  import opened Link
  import opened Endpoint
  import opened Network
  import opened Safety
  import opened Messages
  import opened Continuations
  import Guarantees
  import EndpointInvariant
  import RecvBuffer
  import FlushClock

  /** The states and the events between them. */
  datatype Trace = Trace(at: nat -> Sys, ev: nat -> Event)

  /** No update moves a clock on by more than this (about six days). */
  const STEP: u32 := 0x2000_0000

  ghost predicate StepOk(r: Trace, i: nat) {
    && !r.ev(i).act.DoSend?
    && Enabled(r.at(i), r.ev(i))
    && r.at(i + 1) == Next(r.at(i), r.ev(i))
  }

  /** The event hands the datagram to the network. */
  ghost predicate Emits(r: Trace, i: nat, d: Datagram) {
    Enabled(r.at(i), r.ev(i)) && d in Emitted(r.at(i), r.ev(i))
  }

  ghost predicate Gets(r: Trace, i: nat, atA: bool, d: Datagram) {
    r.ev(i) == Event(atA, Deliver(d))
  }

  ghost predicate Arrives(r: Trace, i: nat, atA: bool, d: Datagram) {
    exists j: nat :: i < j && Gets(r, j, atA, d)
  }

  /** One side handed the datagram to the network between `i` and `j`. */
  ghost predicate SentBetween(r: Trace, i: nat, j: nat, atA: bool, d: Datagram) {
    exists k: nat :: i <= k < j && r.ev(k).atA == atA && Emits(r, k, d)
  }

  /** From `m` on only datagrams arrive that were sent since `i`. */
  ghost predicate OnlyNew(r: Trace, i: nat, m: nat) {
    forall j: nat, atA: bool, d | m <= j && Gets(r, j, atA, d) :: SentBetween(r, i, j, !atA, d)
  }

  ghost predicate DieOut(r: Trace, i: nat) {
    exists m: nat :: i <= m && OnlyNew(r, i, m)
  }

  /** An update of a clock that runs moves it on, by a bounded step. */
  ghost predicate Steady(r: Trace, i: nat) {
    var c := Actor(r.at(i), r.ev(i)).st.clock;
    r.ev(i).act.DoUpdate? && c.updated ==> 0 <= Diff(r.ev(i).act.now, c.current) <= STEP
  }

  ghost predicate Advances(r: Trace, i: nat, atA: bool) {
    r.ev(i).atA == atA && r.ev(i).act.DoUpdate? && r.ev(i).act.now != Actor(r.at(i), r.ev(i)).st.clock.current
  }

  ghost predicate TimePasses(r: Trace, i: nat, atA: bool) {
    exists j: nat :: i <= j && Advances(r, j, atA)
  }

  /** The application receives with room for whatever message is next. */
  ghost predicate Reads(r: Trace, i: nat, atA: bool) {
    && r.ev(i).atA == atA && r.ev(i).act.DoRecv?
    && 0 <= r.ev(i).act.len && RecvBuffer.PeekSize(Actor(r.at(i), r.ev(i)).st.rcv.queue) <= r.ev(i).act.len
  }

  ghost predicate KeepsReading(r: Trace, i: nat, atA: bool) {
    exists j: nat :: i <= j && Reads(r, j, atA)
  }

  /** A run without further sends, fair to both sides: every datagram handed to the network
      arrives, perhaps late, out of order and more than once, but no datagram keeps arriving
      for ever; time passes at both sides, and both applications keep receiving. */
  ghost predicate IsFair(r: Trace) {
    && (forall i: nat :: StepOk(r, i))
    && (forall i: nat, d | Emits(r, i, d) :: Arrives(r, i, !r.ev(i).atA, d))
    && (forall i: nat :: DieOut(r, i))
    && (forall i: nat :: Steady(r, i))
    && (forall i: nat, atA: bool :: TimePasses(r, i, atA))
    && (forall i: nat, atA: bool :: KeepsReading(r, i, atA))
  }

  // ---- the other side ----

  ghost function SwapTrace(r: Trace): Trace {
    Trace((i: nat) => Swap(r.at(i)), (i: nat) => Guarantees.SwapEvent(r.ev(i)))
  }

  lemma SwapStep(r: Trace, i: nat)
    ensures StepOk(r, i) ==> StepOk(SwapTrace(r), i)
    ensures Steady(r, i) ==> Steady(SwapTrace(r), i)
    ensures forall d :: Emits(SwapTrace(r), i, d) <==> Emits(r, i, d)
    ensures forall atA: bool, d :: Gets(SwapTrace(r), i, atA, d) <==> Gets(r, i, !atA, d)
    ensures forall atA: bool :: Advances(SwapTrace(r), i, atA) <==> Advances(r, i, !atA)
    ensures forall atA: bool :: Reads(SwapTrace(r), i, atA) <==> Reads(r, i, !atA)
  {
    hide StepAtA, EnabledAtA, NodeUpdate, NodeFlush, RecvBuffer.PeekSize;
    assert Swap(Swap(r.at(i))) == r.at(i);
  }

  lemma SwapArrives(r: Trace, i: nat, atA: bool, d: Datagram)
    requires Arrives(r, i, atA, d)
    ensures Arrives(SwapTrace(r), i, !atA, d)
  {
    hide Gets, SwapTrace;
    var j: nat :| i < j && Gets(r, j, atA, d);
    SwapStep(r, j);
    assert Gets(SwapTrace(r), j, !atA, d);
  }

  lemma SwapTime(r: Trace, i: nat, atA: bool)
    ensures TimePasses(r, i, atA) ==> TimePasses(SwapTrace(r), i, !atA)
    ensures KeepsReading(r, i, atA) ==> KeepsReading(SwapTrace(r), i, !atA)
  {
    hide Advances, Reads, SwapTrace;
    if j: nat :| i <= j && Advances(r, j, atA) {
      SwapStep(r, j);
      assert Advances(SwapTrace(r), j, !atA);
    }
    if j: nat :| i <= j && Reads(r, j, atA) {
      SwapStep(r, j);
      assert Reads(SwapTrace(r), j, !atA);
    }
  }

  lemma SwapFair(r: Trace)
    requires IsFair(r)
    ensures IsFair(SwapTrace(r))
  {
    hide StepOk, Steady, Emits, Arrives, DieOut, TimePasses, KeepsReading, OnlyNew;
    var t := SwapTrace(r);
    forall i: nat ensures StepOk(t, i) && Steady(t, i) {
      assert StepOk(r, i) && Steady(r, i);
      SwapStep(r, i);
    }
    forall i: nat, d | Emits(t, i, d) ensures Arrives(t, i, !t.ev(i).atA, d) {
      SwapStep(r, i);
      SwapArrives(r, i, !r.ev(i).atA, d);
    }
    forall i: nat ensures DieOut(t, i) { SwapDieOut(r, i); }
    forall i: nat, atA: bool ensures TimePasses(t, i, atA) && KeepsReading(t, i, atA) {
      assert TimePasses(r, i, !atA) && KeepsReading(r, i, !atA);
      SwapTime(r, i, !atA);
    }
  }

  lemma SwapDieOut(r: Trace, i: nat)
    requires IsFair(r)
    ensures DieOut(SwapTrace(r), i)
  {
    assert DieOut(r, i);
    hide IsFair, OnlyNew;
    var m: nat :| i <= m && OnlyNew(r, i, m);
    SwapOnlyNew(r, i, m);
  }

  lemma SwapOnlyNew(r: Trace, i: nat, m: nat)
    requires OnlyNew(r, i, m)
    ensures OnlyNew(SwapTrace(r), i, m)
  {
    hide Emits, Gets;
    var t := SwapTrace(r);
    forall j: nat, atA: bool, d | m <= j && Gets(t, j, atA, d) ensures SentBetween(t, i, j, !atA, d) {
      SwapStep(r, j);
      assert Gets(r, j, !atA, d) && SentBetween(r, i, j, atA, d);
      var k: nat :| i <= k < j && r.ev(k).atA == atA && Emits(r, k, d);
      SwapStep(r, k);
    }
  }

  // ---- what never goes back ----

  /** What every step keeps, and what only grows. */
  ghost predicate Trend(s: Sys, t: Sys) {
    && Good(t)
    && Offered(t.a) == Offered(s.a) && Offered(t.b) == Offered(s.b)
    && t.a.msgs == s.a.msgs && t.b.msgs == s.b.msgs
    && t.a.st.cfg == s.a.st.cfg && t.b.st.cfg == s.b.st.cfg
    && NotBehind(s.a, t.a) && NotBehind(s.b, t.b)
    && s.a.nxt <= t.a.nxt && s.b.nxt <= t.b.nxt
  }

  lemma StepNextNotBehind(s: Sys, act: Action)
    requires Good(s) && Harmless(s, act) && EnabledAtA(s, act)
    ensures s.a.nxt <= StepAtA(s, act).a.nxt
  {
    hide Good, EndpointInvariant.Inv, WireOk, NodeHear, NodeFlush, Recv;
    match act
    case DoRecv(len) =>
    case DoUpdate(now) => NodeInvOf(s); FlushHistory(AtTime(s.a, now));
    case DoFlush => NodeInvOf(s); FlushHistory(s.a);
    case Deliver(d) =>
      GoodHears(s, d);
      NextNotBehind(Ear(s.a, false, 0), d);
      HearIsListen(s.a, d);
  }

  lemma StepTrend(r: Trace, i: nat)
    requires IsFair(r) && Good(r.at(i))
    ensures Trend(r.at(i), r.at(i + 1))
    ensures StepOk(r, i)
    ensures r.ev(i).atA ==> r.at(i + 1).b == r.at(i).b
    ensures !r.ev(i).atA ==> r.at(i + 1).a == r.at(i).a
  {
    assert StepOk(r, i);
    var s, e := r.at(i), r.ev(i);
    GoodSwap(s);
    hide IsFair, Good, StepAtA, Offered, NotBehind, NodeUpdate, NodeFlush, NodeHear, Possible, Run, Recent;
    if e.atA {
      StepAtALeads(s, e.act);
      StepNextNotBehind(s, e.act);
    } else {
      StepAtBLeads(s, e.act);
      StepNextNotBehind(Swap(s), e.act);
    }
  }

  lemma {:induction false} RunTrend(r: Trace, i: nat, j: nat)
    requires IsFair(r) && Good(r.at(i)) && i <= j
    ensures Trend(r.at(i), r.at(j))
    decreases j - i
  {
    hide IsFair, Good, Offered;
    if i < j {
      StepTrend(r, i);
      RunTrend(r, i + 1, j);
    }
  }

  // ---- flushes ----

  /** The call flushes, ... */
  predicate Flushes(n: Node, act: Action) {
    (act.DoUpdate? && FlushClock.Tick(n.st.clock, act.now, n.st.cfg.interval).1) || (act.DoFlush? && n.st.clock.updated)
  }

  /** ... and this is the node at that moment. */
  function AtFlush(n: Node, act: Action): Node {
    if act.DoUpdate? then AtTime(n, act.now) else n
  }

  /** A flush at `a`. */
  ghost predicate FlushAt(r: Trace, i: nat) {
    r.ev(i).atA && Flushes(r.at(i).a, r.ev(i).act)
  }

  lemma NextAtFlush(r: Trace, i: nat)
    requires StepOk(r, i) && NodeInv(r.at(i).a) && FlushAt(r, i)
    ensures var m := AtFlush(r.at(i).a, r.ev(i).act);
            && |m.acks| == |m.st.rcv.acks| && NodeInv(m) && m.st.clock.updated
            && r.at(i + 1).a == NodeFlush(m).0
            && forall d | d in NodeFlush(m).1 :: Emits(r, i, d)
  {
    hide NodeInv, NodeFlush, FlushClock.Tick;
    var n, act := r.at(i).a, r.ev(i).act;
    assert |n.acks| == |n.st.rcv.acks|;
    if act.DoUpdate? {
      UpdateFlushes(n, act.now);
    }
  }

  lemma AtFlushFields(n: Node, act: Action)
    ensures var m := AtFlush(n, act);
            && m.st == n.st.(clock := m.st.clock)
            && m.acks == n.acks && m.una == n.una && m.nxt == n.nxt && m.sent == n.sent && m.delivered == n.delivered
  {
  }

  lemma FlushStep(r: Trace, i: nat)
    requires IsFair(r) && Good(r.at(i)) && FlushAt(r, i)
    ensures var n, m := r.at(i).a, AtFlush(r.at(i).a, r.ev(i).act);
            && NodeInv(m) && m.st.clock.updated && m.st == n.st.(clock := m.st.clock)
            && m.acks == n.acks && m.una == n.una && m.nxt == n.nxt && m.sent == n.sent && m.delivered == n.delivered
            && |m.acks| == |m.st.rcv.acks|
            && r.at(i + 1).a == NodeFlush(m).0
            && (forall d | d in NodeFlush(m).1 :: Emits(r, i, d))
            && FlushEffect(m, NodeFlush(m).0, NodeFlush(m).1)
  {
    assert StepOk(r, i);
    hide IsFair, StepOk, Good, NodeInv, NodeFlush, AtFlush, FlushAt, FlushEffect, Emits;
    NodeInvOf(r.at(i));
    NextAtFlush(r, i);
    AtFlushFields(r.at(i).a, r.ev(i).act);
    FlushHasEffect(AtFlush(r.at(i).a, r.ev(i).act));
  }

  // ---- the clock ----

  /** The clock of `a` moves only when it is updated. */
  lemma ClockStep(r: Trace, i: nat)
    requires IsFair(r) && Good(r.at(i))
    ensures var c, c', e := r.at(i).a.st.clock, r.at(i + 1).a.st.clock, r.ev(i);
            c' == if e.atA && e.act.DoUpdate? then FlushClock.Tick(c, e.act.now, r.at(i).a.st.cfg.interval).0 else c
  {
    StepTrend(r, i);
    var s, e := r.at(i), r.ev(i);
    hide IsFair, Good, Trend, NodeInv, NodeFlush, NodeHear, FlushClock.Tick, FlushEffect, Recv, WireOk;
    if e.atA {
      if Flushes(s.a, e.act) {
        FlushStep(r, i);
        FlushKeepsClock(AtFlush(s.a, e.act), NodeFlush(AtFlush(s.a, e.act)).0, NodeFlush(AtFlush(s.a, e.act)).1);
      } else {
        OtherClock(s, e.act);
      }
    }
  }

  lemma FlushKeepsClock(m: Node, n': Node, ds: seq<Datagram>)
    requires |m.acks| == |m.st.rcv.acks| && FlushEffect(m, n', ds)
    ensures n'.st.clock == m.st.clock
  {
    hide FlushTags, FlushedTx;
  }

  lemma OtherClock(s: Sys, act: Action)
    requires Good(s) && EnabledAtA(s, act) && !Flushes(s.a, act) && !act.DoSend?
    ensures StepAtA(s, act).a.st.clock ==
            if act.DoUpdate? then FlushClock.Tick(s.a.st.clock, act.now, s.a.st.cfg.interval).0 else s.a.st.clock
  {
    hide Good, NodeHear, FlushClock.Tick, Recv, WireOk, Flush, FlushTags;
    match act
    case DoRecv(len) => EndpointInvariant.RecvFields(s.a.st, len);
    case Deliver(d) => GoodHearFields(s, d);
    case _ =>
  }

  /** How far the clock of `a` is past a deadline, going round. */
  function Past(r: Trace, i: nat, deadline: u32): u32 {
    Sub32(r.at(i).a.st.clock.current, deadline)
  }

  /** What a step does to a clock that runs: nothing, or a step forward that either
      flushes or leaves at most ten seconds to the next flush. */
  predicate Moves(c: Clock, c': Clock, updating: bool, flushing: bool) {
    && c'.updated && 0 <= Diff(c'.current, c.current) <= STEP
    && (c'.current != c.current ==> updating)
    && (!flushing ==> c'.tsFlush == c.tsFlush)
    && (!flushing && updating ==> 1 <= Sub32(c.tsFlush, c'.current) <= 10000)
  }

  lemma TickMoves(c: Clock, now: u32, interval: u32)
    requires c.updated && 0 <= Diff(now, c.current) <= STEP
    ensures var (c', flush) := FlushClock.Tick(c, now, interval); c'.current == now && Moves(c, c', true, flush)
  {
  }

  lemma ClockMoves(r: Trace, i: nat)
    requires IsFair(r) && Good(r.at(i)) && r.at(i).a.st.clock.updated
    ensures Good(r.at(i + 1))
    ensures Moves(r.at(i).a.st.clock, r.at(i + 1).a.st.clock, r.ev(i).atA && r.ev(i).act.DoUpdate?, FlushAt(r, i))
    ensures Advances(r, i, true) <==> r.at(i + 1).a.st.clock.current != r.at(i).a.st.clock.current
    ensures FlushAt(r, i) ==> AtFlush(r.at(i).a, r.ev(i).act).st.clock.current == r.at(i + 1).a.st.clock.current
  {
    hide Good, StepOk, NodeFlush, Trend;
    TrendIsGood(r, i);
    ClockStep(r, i);
    assert Steady(r, i);
    hide IsFair;
    var c, e, interval := r.at(i).a.st.clock, r.ev(i), r.at(i).a.st.cfg.interval;
    hide Moves, FlushClock.Tick;
    if e.atA && e.act.DoUpdate? {
      TickMoves(c, e.act.now, interval);
    } else {
      StandsStill(c, FlushAt(r, i));
    }
  }

  lemma StandsStill(c: Clock, flushing: bool)
    requires c.updated
    ensures Moves(c, c, false, flushing)
  {
  }

  lemma TrendIsGood(r: Trace, i: nat)
    requires IsFair(r) && Good(r.at(i))
    ensures Good(r.at(i + 1))
  {
    hide IsFair, Good;
    StepTrend(r, i);
  }

  /** Steps forward bring a deadline nearer until it is passed. */
  lemma Nearer(c: Clock, c': Clock, deadline: u32, updating: bool, flushing: bool)
    requires Moves(c, c', updating, flushing) && Sub32(c.current, deadline) > STEP && Sub32(c'.current, deadline) > STEP
    ensures if c'.current == c.current then true else Sub32(deadline, c'.current) < Sub32(deadline, c.current)
  {
  }

  /** The time to the next flush, once known, is used up. */
  ghost predicate Countdown(c: Clock, deadline: u32) {
    Sub32(c.tsFlush, c.current) <= 10000 && Sub32(c.current, deadline) + Sub32(c.tsFlush, c.current) <= 2 * STEP + 10000
  }

  lemma CountdownStep(c: Clock, c': Clock, deadline: u32, updating: bool, flushing: bool)
    requires Moves(c, c', updating, flushing)
    requires Countdown(c, deadline) || Sub32(c.current, deadline) <= STEP
    ensures flushing ==> Diff(c'.current, deadline) >= 0
    ensures !flushing && (updating || Countdown(c, deadline)) ==> Countdown(c', deadline)
    ensures !flushing && updating && c'.current != c.current && Countdown(c, deadline) ==>
              Sub32(c'.tsFlush, c'.current) < Sub32(c.tsFlush, c.current)
  {
  }

  /** The clock comes round to any deadline, ... */
  lemma {:induction false} ClockPasses(r: Trace, i: nat, deadline: u32, next: nat) returns (j: nat)
    requires IsFair(r) && Good(r.at(i)) && r.at(i).a.st.clock.updated && i <= next && Advances(r, next, true)
    ensures i <= j && Good(r.at(j)) && r.at(j).a.st.clock.updated && Past(r, j, deadline) <= STEP
    decreases Sub32(deadline, r.at(i).a.st.clock.current), next - i
  {
    hide IsFair, Good, Advances, FlushAt, AtFlush, Sub32, Diff;
    if Past(r, i, deadline) <= STEP {
      j := i;
    } else {
      ClockMoves(r, i);
      var c, c' := r.at(i).a.st.clock, r.at(i + 1).a.st.clock;
      if Past(r, i + 1, deadline) <= STEP {
        j := i + 1;
      } else {
        Nearer(c, c', deadline, r.ev(i).atA && r.ev(i).act.DoUpdate?, FlushAt(r, i));
        hide Moves;
        var n := next;
        if c'.current != c.current { n := NextAdvance(r, i + 1); }
        j := ClockPasses(r, i + 1, deadline, n);
      }
    }
  }

  /** ... and a flush follows soon: when the time of the next one is known, and if not,
      then at the next update or after it. */
  lemma {:induction false} FlushFollows(r: Trace, i: nat, deadline: u32, next: nat) returns (j: nat)
    requires IsFair(r) && Good(r.at(i)) && r.at(i).a.st.clock.updated && i <= next && Advances(r, next, true)
    requires Countdown(r.at(i).a.st.clock, deadline) || Past(r, i, deadline) <= STEP
    ensures i <= j && Good(r.at(j)) && FlushAt(r, j)
    ensures Diff(AtFlush(r.at(j).a, r.ev(j).act).st.clock.current, deadline) >= 0
    decreases if Countdown(r.at(i).a.st.clock, deadline) then Sub32(r.at(i).a.st.clock.tsFlush, r.at(i).a.st.clock.current) else TWO32,
              next - i
  {
    hide IsFair, Good, Advances, FlushAt, AtFlush, Sub32, Diff, Countdown;
    var c, c', updating := r.at(i).a.st.clock, r.at(i + 1).a.st.clock, r.ev(i).atA && r.ev(i).act.DoUpdate?;
    ClockMoves(r, i);
    CountdownStep(c, c', deadline, updating, FlushAt(r, i));
    if FlushAt(r, i) {
      j := i;
    } else {
      StaysPast(c, c', deadline, updating);
      hide Moves;
      var n := next;
      if c'.current != c.current { n := NextAdvance(r, i + 1); }
      j := FlushFollows(r, i + 1, deadline, n);
    }
  }

  lemma StaysPast(c: Clock, c': Clock, deadline: u32, updating: bool)
    requires Moves(c, c', updating, false)
    ensures c'.tsFlush == c.tsFlush && (!updating ==> c'.current == c.current)
  {
  }

  /** The first update starts the clock. */
  lemma {:induction false} ClockStarts(r: Trace, i: nat, next: nat) returns (j: nat)
    requires IsFair(r) && Good(r.at(i)) && i <= next && Advances(r, next, true)
    ensures i <= j && Good(r.at(j)) && r.at(j).a.st.clock.updated
    decreases next - i
  {
    if r.at(i).a.st.clock.updated {
      j := i;
    } else {
      StepTrend(r, i);
      ClockStep(r, i);
      if i == next {
        FlushClock.TickUpdates(r.at(i).a.st.clock, r.ev(i).act.now, r.at(i).a.st.cfg.interval);
        j := i + 1;
      } else {
        hide IsFair, Good, Advances;
        j := ClockStarts(r, i + 1, next);
      }
    }
  }

  /** For every deadline `a` flushes at a time past it. */
  lemma FlushAfter(r: Trace, i: nat, deadline: u32) returns (j: nat)
    requires IsFair(r) && Good(r.at(i))
    ensures i <= j && Good(r.at(j)) && FlushAt(r, j)
    ensures Diff(AtFlush(r.at(j).a, r.ev(j).act).st.clock.current, deadline) >= 0
  {
    var n := NextAdvance(r, i);
    j := ClockStarts(r, i, n);
    n := NextAdvance(r, j);
    j := ClockPasses(r, j, deadline, n);
    n := NextAdvance(r, j);
    j := FlushFollows(r, j, deadline, n);
  }

  lemma NextAdvance(r: Trace, i: nat) returns (n: nat)
    requires IsFair(r)
    ensures i <= n && Advances(r, n, true)
  {
    assert TimePasses(r, i, true);
    hide IsFair, Advances;
    n :| i <= n && Advances(r, n, true);
  }
}
