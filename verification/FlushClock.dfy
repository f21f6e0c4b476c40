/** When `ikcp_update` flushes, and what `ikcp_check` says about it. */
module FlushClock {
  import opened Serial
  import opened ControlBlock

  const SLAP_LIMIT: int := 10000

  /** `ikcp_update` up to the flush itself, and whether it flushes. */
  function Tick(c: Clock, now: u32, interval: u32): (Clock, bool) {
    var ts := if c.updated then c.tsFlush else now;
    var slap := Diff(now, ts);
    var far := slap >= SLAP_LIMIT || slap < -SLAP_LIMIT;
    if slap >= 0 || far then
      var next := Add32(if far then now else ts, interval);
      (Clock(now, if Diff(now, next) >= 0 then Add32(now, interval) else next, true), true)
    else
      (Clock(now, ts, true), false)
  }

  lemma TickUpdates(c: Clock, now: u32, interval: u32)
    ensures Tick(c, now, interval).0.updated && Tick(c, now, interval).0.current == now
  {
  }

  /** Some unacknowledged segment is due for retransmission. */
  predicate Overdue(buf: seq<SndSeg>, now: u32) {
    exists g | g in buf :: Diff(g.resendts, now) <= 0
  }

  /** The shortest wait among the retransmission deadlines. */
  function ShortestWait(buf: seq<SndSeg>, now: u32): i32 {
    if buf == [] then 0x7fff_ffff
    else Min(ShortestWait(buf[..|buf| - 1], now), Diff(buf[|buf| - 1].resendts, now))
  }

  /** `ikcp_check`. */
  function Check(c: Clock, buf: seq<SndSeg>, interval: u32, now: u32): u32 {
    var slap := Diff(now, c.tsFlush);
    if !c.updated || slap >= 0 || slap < -SLAP_LIMIT || Overdue(buf, now) then now
    else Add32(now, Low32(Min(Min(ShortestWait(buf, now), Diff(c.tsFlush, now)), interval)))
  }

  lemma {:induction false} ShortestWaitProps(buf: seq<SndSeg>, now: u32)
    ensures forall g | g in buf :: ShortestWait(buf, now) <= Diff(g.resendts, now)
    ensures !Overdue(buf, now) ==> ShortestWait(buf, now) > 0
  {
    if buf != [] {
      var init, last := buf[..|buf| - 1], buf[|buf| - 1];
      ShortestWaitProps(init, now);
      assert last in buf;
      assert forall g | g in buf :: g in init || g == last;
      assert forall g | g in init :: g in buf;
    }
  }

  function Ticks(c: Clock, times: seq<u32>, interval: u32): (Clock, bool) {
    if times == [] then (c, false)
    else
      var (c1, flushed) := Ticks(c, times[..|times| - 1], interval);
      var (c2, flushes) := Tick(c1, times[|times| - 1], interval);
      (c2, flushed || flushes)
  }

  /** `ikcp_check` is sound: any number of updates at times from `now` up to, but
      not including, the time it returns do nothing but record the time, and that
      time is at most one interval ahead, across the wrap of the clock as well. */
  lemma {:induction false} CheckIsSound(c: Clock, buf: seq<SndSeg>, interval: u32, now: u32, times: seq<u32>)
    requires 10 <= interval <= 5000
    requires forall u | u in times :: Sub32(u, now) < Sub32(Check(c, buf, interval, now), now)
    ensures Sub32(Check(c, buf, interval, now), now) <= interval
    ensures times != [] ==> Ticks(c, times, interval) == (c.(current := times[|times| - 1]), false)
  {
    CheckIsNear(c, buf, interval, now);
    if times != [] {
      var init, u := times[..|times| - 1], times[|times| - 1];
      assert u in times && forall v | v in init :: v in times;
      QuietBefore(c, buf, interval, now, u);
      hide Check;
      CheckIsSound(c, buf, interval, now, init);
    }
  }

  lemma CheckIsNear(c: Clock, buf: seq<SndSeg>, interval: u32, now: u32)
    requires 10 <= interval <= 5000
    ensures Sub32(Check(c, buf, interval, now), now) <= interval
  {
    ShortestWaitProps(buf, now);
    hide Overdue, ShortestWait;
  }

  /** Before the time it names, the flush deadline lies ahead, and not too far. */
  lemma QuietBefore(c: Clock, buf: seq<SndSeg>, interval: u32, now: u32, u: u32)
    requires 10 <= interval <= 5000 && Sub32(u, now) < Sub32(Check(c, buf, interval, now), now)
    ensures c.updated && -SLAP_LIMIT <= Diff(u, c.tsFlush) < 0
  {
    ShortestWaitProps(buf, now);
    hide Overdue, ShortestWait;
  }

  /** The converse fails: an overdue segment makes `ikcp_check` ask for an update
      now, although updating now flushes only when the flush deadline has passed
      or lies unreasonably far away. */
  lemma CheckAsksTooEarly(c: Clock, buf: seq<SndSeg>, interval: u32, now: u32)
    requires c.updated && Overdue(buf, now)
    ensures Check(c, buf, interval, now) == now
    ensures Tick(c, now, interval).1 <==> !(-SLAP_LIMIT <= Diff(now, c.tsFlush) < 0)
  {
  }

  /** It happens: with a flush 50 ms away and a segment due now, the check says now,
      and an update now does nothing but record the time. */
  lemma CheckTooEarlyAt1000()
    ensures var c, g := Clock(990, 1050, true), SndSeg(Frag(0, []), 0, 1000, 200, 0, 1);
            Check(c, [g], 100, 1000) == 1000 && Tick(c, 1000, 100) == (Clock(1000, 1050, true), false)
  {
    var c, g := Clock(990, 1050, true), SndSeg(Frag(0, []), 0, 1000, 200, 0, 1);
    assert g in [g] && Diff(g.resendts, 1000) <= 0;
    CheckAsksTooEarly(c, [g], 100, 1000);
  }

  lemma {:induction false} ShortestWaitIsOne(buf: seq<SndSeg>, now: u32)
    ensures ShortestWait(buf, now) == 0x7fff_ffff || exists g | g in buf :: ShortestWait(buf, now) == Diff(g.resendts, now)
  {
    if buf != [] {
      var init, last := buf[..|buf| - 1], buf[|buf| - 1];
      ShortestWaitIsOne(init, now);
      assert last in buf && forall g | g in init :: g in buf;
    }
  }

  /** `ikcp_check` is sharp. It says now if and only if nothing was updated yet, the
      flush deadline has passed or lies more than 10 s away, or a segment is overdue.
      Otherwise it names the flush deadline, the retransmission deadline of a segment, or
      the end of one interval, and of all these none comes earlier. */
  lemma CheckIsSharp(c: Clock, buf: seq<SndSeg>, interval: u32, now: u32)
    requires 10 <= interval <= 5000
    ensures var t := Check(c, buf, interval, now);
            && (t == now <==> || !c.updated
                              || !(-10000 <= Diff(now, c.tsFlush) < 0)
                              || exists g | g in buf :: Diff(g.resendts, now) <= 0)
            && (t != now ==>
                  && (t == c.tsFlush || t == Add32(now, interval) || exists g | g in buf :: t == g.resendts)
                  && Sub32(t, now) <= Sub32(c.tsFlush, now)
                  && Sub32(t, now) <= interval
                  && forall g | g in buf :: Sub32(t, now) <= Sub32(g.resendts, now))
  {
    ShortestWaitProps(buf, now);
    ShortestWaitIsOne(buf, now);
    hide ShortestWait;
  }

  /** `ikcp_update` flushes at the first call, from the flush deadline on, and when the
      deadline is unreasonably far away. A flush less than an interval late keeps the
      rhythm; any other one starts it anew. */
  lemma TickKeepsRhythm(c: Clock, now: u32, interval: u32)
    requires 10 <= interval <= 5000
    ensures var (c', flush) := Tick(c, now, interval);
            && c'.current == now && c'.updated
            && (flush <==> !c.updated || !(-10000 <= Diff(now, c.tsFlush) < 0))
            && (!flush ==> c'.tsFlush == c.tsFlush)
            && (flush ==> c'.tsFlush == if c.updated && 0 <= Diff(now, c.tsFlush) < interval then Add32(c.tsFlush, interval)
                                        else Add32(now, interval))
  {
  }

  // ---- flushes over a whole run ----

  /** The clock after updates at `times` (milliseconds that do not wrap), and the
      times of the updates that flushed. */
  function Run(times: seq<nat>, interval: u32): (Clock, seq<nat>) {
    if times == [] then (Clock(0, INTERVAL, false), [])
    else
      var (c, flushes) := Run(times[..|times| - 1], interval);
      var now := times[|times| - 1];
      var (c', flush) := Tick(c, Low32(now), interval);
      (c', if flush then flushes + [now] else flushes)
  }

  /** Time moves forward in steps of at most `d`. */
  ghost predicate Forward(times: seq<nat>, d: nat) {
    forall i | 0 < i < |times| :: times[i - 1] <= times[i] <= times[i - 1] + d
  }

  /** So many intervals fit into a span. */
  predicate Fit(n: nat, interval: u32, span: int) { n * interval <= span }

  lemma OneMoreFits(n: nat, interval: u32, span: int, more: int)
    requires Fit(n, interval, span) && more >= interval
    ensures Fit(n + 1, interval, span + more)
  {
    assert (n + 1) * interval == n * interval + interval;
  }

  /** The run so far: the next flush deadline as an unbounded time. */
  ghost predicate Scheduled(times: seq<nat>, interval: u32, d: nat, deadline: nat) {
    var (c, flushes) := Run(times, interval);
    && c.updated
    && c.tsFlush == Low32(deadline)
    && times[|times| - 1] < deadline <= times[|times| - 1] + interval
    && Fit(|flushes|, interval, deadline as int - times[0] as int)
    && flushes != []
    && deadline <= flushes[|flushes| - 1] + interval
    && (forall i | 0 < i < |flushes| :: flushes[i] - flushes[i - 1] <= interval + d)
  }

  /** One tick moves the deadline as unbounded times say. */
  lemma TickDeadline(c: Clock, now: nat, deadline: nat, interval: u32) returns (next: nat)
    requires c.updated && c.tsFlush == Low32(deadline) && 10 <= interval <= 5000
    requires deadline - interval <= now < deadline + HALF - 1
    ensures var (c', flush) := Tick(c, Low32(now), interval);
            && c'.updated && c'.tsFlush == Low32(next)
            && (flush <==> deadline <= now)
    ensures next == if now < deadline then deadline
                    else if now - deadline >= interval then now + interval else deadline + interval
  {
    DiffOfCounts(now, deadline);
    Low32Add(now, interval);
    Low32Add(deadline, interval);
    DiffOfCounts(now, deadline + interval);
    DiffOfCounts(now, now + interval);
    next := if now < deadline then deadline
            else if now - deadline >= interval then now + interval else deadline + interval;
  }

  lemma {:induction false} RunIsScheduled(times: seq<nat>, interval: u32, d: nat) returns (deadline: nat)
    requires times != [] && Forward(times, d) && d < HALF && 10 <= interval <= 5000
    ensures Scheduled(times, interval, d, deadline)
  {
    hide Low32, Tick, Fit;
    var init, now := times[..|times| - 1], times[|times| - 1];
    var (c, flushes) := Run(init, interval);
    if init == [] {
      deadline := now + interval;
      FirstTick(now, interval);
      assert Run(times, interval).1 == [now];
    } else {
      var before := RunIsScheduled(init, interval, d);
      deadline := TickDeadline(c, now, before, interval);
      if now >= before {
        assert Run(times, interval).1 == flushes + [now];
        OneMoreFits(|flushes|, interval, before as int - times[0] as int, deadline as int - before as int);
      }
    }
  }

  lemma FirstTick(now: nat, interval: u32)
    requires 10 <= interval <= 5000
    ensures Tick(Clock(0, INTERVAL, false), Low32(now), interval) ==
            (Clock(Low32(now), Low32(now + interval), true), true)
    ensures Fit(1, interval, interval)
  {
    Low32Add(now, interval);
    DiffOfCounts(now, now + interval);
  }

  /** Over any run with a forward clock there is at most one flush an interval,
      and two successive flushes are at most an interval and one step apart. */
  lemma FlushesArePaced(times: seq<nat>, interval: u32, d: nat)
    requires times != [] && Forward(times, d) && d < HALF && 10 <= interval <= 5000
    ensures var flushes := Run(times, interval).1;
            && |flushes| * interval <= times[|times| - 1] - times[0] + interval
            && forall i | 0 < i < |flushes| :: flushes[i] - flushes[i - 1] <= interval + d
  {
    var _ := RunIsScheduled(times, interval, d);
  }
}
