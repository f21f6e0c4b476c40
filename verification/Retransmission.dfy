/** What one flush does to a segment of the send buffer. */
module Retransmission {
  import opened Serial
  import opened ControlBlock

  /** What the flush takes from the rest of the endpoint. */
  datatype Env = Env(current: u32, rto: u32, rtoMin: u32, resent: u32, nodelay: u32, fastLimit: i32)

  predicate First(g: SndSeg) {
    g.xmit == 0
  }

  predicate Late(g: SndSeg, e: Env) {
    !First(g) && Diff(e.current, g.resendts) >= 0
  }

  predicate Overtaken(g: SndSeg, e: Env) {
    !First(g) && !Late(g, e) && g.fastack >= e.resent && (AsSigned(g.xmit) <= e.fastLimit || e.fastLimit <= 0)
  }

  predicate Due(g: SndSeg, e: Env) {
    First(g) || Late(g, e) || Overtaken(g, e)
  }

  /** The timeout of a segment that timed out. */
  function BackedOff(g: SndSeg, e: Env): u32 {
    if e.nodelay == 0 then Add32(g.rto, Max(g.rto, e.rto))
    else
      var step := if e.nodelay < 2 then AsSigned(g.rto) else AsSigned(e.rto);
      Add32(g.rto, Low32(TruncDiv(step, 2)))
  }

  /** The segment after the flush has looked at it. */
  function Flushed(g: SndSeg, e: Env): SndSeg {
    if First(g) then
      g.(xmit := 1, rto := e.rto, resendts := Add32(Add32(e.current, e.rto), e.rtoMin))
    else if Late(g, e) then
      g.(xmit := Add32(g.xmit, 1), rto := BackedOff(g, e), resendts := Add32(e.current, BackedOff(g, e)))
    else if Overtaken(g, e) then
      g.(xmit := Add32(g.xmit, 1), fastack := 0, resendts := Add32(e.current, g.rto))
    else g
  }

  /** How far ahead the next deadline of a due segment is set. */
  function Delay(g: SndSeg, e: Env): u32 {
    if First(g) then Add32(e.rto, e.rtoMin) else Flushed(g, e).rto
  }

  /** After the flush the segment has been sent and is not due again at the same
      time: always when it was not due, and for a due one exactly when the delay
      is in the forward half of the clock. */
  lemma ScheduledAfterFlush(g: SndSeg, e: Env)
    ensures Due(g, e) ==> (Diff(e.current, Flushed(g, e).resendts) < 0 <==> 0 < Delay(g, e) <= HALF)
    ensures !Due(g, e) ==> Diff(e.current, Flushed(g, e).resendts) < 0
    ensures g.xmit != 0xffff_ffff ==> Flushed(g, e).xmit >= 1
  {
    assert First(g) ==> Flushed(g, e).resendts == Add32(e.current, Add32(e.rto, e.rtoMin));
  }

  /** With `nodelay` off a timeout at least doubles, as long as it does not wrap. */
  lemma BackoffDoubles(g: SndSeg, e: Env)
    requires e.nodelay == 0
    ensures BackedOff(g, e) >= 2 * g.rto <==> g.rto + Max(g.rto, e.rto) < TWO32 || g.rto == 0
  {
  }

  // ---- a segment's life ----

  datatype Event = Flush(e: Env) | Skip(times: u32)

  function Live(g: SndSeg, events: seq<Event>): SndSeg {
    if events == [] then g
    else
      var h := Live(g, events[..|events| - 1]);
      match events[|events| - 1]
      case Flush(e) => Flushed(h, e)
      case Skip(n) => h.(fastack := Add32(h.fastack, n))
  }

  /** How often the segment timed out. */
  function Timeouts(g: SndSeg, events: seq<Event>): nat {
    if events == [] then 0
    else
      var init := events[..|events| - 1];
      match events[|events| - 1]
      case Flush(e) => Timeouts(g, init) + (if Late(Live(g, init), e) then 1 else 0)
      case Skip(_) => Timeouts(g, init)
  }

  function Transmissions(g: SndSeg, events: seq<Event>): nat {
    if events == [] then 0
    else
      var init := events[..|events| - 1];
      match events[|events| - 1]
      case Flush(e) => Transmissions(g, init) + (if Due(Live(g, init), e) then 1 else 0)
      case Skip(_) => Transmissions(g, init)
  }

  function Pow2(k: nat): nat {
    if k == 0 then 1 else 2 * Pow2(k - 1)
  }

  ghost predicate Plain(events: seq<Event>) {
    forall v | v in events :: v.Flush? ==> v.e.nodelay == 0 && v.e.rto <= RTO_MAX
  }

  /** The longest that a timeout can be after `k` more timeouts, if none wraps: each adds
      the timeout itself or the largest estimate, whichever is more. */
  function Worst(rto: u32, k: nat): nat {
    if k == 0 then rto else Pow2(k - 1) * (rto + Max(rto, RTO_MAX))
  }

  lemma WorstNext(rto: u32, k: nat)
    ensures Worst(rto, k + 1) == Worst(rto, k) + Max(Worst(rto, k), RTO_MAX)
  {
    if k > 0 {
      var x := rto + Max(rto, RTO_MAX);
      Pow2Next(k - 1, x);
      Pow2Mono(0, k - 1);
      Scale(1, Pow2(k - 1), x);
      hide Pow2;
    }
  }

  /** Exponential backoff over any life of a segment that has been sent: after k
      timeouts the timeout has doubled at least k times, whatever flushes, fast
      retransmissions and duplicate acknowledgements came between, as long as the
      longest that it can be by then stays in 32 bits. */
  lemma {:induction false} BackoffIsExponential(g: SndSeg, events: seq<Event>)
    requires g.xmit >= 1 && Plain(events)
    requires g.xmit + |events| < TWO32
    requires Worst(g.rto, Timeouts(g, events)) < TWO32
    ensures Pow2(Timeouts(g, events)) * g.rto <= Live(g, events).rto <= Worst(g.rto, Timeouts(g, events))
    ensures Live(g, events).xmit == g.xmit + Transmissions(g, events) && Transmissions(g, events) <= |events|
  {
    if events != [] {
      var init, v := events[..|events| - 1], events[|events| - 1];
      assert v in events && forall u | u in init :: u in events;
      var k, h := Timeouts(g, init), Live(g, init);
      Pow2Next(k, g.rto);
      WorstNext(g.rto, k);
      hide BackedOff, Pow2, Worst;
      BackoffIsExponential(g, init);
      if v.Flush? && Late(h, v.e) {
        BacksOffOnce(h, v.e, Pow2(k) * g.rto, Worst(g.rto, k));
      }
    }
  }

  lemma BacksOffOnce(h: SndSeg, e: Env, low: int, high: int)
    requires e.nodelay == 0 && e.rto <= RTO_MAX
    requires low <= h.rto <= high && high + Max(high, RTO_MAX) < TWO32
    ensures 2 * low <= BackedOff(h, e) <= high + Max(high, RTO_MAX)
  {
  }

  lemma Pow2Next(k: nat, x: nat)
    ensures Pow2(k + 1) * x == 2 * (Pow2(k) * x) && Pow2(k) * x >= 0
  {
  }

  lemma Pow2Mono(k: nat, n: nat)
    requires k <= n
    ensures 1 <= Pow2(k) <= Pow2(n)
    decreases n
  {
    if k < n { Pow2Mono(k, n - 1); } else if k > 0 { Pow2Mono(k - 1, n - 1); }
  }

  lemma Scale(a: nat, b: nat, x: nat)
    requires a <= b
    ensures a * x <= b * x
  {
  }

  lemma Powers()
    ensures Pow2(15) == 32768 && Pow2(16) == 65536 && Pow2(17) == 131072
  {
    assert Pow2(4) == 16;
    assert Pow2(8) == 256;
    assert Pow2(12) == 4096;
  }

  /** From any timeout up to the largest estimate, sixteen timeouts stay in 32 bits, and
      seventeen from a short one. */
  lemma SixteenFit(k: nat, rto: u32)
    requires rto <= RTO_MAX && k <= if rto <= 5535 then 17 else 16
    ensures Worst(rto, k) < TWO32
  {
    if k > 0 {
      var n := if rto <= 5535 then 16 else 15;
      Pow2Mono(k - 1, n);
      Powers();
      hide Pow2;
      Scale(Pow2(k - 1), Pow2(n), rto + RTO_MAX);
    }
  }

  /** A life of k timeouts in a row, with the largest estimate all along: it reaches the
      longest timeout there can be, unless that does not fit. */
  lemma {:induction false} LateLife(g: SndSeg, k: nat) returns (events: seq<Event>)
    requires g.xmit >= 1 && g.xmit + k < TWO32
    ensures |events| == k && Plain(events) && Timeouts(g, events) == k
    ensures Worst(g.rto, k) < TWO32 ==> Live(g, events).rto == Worst(g.rto, k)
    ensures k > 0 ==> Live(g, events).rto == Add32(Live(g, events[..k - 1]).rto, Max(Live(g, events[..k - 1]).rto, RTO_MAX))
    ensures k > 0 && Worst(g.rto, k - 1) < TWO32 ==> Live(g, events[..k - 1]).rto == Worst(g.rto, k - 1)
    ensures Live(g, events).xmit == g.xmit + k
  {
    if k == 0 {
      events := [];
    } else {
      var init := LateLife(g, k - 1);
      var h := Live(g, init);
      events := init + [Flush(Env(h.resendts, RTO_MAX, 0, 0xffff_ffff, 0, 5))];
      assert events[..|events| - 1] == init;
      WorstNext(g.rto, k - 1);
      hide Worst;
    }
  }

  /** So the condition is exact: one more timeout than fits can make the timeout shorter. */
  lemma TimeoutWraps(g: SndSeg, k: nat) returns (events: seq<Event>)
    requires g.xmit >= 1 && g.xmit + k < TWO32 && k > 0
    requires Worst(g.rto, k - 1) < TWO32 <= Worst(g.rto, k)
    ensures |events| == k && Plain(events) && Timeouts(g, events) == k
    ensures Live(g, events).rto < Live(g, events[..k - 1]).rto
  {
    events := LateLife(g, k);
    WorstNext(g.rto, k - 1);
    hide Worst, Live, Timeouts;
  }

  /** From the largest estimate that is the seventeenth. */
  lemma SeventeenthTimeoutWraps(g: SndSeg) returns (events: seq<Event>)
    requires g.xmit >= 1 && g.xmit + 17 < TWO32 && g.rto == RTO_MAX
    ensures |events| == 17 && Plain(events) && Timeouts(g, events) == 17
    ensures Live(g, events).rto < Live(g, events[..16]).rto
  {
    Powers();
    hide Pow2, Live, Timeouts;
    events := TimeoutWraps(g, 17);
  }
}
