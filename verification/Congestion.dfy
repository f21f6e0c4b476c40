/** The congestion window, counted in segments (`cwnd`) and in bytes (`incr`). */
module Congestion {
  import opened Serial
  import opened ControlBlock

  /** The two counts agree to within one segment, and neither can overflow. */
  ghost predicate Inv(c: Cong, mss: u32) {
    && 2 <= c.ssthresh
    && c.cwnd <= MAX_WND
    && (c.cwnd - 1) * mss < c.incr < (c.cwnd + 1) * mss
  }

  /** The largest segment payload for which the arithmetic stays in 32 bits. */
  ghost predicate MssOk(mss: u32) { 0 < mss <= 65511 }

  /** The window step at the end of an `ikcp_input` that moved `snd_una`. */
  function OnAck(c: Cong, mss: u32, rmtWnd: u32): Cong
    requires mss > 0
  {
    if c.cwnd >= rmtWnd then c
    else
      var c' := if c.cwnd < c.ssthresh then Cong(Add32(c.cwnd, 1), c.ssthresh, Add32(c.incr, mss))
                else Avoidance(c, mss);
      if c'.cwnd > rmtWnd then Cong(rmtWnd, c'.ssthresh, Mul32(rmtWnd, mss)) else c'
  }

  function Div32(a: u32, b: u32): u32
    requires b > 0
  {
    a / b
  }

  /** The additive step above `ssthresh`. */
  function Avoidance(c: Cong, mss: u32): Cong
    requires mss > 0
  {
    var incr: u32 := Max(c.incr, mss);
    var incr' := Add32(incr, Add32(Div32(Mul32(mss, mss), incr), mss / 16));
    if Mul32(Add32(c.cwnd, 1), mss) <= incr' then
      Cong(Div32(Sub32(Add32(incr', mss), 1), mss), c.ssthresh, incr')
    else
      Cong(c.cwnd, c.ssthresh, incr')
  }

  /** The window step at the end of `ikcp_flush`. */
  function OnFlush(c: Cong, mss: u32, fast: bool, lost: bool, inflight: u32, window: u32, resent: u32): Cong {
    var c1 := if fast then
                var thresh: u32 := Max(inflight / 2, THRESH_MIN);
                Cong(Add32(thresh, resent), thresh, Mul32(Add32(thresh, resent), mss))
              else c;
    var c2 := if lost then Cong(1, Max(window / 2, THRESH_MIN), mss) else c1;
    if c2.cwnd < 1 then Cong(1, c2.ssthresh, mss) else c2
  }

  // ---- products and quotients ----

  lemma MulMono(a: int, b: int, d: int)
    ensures a <= b && 0 <= d ==> a * d <= b * d
  {
  }

  lemma MulBelow(a: int, b: int, aMax: int, bMax: int)
    requires 0 <= a <= aMax && 0 <= b <= bMax
    ensures 0 <= a * b <= aMax * bMax
  {
    MulMono(a, aMax, b);
    MulMono(b, bMax, aMax);
  }

  lemma DivBelow(n: nat, d: nat, q: nat)
    requires d > 0 && n < q * d
    ensures n / d < q
  {
    assert (n / d) * d <= n;
    MulMono(q, n / d, d);
  }

  lemma CeilBounds(x: nat, m: nat, w: int)
    requires 0 < m && w * m < x <= (w + 1) * m
    ensures (x + m - 1) / m == w + 1
  {
    var k := (x + m - 1) / m;
    assert k * m <= x + m - 1 < k * m + m;
    assert (w + 1) * m == w * m + m;
    assert (w + 2) * m == w * m + 2 * m;
    MulMono(k, w, m);
    MulMono(w + 2, k, m);
  }

  // ---- the steps ----

  /** What one additive step adds is less than a segment ... */
  lemma QuotientBelow(incr: int, mss: int)
    requires 0 < mss < incr
    ensures 0 <= mss * mss / incr < mss
  {
    MulMono(mss + 1, incr, mss);
    DivBelow(mss * mss, incr, mss);
  }

  /** ... and at most half of one when the byte window is at least two segments. */
  lemma QuotientHalf(incr: int, mss: int)
    requires 0 < mss && 2 * mss <= incr
    ensures 2 * (mss * mss / incr) <= mss
  {
    var q, r := mss * mss / incr, mss * mss % incr;
    assert q * incr + r == mss * mss;
    QuotientHalfAux(incr, mss, q);
  }

  lemma QuotientHalfAux(incr: int, mss: int, q: nat)
    requires 0 < mss && 2 * mss <= incr && q * incr <= mss * mss
    ensures 2 * q <= mss
  {
    MulMono(2 * mss, incr, q);
    assert (2 * mss) * q == (2 * q) * mss;
    MulMono(mss + 1, 2 * q, mss);
    assert (mss + 1) * mss == mss * mss + mss;
  }

  lemma AvoidanceRoom(c: Cong, mss: u32)
    requires Inv(c, mss) && MssOk(mss) && 2 <= c.cwnd < MAX_WND
    ensures mss < c.incr
    ensures c.incr + mss * mss / c.incr + mss / 16 <= (c.cwnd + 1) * mss + mss
    ensures 0 <= mss * mss < TWO32 && (c.cwnd + 1) * mss + 2 * mss < TWO32
  {
    MulMono(1, c.cwnd - 1, mss);
    MulBelow(mss, mss, 65511, 65511);
    MulBelow(c.cwnd + 1, mss, MAX_WND, 65511);
    MulMono(3, c.cwnd + 1, mss);
    QuotientBelow(c.incr, mss);
    if c.incr >= 2 * mss { QuotientHalf(c.incr, mss); }
  }

  /** Nothing wraps in the additive step, and the `incr < mss` repair never fires. */
  lemma AvoidanceUnwrapped(c: Cong, mss: u32)
    requires Inv(c, mss) && MssOk(mss) && 2 <= c.cwnd < MAX_WND
    ensures var incr' := c.incr + mss * mss / c.incr + mss / 16;
            && mss < c.incr <= incr' <= (c.cwnd + 1) * mss + mss
            && Avoidance(c, mss).incr == incr'
            && Avoidance(c, mss).cwnd == if (c.cwnd + 1) * mss <= incr' then (incr' + mss - 1) / mss else c.cwnd
  {
    AvoidanceRoom(c, mss);
    QuotientBelow(c.incr, mss);
    MulMono(0, c.cwnd + 1, mss);
    Mul32Fits(mss, mss);
    Mul32Fits(c.cwnd + 1, mss);
  }

  lemma Mul32Fits(a: u32, b: u32)
    requires 0 <= a * b < TWO32
    ensures Mul32(a, b) == a * b
  {
  }

  lemma CeilBetween(x: nat, m: nat, w: nat)
    requires 0 < m && w * m <= x <= w * m + m
    ensures var k := (x + m - 1) / m; w <= k <= w + 1 && (k - 1) * m < x < (k + 1) * m
  {
    assert (w + 1) * m == w * m + m;
    assert (w - 1) * m == w * m - m;
    if w * m < x {
      CeilBounds(x, m, w);
      assert (w + 2) * m == w * m + 2 * m;
    } else {
      CeilBounds(x, m, w - 1);
    }
  }

  /** Above `ssthresh` the byte window grows as in equation (3) of section 3.1 of
      RFC 5681, plus the extra mss/16; the segment window follows it by at most two. */
  lemma AvoidanceStep(c: Cong, mss: u32)
    requires Inv(c, mss) && MssOk(mss) && c.ssthresh <= c.cwnd < MAX_WND
    ensures c.incr > mss
    ensures Avoidance(c, mss).incr == c.incr + mss * mss / c.incr + mss / 16
    ensures c.cwnd <= Avoidance(c, mss).cwnd <= c.cwnd + 2
    ensures (Avoidance(c, mss).cwnd - 1) * mss < Avoidance(c, mss).incr < (Avoidance(c, mss).cwnd + 1) * mss
  {
    hide Avoidance;
    AvoidanceUnwrapped(c, mss);
    var incr' := Avoidance(c, mss).incr;
    if (c.cwnd + 1) * mss <= incr' {
      CeilBetween(incr', mss, c.cwnd + 1);
    }
  }

  /** Below `ssthresh` both counts grow by one segment. */
  lemma SlowStart(c: Cong, mss: u32)
    requires Inv(c, mss) && MssOk(mss) && c.cwnd < MAX_WND
    ensures Add32(c.incr, mss) == c.incr + mss
    ensures Inv(Cong(Add32(c.cwnd, 1), c.ssthresh, Add32(c.incr, mss)), mss)
  {
    MulBelow(c.cwnd + 1, mss, MAX_WND, 65511);
    assert (c.cwnd + 2) * mss == (c.cwnd + 1) * mss + mss;
    assert c.cwnd * mss == (c.cwnd - 1) * mss + mss;
  }

  /** A window of w segments counted as exactly w * mss bytes. */
  lemma WholeSegments(w: u32, thresh: u32, mss: u32)
    requires MssOk(mss) && w <= MAX_WND && thresh >= 2
    ensures Inv(Cong(w, thresh, Mul32(w, mss)), mss)
  {
    MulBelow(w, mss, MAX_WND, 65511);
    assert (w - 1) * mss == w * mss - mss;
    assert (w + 1) * mss == w * mss + mss;
  }

  /** One `ikcp_input` keeps the coupling, raises `cwnd` by at most two and never
      past the remote window. */
  lemma OnAckKeepsInv(c: Cong, mss: u32, rmtWnd: u32)
    requires Inv(c, mss) && MssOk(mss) && rmtWnd <= MAX_WND
    ensures Inv(OnAck(c, mss, rmtWnd), mss)
    ensures c.cwnd <= OnAck(c, mss, rmtWnd).cwnd <= c.cwnd + 2
    ensures OnAck(c, mss, rmtWnd).cwnd <= Max(c.cwnd, rmtWnd)
  {
    if c.cwnd < rmtWnd {
      WholeSegments(rmtWnd, c.ssthresh, mss);
      if c.cwnd < c.ssthresh {
        SlowStart(c, mss);
      } else {
        AvoidanceStep(c, mss);
      }
    }
  }

  /** One `ikcp_flush` keeps the coupling and leaves the window open, whichever of
      its three adjustments fire. */
  lemma OnFlushKeepsInv(c: Cong, mss: u32, fast: bool, lost: bool, inflight: u32, window: u32, resent: u32)
    requires Inv(c, mss) && MssOk(mss) && inflight <= MAX_WND
    requires 0 < resent <= 255 || resent == 0xffff_ffff
    ensures Inv(OnFlush(c, mss, fast, lost, inflight, window, resent), mss)
    ensures OnFlush(c, mss, fast, lost, inflight, window, resent).cwnd >= 1
    ensures lost ==> OnFlush(c, mss, fast, lost, inflight, window, resent).cwnd == 1
  {
    var thresh: u32 := Max(inflight / 2, THRESH_MIN);
    WholeSegments(Add32(thresh, resent), thresh, mss);
    WholeSegments(1, Max(window / 2, THRESH_MIN), mss);
    WholeSegments(1, thresh, mss);
    WholeSegments(1, c.ssthresh, mss);
  }

  /** The coupling in the form of a rounded-up quotient. */
  lemma CwndIsAtMostCeil(c: Cong, mss: u32)
    requires Inv(c, mss) && mss > 0
    ensures c.cwnd <= (c.incr + mss - 1) / mss <= c.cwnd + 1
  {
    assert (c.cwnd - 1) * mss == c.cwnd * mss - mss;
    assert (c.cwnd + 1) * mss == c.cwnd * mss + mss;
    CeilNear(c.incr, mss, c.cwnd);
  }

  lemma CeilNear(x: nat, m: nat, w: nat)
    requires m > 0 && w * m - m < x < w * m + m
    ensures w <= (x + m - 1) / m <= w + 1
  {
    var k := (x + m - 1) / m;
    assert k * m <= x + m - 1 < k * m + m;
    assert (k + 1) * m == k * m + m;
    MulMono(k + 1, w, m);
    assert (w + 2) * m == w * m + 2 * m;
    MulMono(w + 2, k, m);
  }
}
