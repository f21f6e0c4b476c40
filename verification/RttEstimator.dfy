/** The round-trip estimator and the retransmission timeout it yields. */
module RttEstimator {
  import opened Serial
  import opened ControlBlock

  /** `_ibound_`. */
  function Bound(lower: u32, middle: u32, upper: u32): u32 {
    Min(Max(lower, middle), upper)
  }

  function Abs(x: int): nat { if x < 0 then -x else x }

  /** `ikcp_update_ack`, in 32-bit arithmetic that wraps. */
  function UpdateAck(r: Rtt, sample: i32, interval: u32, minRto: u32): Rtt {
    var rttval := if r.srtt == 0 then TruncDiv(sample, 2)
                  else WrapSigned(TruncDiv(WrapSigned(3 * r.rttval) + Abs(sample - r.srtt), 4));
    var smoothed := TruncDiv(WrapSigned(WrapSigned(7 * r.srtt) + sample), 8);
    var srtt := if r.srtt == 0 then sample else Max(smoothed, 1);
    var rto := Low32(srtt + Max(interval, Low32(WrapSigned(4 * rttval))));
    Rtt(srtt, rttval, Bound(minRto, rto, RTO_MAX))
  }

  /** None of the signed intermediate results leaves 32 bits. */
  predicate NoOverflow(r: Rtt, sample: i32) {
    && -HALF <= 3 * r.rttval < HALF
    && -HALF <= 7 * r.srtt && 7 * r.srtt + sample < HALF
    && 7 * r.srtt < HALF && -HALF <= 7 * r.srtt + sample
  }

  /** What the timeout is for, whatever the sample: it stays between the bounds. */
  lemma RtoBounded(r: Rtt, sample: i32, interval: u32, minRto: u32)
    requires minRto <= RTO_MAX
    ensures minRto <= UpdateAck(r, sample, interval, minRto).rto <= RTO_MAX
  {
  }

  lemma WrapSignedFits(x: int)
    requires 0 <= x < HALF
    ensures WrapSigned(x) == x && Low32(x) == x
  {
  }

  lemma UpdateInRange(r: Rtt, sample: i32, v: int, s: int)
    requires 0 <= r.srtt < 0x1000_0000 && 0 <= r.rttval < 0x1000_0000 && 0 <= sample < 0x1000_0000
    requires v == if r.srtt == 0 then sample / 2 else (3 * r.rttval + Abs(sample - r.srtt)) / 4
    requires s == if r.srtt == 0 then sample else Max((7 * r.srtt + sample) / 8, 1)
    ensures NoOverflow(r, sample) && 0 <= v < 0x1000_0000 && 0 <= s < 0x1000_0000
  {
  }

  /** Without wrapping, the update is plain arithmetic. */
  lemma UpdateExact(r: Rtt, sample: i32, interval: u32, minRto: u32, v: int, s: int)
    requires 0 <= r.srtt < 0x1000_0000 && 0 <= r.rttval < 0x1000_0000 && 0 <= sample < 0x1000_0000
    requires interval <= 5000
    requires v == if r.srtt == 0 then sample / 2 else (3 * r.rttval + Abs(sample - r.srtt)) / 4
    requires s == if r.srtt == 0 then sample else Max((7 * r.srtt + sample) / 8, 1)
    ensures NoOverflow(r, sample) && 0 <= v < 0x1000_0000 && 0 <= s < 0x1000_0000
    ensures UpdateAck(r, sample, interval, minRto) == Rtt(s, v, Bound(minRto, s + Max(interval, 4 * v), RTO_MAX))
  {
    hide WrapSigned, Low32, Bound, NoOverflow;
    UpdateInRange(r, sample, v, s);
    WrapSignedFits(4 * v);
    WrapSignedFits(s + Max(interval, 4 * v));
    if r.srtt != 0 {
      WrapSignedFits(3 * r.rttval);
      WrapSignedFits(7 * r.srtt);
      WrapSignedFits(7 * r.srtt + sample);
      WrapSignedFits(v);
    }
  }

  /** One update is formulas (2.2) and (2.3) of RFC 6298 with alpha 1/8, beta 1/4
      and K 4, each rounded down, but with an estimate of at least 1 after the first. */
  lemma UpdateIsRfc6298(r: Rtt, sample: i32, interval: u32, minRto: u32)
    requires 0 <= r.srtt < 0x1000_0000 && 0 <= r.rttval < 0x1000_0000 && 0 <= sample < 0x1000_0000
    requires interval <= 5000
    ensures var r' := UpdateAck(r, sample, interval, minRto);
            && NoOverflow(r, sample)
            && 4 * r'.rttval < HALF
            && (r.srtt == 0 ==> r'.srtt == sample && 0 <= sample - 2 * r'.rttval < 2)
            && (r.srtt != 0 ==>
                  && 0 <= 3 * r.rttval + Abs(r.srtt - sample) - 4 * r'.rttval < 4
                  && (if 7 * r.srtt + sample < 8 then r'.srtt == 1 else 0 <= 7 * r.srtt + sample - 8 * r'.srtt < 8))
            && r'.rto == Bound(minRto, r'.srtt + Max(interval, 4 * r'.rttval), RTO_MAX)
  {
    var v := if r.srtt == 0 then sample / 2 else (3 * r.rttval + Abs(sample - r.srtt)) / 4;
    var s := if r.srtt == 0 then sample else Max((7 * r.srtt + sample) / 8, 1);
    hide UpdateAck, NoOverflow, Bound;
    UpdateExact(r, sample, interval, minRto, v, s);
  }

  function After(r: Rtt, samples: seq<i32>, interval: u32, minRto: u32): Rtt {
    if samples == [] then r
    else UpdateAck(After(r, samples[..|samples| - 1], interval, minRto), samples[|samples| - 1], interval, minRto)
  }

  /** Over any run of samples from [lo, hi], the estimate stays among the samples,
      the deviation below the largest, the timeout in its bounds, and no signed
      intermediate result overflows. */
  lemma {:induction false} EstimateStaysAmongSamples(samples: seq<i32>, lo: int, hi: int, interval: u32, minRto: u32)
    requires 0 <= lo <= hi < 0x1000_0000
    requires forall s | s in samples :: lo <= s <= hi
    requires interval <= 5000 && minRto <= RTO_MAX
    ensures var r := After(Rtt(0, 0, RTO_DEF), samples, interval, minRto);
            && (samples != [] ==> lo <= r.srtt <= hi && minRto <= r.rto)
            && (samples == [] ==> r.srtt == 0)
            && 0 <= r.rttval <= hi
            && r.rto <= RTO_MAX
            && forall s | lo <= s <= hi :: NoOverflow(r, s)
  {
    if samples != [] {
      var init, s := samples[..|samples| - 1], samples[|samples| - 1];
      assert forall t | t in init :: t in samples;
      EstimateStaysAmongSamples(init, lo, hi, interval, minRto);
      assert s in samples;
      var r := After(Rtt(0, 0, RTO_DEF), init, interval, minRto);
      UpdateIsRfc6298(r, s, interval, minRto);
    }
  }
}
