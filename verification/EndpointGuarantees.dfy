/** What an application can count on at one endpoint, whatever the other side and
    the network do. */
module EndpointGuarantees {
  import opened Serial
  import opened Wire
  import opened ControlBlock
  import opened Endpoint
  import opened EndpointInvariant
  import Retransmission
  import RttEstimator
  import SendBuffer
  import RecvBuffer
  import Congestion
  import FlushClock
  import Packing

  // ---- runs of calls ----

  datatype Call =
    | Sending(buffer: seq<u8>, len: int)
    | Receiving(len: int)
    | Arriving(data: seq<u8>)
    | Updating(now: u32)
    | Flushing

  ghost predicate Legal(c: Call) {
    c.Sending? ==> c.len <= |c.buffer|
  }

  function Apply(s: State, c: Call): State
    requires Legal(c) && s.cfg.Mss() > 0
  {
    match c
    case Sending(buffer, len) => Send(s, buffer, len).0
    case Receiving(len) => Recv(s, len).0
    case Arriving(data) => Input(s, data).0
    case Updating(now) => Update(s, now).0
    case Flushing => Flush(s).0
  }

  lemma ApplyKeepsInv(s: State, c: Call)
    requires Inv(s) && Legal(c)
    ensures s.cfg.Mss() > 0 && Inv(Apply(s, c))
  {
    assert s.cfg.Mss() > 0 by { hide SendBuffer.Inv, RecvBuffer.Inv, Congestion.Inv; }
    hide Inv, Config.Mss, Send, Recv, Input, Update, Flush;
    match c
    case Sending(buffer, len) => SendKeepsInv(s, buffer, len);
    case Receiving(len) => RecvKeepsInv(s, len);
    case Arriving(data) => InputKeepsInv(s, data);
    case Updating(now) => UpdateKeepsInv(s, now);
    case Flushing => UpdateKeepsInv(s, 0);
  }

  /** The state after any calls, in any order, with any arguments. */
  ghost function After(s: State, calls: seq<Call>): (s': State)
    requires Inv(s) && forall c | c in calls :: Legal(c)
    ensures Inv(s')
    decreases |calls|
  {
    if calls == [] then s
    else
      ApplyKeepsInv(s, calls[0]);
      After(Apply(s, calls[0]), calls[1..])
  }

  /** The send buffer is strictly ordered inside the window of unacknowledged numbers,
      whose low end is its head; the receive buffer is strictly ordered inside the
      receive window and drained as far as it can be; the congestion window is sound. */
  ghost predicate WellOrdered(s: State) {
    && Sub32(s.snd.nxt, s.snd.una) <= 65535
    && s.snd.una == (if s.snd.buf == [] then s.snd.nxt else s.snd.buf[0].sn)
    && (forall i, j | 0 <= i < j < |s.snd.buf| ::
          Sub32(s.snd.buf[i].sn, s.snd.una) < Sub32(s.snd.buf[j].sn, s.snd.una) < Sub32(s.snd.nxt, s.snd.una))
    && (forall i, j | 0 <= i < j < |s.rcv.buf| ::
          Sub32(s.rcv.buf[i].sn, s.rcv.nxt) < Sub32(s.rcv.buf[j].sn, s.rcv.nxt) < s.cfg.rcvWnd)
    && |s.rcv.queue| <= s.cfg.rcvWnd
    && (s.rcv.buf == [] || s.rcv.buf[0].sn != s.rcv.nxt || |s.rcv.queue| == s.cfg.rcvWnd)
    && s.cong.ssthresh >= 2 && s.cfg.Mss() > 0
    && s.cong.cwnd <= (s.cong.incr + s.cfg.Mss() - 1) / s.cfg.Mss() <= s.cong.cwnd + 1
    && s.rtt.rto <= 60000
  }

  lemma InvMeansWellOrdered(s: State)
    requires Inv(s)
    ensures WellOrdered(s)
  {
    Congestion.CwndIsAtMostCeil(s.cong, s.cfg.Mss());
    hide SendBuffer.FragOk, Congestion.Inv;
  }

  /** So it is in every state that calls can lead to, for any bytes that arrive. */
  lemma AnyCallsKeepOrder(cfg: Config, calls: seq<Call>)
    requires cfg.Valid() && forall c | c in calls :: Legal(c)
    ensures Inv(Create(cfg)) && WellOrdered(After(Create(cfg), calls))
  {
    hide Inv, Create, WellOrdered;
    CreateInv(cfg);
    hide After;
    InvMeansWellOrdered(After(Create(cfg), calls));
  }

  // ---- input ----

  /** What reading segments leaves of the sending half: `snd_una` only moves forward,
      by as much as the flight shrinks, and the window counts are left alone. */
  ghost predicate Forward(s: State, s': State) {
    && s'.snd.nxt == s.snd.nxt && s'.snd.queue == s.snd.queue && s'.cong == s.cong && s'.cfg == s.cfg
    && Sub32(s'.snd.una, s.snd.una) + SendBuffer.InFlight(s'.snd) == SendBuffer.InFlight(s.snd)
  }

  lemma ForwardTrans(s: State, t: State, u: State)
    requires Forward(s, t) && Forward(t, u)
    ensures Forward(s, u)
  {
  }

  lemma HearHeaderForward(s: State, w: WireSeg)
    requires Inv(s)
    ensures Forward(s, HearHeader(s, w)) && SendBuffer.Inv(HearHeader(s, w).snd, s.cfg.Mss())
  {
    hide SendBuffer.Inv, SendBuffer.ParseUna, SendBuffer.Shrink, RecvBuffer.Inv, Congestion.Inv;
    SendBuffer.HearUnaKeepsInv(s.snd, w.una, s.cfg.Mss());
  }

  lemma HearCommandForward(h: Hearing, w: WireSeg)
    requires SendBuffer.Inv(h.s.snd, h.s.cfg.Mss())
    ensures Forward(h.s, HearCommand(h, w).s)
  {
    FlightOf(h.s.snd, h.s.cfg.Mss());
    hide SendBuffer.Inv, SendBuffer.ParseAck, SendBuffer.Shrink, RecvBuffer.HearPush, RttEstimator.UpdateAck;
    SendBuffer.HearAckKeepsInv(h.s.snd, w.sn, h.s.cfg.Mss());
  }

  lemma FlightOf(snd: Sender, mss: u32)
    requires SendBuffer.Inv(snd, mss)
    ensures SendBuffer.InFlight(snd) <= MAX_WND
  {
  }

  lemma HearSegForward(h: Hearing, w: WireSeg)
    requires Inv(h.s)
    ensures Forward(h.s, HearSeg(h, w).s) && Inv(HearSeg(h, w).s)
  {
    HearSegKeepsInv(h, w);
    hide Inv, SendBuffer.Inv, HearHeader, HearCommand, Forward;
    HearHeaderForward(h.s, w);
    assert HearHeader(h.s, w).cfg == h.s.cfg by { hide *; HeaderCfg(h.s, w); }
    HearCommandForward(h.(s := HearHeader(h.s, w)), w);
    ForwardTrans(h.s, HearHeader(h.s, w), HearSeg(h, w).s);
  }

  lemma HeaderCfg(s: State, w: WireSeg)
    ensures HearHeader(s, w).cfg == s.cfg
  {
  }

  lemma {:induction false} HearAllForward(h: Hearing, ws: Packet)
    requires Inv(h.s)
    ensures Forward(h.s, HearAll(h, ws).s) && Inv(HearAll(h, ws).s)
    decreases |ws|
  {
    hide Inv, HearSeg;
    if ws == [] {
      assert Forward(h.s, h.s) by { hide HearAll; FlightSmall(h.s); }
    } else {
      HearSegForward(h, ws[0]);
      HearAllForward(HearSeg(h, ws[0]), ws[1..]);
      ForwardTrans(h.s, HearSeg(h, ws[0]).s, HearAll(h, ws).s) by { hide Forward; }
    }
  }

  lemma FlightSmall(s: State)
    requires Inv(s)
    ensures SendBuffer.InFlight(s.snd) <= MAX_WND
  {
  }

  /** Whatever bytes arrive: `snd_una` never moves back and never passes `snd_nxt`,
      and the congestion window moves only when `snd_una` did, by at most two
      segments upwards and not past the window that the peer advertised. */
  lemma InputMovesForward(s: State, data: seq<u8>)
    requires Inv(s)
    ensures var s' := Input(s, data).0;
            && s'.snd.nxt == s.snd.nxt && s'.snd.queue == s.snd.queue
            && Sub32(s'.snd.una, s.snd.una) + SendBuffer.InFlight(s'.snd) == SendBuffer.InFlight(s.snd)
            && (s'.snd.una == s.snd.una ==> s'.cong == s.cong)
            && s.cong.cwnd <= s'.cong.cwnd <= s.cong.cwnd + 2
            && s'.cong.cwnd <= Max(s.cong.cwnd, s'.rmtWnd)
  {
    hide HearAll, Parse, Inv, FinishInput;
    var (ws, code) := Parse(s.cfg.conv, data);
    var h := HearAll(Hearing(s, false, 0), ws);
    HearAllForward(Hearing(s, false, 0), ws);
    assert Forward(s, s) by { FlightSmall(s); }
    FinishForward(s, h);
  }

  lemma FinishForward(s: State, h: Hearing)
    requires Forward(s, h.s) && Inv(s) && Inv(h.s)
    ensures h.s.cfg.Mss() > 0
    ensures var s' := FinishInput(h, s.snd.una);
            && s'.snd.nxt == s.snd.nxt && s'.snd.queue == s.snd.queue && s'.snd.una == h.s.snd.una && s'.rmtWnd == h.s.rmtWnd
            && (s'.snd.una == s.snd.una ==> s'.cong == s.cong)
            && s.cong.cwnd <= s'.cong.cwnd <= s.cong.cwnd + 2
            && s'.cong.cwnd <= Max(s.cong.cwnd, s'.rmtWnd)
  {
    Congestion.OnAckKeepsInv(h.s.cong, h.s.cfg.Mss(), h.s.rmtWnd);
    hide Congestion.OnAck, SendBuffer.ParseFastack, SendBuffer.Inv, RecvBuffer.Inv, Congestion.Inv;
  }

  // ---- flush ----

  /** The datagrams of a flush, put together, are the acknowledgements, then the
      probes, then the due segments in order; each fits in the MTU, and no other way
      to cut these segments into datagrams that fit takes fewer. */
  lemma FlushPacksGreedily(s: State, ps: seq<Packet>)
    requires Inv(s) && s.clock.updated
    ensures var out := Flush(s).1;
            && Packing.Flatten(out) == AckItems(s) + ProbeItems(s) + DataItems(s, Number(s).buf)
            && (forall p | p in out :: p != [] && PacketSize(p) <= s.cfg.mtu)
            && (Packing.Flatten(ps) == Packing.Flatten(out) && (forall p | p in ps :: PacketSize(p) <= s.cfg.mtu) ==> |out| <= |ps|)
  {
    FlushItemsOk(s);
    var items := FlushItems(s);
    hide Inv, AfterFlush, Number, AckItems, ProbeItems, DataItems, Packing.Pack, Packing.Flatten, Packing.Packets, PacketSize;
    Packing.PackingIsFaithful(s.cfg.mtu, items);
    if Packing.Flatten(ps) == items && forall p | p in ps :: PacketSize(p) <= s.cfg.mtu {
      Packing.GreedyStaysAhead(s.cfg.mtu, items, ps);
    }
  }

  /** After a flush a segment of the send buffer is due again at the same time
      exactly if its delay was out of the forward half of the clock. */
  lemma FlushSchedulesAll(s: State)
    requires Inv(s) && s.clock.updated
    ensures var buf, s', e := Number(s).buf, Flush(s).0, EnvOf(s);
            && |s'.snd.buf| == |buf|
            && forall i | 0 <= i < |buf| ::
                 && s'.snd.buf[i].sn == buf[i].sn && s'.snd.buf[i].frag == buf[i].frag
                 && (buf[i].xmit < 0xffff_ffff ==> s'.snd.buf[i].xmit >= 1)
                 && (Diff(s.clock.current, s'.snd.buf[i].resendts) < 0 <==>
                       !Retransmission.Due(buf[i], e) || 0 < Retransmission.Delay(buf[i], e) <= HALF)
  {
    var buf, e := Number(s).buf, EnvOf(s);
    forall i | 0 <= i < |buf|
      ensures Diff(e.current, Retransmission.Flushed(buf[i], e).resendts) < 0 <==>
                !Retransmission.Due(buf[i], e) || 0 < Retransmission.Delay(buf[i], e) <= HALF
      ensures buf[i].xmit < 0xffff_ffff ==> Retransmission.Flushed(buf[i], e).xmit >= 1
    {
      hide Retransmission.Flushed, Retransmission.Due, Retransmission.Delay;
      Retransmission.ScheduledAfterFlush(buf[i], e);
    }
    hide Number, EnvOf, Retransmission.Due, Retransmission.Delay, Retransmission.Late, Retransmission.Overtaken, Inv;
  }

  /** A timeout short enough that backing off stays in the forward half of the clock. */
  predicate ShortTimeout(g: SndSeg) {
    0 < g.rto && g.rto + Max(g.rto, RTO_MAX) < HALF && g.xmit < 0xffff_ffff
  }

  lemma ShortTimeoutSchedules(g: SndSeg, e: Retransmission.Env)
    requires ShortTimeout(g) && RTO_NDL <= e.rto <= RTO_MAX && e.rtoMin <= e.rto
    ensures 0 < Retransmission.Delay(g, e) <= HALF
  {
  }

  lemma NumberedAreShort(s: State)
    requires Inv(s) && forall g | g in s.snd.buf :: ShortTimeout(g)
    ensures forall g | g in Number(s).buf :: ShortTimeout(g)
    ensures RTO_NDL <= EnvOf(s).rto <= RTO_MAX && EnvOf(s).rtoMin <= EnvOf(s).rto && EnvOf(s).current == s.clock.current
  {
    NumberMembers(s);
    hide Number, SendBuffer.Inv, RecvBuffer.Inv, Congestion.Inv;
  }

  /** With short timeouts every segment has been sent after a flush and waits for a
      deadline that lies ahead. */
  lemma FlushLeavesNothingDue(s: State)
    requires Inv(s) && s.clock.updated && forall g | g in s.snd.buf :: ShortTimeout(g)
    ensures forall g | g in Flush(s).0.snd.buf :: g.xmit >= 1 && Diff(s.clock.current, g.resendts) < 0
  {
    FlushSchedulesAll(s);
    NumberedAreShort(s);
    var buf, e, buf' := Number(s).buf, EnvOf(s), Flush(s).0.snd.buf;
    hide Inv, Flush, EnvOf, Number, ShortTimeout, Retransmission.Due, Retransmission.Delay;
    forall g' | g' in buf' ensures g'.xmit >= 1 && Diff(s.clock.current, g'.resendts) < 0 {
      var i :| 0 <= i < |buf'| && buf'[i] == g';
      assert buf[i] in buf;
      ShortTimeoutSchedules(buf[i], e);
    }
  }

  // ---- update and check ----

  function Updates(s: State, times: seq<u32>): (State, seq<Packet>) {
    if times == [] then (s, [])
    else
      var (s1, sent) := Updates(s, times[..|times| - 1]);
      var (s2, more) := Update(s1, times[|times| - 1]);
      (s2, sent + more)
  }

  /** Until the time that `ikcp_check` names, updating only records the time. */
  lemma {:induction false} QuietUntilCheck(s: State, now: u32, times: seq<u32>)
    requires 10 <= s.cfg.interval <= 5000 && times != []
    requires forall u | u in times ::
               Sub32(u, now) < Sub32(FlushClock.Check(s.clock, s.snd.buf, s.cfg.interval, now), now)
    ensures Updates(s, times) == (s.(clock := s.clock.(current := times[|times| - 1])), [])
    decreases |times|
  {
    var init, u := times[..|times| - 1], times[|times| - 1];
    assert forall v | v in init :: v in times;
    FlushClock.CheckIsSound(s.clock, s.snd.buf, s.cfg.interval, now, times);
    FlushClock.CheckIsSound(s.clock, s.snd.buf, s.cfg.interval, now, init);
    hide FlushClock.Check, FlushClock.Tick, Flush;
    var (c1, _) := FlushClock.Ticks(s.clock, init, s.cfg.interval);
    assert FlushClock.Tick(c1, u, s.cfg.interval) == (s.clock.(current := u), false);
    if init != [] {
      QuietUntilCheck(s, now, init);
    }
    assert Updates(s, times).1 == [];
  }
}
