/** What an arriving datagram does, said in the fields of the control block and of the
    segments it holds. */
module InputEffects {
  import opened Serial
  import opened Wire
  import opened ControlBlock
  import opened Endpoint
  import opened EndpointInvariant
  import opened EndpointGuarantees
  import RttEstimator
  import SendBuffer
  import RecvBuffer
  import Congestion
  import SegmentLife

  /** The segments that are read before the end of the datagram or its first fault. */
  function Read(s: State, data: seq<u8>): Packet {
    if AsSigned(Low32(|data|)) < OVERHEAD then [] else Parse(s.cfg.conv, data).0
  }

  /** The state when the last segment has been read. */
  function Heard(s: State, data: seq<u8>): Hearing {
    HearAll(Hearing(s, false, 0), Read(s, data))
  }

  lemma InputIs(s: State, data: seq<u8>)
    requires s.cfg.Mss() > 0
    ensures Heard(s, data).s.cfg == s.cfg
    ensures Input(s, data).0 == if Input(s, data).1 == 0 then FinishInput(Heard(s, data), s.snd.una) else Heard(s, data).s
  {
    HearAllKeepsCfg(Hearing(s, false, 0), Read(s, data));
    hide FinishInput, Parse;
  }

  // ---- the congestion window ----

  /** Congestion avoidance: the byte window follows equation (3) of section 3.1 of RFC
      5681, plus a sixteenth of a segment; the segment window is the byte window rounded
      up once that holds another segment; neither gets past the remote window. */
  ghost predicate Avoids(c: Cong, c': Cong, mss: u32, rmtWnd: u32) {
    && c.incr > 0 && mss > 0
    && var bytes := c.incr + mss * mss / c.incr + mss / 16;
       var segs := if bytes < (c.cwnd + 1) * mss then c.cwnd as int else (bytes + mss - 1) / mss;
       if segs <= rmtWnd then c'.incr == bytes && c'.cwnd == segs
       else c'.incr == rmtWnd * mss && c'.cwnd == rmtWnd
  }

  /** A datagram that acknowledges new data opens the congestion window, if the remote
      window is wider: by a segment below `ssthresh` (slow start), and above as congestion
      avoidance has it. Nothing else that arrives moves it. */
  lemma InputGrowsWindow(s: State, data: seq<u8>)
    requires Inv(s)
    ensures var (s', code) := Input(s, data);
            var c, c', mss := s.cong, s'.cong, s.cfg.Mss();
            && c'.ssthresh == c.ssthresh
            && (code != 0 || s'.snd.una == s.snd.una || c.cwnd >= s'.rmtWnd ==> c' == c)
            && (code == 0 && s'.snd.una != s.snd.una && c.cwnd < s'.rmtWnd ==>
                  if c.cwnd < c.ssthresh then c'.cwnd == c.cwnd + 1 && c'.incr == c.incr + mss
                  else Avoids(c, c', mss, s'.rmtWnd))
  {
    InputIs(s, data);
    var h := Heard(s, data);
    HearAllForward(Hearing(s, false, 0), Read(s, data));
    FlightSmall(s);
    assert h.s.rmtWnd <= MAX_WND && Congestion.Inv(s.cong, s.cfg.Mss()) && Congestion.MssOk(s.cfg.Mss());
    CongFinished(h, s.snd.una);
    hide Inv, Input, Heard, FinishInput, Congestion.OnAck, Avoids, Config.Mss, Congestion.Inv, Congestion.MssOk;
    if s.cong.cwnd < h.s.rmtWnd { OnAckIs(s.cong, s.cfg.Mss(), h.s.rmtWnd); }
  }

  lemma CongFinished(h: Hearing, prevUna: u32)
    requires h.s.cfg.Mss() > 0
    ensures var s' := FinishInput(h, prevUna);
            && s'.snd.una == h.s.snd.una && s'.rmtWnd == h.s.rmtWnd
            && s'.cong == if Diff(h.s.snd.una, prevUna) > 0 then Congestion.OnAck(h.s.cong, h.s.cfg.Mss(), h.s.rmtWnd) else h.s.cong
  {
    hide Congestion.OnAck, SendBuffer.ParseFastack, Config.Mss;
  }

  lemma OnAckIs(c: Cong, mss: u32, rmtWnd: u32)
    requires Congestion.Inv(c, mss) && Congestion.MssOk(mss) && c.cwnd < rmtWnd <= MAX_WND
    ensures var c' := Congestion.OnAck(c, mss, rmtWnd);
            && c'.ssthresh == c.ssthresh
            && if c.cwnd < c.ssthresh then c'.cwnd == c.cwnd + 1 && c'.incr == c.incr + mss
               else Avoids(c, c', mss, rmtWnd)
  {
    if c.cwnd < c.ssthresh {
      Congestion.SlowStart(c, mss);
    } else {
      Congestion.AvoidanceUnwrapped(c, mss);
      Congestion.MulBelow(rmtWnd, mss, MAX_WND, 65511);
      Congestion.Mul32Fits(rmtWnd, mss);
      assert Congestion.Avoidance(c, mss).ssthresh == c.ssthresh;
      hide Congestion.Avoidance, Mul32;
    }
  }

  // ---- which segments were overtaken ----

  predicate Acks(w: WireSeg, sn: u32) {
    w.cmd == CMD_ACK && w.sn == sn
  }

  /** Of the numbers acknowledged by the segments, `m` is newer than every other. */
  ghost predicate Newest(ws: Packet, m: u32) {
    && (exists w | w in ws :: Acks(w, m))
    && (forall w | w in ws && w.cmd == CMD_ACK :: w.sn == m || Diff(m, w.sn) > 0)
  }

  lemma HearSegFlag(h: Hearing, w: WireSeg)
    ensures var h' := HearSeg(h, w);
            && h'.flag == (h.flag || w.cmd == CMD_ACK)
            && h'.maxack == if w.cmd == CMD_ACK && !(h.flag && Diff(w.sn, h.maxack) <= 0) then w.sn else h.maxack
  {
    hide HearHeader, SendBuffer.HearAck, RttEstimator.UpdateAck, RecvBuffer.HearPush;
  }

  lemma {:induction false} NewestFrom(h: Hearing, ws: Packet, m: u32)
    requires forall w | w in ws && w.cmd == CMD_ACK :: w.sn == m || Diff(m, w.sn) > 0
    requires h.flag ==> h.maxack == m || Diff(m, h.maxack) > 0
    requires (h.flag && h.maxack == m) || exists w | w in ws :: Acks(w, m)
    ensures HearAll(h, ws).flag && HearAll(h, ws).maxack == m
    decreases |ws|
  {
    if ws != [] {
      HearSegFlag(h, ws[0]);
      assert ws[0] in ws && forall w | w in ws[1..] :: w in ws;
      assert forall w | w in ws :: w == ws[0] || w in ws[1..];
      hide HearSeg;
      NewestFrom(HearSeg(h, ws[0]), ws[1..], m);
    }
  }

  lemma {:induction false} NoAckHeard(h: Hearing, ws: Packet)
    requires forall w | w in ws :: w.cmd != CMD_ACK
    ensures HearAll(h, ws).flag == h.flag
    decreases |ws|
  {
    if ws != [] {
      HearSegFlag(h, ws[0]);
      assert ws[0] in ws && forall w | w in ws[1..] :: w in ws;
      hide HearSeg;
      NoAckHeard(HearSeg(h, ws[0]), ws[1..]);
    }
  }

  /** After a datagram was read whole, the number against which the segments in flight
      are counted is the newest that it acknowledged, wherever in the datagram that is. */
  lemma HeardIsNewest(s: State, data: seq<u8>, m: u32)
    requires Newest(Read(s, data), m)
    ensures Heard(s, data).flag && Heard(s, data).maxack == m
  {
    hide Read, HearAll;
    NewestFrom(Hearing(s, false, 0), Read(s, data), m);
  }

  /** Three acknowledgements a third of the serial space apart have no newest: each is
      newer than one of the others. */
  lemma NoNewest(ws: Packet, x: WireSeg)
    requires x.cmd == CMD_ACK
    requires ws == [x.(sn := 0), x.(sn := 0x6000_0000), x.(sn := 0xC000_0000)]
    ensures forall m :: !Newest(ws, m)
  {
    assert ws[0] in ws && ws[1] in ws && ws[2] in ws;
  }

  /** A segment still in flight after a datagram was read whole was overtaken once more
      if and only if the newest acknowledgement is for a number in flight that is newer;
      nothing else about it changes. */
  lemma InputCountsOvertaken(s: State, data: seq<u8>, m: u32, g: SndSeg)
    requires Inv(s) && Newest(Read(s, data), m) && g in s.snd.buf
    ensures var (s', code) := Input(s, data);
            code == 0 ==> forall g' | g' in s'.snd.buf && g'.sn == g.sn ::
              var overtaken := Sub32(g.sn, s'.snd.una) < Sub32(m, s'.snd.una) < Sub32(s'.snd.nxt, s'.snd.una);
              g' == if overtaken then g.(fastack := Add32(g.fastack, 1)) else g
  {
    HeardIsNewest(s, data, m);
    assert s.cfg.Mss() > 0 by { hide SendBuffer.Inv, RecvBuffer.Inv, Congestion.Inv; }
    InputIs(s, data);
    var h := Heard(s, data);
    HearAllForward(Hearing(s, false, 0), Read(s, data));
    FinishForward(s, h);
    hide Inv, FinishInput, Parse, HearAll, Newest, Input;
    var (s', code) := Input(s, data);
    forall g' | code == 0 && g' in s'.snd.buf && g'.sn == g.sn
      ensures var overtaken := Sub32(g.sn, s'.snd.una) < Sub32(m, s'.snd.una) < Sub32(s'.snd.nxt, s'.snd.una);
              g' == if overtaken then g.(fastack := Add32(g.fastack, 1)) else g
    {
      SegmentLife.InputHappens(s, data, g, g');
      OvertakesIs(s, data, m, g);
    }
  }

  lemma OvertakesIs(s: State, data: seq<u8>, m: u32, g: SndSeg)
    requires s.cfg.Mss() > 0 && Input(s, data).1 == 0 && Heard(s, data).flag && Heard(s, data).maxack == m
    ensures var snd := Heard(s, data).s.snd;
            SegmentLife.Overtakes(s, data, g) <==>
            Sub32(g.sn, snd.una) < Sub32(m, snd.una) < Sub32(snd.nxt, snd.una)
  {
    hide HearAll, Parse, FinishInput, Sub32, Config.Mss;
  }

  /** Without an acknowledgement in it, a datagram overtakes nothing. */
  lemma InputOvertakesNothing(s: State, data: seq<u8>, g: SndSeg)
    requires Inv(s) && g in s.snd.buf && forall w | w in Read(s, data) :: w.cmd != CMD_ACK
    ensures forall g' | g' in Input(s, data).0.snd.buf && g'.sn == g.sn :: g' == g
  {
    NoAckHeard(Hearing(s, false, 0), Read(s, data));
    assert !SegmentLife.Overtakes(s, data, g) by { hide Inv, Input, Parse, HearAll, Sub32; }
    hide Inv, Input, SegmentLife.Overtakes;
    forall g' | g' in Input(s, data).0.snd.buf && g'.sn == g.sn ensures g' == g {
      SegmentLife.InputHappens(s, data, g, g');
    }
  }

  // ---- what leaves the send buffer ----

  /** The segment says that the number `sn`, in flight from `una` on, has arrived. */
  predicate Covers(w: WireSeg, una: u32, sn: u32) {
    Acks(w, sn) || (Sub32(w.una, una) < HALF && Sub32(sn, una) < Sub32(w.una, una))
  }

  /** `snd` is what the segments leave of the sending half of `s`. */
  ghost predicate Leaves(s: State, ws: Packet, snd: Sender) {
    && SendBuffer.Inv(snd, s.cfg.Mss())
    && snd.nxt == s.snd.nxt
    && Sub32(snd.una, s.snd.una) + SendBuffer.InFlight(snd) == SendBuffer.InFlight(s.snd)
    && forall g :: g in snd.buf <==> g in s.snd.buf && !exists w | w in ws :: Covers(w, s.snd.una, g.sn)
  }

  /** Not so far behind that it is past the antipode of what is in flight. */
  predicate NotAntipodal(w: WireSeg, una: u32) {
    !(HALF <= Sub32(w.una, una) <= HALF + MAX_WND)
  }

  lemma HearSegSender(h: Hearing, w: WireSeg)
    ensures HearSeg(h, w).s.snd == (if w.cmd == CMD_ACK then SendBuffer.HearAck(SendBuffer.HearUna(h.s.snd, w.una), w.sn)
                                    else SendBuffer.HearUna(h.s.snd, w.una))
    ensures HearSeg(h, w).s.cfg == h.s.cfg
  {
    hide SendBuffer.HearAck, SendBuffer.HearUna, RttEstimator.UpdateAck, RecvBuffer.HearPush;
  }

  /** A cumulative acknowledgement covers the same numbers in flight whether it is counted
      from where the flight starts now or from where it started. */
  lemma UnaOffsets(base: u32, una: u32, w: u32, sn: u32)
    requires Sub32(una, base) + Sub32(sn, una) <= MAX_WND
    requires !(HALF <= Sub32(w, base) <= HALF + MAX_WND)
    ensures Sub32(w, base) < HALF && Sub32(sn, base) < Sub32(w, base) <==>
            Sub32(w, una) < HALF && Sub32(sn, una) < Sub32(w, una)
  {
  }

  lemma HearKeepsNxt(snd: Sender, una: u32, sn: u32)
    ensures SendBuffer.HearUna(snd, una).nxt == snd.nxt && SendBuffer.HearAck(snd, sn).nxt == snd.nxt
  {
  }

  lemma InFlightBound(snd: Sender, mss: u32)
    requires SendBuffer.Inv(snd, mss)
    ensures SendBuffer.InFlight(snd) <= MAX_WND
    ensures forall g | g in snd.buf :: Sub32(g.sn, snd.una) < SendBuffer.InFlight(snd)
  {
  }

  lemma CoversOneMore(ws: Packet, w: WireSeg, base: u32, sn: u32)
    ensures (exists v | v in ws + [w] :: Covers(v, base, sn)) <==> (exists v | v in ws :: Covers(v, base, sn)) || Covers(w, base, sn)
  {
    assert forall v :: v in ws + [w] <==> v in ws || v == w;
    hide Covers;
  }

  lemma LeavesStep(s: State, ws: Packet, h: Hearing, w: WireSeg)
    requires Leaves(s, ws, h.s.snd) && NotAntipodal(w, s.snd.una) && SendBuffer.Inv(s.snd, s.cfg.Mss())
    ensures Leaves(s, ws + [w], HearSeg(h, w).s.snd)
  {
    hide HearSeg, SendBuffer.Inv, SendBuffer.HearUna, SendBuffer.HearAck, SendBuffer.InFlight, Sub32, Covers, NotAntipodal;
    hide Config.Mss;
    var snd, base, mss := h.s.snd, s.snd.una, s.cfg.Mss();
    var heard, done := SendBuffer.HearUna(snd, w.una), HearSeg(h, w).s.snd;
    HearSegSender(h, w);
    SendBuffer.HearUnaKeepsInv(snd, w.una, mss);
    SendBuffer.HearAckKeepsInv(heard, w.sn, mss);
    HearKeepsNxt(snd, w.una, 0);
    HearKeepsNxt(heard, 0, w.sn);
    InFlightBound(s.snd, mss);
    InFlightBound(snd, mss);
    Dropped(snd, heard, done, w, base);
    Moved(base, snd, heard);
    if w.cmd == CMD_ACK { Moved(base, heard, done); }
    forall g: SndSeg
      ensures (exists v | v in ws + [w] :: Covers(v, base, g.sn)) <==>
                (exists v | v in ws :: Covers(v, base, g.sn)) || Covers(w, base, g.sn)
    {
      CoversOneMore(ws, w, base, g.sn);
    }
  }

  /** Steps of `snd_una` add up, as long as they stay inside the flight. */
  lemma Moved(base: u32, snd: Sender, snd': Sender)
    requires Sub32(snd.una, base) + SendBuffer.InFlight(snd) <= MAX_WND
    requires Sub32(snd'.una, snd.una) + SendBuffer.InFlight(snd') == SendBuffer.InFlight(snd)
    ensures Sub32(snd'.una, base) + SendBuffer.InFlight(snd') == Sub32(snd.una, base) + SendBuffer.InFlight(snd)
  {
  }

  lemma Dropped(snd: Sender, heard: Sender, done: Sender, w: WireSeg, base: u32)
    requires forall g | g in snd.buf :: Sub32(snd.una, base) + Sub32(g.sn, snd.una) <= MAX_WND
    requires NotAntipodal(w, base)
    requires forall g :: g in heard.buf <==>
               g in snd.buf && (Sub32(w.una, snd.una) < HALF ==> Sub32(g.sn, snd.una) >= Sub32(w.una, snd.una))
    requires if w.cmd == CMD_ACK then forall g :: g in done.buf <==> g in heard.buf && g.sn != w.sn else done == heard
    ensures forall g :: g in done.buf <==> g in snd.buf && !Covers(w, base, g.sn)
  {
    forall g | g in snd.buf
      ensures Sub32(w.una, base) < HALF && Sub32(g.sn, base) < Sub32(w.una, base) <==>
              Sub32(w.una, snd.una) < HALF && Sub32(g.sn, snd.una) < Sub32(w.una, snd.una)
    {
      UnaOffsets(base, snd.una, w.una, g.sn);
    }
    hide Sub32;
  }

  lemma {:induction false} LeavesAll(s: State, done: Packet, h: Hearing, ws: Packet)
    requires Leaves(s, done, h.s.snd) && SendBuffer.Inv(s.snd, s.cfg.Mss())
    requires forall w | w in ws :: NotAntipodal(w, s.snd.una)
    ensures Leaves(s, done + ws, HearAll(h, ws).s.snd)
    decreases |ws|
  {
    hide HearSeg, Leaves, NotAntipodal, SendBuffer.Inv;
    if ws == [] {
      assert done + ws == done;
    } else {
      assert ws[0] in ws && forall w | w in ws[1..] :: w in ws;
      LeavesStep(s, done, h, ws[0]);
      LeavesAll(s, done + [ws[0]], HearSeg(h, ws[0]), ws[1..]);
      assert done + [ws[0]] + ws[1..] == done + ws;
    }
  }

  /** `buf'` holds exactly the numbers in flight that none of the segments acknowledges,
      with their fragments. */
  ghost predicate Survivors(s: State, ws: Packet, buf': seq<SndSeg>) {
    && (forall g | g in s.snd.buf ::
          (exists i :: 0 <= i < |buf'| && buf'[i].sn == g.sn) <==> !exists w | w in ws :: Covers(w, s.snd.una, g.sn))
    && (forall i | 0 <= i < |buf'| :: exists g | g in s.snd.buf :: g.sn == buf'[i].sn && g.frag == buf'[i].frag)
  }

  /** The numbers that leave the send buffer are exactly those that some segment of the
      datagram acknowledges, selectively or cumulatively; the others stay, with their
      fragments. A cumulative acknowledgement within 65536 of the antipode of `snd_una` can
      be read either way once `snd_una` has moved (`LateUnaDropsMore`). */
  lemma InputDropsAcknowledged(s: State, data: seq<u8>)
    requires Inv(s) && forall w | w in Read(s, data) :: NotAntipodal(w, s.snd.una)
    ensures Survivors(s, Read(s, data), Input(s, data).0.snd.buf)
  {
    assert s.cfg.Mss() > 0 by { hide SendBuffer.Inv, RecvBuffer.Inv, Congestion.Inv; }
    hide Inv, Read, HearAll, Leaves, SendBuffer.Inv, FinishInput, Input, NotAntipodal, Covers, Config.Mss, Survivors;
    InputIs(s, data);
    LeavesNone(s);
    LeavesAll(s, [], Hearing(s, false, 0), Read(s, data));
    assert [] + Read(s, data) == Read(s, data);
    FinishKeepsSegments(Heard(s, data), s.snd.una);
    Survive(s, Read(s, data), Heard(s, data).s.snd, Input(s, data).0.snd.buf);
  }

  lemma Survive(s: State, ws: Packet, snd: Sender, buf': seq<SndSeg>)
    requires Leaves(s, ws, snd) && SendBuffer.Inv(s.snd, s.cfg.Mss())
    requires |buf'| == |snd.buf| && forall i | 0 <= i < |buf'| :: buf'[i].sn == snd.buf[i].sn && buf'[i].frag == snd.buf[i].frag
    ensures Survivors(s, ws, buf')
  {
    var n, buf := SendBuffer.InFlight(s.snd), snd.buf;
    assert SendBuffer.Ordered(s.snd.buf, s.snd.una, n);
    hide Covers, SendBuffer.Inv, SendBuffer.Ordered;
    forall g | g in s.snd.buf
      ensures (exists i :: 0 <= i < |buf'| && buf'[i].sn == g.sn) <==> g in buf
    {
      if g in buf {
        var i :| 0 <= i < |buf| && buf[i] == g;
        assert buf'[i].sn == g.sn;
      }
      if i :| 0 <= i < |buf'| && buf'[i].sn == g.sn {
        assert buf[i] in buf;
        SegmentLife.OneOfANumber(s.snd.buf, s.snd.una, n, buf[i], g);
      }
    }
    forall i | 0 <= i < |buf'| ensures exists g | g in s.snd.buf :: g.sn == buf'[i].sn && g.frag == buf'[i].frag {
      assert buf[i] in buf;
    }
  }

  /** With 0 and 1 in flight, a `una` of 2^31 is behind both; but once a `una` of 1 has moved
      `snd_una` on, it is ahead and empties the buffer. */
  lemma LateUnaDropsMore(f: Frag, w: WireSeg)
    requires w.una == HALF && w.cmd != CMD_ACK
    ensures var snd := Sender(0, 2, [], [SndSeg(f, 0, 0, 0, 0, 1), SndSeg(f, 1, 0, 0, 0, 1)]);
            && !Covers(w, snd.una, 0) && !Covers(w, snd.una, 1)
            && SendBuffer.HearUna(snd, w.una) == snd
            && SendBuffer.HearUna(SendBuffer.HearUna(snd, 1), w.una).buf == []
  {
    var g0, g1 := SndSeg(f, 0, 0, 0, 0, 1), SndSeg(f, 1, 0, 0, 0, 1);
    assert [g0, g1][1..] == [g1] && [g1][1..] == [];
    assert SendBuffer.KeepFrom([g1], 0, 1) == [g1] && SendBuffer.KeepFrom([g0, g1], 0, 1) == [g1];
    assert SendBuffer.KeepFrom([g1], 1, HALF - 1) == [];
  }

  lemma LeavesNone(s: State)
    requires Inv(s)
    ensures Leaves(s, [], s.snd) && SendBuffer.Inv(s.snd, s.cfg.Mss())
  {
    InFlightBound(s.snd, s.cfg.Mss());
  }

  lemma FinishKeepsSegments(h: Hearing, prevUna: u32)
    requires h.s.cfg.Mss() > 0
    ensures var buf, buf' := h.s.snd.buf, FinishInput(h, prevUna).snd.buf;
            |buf'| == |buf| && forall i | 0 <= i < |buf| :: buf'[i].sn == buf[i].sn && buf'[i].frag == buf[i].frag
  {
    hide Congestion.OnAck;
  }

  // ---- what it learns about the peer and the path ----

  /** The round-trip times that the acknowledgements measure. */
  function Samples(now: u32, ws: Packet): seq<i32> {
    if ws == [] then []
    else (if ws[0].cmd == CMD_ACK && Diff(now, ws[0].ts) >= 0 then [Diff(now, ws[0].ts)] else []) + Samples(now, ws[1..])
  }

  lemma {:induction false} AfterFirst(r: Rtt, x: i32, samples: seq<i32>, interval: u32, minRto: u32)
    ensures RttEstimator.After(r, [x] + samples, interval, minRto) ==
            RttEstimator.After(RttEstimator.UpdateAck(r, x, interval, minRto), samples, interval, minRto)
  {
    hide RttEstimator.UpdateAck;
    var all := [x] + samples;
    if samples == [] {
      assert all[..|all| - 1] == [];
      assert all[|all| - 1] == x;
    } else {
      assert all[..|all| - 1] == [x] + samples[..|samples| - 1];
      AfterFirst(r, x, samples[..|samples| - 1], interval, minRto);
    }
  }

  lemma HearSegLearns(h: Hearing, w: WireSeg)
    ensures var s, s' := h.s, HearSeg(h, w).s;
            && s'.rmtWnd == w.wnd
            && s'.probe == s.probe.(tell := s.probe.tell || w.cmd == CMD_WASK)
            && s'.rtt == (if w.cmd == CMD_ACK && Diff(s.clock.current, w.ts) >= 0
                          then RttEstimator.UpdateAck(s.rtt, Diff(s.clock.current, w.ts), s.cfg.interval, s.cfg.minRto) else s.rtt)
            && s'.clock == s.clock && s'.cfg == s.cfg && s'.dead == s.dead && s'.xmit == s.xmit
  {
    hide SendBuffer.HearAck, SendBuffer.HearUna, RttEstimator.UpdateAck, RecvBuffer.HearPush;
  }

  lemma {:induction false} HearAllLearns(h: Hearing, ws: Packet)
    ensures var s, s' := h.s, HearAll(h, ws).s;
            && s'.rmtWnd == (if ws == [] then s.rmtWnd else ws[|ws| - 1].wnd)
            && s'.probe == s.probe.(tell := s.probe.tell || exists w | w in ws :: w.cmd == CMD_WASK)
            && s'.rtt == RttEstimator.After(s.rtt, Samples(s.clock.current, ws), s.cfg.interval, s.cfg.minRto)
            && s'.clock == s.clock && s'.cfg == s.cfg && s'.dead == s.dead && s'.xmit == s.xmit
    decreases |ws|
  {
    hide HearSeg, RttEstimator.UpdateAck;
    if ws != [] {
      var s, w := h.s, ws[0];
      HearSegLearns(h, w);
      HearAllLearns(HearSeg(h, w), ws[1..]);
      assert forall v :: v in ws <==> v == w || v in ws[1..];
      if w.cmd == CMD_ACK && Diff(s.clock.current, w.ts) >= 0 {
        AfterFirst(s.rtt, Diff(s.clock.current, w.ts), Samples(s.clock.current, ws[1..]), s.cfg.interval, s.cfg.minRto);
      } else {
        assert Samples(s.clock.current, ws) == Samples(s.clock.current, ws[1..]);
      }
    }
  }

  /** The remote window is the one last advertised; a request for the own window is
      remembered; and the estimator takes one sample per acknowledgement whose timestamp
      does not lie ahead, in the order of the datagram. */
  lemma InputLearns(s: State, data: seq<u8>)
    requires s.cfg.Mss() > 0
    ensures var s', ws := Input(s, data).0, Read(s, data);
            && s'.rmtWnd == (if ws == [] then s.rmtWnd else ws[|ws| - 1].wnd)
            && s'.probe == s.probe.(tell := s.probe.tell || exists w | w in ws :: w.cmd == CMD_WASK)
            && s'.rtt == RttEstimator.After(s.rtt, Samples(s.clock.current, ws), s.cfg.interval, s.cfg.minRto)
            && s'.clock == s.clock && s'.cfg == s.cfg && s'.dead == s.dead && s'.xmit == s.xmit
  {
    InputIs(s, data);
    HearAllLearns(Hearing(s, false, 0), Read(s, data));
    FinishKeepsRest(Heard(s, data), s.snd.una);
    hide Input, FinishInput, Read, HearAll, Config.Mss;
  }

  lemma FinishKeepsRest(h: Hearing, prevUna: u32)
    requires h.s.cfg.Mss() > 0
    ensures var s' := FinishInput(h, prevUna); s' == h.s.(snd := s'.snd, cong := s'.cong)
  {
    hide SendBuffer.ParseFastack, Congestion.OnAck;
  }

  // ---- which data is acknowledged ----

  /** The receive side has moved on from `rcv` by what is in its queue now. */
  ghost predicate MovedOn(rcv: Receiver, rcv': Receiver, wnd: u32) {
    && RecvBuffer.Inv(rcv', wnd)
    && Sub32(rcv'.nxt, rcv.nxt) + |rcv.queue| == |rcv'.queue|
  }

  lemma HearPushMoves(rcv: Receiver, wnd: u32, ack: Ack, frag: Frag)
    requires RecvBuffer.Inv(rcv, wnd) && 0 < wnd <= MAX_WND
    ensures MovedOn(rcv, RecvBuffer.HearPush(rcv, wnd, ack, frag), wnd)
    ensures RecvBuffer.HearPush(rcv, wnd, ack, frag).acks == rcv.acks + if Diff(ack.sn, Add32(rcv.nxt, wnd)) < 0 then [ack] else []
  {
    RecvBuffer.HearPushKeepsInv(rcv, wnd, ack, frag);
    if RecvBuffer.BelowWindowEnd(rcv, wnd, ack.sn) && RecvBuffer.InWindow(rcv, wnd, ack.sn) {
      var rcv1 := rcv.(acks := rcv.acks + [ack], buf := RecvBuffer.Insert(rcv.buf, rcv.nxt, RcvSeg(ack.sn, frag)));
      hide RecvBuffer.Insert, RecvBuffer.Drain;
      var k := RecvBuffer.DrainMovesRun(rcv1, wnd);
      FragsLength(rcv1.buf[..k]);
      assert RecvBuffer.HearPush(rcv, wnd, ack, frag) == RecvBuffer.Drain(rcv1, wnd);
    } else {
      assert rcv.acks + [] == rcv.acks;
    }
  }

  lemma {:induction false} FragsLength(buf: seq<RcvSeg>)
    ensures |RecvBuffer.FragsOf(buf)| == |buf|
  {
    if buf != [] { FragsLength(buf[1..]); }
  }

  /** Whether a number is acknowledged does not depend on how far the receive side has
      moved on, unless it lies near the end of the window or near the antipode of that. */
  predicate Answered(rcv: Receiver, wnd: u32, sn: u32) {
    Sub32(sn, rcv.nxt) < wnd || Sub32(sn, rcv.nxt) >= HALF + 2 * wnd
  }

  predicate Ignored(rcv: Receiver, wnd: u32, sn: u32) {
    2 * wnd <= Sub32(sn, rcv.nxt) < HALF
  }

  /** Each acknowledgement echoes a data segment that is not ahead of the window, and each
      data segment inside or behind the window is echoed. */
  ghost predicate Echoes(acks: seq<Ack>, ws: Packet, rcv: Receiver, wnd: u32) {
    && (forall a | a in acks :: !Ignored(rcv, wnd, a.sn) && exists w | w in ws :: w.cmd == CMD_PUSH && a == Ack(w.sn, w.ts))
    && (forall w | w in ws && w.cmd == CMD_PUSH && Answered(rcv, wnd, w.sn) :: Ack(w.sn, w.ts) in acks)
  }

  lemma {:induction false} PushesEchoed(rcv: Receiver, h: Hearing, ws: Packet)
    requires MovedOn(rcv, h.s.rcv, h.s.cfg.rcvWnd) && 0 < h.s.cfg.rcvWnd <= MAX_WND
    ensures var acks, acks' := h.s.rcv.acks, HearAll(h, ws).s.rcv.acks;
            acks <= acks' && Echoes(acks'[|acks|..], ws, rcv, h.s.cfg.rcvWnd)
    decreases |ws|
  {
    var wnd := h.s.cfg.rcvWnd;
    if ws == [] {
      assert h.s.rcv.acks[|h.s.rcv.acks|..] == [];
    } else {
      var w, h1 := ws[0], HearSeg(h, ws[0]);
      var more := if w.cmd == CMD_PUSH && Diff(w.sn, Add32(h.s.rcv.nxt, wnd)) < 0 then [Ack(w.sn, w.ts)] else [];
      HearSegReceives(h, w);
      MovedFurther(rcv, h.s.rcv, h1.s.rcv, wnd);
      WindowEnd(rcv, h.s.rcv, wnd, w.sn);
      hide HearSeg, MovedOn, Answered, Ignored, Echoes, Sub32, Diff, Add32;
      PushesEchoed(rcv, h1, ws[1..]);
      var acks' := HearAll(h, ws).s.rcv.acks;
      var rest := acks'[|h1.s.rcv.acks|..];
      assert acks'[|h.s.rcv.acks|..] == more + rest;
      EchoesMore(more, rest, w, ws, rcv, wnd);
    }
  }

  lemma EchoesMore(more: seq<Ack>, rest: seq<Ack>, w: WireSeg, ws: Packet, rcv: Receiver, wnd: u32)
    requires ws != [] && ws[0] == w && Echoes(rest, ws[1..], rcv, wnd)
    requires more == [] || (more == [Ack(w.sn, w.ts)] && w.cmd == CMD_PUSH && !Ignored(rcv, wnd, w.sn))
    requires w.cmd == CMD_PUSH && Answered(rcv, wnd, w.sn) ==> more != []
    ensures Echoes(more + rest, ws, rcv, wnd)
  {
    hide Answered, Ignored;
    assert forall v :: v in ws <==> v == w || v in ws[1..];
    assert forall a :: a in more + rest <==> a in more || a in rest;
  }

  lemma WindowEnd(rcv: Receiver, rcv': Receiver, wnd: u32, sn: u32)
    requires MovedOn(rcv, rcv', wnd) && 0 < wnd <= MAX_WND
    ensures Answered(rcv, wnd, sn) ==> Diff(sn, Add32(rcv'.nxt, wnd)) < 0
    ensures Ignored(rcv, wnd, sn) ==> Diff(sn, Add32(rcv'.nxt, wnd)) >= 0
  {
    assert Sub32(rcv'.nxt, rcv.nxt) <= wnd;
    hide RecvBuffer.Inv;
  }

  lemma MovedFurther(rcv: Receiver, rcv1: Receiver, rcv2: Receiver, wnd: u32)
    requires MovedOn(rcv, rcv1, wnd) && MovedOn(rcv1, rcv2, wnd) && wnd <= MAX_WND
    ensures MovedOn(rcv, rcv2, wnd)
  {
    assert |rcv1.queue| <= wnd && |rcv2.queue| <= wnd;
    hide RecvBuffer.Inv;
  }

  lemma HearSegReceives(h: Hearing, w: WireSeg)
    requires RecvBuffer.Inv(h.s.rcv, h.s.cfg.rcvWnd) && 0 < h.s.cfg.rcvWnd <= MAX_WND
    ensures var wnd, rcv, s' := h.s.cfg.rcvWnd, h.s.rcv, HearSeg(h, w).s;
            && s'.cfg == h.s.cfg
            && MovedOn(rcv, s'.rcv, wnd)
            && s'.rcv.acks == rcv.acks + if w.cmd == CMD_PUSH && Diff(w.sn, Add32(rcv.nxt, wnd)) < 0 then [Ack(w.sn, w.ts)] else []
  {
    HearPushMoves(h.s.rcv, h.s.cfg.rcvWnd, Ack(w.sn, w.ts), Frag(w.frg, w.data));
    assert h.s.rcv.acks + [] == h.s.rcv.acks;
    hide SendBuffer.HearAck, SendBuffer.HearUna, RttEstimator.UpdateAck, RecvBuffer.HearPush, RecvBuffer.Inv;
  }

  /** A datagram adds acknowledgements only, and only for the data segments in it, each
      with its own number and timestamp: for every one that is inside the receive window
      or behind it, since the peer may have missed the first answer, and for none that
      is ahead of it. */
  lemma PushesAreAnswered(s: State, data: seq<u8>)
    requires Inv(s)
    ensures var acks, acks' := s.rcv.acks, Input(s, data).0.rcv.acks;
            acks <= acks' && Echoes(acks'[|acks|..], Read(s, data), s.rcv, s.cfg.rcvWnd)
  {
    assert s.cfg.Mss() > 0;
    InputIs(s, data);
    FinishKeepsRest(Heard(s, data), s.snd.una);
    PushesEchoed(s.rcv, Hearing(s, false, 0), Read(s, data));
    hide Inv, Input, FinishInput, Read, HearAll, Echoes;
  }
}
