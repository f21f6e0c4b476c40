/** What a flush does, said in the fields of the control block and of the datagrams:
    how much it puts in flight, what it sends, and how it moves the windows. */
module FlushEffects {
  import opened Serial
  import opened Wire
  import opened ControlBlock
  import opened Endpoint
  import opened EndpointInvariant
  import Retransmission
  import SendBuffer
  import RecvBuffer
  import Congestion
  import Packing

  // ---- how much gets in flight ----

  /** `w` is the smallest of the windows that limit the segments in flight. */
  ghost predicate SmallestWindow(s: State, w: u32) {
    && w <= s.cfg.sndWnd && w <= s.rmtWnd && (s.cfg.noCwnd || w <= s.cong.cwnd)
    && (w == s.cfg.sndWnd || w == s.rmtWnd || (!s.cfg.noCwnd && w == s.cong.cwnd))
  }

  lemma WindowIsSmallest(s: State)
    ensures SmallestWindow(s, Window(s))
    ensures forall w | SmallestWindow(s, w) :: w == Window(s)
  {
  }

  lemma FlushFields(s: State)
    requires s.clock.updated
    ensures var s', snd := Flush(s).0, Number(s);
            && s'.snd == snd.(buf := FlushedBuf(snd.buf, EnvOf(s)))
            && s'.cfg == s.cfg && s'.rtt == s.rtt && s'.rmtWnd == s.rmtWnd && s'.clock == s.clock
            && s'.rcv == s.rcv.(acks := [])
  {
    hide Number, FlushedBuf, EnvOf;
  }

  /** The flight grows up to the send window, the remote window and, unless it is
      switched off, the congestion window, and never past any of the three. What is left
      in the queue is left because one of them is full. */
  lemma FlushFillsWindow(s: State)
    requires Inv(s) && s.clock.updated
    ensures var s' := Flush(s).0;
            var before, after := Sub32(s.snd.nxt, s.snd.una), Sub32(s'.snd.nxt, s'.snd.una);
            && s'.snd.una == s.snd.una
            && before <= after <= Max(before, s.cfg.sndWnd)
            && after <= Max(before, s.rmtWnd)
            && (!s.cfg.noCwnd ==> after <= Max(before, s.cong.cwnd))
            && (s'.snd.queue != [] ==>
                  after >= s.cfg.sndWnd || after >= s.rmtWnd || (!s.cfg.noCwnd && after >= s.cong.cwnd))
  {
    NumberInFlight(s);
    FlushFields(s);
    WindowIsSmallest(s);
    hide Flush, FlushedBuf, Inv;
  }

  /** What gets in flight is the front of the queue, in order, under the next numbers. */
  lemma FlushNumbersFront(s: State)
    requires Inv(s) && s.clock.updated
    ensures var s' := Flush(s).0;
            var n := Sub32(s'.snd.nxt, s'.snd.una) - Sub32(s.snd.nxt, s.snd.una);
            && 0 <= n <= |s.snd.queue|
            && s'.snd.queue == s.snd.queue[n..]
            && |s'.snd.buf| == |s.snd.buf| + n
            && (forall i | 0 <= i < |s.snd.buf| ::
                  s'.snd.buf[i].sn == s.snd.buf[i].sn && s'.snd.buf[i].frag == s.snd.buf[i].frag)
            && (forall i | 0 <= i < n ::
                  && s'.snd.buf[|s.snd.buf| + i].frag == s.snd.queue[i]
                  && Sub32(s'.snd.buf[|s.snd.buf| + i].sn, s.snd.nxt) == i)
  {
    NumberInFlight(s);
    FlushFields(s);
    NumberFront(s);
    FlushedSame(Number(s).buf, EnvOf(s));
    hide Flush, Inv, Low32, Number, Admitted, FlushedBuf, EnvOf;
  }

  lemma NumberFront(s: State)
    requires Admitted(s) < TWO32
    ensures var n, snd := Admitted(s), Number(s);
            && n <= |s.snd.queue| && snd.queue == s.snd.queue[n..] && |snd.buf| == |s.snd.buf| + n
            && (forall i | 0 <= i < |s.snd.buf| :: snd.buf[i] == s.snd.buf[i])
            && (forall i | 0 <= i < n ::
                  && snd.buf[|s.snd.buf| + i].frag == s.snd.queue[i]
                  && Sub32(snd.buf[|s.snd.buf| + i].sn, s.snd.nxt) == i)
  {
    var n, snd := Admitted(s), Number(s);
    forall i | 0 <= i < n ensures snd.buf[|s.snd.buf| + i] == Numbered(s, i) && Sub32(Numbered(s, i).sn, s.snd.nxt) == i {
      Low32Offset(s.snd.nxt, s.snd.nxt, i);
    }
    hide Low32;
  }

  lemma FlushedSame(buf: seq<SndSeg>, e: Retransmission.Env)
    ensures forall i | 0 <= i < |buf| :: FlushedBuf(buf, e)[i].sn == buf[i].sn && FlushedBuf(buf, e)[i].frag == buf[i].frag
  {
    hide Retransmission.Late, Retransmission.Overtaken, Retransmission.BackedOff;
  }

  // ---- what is sent ----

  /** A data segment with that number is in one of the datagrams. */
  ghost predicate Sent(out: seq<Packet>, sn: u32) {
    exists w | w in Packing.Flatten(out) :: w.cmd == CMD_PUSH && w.sn == sn
  }

  lemma {:induction false} DataItemsAre(s: State, buf: seq<SndSeg>)
    ensures forall w | w in DataItems(s, buf) ::
              exists j :: 0 <= j < |buf| && Retransmission.Due(buf[j], EnvOf(s)) && w == PushItem(s, buf[j])
    ensures forall j | 0 <= j < |buf| && Retransmission.Due(buf[j], EnvOf(s)) :: PushItem(s, buf[j]) in DataItems(s, buf)
  {
    hide EnvOf, Retransmission.Due, PushItem;
    if buf != [] {
      var init := buf[..|buf| - 1];
      DataItemsAre(s, init);
      forall w | w in DataItems(s, init)
        ensures exists j :: 0 <= j < |buf| && Retransmission.Due(buf[j], EnvOf(s)) && w == PushItem(s, buf[j])
      {
        var j :| 0 <= j < |init| && Retransmission.Due(init[j], EnvOf(s)) && w == PushItem(s, init[j]);
        assert init[j] == buf[j];
      }
      forall j | 0 <= j < |buf| && Retransmission.Due(buf[j], EnvOf(s)) ensures PushItem(s, buf[j]) in DataItems(s, buf) {
        assert j < |init| ==> init[j] == buf[j];
      }
    }
  }

  ghost predicate InOrder(ws: seq<WireSeg>, base: u32) {
    forall i, j | 0 <= i < j < |ws| :: Sub32(ws[i].sn, base) < Sub32(ws[j].sn, base)
  }

  lemma {:induction false} DataItemsInOrder(s: State, buf: seq<SndSeg>, base: u32, n: int)
    requires SendBuffer.Ordered(buf, base, n)
    ensures InOrder(DataItems(s, buf), base)
  {
    hide EnvOf, Retransmission.Due, Sub32, Outgoing;
    if buf != [] {
      var init, last := buf[..|buf| - 1], buf[|buf| - 1];
      assert forall j | 0 <= j < |init| :: init[j] == buf[j];
      DataItemsInOrder(s, init, base, n);
      DataItemsAre(s, init);
      var ws, front := DataItems(s, buf), DataItems(s, init);
      assert ws == front || ws == front + [PushItem(s, last)];
      assert PushItem(s, last).sn == last.sn by { PushSn(s, last); }
      forall w | w in front ensures Sub32(w.sn, base) < Sub32(last.sn, base) {
        var j :| 0 <= j < |init| && Retransmission.Due(init[j], EnvOf(s)) && w == PushItem(s, init[j]);
        PushSn(s, init[j]);
      }
      hide SendBuffer.Ordered, DataItems, PushItem;
      forall i, j | 0 <= i < j < |ws| ensures Sub32(ws[i].sn, base) < Sub32(ws[j].sn, base) {
        assert ws[i] == front[i] && front[i] in front;
        assert j < |front| ==> ws[j] == front[j];
        assert j >= |front| ==> ws[j] == PushItem(s, last);
      }
    }
  }

  lemma PushSn(s: State, g: SndSeg)
    ensures PushItem(s, g).sn == g.sn && PushItem(s, g).cmd == CMD_PUSH
  {
  }

  /** The segments of a flush, taken out of the datagrams. */
  lemma FlushFlattens(s: State)
    requires Inv(s) && s.clock.updated
    ensures Packing.Flatten(Flush(s).1) == AckItems(s) + ProbeItems(s) + DataItems(s, Number(s).buf)
  {
    FlushItemsOk(s);
    hide Inv, AfterFlush, AckItems, ProbeItems, DataItems, Number;
    Packing.PackingIsFaithful(s.cfg.mtu, FlushItems(s));
  }

  lemma SentIffDue(s: State, i: nat)
    requires Inv(s) && s.clock.updated && i < |Number(s).buf|
    ensures Sent(Flush(s).1, Number(s).buf[i].sn) <==> Retransmission.Due(Number(s).buf[i], EnvOf(s))
  {
    var buf, e, out := Number(s).buf, EnvOf(s), Flush(s).1;
    DataIsSent(s);
    assert forall a, b | 0 <= a < b < |buf| :: buf[a].sn != buf[b].sn by { NumberOrdered(s); }
    assert forall g | g in buf :: PushItem(s, g).cmd == CMD_PUSH && PushItem(s, g).sn == g.sn;
    hide Inv, Flush, Number, EnvOf, DataItems, Retransmission.Due, PushItem;
    DataItemsAre(s, buf);
    assert buf[i] in buf;
    if Sent(out, buf[i].sn) {
      var w :| w in Packing.Flatten(out) && w.cmd == CMD_PUSH && w.sn == buf[i].sn;
      var j :| 0 <= j < |buf| && Retransmission.Due(buf[j], e) && w == PushItem(s, buf[j]);
      assert buf[j] in buf;
    }
  }

  lemma DataIsSent(s: State)
    requires Inv(s) && s.clock.updated
    ensures forall w: WireSeg | w.cmd == CMD_PUSH ::
              w in Packing.Flatten(Flush(s).1) <==> w in DataItems(s, Number(s).buf)
  {
    FlushFlattens(s);
    ControlIsNoData(s);
    hide *;
  }

  lemma ControlIsNoData(s: State)
    ensures forall w | w in AckItems(s) + ProbeItems(s) :: w.cmd != CMD_PUSH
  {
    hide ProbeTimer, LastAck, Unused;
    assert forall w | w in AckItems(s) :: w.cmd == CMD_ACK;
    assert forall w | w in ProbeItems(s) :: w.cmd == CMD_WASK || w.cmd == CMD_WINS;
  }

  lemma OldSegments(s: State, i: nat)
    requires s.clock.updated && i < |s.snd.buf|
    ensures i < |Number(s).buf| == |Flush(s).0.snd.buf|
    ensures Number(s).buf[i] == s.snd.buf[i]
    ensures Flush(s).0.snd.buf[i] == Retransmission.Flushed(s.snd.buf[i], EnvOf(s))
  {
    FlushFields(s);
    hide Flush, EnvOf, Retransmission.Flushed;
  }

  /** Acknowledgements overtook the segment often enough for `fastresend`, or, with that
      off, 2^32 - 1 times; and it was not sent more often than `fastlimit` allows. */
  predicate FastResend(s: State, g: SndSeg) {
    && (if s.cfg.fastResend > 0 then g.fastack >= s.cfg.fastResend else g.fastack == 0xffff_ffff)
    && (s.cfg.fastLimit <= 0 || AsSigned(g.xmit) <= s.cfg.fastLimit)
  }

  /** Fast retransmission: a segment whose deadline lies ahead is sent if and only if it
      was overtaken often enough; it keeps its timeout, and its count starts again. */
  lemma OvertakenIsResent(s: State, i: nat)
    requires Inv(s) && s.clock.updated && i < |s.snd.buf|
    requires s.snd.buf[i].xmit >= 1 && Diff(s.clock.current, s.snd.buf[i].resendts) < 0
    ensures var g := s.snd.buf[i];
            var (s', out) := Flush(s);
            && i < |s'.snd.buf|
            && (Sent(out, g.sn) <==> FastResend(s, g))
            && s'.snd.buf[i] == if Sent(out, g.sn)
                                then g.(xmit := Add32(g.xmit, 1), fastack := 0, resendts := Add32(s.clock.current, g.rto))
                                else g
  {
    OldSegments(s, i);
    SentIffDue(s, i);
    hide Flush, Inv, Number, Sent;
  }

  /** What a timeout adds to the timeout: itself or the current estimate, whichever is
      more; half of itself, read as signed, with `nodelay` 1; half of the estimate above. */
  function Backoff(s: State, g: SndSeg): int {
    if s.cfg.nodelay == 0 then Max(g.rto, s.rtt.rto)
    else if s.cfg.nodelay >= 2 then s.rtt.rto / 2
    else if g.rto < HALF then g.rto / 2
    else -((TWO32 - g.rto) / 2)
  }

  /** Timeout: a segment whose deadline has passed is sent, with a longer timeout. */
  lemma LateIsResent(s: State, i: nat)
    requires Inv(s) && s.clock.updated && i < |s.snd.buf|
    requires s.snd.buf[i].xmit >= 1 && Diff(s.clock.current, s.snd.buf[i].resendts) >= 0
    ensures var g := s.snd.buf[i];
            var (s', out) := Flush(s);
            var rto := Low32(g.rto + Backoff(s, g));
            && i < |s'.snd.buf|
            && Sent(out, g.sn)
            && s'.snd.buf[i] == g.(xmit := Add32(g.xmit, 1), rto := rto, resendts := Add32(s.clock.current, rto))
  {
    OldSegments(s, i);
    SentIffDue(s, i);
    assert s.rtt.rto < HALF by { hide SendBuffer.Inv, Congestion.Inv; }
    assert EnvOf(s).current == s.clock.current;
    BackedOffIs(s, s.snd.buf[i]);
    LateTime(s.snd.buf[i], EnvOf(s));
    hide EnvOf, Sub32, Add32, Flush, Number, Sent, Backoff, Inv, Low32;
    hide Retransmission.BackedOff, Retransmission.Flushed, Retransmission.Due;
  }

  lemma LateTime(g: SndSeg, e: Retransmission.Env)
    requires g.xmit >= 1 && Diff(e.current, g.resendts) >= 0
    ensures var rto := Retransmission.BackedOff(g, e);
            Retransmission.Flushed(g, e) == g.(xmit := Add32(g.xmit, 1), rto := rto, resendts := Add32(e.current, rto))
    ensures Retransmission.Due(g, e)
  {
    hide Retransmission.BackedOff;
  }

  lemma BackedOffIs(s: State, g: SndSeg)
    requires s.rtt.rto < HALF
    ensures Retransmission.BackedOff(g, EnvOf(s)) == Low32(g.rto + Backoff(s, g))
  {
    hide Low32;
    var b := Backoff(s, g);
    if b >= 0 {
      Low32Add(g.rto, b);
      SmallLow32(b);
      SmallLow32(g.rto);
    } else {
      StepBack(g.rto, -b);
    }
  }

  lemma SmallLow32(x: u32)
    ensures Low32(x) == x
  {
  }

  lemma StepBack(rto: u32, k: int)
    requires 0 < k <= rto
    ensures Add32(rto, Low32(-k)) == Low32(rto - k)
  {
    Low32Add(-TWO32, TWO32 - k);
  }

  /** A segment that was not sent before, numbered by this flush or an earlier one, is
      sent, with the current estimate for a timeout and an eighth more for the first
      deadline unless `nodelay` is on. */
  lemma FirstIsSent(s: State, i: nat)
    requires Inv(s) && s.clock.updated
    requires i < |s.snd.buf| ==> s.snd.buf[i].xmit == 0
    ensures var (s', out) := Flush(s);
            i < |s'.snd.buf| ==>
              && Sent(out, s'.snd.buf[i].sn)
              && s'.snd.buf[i].xmit == 1 && s'.snd.buf[i].rto == s.rtt.rto
              && Sub32(s'.snd.buf[i].resendts, s.clock.current) == s.rtt.rto + (if s.cfg.nodelay == 0 then s.rtt.rto / 8 else 0)
              && s'.snd.buf[i].fastack == if i < |s.snd.buf| then s.snd.buf[i].fastack else 0
  {
    FlushFields(s);
    assert RTO_NDL <= s.rtt.rto <= RTO_MAX by { hide SendBuffer.Inv, Congestion.Inv; }
    if i < |Flush(s).0.snd.buf| {
      SentIffDue(s, i);
      var g, e := Number(s).buf[i], EnvOf(s);
      assert g.xmit == 0 && g.fastack == if i < |s.snd.buf| then s.snd.buf[i].fastack else 0 by {
        assert i >= |s.snd.buf| ==> g == Numbered(s, i - |s.snd.buf|);
      }
      FirstTime(g, e);
      FlushedSame(Number(s).buf, e);
      assert Flush(s).0.snd.buf[i] == Retransmission.Flushed(g, e) by { hide Inv, Number, EnvOf; }
      hide Flush, Inv, Number, Sent, Retransmission.Flushed, Retransmission.Due;
    }
  }

  lemma FirstTime(g: SndSeg, e: Retransmission.Env)
    requires g.xmit == 0 && e.rto <= RTO_MAX && e.rtoMin <= RTO_MAX
    ensures var g' := Retransmission.Flushed(g, e);
            && g'.xmit == 1 && g'.rto == e.rto && g'.fastack == g.fastack
            && Sub32(g'.resendts, e.current) == e.rto + e.rtoMin
    ensures Retransmission.Due(g, e)
  {
  }

  // ---- how the congestion window answers ----

  predicate Waiting(s: State, g: SndSeg) {
    g.xmit >= 1 && Diff(s.clock.current, g.resendts) < 0
  }

  predicate TimedOut(s: State, g: SndSeg) {
    g.xmit >= 1 && Diff(s.clock.current, g.resendts) >= 0
  }

  lemma {:induction false} CountLateIsSome(buf: seq<SndSeg>, e: Retransmission.Env)
    ensures CountLate(buf, e) > 0 <==> exists g | g in buf :: Retransmission.Late(g, e)
  {
    hide Retransmission.Late;
    if buf != [] {
      var init, last := buf[..|buf| - 1], buf[|buf| - 1];
      CountLateIsSome(init, e);
      assert forall g :: g in buf <==> g in init || g == last;
    }
  }

  /** Only segments that were in flight before can have timed out or been overtaken. */
  lemma LossSignals(s: State)
    ensures CountLate(Number(s).buf, EnvOf(s)) > 0 <==> exists g | g in s.snd.buf :: TimedOut(s, g)
    ensures AnyOvertaken(Number(s).buf, EnvOf(s)) <==> exists g | g in s.snd.buf :: Waiting(s, g) && FastResend(s, g)
  {
    var e := EnvOf(s);
    CountLateIsSome(Number(s).buf, e);
    NumberMembers(s);
    forall g | g in Number(s).buf
      ensures Retransmission.Late(g, e) <==> g in s.snd.buf && TimedOut(s, g)
      ensures Retransmission.Overtaken(g, e) <==> g in s.snd.buf && Waiting(s, g) && FastResend(s, g)
    {
    }
    assert forall g | g in s.snd.buf :: g in Number(s).buf;
    hide Number, EnvOf, Retransmission.Late, Retransmission.Overtaken, TimedOut, Waiting, FastResend;
  }

  /** A timeout halves the smallest window into `ssthresh` and starts over from one
      segment. A fast retransmission alone halves the flight into `ssthresh` and goes on
      from there, `fastresend` segments higher. Otherwise only a closed window opens. */
  lemma FlushAdjustsWindow(s: State)
    requires Inv(s) && s.clock.updated
    ensures var s', mss := Flush(s).0, s.cfg.Mss();
            var flight := Sub32(s'.snd.nxt, s'.snd.una);
            if exists g | g in s.snd.buf :: TimedOut(s, g) then
              && (forall w: u32 | SmallestWindow(s, w) :: s'.cong.ssthresh == Max(2, w / 2))
              && s'.cong.cwnd == 1 && s'.cong.incr == mss
            else if exists g | g in s.snd.buf :: Waiting(s, g) && FastResend(s, g) then
              && s'.cong.ssthresh == Max(2, flight / 2)
              && s'.cong.cwnd == s'.cong.ssthresh + (if s.cfg.fastResend > 0 then s.cfg.fastResend else -1)
              && s'.cong.incr == s'.cong.cwnd * mss
            else
              s'.cong == if s.cong.cwnd == 0 then Cong(1, s.cong.ssthresh, mss) else s.cong
  {
    var flight, w := SendBuffer.InFlight(Number(s)), Window(s);
    var fast, lost := AnyOvertaken(Number(s).buf, EnvOf(s)), CountLate(Number(s).buf, EnvOf(s)) > 0;
    LossSignals(s);
    WindowIsSmallest(s);
    assert flight <= MAX_WND && s.cfg.fastResend <= 255 by { NumberInFlight(s); }
    CongAfter(s);
    OnFlushIs(s, fast, lost, flight, w);
    hide TimedOut, Waiting, FastResend, Window, Number, SmallestWindow, Inv, Flush, EnvOf;
    hide Congestion.OnFlush, AnyOvertaken, CountLate;
  }

  lemma CongAfter(s: State)
    requires s.clock.updated
    ensures var s', snd, e := Flush(s).0, Number(s), EnvOf(s);
            && s'.snd.nxt == snd.nxt && s'.snd.una == snd.una
            && s'.cong == Congestion.OnFlush(s.cong, s.cfg.Mss(), AnyOvertaken(snd.buf, e), CountLate(snd.buf, e) > 0,
                                             SendBuffer.InFlight(snd), Window(s), e.resent)
  {
    hide Congestion.OnFlush, Number, EnvOf, Window, AnyOvertaken, CountLate, ProbeTimer, FlushedBuf, Config.Mss;
  }

  lemma OnFlushIs(s: State, fast: bool, lost: bool, flight: u32, w: u32)
    requires Inv(s) && flight <= MAX_WND
    ensures var c', mss := Congestion.OnFlush(s.cong, s.cfg.Mss(), fast, lost, flight, w, EnvOf(s).resent), s.cfg.Mss();
            if lost then c' == Cong(1, Max(2, w / 2), mss)
            else if fast then
              var cwnd := Max(2, flight / 2) + (if s.cfg.fastResend > 0 then s.cfg.fastResend else -1);
              c'.ssthresh == Max(2, flight / 2) && c'.cwnd == cwnd && c'.incr == cwnd * mss
            else c' == if s.cong.cwnd == 0 then Cong(1, s.cong.ssthresh, mss) else s.cong
  {
    var cwnd := Max(2, flight / 2) + (if s.cfg.fastResend > 0 then s.cfg.fastResend else -1);
    assert s.cfg.fastResend <= 255;
    ProductFits(s, cwnd);
    hide Inv, Mul32, Config.Mss;
  }

  lemma ProductFits(s: State, cwnd: int)
    requires Inv(s) && 0 <= cwnd <= MAX_WND
    ensures Mul32(cwnd, s.cfg.Mss()) == cwnd * s.cfg.Mss()
  {
    Congestion.MulBelow(cwnd, s.cfg.Mss(), MAX_WND, 65511);
    Congestion.Mul32Fits(cwnd, s.cfg.Mss());
  }

  // ---- what the datagrams say ----

  /** The remote window is closed, and it is time to ask for it again. */
  predicate ProbeDue(s: State) {
    s.rmtWnd == 0 && s.probe.wait != 0 && Diff(s.clock.current, s.probe.ts) >= 0
  }

  /** The segment tells the peer the next number expected and the room that the receive
      queue has left. */
  predicate Reports(s: State, w: WireSeg) {
    w.conv == s.cfg.conv && w.una == s.rcv.nxt && w.wnd == Max(0, s.cfg.rcvWnd - |s.rcv.queue|)
  }

  lemma OutgoingReports(s: State, cmd: u8, frg: nat, ts: u32, sn: u32, data: seq<u8>)
    requires s.cfg.rcvWnd <= MAX_WND
    ensures Reports(s, Outgoing(s, cmd, frg, ts, sn, data))
  {
  }

  lemma AckItemsSay(s: State)
    requires s.cfg.rcvWnd <= MAX_WND
    ensures var ws := AckItems(s);
            && |ws| == |s.rcv.acks|
            && forall i | 0 <= i < |ws| ::
                 && ws[i].cmd == CMD_ACK && ws[i].sn == s.rcv.acks[i].sn && ws[i].ts == s.rcv.acks[i].ts
                 && ws[i].data == [] && ws[i].frg == 0 && Reports(s, ws[i])
  {
    forall i | 0 <= i < |s.rcv.acks| ensures Reports(s, AckItems(s)[i]) {
      OutgoingReports(s, CMD_ACK, 0, s.rcv.acks[i].ts, s.rcv.acks[i].sn, []);
    }
    hide Reports, Unused;
  }

  /** A probe repeats the number and the timestamp of the last acknowledgement. */
  predicate Repeats(s: State, w: WireSeg) {
    var n := |s.rcv.acks|;
    if n == 0 then w.sn == 0 && w.ts == 0 else w.sn == s.rcv.acks[n - 1].sn && w.ts == s.rcv.acks[n - 1].ts
  }

  lemma ProbeItemsSay(s: State)
    requires s.cfg.rcvWnd <= MAX_WND
    ensures var ws, ask := ProbeItems(s), s.probe.ask || ProbeDue(s);
            && |ws| == (if ask then 1 else 0) + (if s.probe.tell then 1 else 0)
            && (ask ==> ws[0].cmd == CMD_WASK) && (s.probe.tell ==> ws[|ws| - 1].cmd == CMD_WINS)
            && forall i | 0 <= i < |ws| :: ws[i].data == [] && ws[i].frg == 0 && Repeats(s, ws[i]) && Reports(s, ws[i])
  {
    assert ProbeTimer(s.probe, s.rmtWnd, s.clock.current).ask == (s.probe.ask || ProbeDue(s));
    OutgoingReports(s, CMD_WASK, 0, LastAck(s).ts, LastAck(s).sn, []);
    OutgoingReports(s, CMD_WINS, 0, LastAck(s).ts, LastAck(s).sn, []);
    assert forall w | w in ProbeItems(s) :: Repeats(s, w) by { hide ProbeTimer, Reports, Unused; }
    hide ProbeTimer, ProbeDue, Reports, Repeats, LastAck, Unused;
  }

  ghost predicate Carries(w: WireSeg, g: SndSeg) {
    w.sn == g.sn && w.frg == g.frag.frg && w.data == g.frag.data
  }

  lemma DataItemsSay(s: State, buf: seq<SndSeg>)
    requires s.cfg.rcvWnd <= MAX_WND && forall g | g in buf :: g.frag.frg < 0x100
    ensures forall w | w in DataItems(s, buf) ::
              && w.cmd == CMD_PUSH && w.ts == s.clock.current && Reports(s, w)
              && exists i :: 0 <= i < |buf| && Carries(w, buf[i])
  {
    DataItemsAre(s, buf);
    forall g | g in buf ensures PushItem(s, g).cmd == CMD_PUSH && PushItem(s, g).ts == s.clock.current
      && Reports(s, PushItem(s, g)) && Carries(PushItem(s, g), g)
    {
      OutgoingReports(s, CMD_PUSH, g.frag.frg, s.clock.current, g.sn, g.frag.data);
    }
    hide DataItems, Reports, Carries, PushItem, Retransmission.Due, EnvOf;
    forall w | w in DataItems(s, buf)
      ensures w.cmd == CMD_PUSH && w.ts == s.clock.current && Reports(s, w)
      ensures exists i :: 0 <= i < |buf| && Carries(w, buf[i])
    {
      var j :| 0 <= j < |buf| && Retransmission.Due(buf[j], EnvOf(s)) && w == PushItem(s, buf[j]);
      assert buf[j] in buf;
    }
  }

  lemma SmallFrgs(s: State)
    requires Inv(s)
    ensures s.cfg.rcvWnd <= MAX_WND && forall g | g in Number(s).buf :: g.frag.frg < 0x100
  {
    NumberKeepsInv(s);
    hide Number, SendBuffer.Ordered, Congestion.Inv, RecvBuffer.Inv;
  }

  /** Every segment that a flush sends reports the state of the receive side. */
  lemma FlushReportsWindow(s: State)
    requires Inv(s) && s.clock.updated
    ensures forall w | w in Packing.Flatten(Flush(s).1) :: Reports(s, w)
  {
    FlushFlattens(s);
    SmallFrgs(s);
    AckItemsSay(s);
    ProbeItemsSay(s);
    DataItemsSay(s, Number(s).buf);
    hide Inv, Flush, Number, AckItems, ProbeItems, DataItems, Reports, Carries;
  }

  /** First come the pending acknowledgements, each with the number and the timestamp of
      the segment it answers; then a request for the remote window, if one is due, and an
      answer to the peer's; then data, oldest first. */
  lemma FlushSays(s: State)
    requires Inv(s) && s.clock.updated
    ensures var ws, n := Packing.Flatten(Flush(s).1), |s.rcv.acks|;
            var ask := s.probe.ask || ProbeDue(s);
            var m := n + (if ask then 1 else 0) + (if s.probe.tell then 1 else 0);
            && m <= |ws|
            && (forall i | 0 <= i < n :: ws[i].cmd == CMD_ACK && ws[i].sn == s.rcv.acks[i].sn && ws[i].ts == s.rcv.acks[i].ts)
            && (ask ==> ws[n].cmd == CMD_WASK) && (s.probe.tell ==> ws[m - 1].cmd == CMD_WINS)
            && (forall i | 0 <= i < m :: ws[i].data == [] && ws[i].frg == 0)
            && (forall i | n <= i < m :: Repeats(s, ws[i]))
            && (forall i | m <= i < |ws| :: ws[i].cmd == CMD_PUSH && ws[i].ts == s.clock.current)
            && InOrder(ws[m..], s.snd.una)
  {
    var ws, a, p, d := Packing.Flatten(Flush(s).1), AckItems(s), ProbeItems(s), DataItems(s, Number(s).buf);
    assert ws == a + p + d by { FlushFlattens(s); }
    SmallFrgs(s);
    AckItemsSay(s);
    ProbeItemsSay(s);
    assert InOrder(d, s.snd.una) by {
      NumberOrdered(s);
      DataItemsInOrder(s, Number(s).buf, s.snd.una, SendBuffer.InFlight(Number(s)));
    }
    DataItemsSay(s, Number(s).buf);
    hide *;
    assert |a| == |s.rcv.acks|;
    Parts(a, p, d);
  }

  /** Where the parts of a concatenation are. */
  lemma Parts(a: seq<WireSeg>, p: seq<WireSeg>, d: seq<WireSeg>)
    ensures var ws := a + p + d;
            && (forall i | 0 <= i < |a| :: ws[i] == a[i])
            && (forall i | |a| <= i < |a| + |p| :: ws[i] == p[i - |a|])
            && (forall i | |a| + |p| <= i < |ws| :: ws[i] in d)
            && ws[|a| + |p|..] == d
  {
    forall i | |a| + |p| <= i < |a + p + d| ensures (a + p + d)[i] in d {
      assert (a + p + d)[i] == d[i - |a| - |p|];
    }
  }

  /** A data segment carries the fragment of the segment whose number it has. */
  lemma FlushSendsFragments(s: State)
    requires Inv(s) && s.clock.updated
    ensures var (s', out) := Flush(s);
            forall w | w in Packing.Flatten(out) && w.cmd == CMD_PUSH ::
              exists i :: 0 <= i < |s'.snd.buf| && Carries(w, s'.snd.buf[i])
  {
    DataIsSent(s);
    FlushFields(s);
    SmallFrgs(s);
    var buf, out := Number(s).buf, Flush(s).1;
    FlushedSame(buf, EnvOf(s));
    DataItemsSay(s, buf);
    hide Inv, Flush, Number, EnvOf, DataItems, Retransmission.Flushed, Reports;
    forall w | w in Packing.Flatten(out) && w.cmd == CMD_PUSH
      ensures exists i :: 0 <= i < |buf| && Carries(w, FlushedBuf(buf, EnvOf(s))[i])
    {
      var j :| 0 <= j < |buf| && Carries(w, buf[j]);
      assert Carries(w, FlushedBuf(buf, EnvOf(s))[j]);
    }
  }

  /** While the remote window is closed, requests for it go out at first 7 s apart, then
      each time half as much again, up to 120 s; an open window ends that. */
  lemma FlushProbes(s: State)
    requires Inv(s) && s.clock.updated
    ensures var p, p' := s.probe, Flush(s).0.probe;
            && !p'.ask && !p'.tell
            && (s.rmtWnd != 0 ==> p'.wait == 0)
            && (s.rmtWnd == 0 && p.wait == 0 ==> p'.wait == 7000)
            && (ProbeDue(s) ==> p'.wait == Min(3 * Max(p.wait, 7000) / 2, 120000))
            && (s.rmtWnd == 0 && p.wait != 0 && !ProbeDue(s) ==> p'.wait == p.wait && p'.ts == p.ts)
            && (s.rmtWnd == 0 && (p.wait == 0 || ProbeDue(s)) ==> Sub32(p'.ts, s.clock.current) == p'.wait)
  {
    var p' := Flush(s).0.probe;
    assert p' == ProbeTimer(s.probe, s.rmtWnd, s.clock.current).(ask := false, tell := false) by {
      hide Number, EnvOf, FlushedBuf, ProbeTimer;
    }
    assert s.probe.wait <= 120000;
    hide Flush, Inv;
  }

  // ---- what else it leaves behind ----

  lemma {:induction false} CountLateIs(buf: seq<SndSeg>, e: Retransmission.Env)
    ensures CountLate(buf, e) == |set i | 0 <= i < |buf| && Retransmission.Late(buf[i], e)|
  {
    hide Retransmission.Late;
    if buf != [] {
      var n := |buf| - 1;
      var init := buf[..n];
      CountLateIs(init, e);
      var before := set i | 0 <= i < |init| && Retransmission.Late(init[i], e);
      var all := set i | 0 <= i < |buf| && Retransmission.Late(buf[i], e);
      assert all == before + if Retransmission.Late(buf[n], e) then {n} else {};
    }
  }

  /** The timeouts are counted, and a link on which a segment was sent `dead_link` times
      is marked dead and stays so. The receive side only loses the acknowledgements
      that were sent; the estimator, the remote window and the clock stay as they are. */
  lemma FlushAccounts(s: State)
    requires Inv(s) && s.clock.updated
    ensures var (s', out) := Flush(s);
            && s'.xmit == Low32(s.xmit + |set i | 0 <= i < |s.snd.buf| && TimedOut(s, s.snd.buf[i])|)
            && (s'.dead <==> s.dead || exists g | g in s'.snd.buf :: Sent(out, g.sn) && g.xmit >= s.cfg.deadLink)
            && s'.rcv == s.rcv.(acks := [])
            && s'.cfg == s.cfg && s'.rtt == s.rtt && s'.rmtWnd == s.rmtWnd && s'.clock == s.clock
  {
    FlushFields(s);
    FlushCounts(s);
    FlushMarksDead(s);
  }

  lemma FlushCounts(s: State)
    requires s.clock.updated
    ensures Flush(s).0.xmit == Low32(s.xmit + |set i | 0 <= i < |s.snd.buf| && TimedOut(s, s.snd.buf[i])|)
  {
    var buf, e := Number(s).buf, EnvOf(s);
    CountLateIs(buf, e);
    var late := set i | 0 <= i < |buf| && Retransmission.Late(buf[i], e);
    assert late == set i | 0 <= i < |s.snd.buf| && TimedOut(s, s.snd.buf[i]);
    hide Number, EnvOf, CountLate, Retransmission.Late, TimedOut, FlushedBuf, ProbeTimer, Low32;
  }

  lemma FlushMarksDead(s: State)
    requires Inv(s) && s.clock.updated
    ensures var (s', out) := Flush(s);
            s'.dead <==> s.dead || exists g | g in s'.snd.buf :: Sent(out, g.sn) && g.xmit >= s.cfg.deadLink
  {
    FlushFields(s);
    var (s', out) := Flush(s);
    var buf, e, dead := Number(s).buf, EnvOf(s), s.cfg.deadLink;
    FlushedSame(buf, e);
    forall i | 0 <= i < |buf|
      ensures Sent(out, buf[i].sn) <==> Retransmission.Due(buf[i], e)
    {
      SentIffDue(s, i);
    }
    assert s'.dead == (s.dead || AnyDead(buf, e, dead));
    hide Inv, Flush, Number, EnvOf, Sent, Retransmission.Due, Retransmission.Flushed;
    if AnyDead(buf, e, dead) {
      var g :| g in buf && Retransmission.Due(g, e) && Retransmission.Flushed(g, e).xmit >= dead;
      var i :| 0 <= i < |buf| && buf[i] == g;
      assert s'.snd.buf[i] in s'.snd.buf && s'.snd.buf[i].sn == g.sn;
    }
    forall g | g in s'.snd.buf && Sent(out, g.sn) && g.xmit >= dead ensures AnyDead(buf, e, dead) {
      var i :| 0 <= i < |buf| && s'.snd.buf[i] == g;
      assert buf[i] in buf;
    }
  }
}
