/** What every call keeps true of an endpoint, whatever its arguments and
    whatever bytes arrive. */
module EndpointInvariant {
  import opened Serial
  import opened Wire
  import opened ControlBlock
  import opened Endpoint
  import RttEstimator
  import Retransmission
  import SendBuffer
  import RecvBuffer
  import Congestion

  ghost predicate Inv(s: State) {
    && s.cfg.Valid()
    && SendBuffer.Inv(s.snd, s.cfg.Mss())
    && RecvBuffer.Inv(s.rcv, s.cfg.rcvWnd)
    && Congestion.Inv(s.cong, s.cfg.Mss())
    && s.rmtWnd <= MAX_WND
    && RTO_NDL <= s.rtt.rto <= RTO_MAX
    && s.probe.wait <= PROBE_LIMIT
  }

  lemma CreateInv(cfg: Config)
    requires cfg.Valid()
    ensures Inv(Create(cfg))
  {
  }

  // ---- send ----

  /** What fragmentation is for: the fragments hold the message, each fits in a
      segment, only the last is a final one, and the numbers count down to it. */
  lemma {:induction false} FragmentProps(data: seq<u8>, mss: u32, stream: bool)
    requires mss > 0
    ensures var fs := Fragment(data, mss, stream);
            && Bytes(fs) == data
            && (forall i | 0 <= i < |fs| :: |fs[i].data| <= mss)
            && (forall i | 0 <= i < |fs| :: fs[i].frg == if stream then 0 else |fs| - 1 - i)
    decreases |data|
  {
    if |data| <= mss {
      assert Bytes([Frag(0, data)]) == data + Bytes([]);
    } else {
      FragmentProps(data[mss..], mss, stream);
      var rest := Fragment(data[mss..], mss, stream);
      var fs := Fragment(data, mss, stream);
      assert fs[1..] == rest;
      assert data[..mss] + data[mss..] == data;
      forall i | 0 < i < |fs| ensures fs[i] == rest[i - 1] {}
    }
  }

  /** ... and there are as many as the source computes up front. */
  lemma {:induction false} FragmentCount(data: seq<u8>, mss: u32, stream: bool)
    requires mss > 0
    ensures |Fragment(data, mss, stream)| == if |data| <= mss then 1 else (|data| + mss - 1) / mss
    decreases |data|
  {
    if |data| > mss {
      FragmentCount(data[mss..], mss, stream);
      var n := |data| - mss;
      assert n <= mss ==> (n + mss - 1) / mss == 1 by {
        if n <= mss { Congestion.CeilBounds(n, mss, 0); }
      }
      DivStep(n + mss - 1, mss);
    }
  }

  lemma DivStep(x: nat, m: nat)
    requires m > 0
    ensures (x + m) / m == x / m + 1
  {
    var q := (x + m) / m;
    assert q * m <= x + m < q * m + m;
    assert (x / m) * m <= x < (x / m) * m + m;
    assert (x / m + 1) * m == (x / m) * m + m;
    assert (x / m + 2) * m == (x / m) * m + 2 * m;
    Congestion.MulMono(x / m + 2, q, m);
    assert (q + 1) * m == q * m + m;
    Congestion.MulMono(q + 1, x / m + 1, m);
  }

  lemma TailedOk(s: State, len: int, data: seq<u8>)
    requires |data| == Room(s, len) && forall f | f in s.snd.queue :: SendBuffer.FragOk(f, s.cfg.Mss())
    ensures forall f | f in Tailed(s, data) :: SendBuffer.FragOk(f, s.cfg.Mss())
  {
    var q := s.snd.queue;
    if q != [] && s.cfg.stream {
      var last := q[|q| - 1];
      assert last in q;
      assert forall f | f in Tailed(s, data) :: f in q || f == Frag(0, last.data + data);
    }
  }

  lemma QueueKeepsInv(s: State, queue: seq<Frag>)
    requires Inv(s) && forall f | f in queue :: SendBuffer.FragOk(f, s.cfg.Mss())
    ensures Inv(s.(snd := s.snd.(queue := queue)))
  {
    hide SendBuffer.Ordered, Congestion.Inv, RecvBuffer.Inv;
  }

  lemma SendKeepsInv(s: State, buffer: seq<u8>, len: int)
    requires Inv(s) && len <= |buffer|
    ensures Inv(Send(s, buffer, len).0)
  {
    if len >= 0 {
      var mss, room := s.cfg.Mss(), Room(s, len);
      assert forall f | f in s.snd.queue :: SendBuffer.FragOk(f, mss);
      hide Inv;
      TailedOk(s, len, buffer[..room]);
      var queue, fs := Tailed(s, buffer[..room]), Fragment(buffer[room..len], mss, s.cfg.stream);
      hide Tailed, Room;
      FragmentProps(buffer[room..len], mss, s.cfg.stream);
      QueueKeepsInv(s, queue);
      if |fs| < WND_RCV {
        forall f | f in queue + fs ensures SendBuffer.FragOk(f, mss) {
          assert f in queue || f in fs;
        }
        QueueKeepsInv(s, queue + fs);
      }
    }
  }

  // ---- recv ----

  lemma RecvKeepsInv(s: State, len: int)
    requires Inv(s)
    ensures Inv(Recv(s, len).0)
  {
    var q := s.rcv.queue;
    RecvBuffer.DrainKeepsInv(s.rcv.(queue := if len < 0 then q else q[RecvBuffer.MsgEnd(q)..]), s.cfg.rcvWnd);
  }

  /** A peek changes nothing, and the receive that follows it with the same room
      returns the same code and the same bytes. */
  lemma PeekChangesNothing(s: State, len: int)
    requires Inv(s) && len < 0
    ensures Recv(s, len).0 == s
    ensures Recv(s, -len).1 == Recv(s, len).1 && Recv(s, -len).2 == Recv(s, len).2
  {
  }

  // ---- input ----

  lemma HearSegKeepsInv(h: Hearing, w: WireSeg)
    requires Inv(h.s)
    ensures Inv(HearSeg(h, w).s)
  {
    hide SendBuffer.Inv, RecvBuffer.Inv, Congestion.Inv, SendBuffer.ParseUna, SendBuffer.ParseAck,
      SendBuffer.Shrink, RecvBuffer.HearPush, RttEstimator.UpdateAck;
    var mss := h.s.cfg.Mss();
    SendBuffer.HearUnaKeepsInv(h.s.snd, w.una, mss);
    SendBuffer.HearAckKeepsInv(SendBuffer.HearUna(h.s.snd, w.una), w.sn, mss);
    RecvBuffer.HearPushKeepsInv(h.s.rcv, h.s.cfg.rcvWnd, Ack(w.sn, w.ts), Frag(w.frg, w.data));
    if Diff(h.s.clock.current, w.ts) >= 0 {
      RttEstimator.RtoBounded(h.s.rtt, Diff(h.s.clock.current, w.ts), h.s.cfg.interval, h.s.cfg.minRto);
    }
  }

  lemma {:induction false} HearAllKeepsInv(h: Hearing, ws: Packet)
    requires Inv(h.s)
    ensures Inv(HearAll(h, ws).s)
    decreases |ws|
  {
    if ws != [] {
      HearSegKeepsInv(h, ws[0]);
      HearAllKeepsInv(HearSeg(h, ws[0]), ws[1..]);
    }
  }

  /** Whatever bytes arrive. */
  lemma InputKeepsInv(s: State, data: seq<u8>)
    requires Inv(s)
    ensures Inv(Input(s, data).0)
    ensures Input(s, data).1 in {0, -1, -2, -3}
  {
    var (ws, code) := Parse(s.cfg.conv, data);
    ParsedAreSendable(s.cfg.conv, data);
    var h := HearAll(Hearing(s, false, 0), ws);
    HearAllKeepsInv(Hearing(s, false, 0), ws);
    FinishKeepsInv(h, s.snd.una);
  }

  lemma FinishKeepsInv(h: Hearing, prevUna: u32)
    requires Inv(h.s)
    ensures Inv(FinishInput(h, prevUna))
  {
    SendBuffer.ParseFastackKeepsInv(h.s.snd, h.maxack, h.s.cfg.Mss());
    Congestion.OnAckKeepsInv(h.s.cong, h.s.cfg.Mss(), h.s.rmtWnd);
  }

  /** A datagram that is a concatenation of segments of this conversation is
      processed as the fold of the per-segment steps, one overtaking count and one
      congestion step. */
  lemma InputOfPacket(s: State, p: Packet)
    requires s.cfg.Mss() > 0
    requires p != [] && PacketSize(p) < HALF
    requires forall w | w in p :: Sendable(w) && w.conv == s.cfg.conv
    ensures HearAll(Hearing(s, false, 0), p).s.cfg == s.cfg
    ensures Input(s, EncodePacket(p)) == (FinishInput(HearAll(Hearing(s, false, 0), p), s.snd.una), 0)
  {
    hide HearAll, FinishInput, EncodePacket, Parse, PacketSize;
    ParsePacket(s.cfg.conv, p);
    HearAllKeepsCfg(Hearing(s, false, 0), p);
  }

  // ---- flush and update ----

  lemma NumberOrdered(s: State)
    requires SendBuffer.Inv(s.snd, s.cfg.Mss()) && s.rmtWnd <= MAX_WND
    ensures SendBuffer.InFlight(Number(s)) == SendBuffer.InFlight(s.snd) + Admitted(s) <= MAX_WND
    ensures SendBuffer.Ordered(Number(s).buf, s.snd.una, SendBuffer.InFlight(Number(s)))
    ensures forall i | 0 <= i < Admitted(s) ::
              Sub32(Numbered(s, i).sn, s.snd.una) == SendBuffer.InFlight(s.snd) + i
  {
    hide Low32;
    var n, m := Admitted(s), SendBuffer.InFlight(s.snd);
    var more := seq(n, i requires 0 <= i < n => Numbered(s, i));
    forall i | 0 <= i < n ensures more[i] == Numbered(s, i) && Sub32(Numbered(s, i).sn, s.snd.una) == m + i {
      Low32Offset(s.snd.nxt, s.snd.una, i);
    }
    Low32Offset(s.snd.nxt, s.snd.una, n);
    SendBuffer.AppendOrdered(s.snd.buf, more, s.snd.una, m);
  }

  /** Where the segments of the send buffer come from when a flush numbers more. */
  lemma NumberMembers(s: State)
    ensures forall g :: g in Number(s).buf <==>
              g in s.snd.buf || exists i :: 0 <= i < Admitted(s) && g == Numbered(s, i)
  {
    var n := Admitted(s);
    var more := seq(n, i requires 0 <= i < n => Numbered(s, i));
    forall g ensures g in more <==> exists i :: 0 <= i < n && g == Numbered(s, i) {
      if i :| 0 <= i < n && g == Numbered(s, i) { assert more[i] == g; }
    }
    assert forall g :: g in Number(s).buf <==> g in s.snd.buf || g in more;
  }

  lemma NumberKeepsInv(s: State)
    requires Inv(s)
    ensures SendBuffer.Inv(Number(s), s.cfg.Mss())
  {
    NumberOrdered(s);
    NumberMembers(s);
    var snd := Number(s);
    forall g | g in snd.buf ensures SendBuffer.FragOk(g.frag, s.cfg.Mss()) {}
    assert forall f | f in snd.queue :: f in s.snd.queue;
    if s.snd.buf == [] && Admitted(s) > 0 {
      assert snd.buf[0] == Numbered(s, 0);
    }
  }

  /** The flush changes neither numbers nor contents of what is in flight. */
  lemma FlushedKeepsInv(snd: Sender, e: Retransmission.Env, mss: u32)
    requires SendBuffer.Inv(snd, mss)
    ensures SendBuffer.Inv(snd.(buf := FlushedBuf(snd.buf, e)), mss)
  {
    hide Retransmission.BackedOff, Retransmission.Late, Retransmission.Overtaken;
    var buf := FlushedBuf(snd.buf, e);
    assert forall i | 0 <= i < |buf| :: buf[i].sn == snd.buf[i].sn && buf[i].frag == snd.buf[i].frag;
    forall g | g in buf ensures SendBuffer.FragOk(g.frag, mss) {
      var i :| 0 <= i < |buf| && buf[i] == g;
      assert snd.buf[i] in snd.buf;
    }
  }

  /** The probe interval grows by half up to its limit, and is off exactly while the
      remote window is open. */
  lemma ProbeTimerBounded(p: Probe, rmtWnd: u32, current: u32)
    requires p.wait <= PROBE_LIMIT
    ensures ProbeTimer(p, rmtWnd, current).wait <= PROBE_LIMIT
    ensures ProbeTimer(p, rmtWnd, current).wait == 0 <==> rmtWnd != 0
    ensures rmtWnd == 0 && ProbeTimer(p, rmtWnd, current) != p ==>
              Diff(ProbeTimer(p, rmtWnd, current).ts, current) >= PROBE_INIT
  {
  }

  lemma AfterFlushKeepsInv(s: State)
    requires Inv(s)
    ensures Inv(AfterFlush(s))
    ensures AfterFlush(s).cong.cwnd >= 1
  {
    ProbeTimerBounded(s.probe, s.rmtWnd, s.clock.current);
    hide SendBuffer.Inv, Congestion.Inv, SendBuffer.Ordered, Number, FlushedBuf, Congestion.OnFlush, ProbeTimer;
    NumberKeepsInv(s);
    var snd, e := Number(s), EnvOf(s);
    assert SendBuffer.InFlight(snd) <= MAX_WND by { NumberInFlight(s); }
    FlushedKeepsInv(snd, e, s.cfg.Mss());
    Congestion.OnFlushKeepsInv(s.cong, s.cfg.Mss(), AnyOvertaken(snd.buf, e), CountLate(snd.buf, e) > 0,
                               SendBuffer.InFlight(snd), Window(s), e.resent);
  }

  lemma NumberInFlight(s: State)
    requires Inv(s)
    ensures SendBuffer.InFlight(Number(s)) == SendBuffer.InFlight(s.snd) + Admitted(s) <= MAX_WND
  {
    NumberOrdered(s);
  }

  /** The clock is no part of the invariant. */
  lemma ClockKeepsInv(s: State, clock: Clock)
    requires Inv(s)
    ensures Inv(s.(clock := clock))
  {
    hide SendBuffer.Inv, RecvBuffer.Inv, Congestion.Inv;
  }

  lemma UpdateKeepsInv(s: State, now: u32)
    requires Inv(s)
    ensures Inv(Update(s, now).0)
    ensures Inv(Flush(s).0)
  {
    hide Inv, AfterFlush, FlushClock.Tick;
    var (clock, _) := FlushClock.Tick(s.clock, now, s.cfg.interval);
    ClockKeepsInv(s, clock);
    AfterFlushKeepsInv(s);
    AfterFlushKeepsInv(s.(clock := clock));
  }

  // ---- what the parts of the state depend on ----

  /** Sending only touches the queue of fragments still to be numbered. */
  lemma SendChangesQueueOnly(s: State, buffer: seq<u8>, len: int)
    requires len <= |buffer| && s.cfg.Mss() > 0
    ensures Send(s, buffer, len).0 == s.(snd := s.snd.(queue := Send(s, buffer, len).0.snd.queue))
  {
  }

  /** How many fragments a successful receive takes. */
  function Taken(s: State, len: int): nat {
    if len < 0 then 0 else RecvBuffer.MsgEnd(s.rcv.queue)
  }

  lemma RecvFields(s: State, len: int)
    ensures var (s', code, _) := Recv(s, len);
            && s' == s.(rcv := s'.rcv, probe := s'.probe)
            && (code < 0 ==> s' == s)
            && (code >= 0 ==> s'.rcv == RecvBuffer.Drain(s.rcv.(queue := s.rcv.queue[Taken(s, len)..]), s.cfg.rcvWnd))
  {
    var q := s.rcv.queue;
    assert q[0..] == q;
  }

  // ---- what a flush sends ----

  lemma {:induction false} DataItemsOk(s: State, buf: seq<SndSeg>)
    requires s.cfg.Valid() && forall g | g in buf :: SendBuffer.FragOk(g.frag, s.cfg.Mss())
    ensures forall w | w in DataItems(s, buf) :: Sendable(w) && w.conv == s.cfg.conv && Size(w) <= s.cfg.mtu
  {
    hide EnvOf, Retransmission.Due;
    if buf != [] {
      assert buf[|buf| - 1] in buf && forall g | g in buf[..|buf| - 1] :: g in buf;
      DataItemsOk(s, buf[..|buf| - 1]);
    }
  }

  lemma ControlItemsOk(s: State)
    requires 50 <= s.cfg.mtu
    ensures forall w | w in AckItems(s) :: Sendable(w) && w.conv == s.cfg.conv && Size(w) <= s.cfg.mtu
    ensures forall w | w in ProbeItems(s) :: Sendable(w) && w.conv == s.cfg.conv && Size(w) <= s.cfg.mtu
  {
    hide ProbeTimer, Unused, LastAck;
  }

  /** Everything a flush sends can travel: it has the conversation number, a known
      command, and fits in a datagram of its own. */
  lemma FlushItemsOk(s: State)
    requires Inv(s)
    ensures forall w | w in FlushItems(s) :: Sendable(w) && w.conv == s.cfg.conv && Size(w) <= s.cfg.mtu
  {
    NumberKeepsInv(s);
    hide Number, SendBuffer.Ordered, ProbeTimer;
    DataItemsOk(s, Number(s).buf);
    ControlItemsOk(s);
    hide Inv, SendBuffer.Inv, AckItems, ProbeItems, DataItems, Sendable;
    assert forall w | w in FlushItems(s) :: w in AckItems(s) || w in ProbeItems(s) || w in DataItems(s, Number(s).buf);
  }
}
