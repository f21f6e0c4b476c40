/** A segment of the send buffer followed through any calls of the interface: what
    happens to it is a life in the sense of `Retransmission`. */
module SegmentLife {
  import opened Serial
  import opened Wire
  import opened ControlBlock
  import opened Endpoint
  import opened EndpointInvariant
  import opened EndpointGuarantees
  import opened Retransmission
  import SendBuffer
  import RecvBuffer
  import FlushClock

  /** The acknowledgements in the datagram overtook the segment. */
  predicate Overtakes(s: State, data: seq<u8>, g: SndSeg) {
    AsSigned(Low32(|data|)) >= OVERHEAD &&
    var (ws, code) := Parse(s.cfg.conv, data);
    var h := HearAll(Hearing(s, false, 0), ws);
    && code == 0 && h.flag && SendBuffer.Outstanding(h.s.snd, h.maxack)
    && Sub32(g.sn, h.s.snd.una) < Sub32(h.maxack, h.s.snd.una)
  }

  /** What a call means for the segment. */
  function Happens(s: State, c: Call, g: SndSeg): seq<Event> {
    match c
    case Arriving(data) => if Overtakes(s, data, g) then [Skip(1)] else []
    case Updating(now) =>
      var (clock, flush) := FlushClock.Tick(s.clock, now, s.cfg.interval);
      if flush then [Event.Flush(EnvOf(s.(clock := clock)))] else []
    case Flushing => if s.clock.updated then [Event.Flush(EnvOf(s))] else []
    case _ => []
  }

  lemma LiveOne(g: SndSeg, v: Event)
    ensures Live(g, []) == g
    ensures Live(g, [v]) == if v.Flush? then Flushed(g, v.e) else g.(fastack := Add32(g.fastack, v.times))
  {
    assert [v][..|[v]| - 1] == [];
  }

  /** Two segments of an ordered buffer with one number are one segment. */
  lemma OneOfANumber(buf: seq<SndSeg>, base: u32, n: int, g: SndSeg, h: SndSeg)
    requires SendBuffer.Ordered(buf, base, n) && g in buf && h in buf && g.sn == h.sn
    ensures g == h
  {
    var i :| 0 <= i < |buf| && buf[i] == g;
    var j :| 0 <= j < |buf| && buf[j] == h;
  }

  // ---- flush ----

  lemma FlushHappens(s: State, g: SndSeg, g': SndSeg)
    requires Inv(s) && g in s.snd.buf && g' in AfterFlush(s).snd.buf && g'.sn == g.sn
    ensures g' == Flushed(g, EnvOf(s))
  {
    hide Number, EnvOf, Inv, Flushed, SendBuffer.Ordered;
    NumberKeepsInv(s);
    NumberMembers(s);
    var snd, e := Number(s), EnvOf(s);
    assert AfterFlush(s).snd.buf == FlushedBuf(snd.buf, e);
    FlushedOne(snd.buf, snd.una, SendBuffer.InFlight(snd), e, g, g');
  }

  lemma FlushedOne(buf: seq<SndSeg>, base: u32, n: int, e: Env, g: SndSeg, g': SndSeg)
    requires SendBuffer.Ordered(buf, base, n) && g in buf && g' in FlushedBuf(buf, e) && g'.sn == g.sn
    ensures g' == Flushed(g, e)
  {
    hide SendBuffer.Ordered;
    var i :| 0 <= i < |buf| && FlushedBuf(buf, e)[i] == g';
    OneOfANumber(buf, base, n, buf[i], g);
  }

  // ---- input ----

  lemma HearSegOnlyDrops(h: Hearing, w: WireSeg)
    requires Inv(h.s)
    ensures forall g | g in HearSeg(h, w).s.snd.buf :: g in h.s.snd.buf
  {
    SendBuffer.HearUnaKeepsInv(h.s.snd, w.una, h.s.cfg.Mss());
    SendBuffer.HearAckKeepsInv(SendBuffer.HearUna(h.s.snd, w.una), w.sn, h.s.cfg.Mss());
    hide Inv, SendBuffer.Inv, SendBuffer.ParseUna, SendBuffer.ParseAck, SendBuffer.Shrink, RecvBuffer.HearPush;
  }

  lemma {:induction false} HearAllOnlyDrops(h: Hearing, ws: Packet)
    requires Inv(h.s)
    ensures Inv(HearAll(h, ws).s)
    ensures forall g | g in HearAll(h, ws).s.snd.buf :: g in h.s.snd.buf
    decreases |ws|
  {
    hide Inv, HearSeg;
    if ws != [] {
      HearSegOnlyDrops(h, ws[0]);
      HearSegKeepsInv(h, ws[0]);
      HearAllOnlyDrops(HearSeg(h, ws[0]), ws[1..]);
    }
  }

  lemma FinishHappens(h: Hearing, prevUna: u32, g: SndSeg, g': SndSeg)
    requires Inv(h.s) && g in h.s.snd.buf && h.s.cfg.Mss() > 0
    requires g' in FinishInput(h, prevUna).snd.buf && g'.sn == g.sn
    ensures g' == if h.flag && SendBuffer.Outstanding(h.s.snd, h.maxack) &&
                     Sub32(g.sn, h.s.snd.una) < Sub32(h.maxack, h.s.snd.una) then SendBuffer.Skipped(g) else g
  {
    var snd := h.s.snd;
    assert SendBuffer.Ordered(snd.buf, snd.una, SendBuffer.InFlight(snd));
    hide Inv, SendBuffer.Ordered;
    var buf' := if h.flag then SendBuffer.ParseFastack(snd, h.maxack) else snd.buf;
    assert FinishInput(h, prevUna).snd.buf == buf';
    var i :| 0 <= i < |buf'| && buf'[i] == g';
    assert snd.buf[i] in snd.buf && snd.buf[i].sn == g.sn;
    OneOfANumber(snd.buf, snd.una, SendBuffer.InFlight(snd), snd.buf[i], g);
  }

  lemma InputHappens(s: State, data: seq<u8>, g: SndSeg, g': SndSeg)
    requires Inv(s) && g in s.snd.buf && g' in Input(s, data).0.snd.buf && g'.sn == g.sn
    ensures g' == if Overtakes(s, data, g) then SendBuffer.Skipped(g) else g
  {
    assert SendBuffer.Ordered(s.snd.buf, s.snd.una, SendBuffer.InFlight(s.snd));
    if AsSigned(Low32(|data|)) >= OVERHEAD {
      var (ws, code) := Parse(s.cfg.conv, data);
      var h := HearAll(Hearing(s, false, 0), ws);
      HearAllOnlyDrops(Hearing(s, false, 0), ws);
      HearAllKeepsCfg(Hearing(s, false, 0), ws);
      assert s.cfg.Mss() > 0;
      hide Parse, HearAll, Inv, SendBuffer.Ordered, FinishInput;
      if code == 0 {
        var k := FinishedFrom(h, s.snd.una, g');
        OneOfANumber(s.snd.buf, s.snd.una, SendBuffer.InFlight(s.snd), k, g);
        FinishHappens(h, s.snd.una, g, g');
      } else {
        OneOfANumber(s.snd.buf, s.snd.una, SendBuffer.InFlight(s.snd), g', g);
      }
    } else {
      OneOfANumber(s.snd.buf, s.snd.una, SendBuffer.InFlight(s.snd), g', g);
    }
  }

  lemma FinishedFrom(h: Hearing, prevUna: u32, g': SndSeg) returns (g: SndSeg)
    requires h.s.cfg.Mss() > 0 && g' in FinishInput(h, prevUna).snd.buf
    ensures g in h.s.snd.buf && g.sn == g'.sn
  {
    var buf' := FinishInput(h, prevUna).snd.buf;
    var i :| 0 <= i < |buf'| && buf'[i] == g';
    g := h.s.snd.buf[i];
  }

  // ---- runs ----

  lemma UpdateHappens(s: State, now: u32, g: SndSeg, g': SndSeg)
    requires Inv(s) && g in s.snd.buf && g' in Update(s, now).0.snd.buf && g'.sn == g.sn
    ensures g' == Live(g, Happens(s, Updating(now), g)) && |Happens(s, Updating(now), g)| <= 1
    ensures s.cfg.nodelay == 0 ==> Plain(Happens(s, Updating(now), g))
    ensures Update(s, now).0.cfg == s.cfg
  {
    hide Inv, SendBuffer.Ordered, SendBuffer.InFlight, Flushed, EnvOf, AfterFlush, FlushClock.Tick;
    var (clock, flush) := FlushClock.Tick(s.clock, now, s.cfg.interval);
    var s1 := s.(clock := clock);
    FlushClock.TickUpdates(s.clock, now, s.cfg.interval);
    if flush {
      ClockKeepsInv(s, clock);
      FlushingHappens(s1, g, g');
    } else {
      SameSegment(s, g, g');
    }
  }

  lemma FlushingHappens(s: State, g: SndSeg, g': SndSeg)
    requires Inv(s) && g in s.snd.buf && g' in Endpoint.Flush(s).0.snd.buf && g'.sn == g.sn
    ensures g' == Live(g, Happens(s, Flushing, g)) && |Happens(s, Flushing, g)| <= 1
    ensures s.cfg.nodelay == 0 ==> Plain(Happens(s, Flushing, g))
    ensures Endpoint.Flush(s).0.cfg == s.cfg
  {
    hide Inv, SendBuffer.Ordered, SendBuffer.InFlight, Flushed, EnvOf, AfterFlush;
    LiveOne(g, Event.Flush(EnvOf(s)));
    PlainEnv(s);
    AfterFlushCfg(s);
    if s.clock.updated {
      FlushHappens(s, g, g');
    } else {
      SameSegment(s, g, g');
    }
  }

  lemma PlainEnv(s: State)
    requires Inv(s)
    ensures EnvOf(s).nodelay == s.cfg.nodelay && EnvOf(s).rto <= RTO_MAX
  {
    hide SendBuffer.Inv, RecvBuffer.Inv;
  }

  lemma SameSegment(s: State, g: SndSeg, g': SndSeg)
    requires Inv(s) && g in s.snd.buf && g' in s.snd.buf && g'.sn == g.sn
    ensures g' == g && Live(g, []) == g
  {
    OneOfANumber(s.snd.buf, s.snd.una, SendBuffer.InFlight(s.snd), g, g');
  }

  /** A segment that is still in the buffer after a call has lived through what the
      call means for it, and nothing else. */
  lemma CallHappens(s: State, c: Call, g: SndSeg, g': SndSeg)
    requires Inv(s) && Legal(c) && s.cfg.Mss() > 0 && g in s.snd.buf
    requires g' in Apply(s, c).snd.buf && g'.sn == g.sn
    ensures g' == Live(g, Happens(s, c, g)) && |Happens(s, c, g)| <= 1
    ensures s.cfg.nodelay == 0 ==> Plain(Happens(s, c, g))
    ensures Apply(s, c).cfg == s.cfg
  {
    hide Inv, SendBuffer.Ordered, SendBuffer.InFlight, Config.Mss, Flushed, Overtakes, EnvOf, AfterFlush, Recv, Send, Input,
      Update, Endpoint.Flush, FlushClock.Tick;
    match c
    case Arriving(data) =>
      InputHappens(s, data, g, g');
      InputCfg(s, data);
      LiveOne(g, Skip(1));
    case Updating(now) => UpdateHappens(s, now, g, g');
    case Flushing => FlushingHappens(s, g, g');
    case Sending(buffer, len) =>
      SendChangesQueueOnly(s, buffer, len);
      SameSegment(s, g, g');
    case Receiving(len) =>
      RecvFields(s, len);
      SameSegment(s, g, g');
  }

  lemma InputCfg(s: State, data: seq<u8>)
    requires s.cfg.Mss() > 0
    ensures Input(s, data).0.cfg == s.cfg
  {
    hide HearAll, Parse;
    HearAllKeepsCfg(Hearing(s, false, 0), Parse(s.cfg.conv, data).0);
  }

  lemma AfterFlushCfg(s: State)
    ensures AfterFlush(s).cfg == s.cfg
  {
  }

  /** The segment numbered `sn` is in the buffer before, between and after the calls. */
  ghost predicate Stays(s: State, calls: seq<Call>, sn: u32)
    requires Inv(s) && forall c | c in calls :: Legal(c)
    decreases |calls|
  {
    && (exists g | g in s.snd.buf :: g.sn == sn)
    && (calls == [] || (ApplyKeepsInv(s, calls[0]); Stays(Apply(s, calls[0]), calls[1..], sn)))
  }

  /** What the calls mean for it, in order. */
  ghost function LifeOf(s: State, calls: seq<Call>, g: SndSeg): seq<Event>
    requires Inv(s) && forall c | c in calls :: Legal(c)
    decreases |calls|
  {
    if calls == [] then []
    else
      ApplyKeepsInv(s, calls[0]);
      var now := Happens(s, calls[0], g);
      now + LifeOf(Apply(s, calls[0]), calls[1..], Live(g, now))
  }

  lemma {:induction false} LiveConcat(g: SndSeg, es: seq<Event>, fs: seq<Event>)
    ensures Live(g, es + fs) == Live(Live(g, es), fs)
    decreases |fs|
  {
    if fs == [] {
      assert es + fs == es;
    } else {
      assert (es + fs)[..|es + fs| - 1] == es + fs[..|fs| - 1];
      LiveConcat(g, es, fs[..|fs| - 1]);
    }
  }

  /** Over any run of calls that leaves it in the buffer, a segment ends up as its
      life makes it. */
  lemma {:induction false} RunIsALife(s: State, calls: seq<Call>, g: SndSeg)
    requires Inv(s) && g in s.snd.buf && forall c | c in calls :: Legal(c)
    requires Stays(s, calls, g.sn)
    ensures Live(g, LifeOf(s, calls, g)) in After(s, calls).snd.buf && Live(g, LifeOf(s, calls, g)).sn == g.sn
    ensures |LifeOf(s, calls, g)| <= |calls|
    ensures s.cfg.nodelay == 0 ==> Plain(LifeOf(s, calls, g))
    decreases |calls|
  {
    hide Inv, Apply, Happens, Plain;
    if calls == [] {
      NoLife(g);
    } else {
      ApplyKeepsInv(s, calls[0]);
      var s', now := Apply(s, calls[0]), Happens(s, calls[0], g);
      assert exists g' | g' in s'.snd.buf :: g'.sn == g.sn;
      var g' :| g' in s'.snd.buf && g'.sn == g.sn;
      CallHappens(s, calls[0], g, g');
      RunIsALife(s', calls[1..], g');
      LiveConcat(g, now, LifeOf(s', calls[1..], g'));
      PlainConcat(now, LifeOf(s', calls[1..], g'));
    }
  }

  lemma NoLife(g: SndSeg)
    ensures Live(g, []) == g && Plain([])
  {
  }

  lemma PlainConcat(es: seq<Event>, fs: seq<Event>)
    ensures Plain(es) && Plain(fs) ==> Plain(es + fs)
  {
  }

  /** Exponential backoff, over any run of calls with `nodelay` off: a segment that
      has been sent and timed out k times since has at least 2^k times the timeout it
      had, as long as the longest that it can be by then stays in 32 bits. */
  lemma TimeoutsDouble(s: State, calls: seq<Call>, g: SndSeg, g': SndSeg)
    requires Inv(s) && g in s.snd.buf && forall c | c in calls :: Legal(c)
    requires Stays(s, calls, g.sn) && g' in After(s, calls).snd.buf && g'.sn == g.sn
    requires s.cfg.nodelay == 0 && g.xmit >= 1 && g.xmit + |calls| < TWO32
    requires Worst(g.rto, Timeouts(g, LifeOf(s, calls, g))) < TWO32
    ensures g'.rto >= Pow2(Timeouts(g, LifeOf(s, calls, g))) * g.rto
  {
    RunIsALife(s, calls, g);
    var end := After(s, calls);
    assert SendBuffer.Ordered(end.snd.buf, end.snd.una, SendBuffer.InFlight(end.snd)) by { hide After, LifeOf, Stays; }
    hide Inv, After, LifeOf, Stays, SendBuffer.Ordered, Live, Timeouts, Worst;
    OneOfANumber(end.snd.buf, end.snd.una, SendBuffer.InFlight(end.snd), g', Live(g, LifeOf(s, calls, g)));
    BackoffIsExponential(g, LifeOf(s, calls, g));
  }

  /** Up to sixteen timeouts that is so for every `rto` up to the largest estimate, and up
      to seventeen for an `rto` of at most 5535 ms. */
  lemma SixteenTimeoutsDouble(s: State, calls: seq<Call>, g: SndSeg, g': SndSeg)
    requires Inv(s) && g in s.snd.buf && forall c | c in calls :: Legal(c)
    requires Stays(s, calls, g.sn) && g' in After(s, calls).snd.buf && g'.sn == g.sn
    requires s.cfg.nodelay == 0 && g.xmit >= 1 && g.rto <= RTO_MAX && g.xmit + |calls| < TWO32
    requires Timeouts(g, LifeOf(s, calls, g)) <= if g.rto <= 5535 then 17 else 16
    ensures g'.rto >= Pow2(Timeouts(g, LifeOf(s, calls, g))) * g.rto
  {
    SixteenFit(Timeouts(g, LifeOf(s, calls, g)), g.rto);
    hide Inv, After, LifeOf, Stays, Live, Timeouts, Pow2, Worst;
    TimeoutsDouble(s, calls, g, g');
  }
}
