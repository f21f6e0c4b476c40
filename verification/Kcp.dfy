/** The control block as an object: the fields of `struct IKCPCB` and the functions
    of ikcp.c that update them, each proved against the function of `Endpoint` that
    says what it does. */
module KcpObject {
  import opened Serial
  import opened Wire
  import opened ControlBlock
  import opened Packing
  import SendBuffer
  import RecvBuffer
  import RttEstimator
  import Congestion
  import FlushClock
  import Retransmission
  import Endpoint
  import EndpointInvariant

  ghost predicate Encodable(p: Packet) {
    forall w | w in p :: Sendable(w)
  }

  /** The byte strings are the encoded packets. */
  ghost predicate Carries(out: seq<seq<u8>>, ps: seq<Packet>) {
    |out| == |ps| && forall i | 0 <= i < |ps| :: Encodable(ps[i]) && out[i] == EncodePacket(ps[i])
  }

  lemma WaitStep(buf: seq<SndSeg>, i: nat, now: u32)
    requires i < |buf|
    ensures FlushClock.ShortestWait(buf[..i + 1], now) == Min(FlushClock.ShortestWait(buf[..i], now), Diff(buf[i].resendts, now))
    ensures FlushClock.Overdue(buf[..i + 1], now) <==> FlushClock.Overdue(buf[..i], now) || Diff(buf[i].resendts, now) <= 0
    ensures Diff(buf[i].resendts, now) <= 0 ==> FlushClock.Overdue(buf, now)
  {
    assert buf[..i + 1][..i] == buf[..i];
    assert buf[i] in buf;
    assert forall g :: g in buf[..i + 1] <==> g in buf[..i] || g == buf[i];
  }

  /** `ikcp_recv` case by case. */
  lemma RecvCases(s: State, len: int)
    ensures var q, r := s.rcv.queue, Endpoint.Recv(s, len);
            var size := RecvBuffer.PeekSize(q);
            if q == [] then r == (s, -1, [])
            else if size < 0 then r == (s, -2, [])
            else if size > Max(len, -len) then r == (s, -3, [])
            else
              var taken := s.rcv.(queue := if len < 0 then q else q[RecvBuffer.MsgEnd(q)..]);
              var rcv := RecvBuffer.Drain(taken, s.cfg.rcvWnd);
              var tell := s.probe.tell || (|q| >= s.cfg.rcvWnd && |rcv.queue| < s.cfg.rcvWnd);
              r == (s.(rcv := rcv, probe := s.probe.(tell := tell)), |RecvBuffer.NextMsg(q)|, RecvBuffer.NextMsg(q))
  {
    hide RecvBuffer.Drain, RecvBuffer.NextMsg, RecvBuffer.PeekSize;
  }

  class Kcp {
    const cfg: Config
    var sndUna: u32
    var sndNxt: u32
    var rcvNxt: u32
    var ssthresh: u32
    var cwnd: u32
    var incr: u32
    var rmtWnd: u32
    var rxSrtt: i32
    var rxRttval: i32
    var rxRto: u32
    var askSend: bool
    var askTell: bool
    var tsProbe: u32
    var probeWait: u32
    var current: u32
    var tsFlush: u32
    var updated: bool
    var dead: bool
    var xmit: u32
    var sndQueue: seq<Frag>
    var sndBuf: seq<SndSeg>
    var rcvQueue: seq<Frag>
    var rcvBuf: seq<RcvSeg>
    var nsndQue: nat
    var nsndBuf: nat
    var nrcvQue: nat
    var nrcvBuf: nat
    var acklist: seq<Ack>
    const buffer: array<u8>
    /** Every datagram handed to the output callback so far. */
    var output: seq<seq<u8>>

    ghost function Snd(): Sender reads `sndUna, `sndNxt, `sndQueue, `sndBuf { Sender(sndUna, sndNxt, sndQueue, sndBuf) }

    ghost function Rcv(): Receiver reads `rcvNxt, `rcvQueue, `rcvBuf, `acklist { Receiver(rcvNxt, rcvQueue, rcvBuf, acklist) }

    ghost function State(): State
      reads `sndUna, `sndNxt, `sndQueue, `sndBuf, `rcvNxt, `rcvQueue, `rcvBuf, `acklist, `rxSrtt, `rxRttval, `rxRto, `cwnd,
        `ssthresh, `incr, `rmtWnd, `askSend, `askTell, `tsProbe, `probeWait, `current, `tsFlush, `updated, `dead, `xmit
    {
      ControlBlock.State(cfg, Snd(), Rcv(), Rtt(rxSrtt, rxRttval, rxRto), Cong(cwnd, ssthresh, incr), rmtWnd,
        Probe(askSend, askTell, tsProbe, probeWait), Clock(current, tsFlush, updated), dead, xmit)
    }

    /** Each counter is the length of its list. */
    ghost predicate Counted()
      reads `sndQueue, `sndBuf, `rcvQueue, `rcvBuf, `nsndQue, `nsndBuf, `nrcvQue, `nrcvBuf
    {
      nsndQue == |sndQueue| && nsndBuf == |sndBuf| && nrcvQue == |rcvQueue| && nrcvBuf == |rcvBuf|
    }

    ghost predicate Valid() reads this {
      && EndpointInvariant.Inv(State())
      && Counted()
      && buffer.Length == (cfg.mtu + OVERHEAD) * 3
    }

    /** `ikcp_create` with the settings made before traffic. */
    constructor (cfg: Config)
      requires cfg.Valid()
      ensures Valid() && State() == Create(cfg) && output == []
      ensures this.cfg == cfg && fresh(buffer)
    {
      this.cfg := cfg;
      sndUna, sndNxt, rcvNxt := 0, 0, 0;
      ssthresh, cwnd, incr, rmtWnd := THRESH_INIT, 0, 0, WND_RCV;
      rxSrtt, rxRttval, rxRto := 0, 0, RTO_DEF;
      askSend, askTell, tsProbe, probeWait := false, false, 0, 0;
      current, tsFlush, updated := 0, INTERVAL, false;
      dead, xmit := false, 0;
      sndQueue, sndBuf, rcvQueue, rcvBuf := [], [], [], [];
      nsndQue, nsndBuf, nrcvQue, nrcvBuf := 0, 0, 0, 0;
      acklist, output := [], [];
      buffer := new u8[(cfg.mtu + OVERHEAD) * 3];
      new;
      EndpointInvariant.CreateInv(cfg);
    }

    // ---- the receive side ----

    /** `ikcp_peeksize`. */
    method PeekSize() returns (size: int)
      requires Counted()
      ensures size == RecvBuffer.PeekSize(rcvQueue)
    {
      if rcvQueue == [] { return -1; }
      if rcvQueue[0].frg == 0 { return |rcvQueue[0].data|; }
      if nrcvQue < rcvQueue[0].frg + 1 { return -1; }
      size := 0;
      var i := 0;
      while i < |rcvQueue|
        invariant 0 <= i <= |rcvQueue|
        invariant |RecvBuffer.NextMsg(rcvQueue)| == size + |RecvBuffer.NextMsg(rcvQueue[i..])|
      {
        size := size + |rcvQueue[i].data|;
        assert RecvBuffer.NextMsg(rcvQueue[i..]) ==
               rcvQueue[i].data + if rcvQueue[i].frg == 0 then [] else RecvBuffer.NextMsg(rcvQueue[i + 1..]) by {
          NextMsgStep(rcvQueue[i..]);
          assert rcvQueue[i..][1..] == rcvQueue[i + 1..];
        }
        if rcvQueue[i].frg == 0 { break; }
        i := i + 1;
      }
    }

    /** Move what is in order from the buffer to the queue (twice in the source). */
    method MoveAvailable()
      requires nrcvQue == |rcvQueue| && nrcvBuf == |rcvBuf|
      modifies `rcvBuf, `rcvQueue, `nrcvBuf, `nrcvQue, `rcvNxt
      ensures State() == old(State()).(rcv := RecvBuffer.Drain(old(Rcv()), cfg.rcvWnd))
      ensures nrcvQue == |rcvQueue| && nrcvBuf == |rcvBuf|
    {
      while rcvBuf != []
        invariant nrcvQue == |rcvQueue| && nrcvBuf == |rcvBuf|
        invariant acklist == old(acklist)
        invariant RecvBuffer.Drain(Rcv(), cfg.rcvWnd) == RecvBuffer.Drain(old(Rcv()), cfg.rcvWnd)
        decreases |rcvBuf|
      {
        var seg := rcvBuf[0];
        if seg.sn == rcvNxt && nrcvQue < cfg.rcvWnd {
          ghost var before := Rcv();
          rcvBuf := rcvBuf[1..];
          nrcvBuf := nrcvBuf - 1;
          rcvQueue := rcvQueue + [seg.frag];
          nrcvQue := nrcvQue + 1;
          rcvNxt := Add32(rcvNxt, 1);
          assert Rcv() == RecvBuffer.MoveOne(before);
        } else {
          break;
        }
      }
    }

    /** The merging loop of `ikcp_recv`: copy the fragments of one message and, unless
        peeking, take them off the queue. */
    method Merge(ispeek: bool) returns (data: seq<u8>)
      requires nrcvQue == |rcvQueue|
      modifies `rcvQueue, `nrcvQue
      ensures data == RecvBuffer.NextMsg(old(rcvQueue))
      ensures var q := old(rcvQueue);
              State() == old(State()).(rcv := old(Rcv()).(queue := if ispeek then q else q[RecvBuffer.MsgEnd(q)..]))
      ensures nrcvQue == |rcvQueue|
    {
      hide RecvBuffer.NextMsg, RecvBuffer.MsgEnd;
      data := [];
      var q, i := rcvQueue, 0;
      MergeEnds(q);
      while i < |q|
        invariant 0 <= i <= |q|
        invariant rcvQueue == if ispeek then q else q[i..]
        invariant nrcvQue == |rcvQueue|
        invariant RecvBuffer.NextMsg(q) == data + RecvBuffer.NextMsg(q[i..])
        invariant RecvBuffer.MsgEnd(q) == i + RecvBuffer.MsgEnd(q[i..])
      {
        var seg := q[i];
        MergeStep(q, i, data);
        data := data + seg.data;
        if !ispeek {
          rcvQueue := rcvQueue[1..];
          nrcvQue := nrcvQue - 1;
        }
        i := i + 1;
        if seg.frg == 0 { break; }
      }
    }

    /** The part of `ikcp_recv` after its checks. */
    method Take(ispeek: bool) returns (data: seq<u8>)
      requires nrcvQue == |rcvQueue| && nrcvBuf == |rcvBuf|
      modifies `rcvQueue, `rcvBuf, `nrcvQue, `nrcvBuf, `rcvNxt, `askTell
      ensures data == RecvBuffer.NextMsg(old(rcvQueue))
      ensures var q, s := old(rcvQueue), old(State());
              var rcv := RecvBuffer.Drain(s.rcv.(queue := if ispeek then q else q[RecvBuffer.MsgEnd(q)..]), cfg.rcvWnd);
              State() == s.(rcv := rcv, probe := s.probe.(tell := s.probe.tell || (|q| >= cfg.rcvWnd && |rcv.queue| < cfg.rcvWnd)))
      ensures nrcvQue == |rcvQueue| && nrcvBuf == |rcvBuf|
    {
      var recover := nrcvQue >= cfg.rcvWnd;
      data := Merge(ispeek);
      MoveAvailable();
      // fast recover
      if nrcvQue < cfg.rcvWnd && recover {
        askTell := true;
      }
    }

    /** `ikcp_recv`. */
    method Recv(len: int) returns (code: int, data: seq<u8>)
      requires Valid()
      modifies `rcvQueue, `rcvBuf, `nrcvQue, `nrcvBuf, `rcvNxt, `askTell
      ensures Valid()
      ensures (State(), code, data) == Endpoint.Recv(old(State()), len)
    {
      hide EndpointInvariant.Inv, RecvBuffer.Drain, RecvBuffer.NextMsg, RecvBuffer.MsgEnd, RecvBuffer.PeekSize, Endpoint.Recv;
      EndpointInvariant.RecvKeepsInv(State(), len);
      RecvCases(State(), len);
      code, data := -1, [];
      if rcvQueue != [] {
        var room := if len < 0 then -len else len;
        var peeksize := PeekSize();
        if peeksize < 0 {
          code := -2;
        } else if peeksize > room {
          code := -3;
        } else {
          data := Take(len < 0);
          code := |data|;
        }
      }
    }

    /** `ikcp_parse_data`: the backward scan finds the place. */
    method ParseData(seg: RcvSeg)
      requires RecvBuffer.Inv(Rcv(), cfg.rcvWnd) && WND_RCV <= cfg.rcvWnd <= MAX_WND
      requires nrcvQue == |rcvQueue| && nrcvBuf == |rcvBuf|
      modifies `rcvBuf, `rcvQueue, `nrcvBuf, `nrcvQue, `rcvNxt
      ensures State() == old(State()).(rcv := RecvBuffer.ParseData(old(Rcv()), cfg.rcvWnd, seg))
      ensures nrcvQue == |rcvQueue| && nrcvBuf == |rcvBuf|
    {
      hide RecvBuffer.Drain, RecvBuffer.Insert, RecvBuffer.Ordered;
      if Diff(seg.sn, Add32(rcvNxt, cfg.rcvWnd)) >= 0 || Diff(seg.sn, rcvNxt) < 0 {
        return;
      }
      InsertSeg(seg);
      MoveAvailable();
    }

    /** The backward scan of `ikcp_parse_data` and the insertion. */
    method InsertSeg(seg: RcvSeg)
      requires RecvBuffer.Ordered(rcvBuf, rcvNxt, cfg.rcvWnd) && RecvBuffer.InWindow(Rcv(), cfg.rcvWnd, seg.sn)
      requires WND_RCV <= cfg.rcvWnd <= MAX_WND && nrcvBuf == |rcvBuf|
      modifies `rcvBuf, `nrcvBuf
      ensures rcvBuf == RecvBuffer.Insert(old(rcvBuf), rcvNxt, seg) && nrcvBuf == |rcvBuf|
    {
      var sn, repeated, i := seg.sn, false, |rcvBuf|;
      while i > 0
        invariant 0 <= i <= |rcvBuf|
        invariant i < |rcvBuf| ==> Sub32(sn, rcvNxt) < Sub32(rcvBuf[i].sn, rcvNxt)
        invariant !repeated
      {
        if rcvBuf[i - 1].sn == sn {
          repeated := true;
          break;
        }
        if Diff(sn, rcvBuf[i - 1].sn) > 0 {
          break;
        }
        i := i - 1;
      }
      if !repeated {
        RecvBuffer.InsertAt(rcvBuf, rcvNxt, seg, i);
        rcvBuf := rcvBuf[..i] + [seg] + rcvBuf[i..];
        nrcvBuf := nrcvBuf + 1;
      } else {
        RecvBuffer.InsertDuplicate(rcvBuf, rcvNxt, cfg.rcvWnd, seg, i - 1);
      }
    }

    // ---- the send side ----

    /** Stream mode: what fits goes into the last queued segment. */
    method ExtendPrevious(data: seq<u8>, len: nat) returns (extend: nat)
      requires len <= |data|
      modifies `sndQueue
      ensures extend == Endpoint.TailRoom(old(sndQueue), cfg.Mss(), len)
      ensures State() == old(State()).(snd := old(Snd()).(queue := Endpoint.ExtendTail(old(sndQueue), cfg.Mss(), data[..extend])))
      ensures |sndQueue| == |old(sndQueue)|
    {
      extend := 0;
      if sndQueue != [] {
        var tail := sndQueue[|sndQueue| - 1];
        if |tail.data| < cfg.Mss() {
          var capacity := cfg.Mss() - |tail.data|;
          extend := if len < capacity then len else capacity;
          sndQueue := sndQueue[..|sndQueue| - 1] + [Frag(0, tail.data + data[..extend])];
        }
      }
    }

    /** The fragmenting loop of `ikcp_send`. */
    method QueueFragments(data: seq<u8>, count: nat)
      requires cfg.Mss() > 0 && count == |Endpoint.Fragment(data, cfg.Mss(), cfg.stream)|
      requires nsndQue == |sndQueue|
      modifies `sndQueue, `nsndQue
      ensures State() == Endpoint.Enqueue(old(State()), Endpoint.Fragment(data, cfg.Mss(), cfg.stream))
      ensures nsndQue == |sndQueue|
    {
      var rest, i, mss := data, 0, cfg.Mss();
      while i < count
        invariant 0 <= i <= count && nsndQue == |sndQueue|
        invariant i < count ==>
                    && |Endpoint.Fragment(rest, mss, cfg.stream)| == count - i
                    && sndQueue + Endpoint.Fragment(rest, mss, cfg.stream) == old(sndQueue) + Endpoint.Fragment(data, mss, cfg.stream)
        invariant i == count ==> sndQueue == old(sndQueue) + Endpoint.Fragment(data, mss, cfg.stream)
      {
        var size := if |rest| > mss then mss else |rest|;
        var frag := Frag(if cfg.stream then 0 else count - i - 1, rest[..size]);
        assert rest[..|rest|] == rest;
        assert Endpoint.Fragment(rest, mss, cfg.stream)
            == [frag] + if |rest| > mss then Endpoint.Fragment(rest[mss..], mss, cfg.stream) else [];
        sndQueue := sndQueue + [frag];
        nsndQue := nsndQue + 1;
        rest := rest[size..];
        i := i + 1;
      }
    }

    /** The rest of a message is queued unless it takes too many fragments. */
    method QueueRest(rest: seq<u8>) returns (code: int)
      requires cfg.Mss() > 0 && nsndQue == |sndQueue|
      modifies `sndQueue, `nsndQue
      ensures var fs := Endpoint.Fragment(rest, cfg.Mss(), cfg.stream);
              (State(), code) == if |fs| >= WND_RCV then (old(State()), -2) else (Endpoint.Enqueue(old(State()), fs), 0)
      ensures nsndQue == |sndQueue|
    {
      hide Endpoint.Fragment;
      var len, mss := |rest|, cfg.Mss();
      var count := if len <= mss then 1 else (len + mss - 1) / mss;
      EndpointInvariant.FragmentCount(rest, mss, cfg.stream);
      if count >= WND_RCV { return -2; }
      QueueFragments(rest, count);
      code := 0;
    }

    /** `ikcp_send`. */
    method Send(data: seq<u8>, length: int) returns (code: int)
      requires Valid() && length <= |data|
      modifies `sndQueue, `nsndQue
      ensures Valid()
      ensures (State(), code) == Endpoint.Send(old(State()), data, length)
    {
      assert cfg.Valid();
      hide EndpointInvariant.Inv, Config.Valid, Endpoint.Send;
      EndpointInvariant.SendKeepsInv(State(), data, length);
      code := SendData(data, length);
    }

    /** The body of `ikcp_send`. */
    method SendData(data: seq<u8>, length: int) returns (code: int)
      requires cfg.Mss() > 0 && nsndQue == |sndQueue| && length <= |data|
      modifies `sndQueue, `nsndQue
      ensures (State(), code) == Endpoint.Send(old(State()), data, length)
      ensures nsndQue == |sndQueue|
    {
      hide Config.Mss, Endpoint.Fragment, Endpoint.ExtendTail, Endpoint.TailRoom, Endpoint.Enqueue;
      if length < 0 { return -1; }
      var pos := 0;
      // append to the previous segment in stream mode
      if cfg.stream {
        pos := ExtendPrevious(data, length);
      }
      if cfg.stream && length - pos <= 0 {
        code := 0;
      } else {
        code := QueueRest(data[pos..length]);
      }
    }

    /** `ikcp_shrink_buf`. */
    method ShrinkBuf()
      modifies `sndUna
      ensures Snd() == old(Snd()).(una := SendBuffer.Shrink(sndBuf, sndNxt))
    {
      if sndBuf != [] { sndUna := sndBuf[0].sn; } else { sndUna := sndNxt; }
    }

    /** `ikcp_parse_una`: the scan stops at the first segment not covered. */
    method ParseUna(una: u32)
      requires SendBuffer.Inv(Snd(), cfg.Mss()) && nsndBuf == |sndBuf|
      modifies `sndBuf, `nsndBuf
      ensures Snd() == old(Snd()).(buf := SendBuffer.ParseUna(old(Snd()), una))
      ensures nsndBuf == |sndBuf|
    {
      ghost var k, n := Sub32(una, sndUna), SendBuffer.InFlight(Snd());
      while sndBuf != []
        invariant nsndBuf == |sndBuf|
        invariant SendBuffer.Ordered(sndBuf, sndUna, n)
        invariant k >= HALF ==> sndBuf == old(sndBuf)
        invariant k < HALF ==> SendBuffer.KeepFrom(sndBuf, sndUna, k) == SendBuffer.KeepFrom(old(sndBuf), sndUna, k)
        decreases |sndBuf|
      {
        SendBuffer.OrderedTail(sndBuf, sndUna, n);
        if Diff(una, sndBuf[0].sn) > 0 {
          sndBuf := sndBuf[1..];
          nsndBuf := nsndBuf - 1;
        } else {
          break;
        }
      }
      if sndBuf != [] && k < HALF {
        SendBuffer.OrderedTail(sndBuf, sndUna, n);
        SendBuffer.KeepFromAll(sndBuf, sndUna, k);
      }
    }

    /** `ikcp_parse_ack`: the scan stops at the segment or where it would have been. */
    method ParseAck(sn: u32)
      requires SendBuffer.Inv(Snd(), cfg.Mss()) && nsndBuf == |sndBuf|
      modifies `sndBuf, `nsndBuf
      ensures Snd() == old(Snd()).(buf := SendBuffer.ParseAck(old(Snd()), sn))
      ensures nsndBuf == |sndBuf|
    {
      if Diff(sn, sndUna) < 0 || Diff(sn, sndNxt) >= 0 {
        return;
      }
      ghost var n := SendBuffer.InFlight(Snd());
      var i := 0;
      while i < |sndBuf|
        invariant 0 <= i <= |sndBuf|
        invariant forall j | 0 <= j < i :: sndBuf[j].sn != sn
      {
        if sn == sndBuf[i].sn {
          SendBuffer.WithoutAt(sndBuf, sn, sndUna, n, i);
          sndBuf := sndBuf[..i] + sndBuf[i + 1..];
          nsndBuf := nsndBuf - 1;
          return;
        }
        if Diff(sn, sndBuf[i].sn) < 0 {
          break;
        }
        i := i + 1;
      }
      forall g | g in sndBuf ensures g.sn != sn {
        var j :| 0 <= j < |sndBuf| && sndBuf[j] == g;
        assert j > i ==> Sub32(sndBuf[i].sn, sndUna) < Sub32(sndBuf[j].sn, sndUna);
      }
      SendBuffer.WithoutAbsent(sndBuf, sn);
    }

    /** `ikcp_parse_fastack`: the scan stops at the first segment that is newer. */
    method ParseFastack(sn: u32)
      requires SendBuffer.Inv(Snd(), cfg.Mss())
      modifies `sndBuf
      ensures Snd() == old(Snd()).(buf := SendBuffer.ParseFastack(old(Snd()), sn))
    {
      ghost var snd, mss := Snd(), cfg.Mss();
      ghost var spec := SendBuffer.ParseFastack(snd, sn);
      SendBuffer.FastackRange(snd, sn, mss);
      hide SendBuffer.Inv, SendBuffer.ParseFastack, SendBuffer.Outstanding;
      if Diff(sn, sndUna) < 0 || Diff(sn, sndNxt) >= 0 {
        return;
      }
      var i := 0;
      while i < |sndBuf|
        invariant 0 <= i <= |sndBuf| == |spec|
        invariant forall j | 0 <= j < i :: sndBuf[j] == spec[j]
        invariant forall j | i <= j < |sndBuf| :: sndBuf[j] == snd.buf[j]
      {
        var seg := sndBuf[i];
        SendBuffer.FastackAt(snd, sn, mss, i);
        if Diff(sn, seg.sn) < 0 {
          break;
        } else if sn != seg.sn {
          sndBuf := sndBuf[i := seg.(fastack := Add32(seg.fastack, 1))];
        }
        i := i + 1;
      }
      assert sndBuf == spec;
    }

    /** `ikcp_update_ack`. */
    method UpdateAck(rtt: i32)
      requires rtt >= 0
      modifies `rxSrtt, `rxRttval, `rxRto
      ensures Rtt(rxSrtt, rxRttval, rxRto) == RttEstimator.UpdateAck(old(Rtt(rxSrtt, rxRttval, rxRto)), rtt, cfg.interval, cfg.minRto)
    {
      if rxSrtt == 0 {
        rxSrtt := rtt;
        rxRttval := rtt / 2;
      } else {
        var delta: int := rtt - rxSrtt;
        if delta < 0 { delta := -delta; }
        rxRttval := WrapSigned(TruncDiv(WrapSigned(3 * rxRttval) + delta, 4));
        rxSrtt := TruncDiv(WrapSigned(WrapSigned(7 * rxSrtt) + rtt), 8);
        if rxSrtt < 1 { rxSrtt := 1; }
      }
      var rto := Low32(rxSrtt + Max(cfg.interval, Low32(WrapSigned(4 * rxRttval))));
      rxRto := RttEstimator.Bound(cfg.minRto, rto, RTO_MAX);
    }

    // ---- ikcp_input ----

    /** The window and the cumulative acknowledgement that every segment carries. */
    method HearUna(w: WireSeg)
      requires SendBuffer.Inv(Snd(), cfg.Mss()) && nsndBuf == |sndBuf|
      modifies `rmtWnd, `sndBuf, `nsndBuf, `sndUna
      ensures State() == old(State()).(rmtWnd := w.wnd, snd := SendBuffer.HearUna(old(Snd()), w.una))
      ensures SendBuffer.Inv(Snd(), cfg.Mss()) && nsndBuf == |sndBuf|
    {
      hide SendBuffer.Inv, SendBuffer.ParseUna, SendBuffer.Shrink, SendBuffer.InFlight;
      SendBuffer.HearUnaKeepsInv(Snd(), w.una, cfg.Mss());
      rmtWnd := w.wnd;
      ParseUna(w.una);
      ShrinkBuf();
    }

    method HearAck(w: WireSeg)
      requires SendBuffer.Inv(Snd(), cfg.Mss()) && nsndBuf == |sndBuf|
      modifies `sndBuf, `nsndBuf, `sndUna, `rxSrtt, `rxRttval, `rxRto
      ensures var s := old(State());
              State() == s.(snd := SendBuffer.HearAck(s.snd, w.sn),
                            rtt := if Diff(current, w.ts) < 0 then s.rtt
                                   else RttEstimator.UpdateAck(s.rtt, Diff(current, w.ts), cfg.interval, cfg.minRto))
      ensures nsndBuf == |sndBuf|
    {
      hide SendBuffer.Inv, SendBuffer.ParseAck, SendBuffer.Shrink, RttEstimator.UpdateAck;
      if Diff(current, w.ts) >= 0 {
        UpdateAck(Diff(current, w.ts));
      }
      ParseAck(w.sn);
      ShrinkBuf();
    }

    method HearPush(w: WireSeg)
      requires RecvBuffer.Inv(Rcv(), cfg.rcvWnd) && WND_RCV <= cfg.rcvWnd <= MAX_WND
      requires nrcvQue == |rcvQueue| && nrcvBuf == |rcvBuf|
      modifies `acklist, `rcvBuf, `rcvQueue, `nrcvBuf, `nrcvQue, `rcvNxt
      ensures State() == old(State()).(rcv := RecvBuffer.HearPush(old(Rcv()), cfg.rcvWnd, Ack(w.sn, w.ts), Frag(w.frg, w.data)))
      ensures nrcvQue == |rcvQueue| && nrcvBuf == |rcvBuf|
    {
      hide RecvBuffer.Inv, RecvBuffer.Drain, RecvBuffer.Insert, RecvBuffer.ParseData;
      AckKeepsRcv(Rcv(), cfg.rcvWnd, Ack(w.sn, w.ts));
      if Diff(w.sn, rcvNxt) < 0 {
        ParseDataOutside(Rcv(), cfg.rcvWnd, Ack(w.sn, w.ts), Frag(w.frg, w.data));
      }
      if Diff(w.sn, Add32(rcvNxt, cfg.rcvWnd)) < 0 {
        acklist := acklist + [Ack(w.sn, w.ts)];
        if Diff(w.sn, rcvNxt) >= 0 {
          ParseData(RcvSeg(w.sn, Frag(w.frg, w.data)));
        }
      }
    }

    /** The switch over the command. */
    method HearCommand(w: WireSeg, flag: bool, maxack: u32) returns (flag': bool, maxack': u32)
      requires SendBuffer.Inv(Snd(), cfg.Mss()) && RecvBuffer.Inv(Rcv(), cfg.rcvWnd) && WND_RCV <= cfg.rcvWnd <= MAX_WND
      requires Counted()
      modifies `sndBuf, `nsndBuf, `sndUna, `rxSrtt, `rxRttval, `rxRto, `acklist,
        `rcvBuf, `rcvQueue, `nrcvBuf, `nrcvQue, `rcvNxt, `askTell
      ensures Endpoint.Hearing(State(), flag', maxack') == Endpoint.HearCommand(Endpoint.Hearing(old(State()), flag, maxack), w)
      ensures Counted()
    {
      hide SendBuffer.Inv, RecvBuffer.Inv, SendBuffer.HearAck, RecvBuffer.HearPush, RttEstimator.UpdateAck;
      flag', maxack' := flag, maxack;
      if w.cmd == CMD_ACK {
        HearAck(w);
        if !flag || Diff(w.sn, maxack) > 0 {
          maxack' := w.sn;
        }
        flag' := true;
      } else if w.cmd == CMD_PUSH {
        HearPush(w);
      } else if w.cmd == CMD_WASK {
        askTell := true;
      }
    }

    /** What `ikcp_input` does for one segment. */
    method HearSegment(w: WireSeg, flag: bool, maxack: u32) returns (flag': bool, maxack': u32)
      requires Valid()
      modifies `rmtWnd, `sndBuf, `nsndBuf, `sndUna, `rxSrtt, `rxRttval, `rxRto, `acklist,
        `rcvBuf, `rcvQueue, `nrcvBuf, `nrcvQue, `rcvNxt, `askTell
      ensures Valid()
      ensures Endpoint.Hearing(State(), flag', maxack') == Endpoint.HearSeg(Endpoint.Hearing(old(State()), flag, maxack), w)
    {
      hide SendBuffer.Inv, RecvBuffer.Inv, Congestion.Inv, EndpointInvariant.Inv, SendBuffer.HearUna, Endpoint.HearCommand;
      EndpointInvariant.HearSegKeepsInv(Endpoint.Hearing(State(), flag, maxack), w);
      SenderOf(State());
      ReceiverOf(State());
      HearUna(w);
      flag', maxack' := HearCommand(w, flag, maxack);
    }

    /** The loop of `ikcp_input` over the datagram, reading each header at `pos`. */
    method HearDatagram(data: seq<u8>) returns (code: int, flag: bool, maxack: u32)
      requires Valid()
      modifies `rmtWnd, `sndBuf, `nsndBuf, `sndUna, `rxSrtt, `rxRttval, `rxRto, `acklist,
        `rcvBuf, `rcvQueue, `nrcvBuf, `nrcvQue, `rcvNxt, `askTell
      ensures Valid()
      ensures code == Parse(cfg.conv, data).1
      ensures Endpoint.Hearing(State(), flag, maxack) ==
              Endpoint.HearAll(Endpoint.Hearing(old(State()), false, 0), Parse(cfg.conv, data).0)
    {
      hide Endpoint.HearSeg, DecodeHeader, EndpointInvariant.Inv, State;
      ghost var goal := Endpoint.HearAll(Endpoint.Hearing(State(), false, 0), Parse(cfg.conv, data).0);
      flag, maxack := false, 0;
      var pos, size := 0, |data|;
      while true
        invariant 0 <= pos && 0 <= size && pos + size == |data|
        invariant Valid()
        invariant Endpoint.HearAll(Endpoint.Hearing(State(), flag, maxack), Parse(cfg.conv, data[pos..]).0) == goal
        invariant Parse(cfg.conv, data[pos..]).1 == Parse(cfg.conv, data).1
        decreases size
      {
        if size < OVERHEAD { return 0, flag, maxack; }
        var (h, len) := DecodeHeader(data[pos..]);
        if h.conv != cfg.conv { return -1, flag, maxack; }
        if size - OVERHEAD < len || AsSigned(len) < 0 { return -2, flag, maxack; }
        if h.cmd != CMD_PUSH && h.cmd != CMD_ACK && h.cmd != CMD_WASK && h.cmd != CMD_WINS { return -3, flag, maxack; }
        var w := h.(data := data[pos + OVERHEAD..pos + OVERHEAD + len]);
        NextSegment(cfg.conv, data, pos);
        flag, maxack := HearSegment(w, flag, maxack);
        pos, size := pos + OVERHEAD + len, size - OVERHEAD - len;
      }
      code := 0;
    }

    /** The congestion window's part in `ikcp_input`. */
    method GrowWindow()
      requires cfg.Mss() > 0
      modifies `cwnd, `incr
      ensures Cong(cwnd, ssthresh, incr) == Congestion.OnAck(old(Cong(cwnd, ssthresh, incr)), cfg.Mss(), rmtWnd)
    {
      if cwnd < rmtWnd {
        var mss := cfg.Mss();
        if cwnd < ssthresh {
          cwnd := Add32(cwnd, 1);
          incr := Add32(incr, mss);
        } else {
          if incr < mss { incr := mss; }
          incr := Add32(incr, Add32(Congestion.Div32(Mul32(mss, mss), incr), mss / 16));
          if Mul32(Add32(cwnd, 1), mss) <= incr {
            cwnd := Congestion.Div32(Sub32(Add32(incr, mss), 1), mss);
          }
        }
        if cwnd > rmtWnd {
          cwnd := rmtWnd;
          incr := Mul32(rmtWnd, mss);
        }
      }
    }

    /** The end of `ikcp_input`. */
    method FinishInput(flag: bool, maxack: u32, prevUna: u32)
      requires SendBuffer.Inv(Snd(), cfg.Mss()) && cfg.Mss() > 0 && nsndBuf == |sndBuf|
      modifies `sndBuf, `cwnd, `incr
      ensures State() == Endpoint.FinishInput(Endpoint.Hearing(old(State()), flag, maxack), prevUna)
      ensures nsndBuf == |sndBuf|
    {
      hide SendBuffer.Inv, Congestion.OnAck;
      ParseFastackLength(Snd(), maxack);
      hide SendBuffer.ParseFastack;
      if flag {
        ParseFastack(maxack);
      }
      if Diff(sndUna, prevUna) > 0 {
        GrowWindow();
      }
    }

    /** `ikcp_input`. */
    method Input(data: seq<u8>) returns (code: int)
      requires Valid()
      modifies `rmtWnd, `sndBuf, `nsndBuf, `sndUna, `rxSrtt, `rxRttval, `rxRto, `acklist,
        `rcvBuf, `rcvQueue, `nrcvBuf, `nrcvQue, `rcvNxt, `askTell, `cwnd, `incr
      ensures Valid()
      ensures (State(), code) == Endpoint.Input(old(State()), data)
    {
      hide EndpointInvariant.Inv, SendBuffer.Inv, Endpoint.FinishInput, Endpoint.HearAll, Parse;
      var prevUna := sndUna;
      if AsSigned(Low32(|data|)) < OVERHEAD { return -1; }
      ghost var s0 := State();
      SenderOf(s0);
      EndpointInvariant.InputKeepsInv(s0, data);
      var flag, maxack;
      code, flag, maxack := HearDatagram(data);
      if code == 0 {
        SenderOf(State());
        FinishInput(flag, maxack, prevUna);
      }
    }

    // ---- ikcp_flush ----

    method Encode8(ptr: nat, c: u8) returns (next: nat)
      requires ptr + 1 <= buffer.Length
      modifies buffer
      ensures next == ptr + 1 && buffer[..next] == old(buffer[..ptr]) + [c]
    {
      buffer[ptr] := c;
      next := ptr + 1;
    }

    method Encode16(ptr: nat, w: u16) returns (next: nat)
      requires ptr + 2 <= buffer.Length
      modifies buffer
      ensures next == ptr + 2 && buffer[..next] == old(buffer[..ptr]) + Wire.Encode16(w)
    {
      next := Encode8(ptr, w % 0x100);
      next := Encode8(next, w / 0x100);
    }

    method Encode32(ptr: nat, l: u32) returns (next: nat)
      requires ptr + 4 <= buffer.Length
      modifies buffer
      ensures next == ptr + 4 && buffer[..next] == old(buffer[..ptr]) + Wire.Encode32(l)
    {
      next := Encode16(ptr, l % 0x1_0000);
      next := Encode16(next, l / 0x1_0000);
    }

    /** `ikcp_encode_seg`. */
    method EncodeSeg(ptr: nat, w: WireSeg) returns (next: nat)
      requires ptr + OVERHEAD <= buffer.Length && |w.data| < TWO32
      modifies buffer
      ensures next == ptr + OVERHEAD && buffer[..next] == old(buffer[..ptr]) + EncodeHeader(w)
    {
      hide Wire.Encode32, Wire.Encode16;
      next := Encode32(ptr, w.conv);
      next := Encode8(next, w.cmd);
      next := Encode8(next, w.frg);
      next := Encode16(next, w.wnd);
      next := Encode32(next, w.ts);
      next := Encode32(next, w.sn);
      next := Encode32(next, w.una);
      next := Encode32(next, |w.data|);
    }

    /** The copy of a segment's data behind its header. */
    method CopyData(ptr: nat, data: seq<u8>) returns (next: nat)
      requires ptr + |data| <= buffer.Length
      modifies buffer
      ensures next == ptr + |data| && buffer[..next] == old(buffer[..ptr]) + data
    {
      for i := 0 to |data|
        invariant buffer[..ptr + i] == old(buffer[..ptr]) + data[..i]
      {
        buffer[ptr + i] := data[i];
      }
      next := ptr + |data|;
    }

    /** The write pointer, the bytes before it and the datagrams handed over since
        `start` are what packing `items` makes of them. */
    ghost predicate Packed(ptr: nat, items: seq<WireSeg>, start: nat)
      reads `output, buffer
    {
      var st := Pack(cfg.mtu, items);
      && ptr == PacketSize(st.cur) <= cfg.mtu <= buffer.Length
      && (ptr == 0 <==> st.cur == [])
      && Encodable(st.cur)
      && buffer[..ptr] == EncodePacket(st.cur)
      && start <= |output|
      && Carries(output[start..], st.done)
    }

    /** Hand the datagram over if it is not empty (`ikcp_output`). */
    method Output(size: nat)
      requires size <= buffer.Length
      modifies `output
      ensures output == old(output) + if size == 0 then [] else [buffer[..size]]
    {
      if size > 0 {
        output := output + [buffer[..size]];
      }
    }

    /** Put one segment into the datagram being filled, or start the next with it. */
    method Emit(ptr: nat, w: WireSeg, ghost items: seq<WireSeg>, ghost start: nat) returns (next: nat)
      requires Packed(ptr, items, start) && buffer.Length == (cfg.mtu + OVERHEAD) * 3
      requires Sendable(w) && Size(w) <= cfg.mtu
      modifies buffer, `output
      ensures Packed(next, items + [w], start)
      ensures old(output) <= output
    {
      hide Wire.EncodeHeader, Pack, PacketSize, Wire.EncodePacket;
      ghost var st := Pack(cfg.mtu, items);
      next := ptr;
      if ptr + Size(w) > cfg.mtu {
        Output(ptr);
        next := 0;
        assert output[start..] == old(output[start..]) + if ptr == 0 then [] else [buffer[..ptr]];
      }
      ghost var cur := if ptr + Size(w) > cfg.mtu then [] else st.cur;
      StepIs(cfg.mtu, items, w);
      AppendSeg(cur, w);
      assert cur + [w] == Pack(cfg.mtu, items + [w]).cur;
      next := EncodeSeg(next, w);
      next := CopyData(next, w.data);
    }

    lemma MyAckItems()
      requires nrcvQue == |rcvQueue| && cfg.mtu >= 50
      ensures |Endpoint.AckItems(State())| == |acklist|
      ensures forall i | 0 <= i < |acklist| :: var w := OutgoingSeg(CMD_ACK, 0, acklist[i].ts, acklist[i].sn, []);
                Endpoint.AckItems(State())[i] == w && Sendable(w) && Size(w) <= cfg.mtu
    {
      AckItemsAre(State());
    }

    /** The acknowledgements. */
    method FlushAcks(ghost start: nat) returns (ptr: nat)
      requires nrcvQue == |rcvQueue| && cfg.mtu >= 50 && buffer.Length == (cfg.mtu + OVERHEAD) * 3
      requires start == |output|
      modifies buffer, `output
      ensures Packed(ptr, Endpoint.AckItems(State()), start)
      ensures old(output) <= output
    {
      hide Packed, Pack, Sendable, Size, Endpoint.AckItems, State;
      ghost var items := Endpoint.AckItems(State());
      MyAckItems();
      ptr := 0;
      assert Packed(ptr, items[..0], start) by { StartPacking(start); }
      for i := 0 to |acklist|
        invariant Packed(ptr, items[..i], start)
        invariant old(output) <= output
      {
        assert items[..i + 1] == items[..i] + [items[i]];
        var w := OutgoingSeg(CMD_ACK, 0, acklist[i].ts, acklist[i].sn, []);
        assert w == items[i];
        ptr := Emit(ptr, w, items[..i], start);
      }
      assert items[..|acklist|] == items;
    }

    lemma StartPacking(start: nat)
      requires start == |output| && cfg.mtu <= buffer.Length
      ensures Packed(0, [], start)
    {
      EmptyPack(cfg.mtu);
    }

    /** The header fields that all segments of a flush share. */
    function OutgoingSeg(cmd: u8, frg: nat, ts: u32, sn: u32, data: seq<u8>): WireSeg
      reads `nrcvQue, `rcvNxt
    {
      WireSeg(cfg.conv, cmd, frg % 0x100, (if nrcvQue < cfg.rcvWnd then cfg.rcvWnd - nrcvQue else 0) % 0x1_0000, ts, sn, rcvNxt, data)
    }

    /** The zero-window probe timer. */
    method RunProbeTimer()
      modifies `askSend, `tsProbe, `probeWait
      ensures var s := old(State()); State() == s.(probe := Endpoint.ProbeTimer(s.probe, s.rmtWnd, s.clock.current))
    {
      if rmtWnd == 0 {
        if probeWait == 0 {
          probeWait := PROBE_INIT;
          tsProbe := Add32(current, probeWait);
        } else if Diff(current, tsProbe) >= 0 {
          if probeWait < PROBE_INIT { probeWait := PROBE_INIT; }
          probeWait := Add32(probeWait, probeWait / 2);
          if probeWait > PROBE_LIMIT { probeWait := PROBE_LIMIT; }
          tsProbe := Add32(current, probeWait);
          askSend := true;
        }
      } else {
        tsProbe := 0;
        probeWait := 0;
      }
    }

    /** The window probes; their `sn` and `ts` are left over from the acknowledgements. */
    method FlushProbes(ptr: nat, last: Ack, ghost items: seq<WireSeg>, ghost start: nat) returns (next: nat)
      requires Packed(ptr, items, start) && cfg.mtu >= 50 && buffer.Length == (cfg.mtu + OVERHEAD) * 3
      modifies buffer, `output
      ensures Packed(next, items + Probes(last), start)
      ensures old(output) <= output
    {
      hide Packed, Pack;
      next := ptr;
      ghost var sent := items;
      if askSend {
        next := Emit(next, OutgoingSeg(CMD_WASK, 0, last.ts, last.sn, []), sent, start);
        sent := sent + [OutgoingSeg(CMD_WASK, 0, last.ts, last.sn, [])];
      }
      if askTell {
        next := Emit(next, OutgoingSeg(CMD_WINS, 0, last.ts, last.sn, []), sent, start);
        sent := sent + [OutgoingSeg(CMD_WINS, 0, last.ts, last.sn, [])];
      }
      assert sent == items + Probes(last);
    }

    ghost function Probes(last: Ack): seq<WireSeg>
      reads `askSend, `askTell, `nrcvQue, `rcvNxt
    {
      (if askSend then [OutgoingSeg(CMD_WASK, 0, last.ts, last.sn, [])] else [])
      + (if askTell then [OutgoingSeg(CMD_WINS, 0, last.ts, last.sn, [])] else [])
    }

    /** Move what the window admits from the queue to the buffer. */
    method MoveToBuf(window: u32)
      requires SendBuffer.InFlight(Snd()) <= MAX_WND && window == Endpoint.Window(State()) <= MAX_WND
      requires nsndQue == |sndQueue| && nsndBuf == |sndBuf|
      modifies `sndQueue, `sndBuf, `nsndQue, `nsndBuf, `sndNxt
      ensures State() == old(State()).(snd := Endpoint.Number(old(State())))
      ensures nsndQue == |sndQueue| && nsndBuf == |sndBuf|
    {
      ghost var s, k := State(), 0;
      AdmitNone(s);
      assert s.snd == Snd() && s.clock.current == current && s.rtt.rto == rxRto;
      hide Endpoint.NumberUpTo, Endpoint.Admitted, Endpoint.Window, State;
      AdmitMore(s, 0);
      while Diff(sndNxt, Add32(sndUna, window)) < 0
        invariant k <= Endpoint.Admitted(s) <= |s.snd.queue|
        invariant Snd() == Endpoint.NumberUpTo(s, k)
        invariant nsndQue == |sndQueue| && nsndBuf == |sndBuf|
        decreases |sndQueue|
      {
        AdmitMore(s, k);
        if sndQueue == [] { break; }
        AdmitOne(s, k);
        var frag := sndQueue[0];
        sndQueue := sndQueue[1..];
        sndBuf := sndBuf + [SndSeg(frag, sndNxt, current, rxRto, 0, 0)];
        nsndQue := nsndQue - 1;
        nsndBuf := nsndBuf + 1;
        sndNxt := Add32(sndNxt, 1);
        k := k + 1;
      }
      AdmitMore(s, k);
    }

    /** The segment that the flush builds is the one that the specification names. */
    lemma PushItemIs(g: SndSeg)
      requires nrcvQue == |rcvQueue| && 50 <= cfg.mtu <= 65535
      ensures Endpoint.PushItem(State(), g) == OutgoingSeg(CMD_PUSH, g.frag.frg, current, g.sn, g.frag.data)
      ensures SendBuffer.FragOk(g.frag, cfg.Mss()) ==>
                Sendable(Endpoint.PushItem(State(), g)) && Size(Endpoint.PushItem(State(), g)) <= cfg.mtu
    {
      PushItemsAre(State());
    }

    /** One segment of the send buffer: update it and send it if it is due. */
    method FlushNext(i: nat, e: Retransmission.Env, ptr: nat, ghost items: seq<WireSeg>, ghost start: nat)
      returns (next: nat, late: bool, fast: bool)
      requires i < |sndBuf| && Packed(ptr, items, start)
      requires buffer.Length == (cfg.mtu + OVERHEAD) * 3 && 50 <= cfg.mtu <= 65535 && nrcvQue == |rcvQueue|
      requires SendBuffer.FragOk(sndBuf[i].frag, cfg.Mss())
      modifies buffer, `output, `sndBuf, `xmit, `dead
      ensures old(output) <= output
      ensures var g := old(sndBuf)[i];
              && sndBuf == old(sndBuf)[i := Retransmission.Flushed(g, e)]
              && late == Retransmission.Late(g, e) && fast == Retransmission.Overtaken(g, e)
              && xmit == (if late then Add32(old(xmit), 1) else old(xmit))
              && dead == (old(dead) || (Retransmission.Due(g, e) && Retransmission.Flushed(g, e).xmit >= cfg.deadLink))
              && Packed(next, items + if Retransmission.Due(g, e) then [Endpoint.PushItem(old(State()), g)] else [], start)
    {
      hide Packed, Pack, Sendable, Size, Retransmission.Due, Retransmission.Late, Retransmission.Overtaken, Retransmission.Flushed,
        Endpoint.PushItem, State;
      PushItemIs(sndBuf[i]);
      next := ptr;
      var segment, needsend := sndBuf[i], false;
      var segment';
      segment', needsend, late, fast := FlushSegment(segment, e);
      sndBuf := sndBuf[i := segment'];
      if late { xmit := Add32(xmit, 1); }
      if needsend {
        var w := OutgoingSeg(CMD_PUSH, segment.frag.frg, current, segment.sn, segment.frag.data);
        next := Emit(next, w, items, start);
        if segment'.xmit >= cfg.deadLink { dead := true; }
      } else {
        assert items + [] == items;
      }
    }

    /** The loop over the send buffer: due segments are updated and sent. */
    method FlushData(ptr: nat, e: Retransmission.Env, ghost items: seq<WireSeg>, ghost start: nat)
      returns (next: nat, change: bool, lost: bool)
      requires Packed(ptr, items, start) && buffer.Length == (cfg.mtu + OVERHEAD) * 3
      requires nrcvQue == |rcvQueue| && 50 <= cfg.mtu <= 65535 && e == Endpoint.EnvOf(State())
      requires forall i | 0 <= i < |sndBuf| :: SendBuffer.FragOk(sndBuf[i].frag, cfg.Mss())
      modifies buffer, `output, `sndBuf, `xmit, `dead
      ensures old(output) <= output && |sndBuf| == |old(sndBuf)|
      ensures Packed(next, items + Endpoint.DataItems(old(State()), old(sndBuf)), start)
      ensures State() == old(State()).(snd := old(State()).snd.(buf := sndBuf), xmit := xmit, dead := dead)
      ensures Looked(old(sndBuf), sndBuf, |sndBuf|, e, cfg.deadLink, old(xmit), xmit, old(dead), dead, change, lost)
    {
      ghost var s, buf, xmit0, dead0 := State(), sndBuf, xmit, dead;
      DataStart(s, items, buf);
      LookedAtNone(buf, e, cfg.deadLink, xmit0, dead0);
      hide Packed, Looked, Endpoint.DataItems, Endpoint.PushItem, Endpoint.EnvOf, SendBuffer.FragOk, Retransmission.Flushed,
        Retransmission.Due, Retransmission.Late, Retransmission.Overtaken;
      next, change, lost := ptr, false, false;
      var i := 0;
      while i < |sndBuf|
        invariant i <= |sndBuf| == |buf| && old(output) <= output
        invariant Packed(next, items + Endpoint.DataItems(s, buf[..i]), start)
        invariant Looked(buf, sndBuf, i, e, cfg.deadLink, xmit0, xmit, dead0, dead, change, lost)
      {
        LookAtOne(buf, sndBuf, i, e, cfg.deadLink, xmit0, xmit, dead0, dead, change, lost);
        DataStep(s, items, buf, i, e);
        SamePush(s, State(), buf[i]);
        var late, fast;
        next, late, fast := FlushNext(i, e, next, items + Endpoint.DataItems(s, buf[..i]), start);
        lost, change := lost || late, change || fast;
        i := i + 1;
      }
      assert buf[..|buf|] == buf;
    }

    /** The end of `ikcp_flush`: slow start threshold and congestion window. */
    method AdjustWindow(change: bool, lost: bool, window: u32, resent: u32)
      modifies `cwnd, `ssthresh, `incr
      ensures var s := old(State());
              State() == s.(cong := Congestion.OnFlush(s.cong, s.cfg.Mss(), change, lost, SendBuffer.InFlight(s.snd), window, resent))
    {
      if change {
        var inflight := Sub32(sndNxt, sndUna);
        ssthresh := inflight / 2;
        if ssthresh < THRESH_MIN { ssthresh := THRESH_MIN; }
        cwnd := Add32(ssthresh, resent);
        incr := Mul32(cwnd, cfg.Mss());
      }
      if lost {
        ssthresh := window / 2;
        if ssthresh < THRESH_MIN { ssthresh := THRESH_MIN; }
        cwnd := 1;
        incr := cfg.Mss();
      }
      if cwnd < 1 {
        cwnd := 1;
        incr := cfg.Mss();
      }
    }

    /** Hand over the datagram being filled. */
    method FlushRest(ptr: nat, ghost items: seq<WireSeg>, ghost start: nat)
      requires Packed(ptr, items, start)
      modifies `output
      ensures old(output) <= output
      ensures start <= |output| && Carries(output[start..], Packets(Pack(cfg.mtu, items)))
    {
      hide Pack;
      Output(ptr);
      assert output[start..] == old(output[start..]) + if ptr == 0 then [] else [buffer[..ptr]];
    }

    /** Acknowledgements and probes are out. */
    method ForgetSent()
      modifies `acklist, `askSend, `askTell
      ensures var s := old(State());
              State() == s.(rcv := s.rcv.(acks := []), probe := s.probe.(ask := false, tell := false))
    {
      acklist, askSend, askTell := [], false, false;
    }

    /** The first half of `ikcp_flush`: acknowledgements and probes. */
    method FlushControl(ghost start: nat) returns (ptr: nat)
      requires nrcvQue == |rcvQueue| && cfg.mtu >= 50 && buffer.Length == (cfg.mtu + OVERHEAD) * 3
      requires start == |output|
      modifies buffer, `output, `acklist, `askSend, `askTell, `tsProbe, `probeWait
      ensures Packed(ptr, Endpoint.AckItems(old(State())) + Endpoint.ProbeItems(old(State())), start)
      ensures old(output) <= output
      ensures State() == Controlled(old(State()))
    {
      ghost var s := State();
      hide Packed, Endpoint.AckItems, Endpoint.ProbeTimer, Pack;
      var last := if acklist == [] then Ack(0, 0) else acklist[|acklist| - 1];
      ptr := FlushAcks(start);
      ProbeTimerTell(s);
      RunProbeTimer();
      assert Probes(last) == Endpoint.ProbeItems(s);
      ptr := FlushProbes(ptr, last, Endpoint.AckItems(s), start);
      ForgetSent();
    }

    lemma Parts()
      ensures var s := State();
              && s.cfg == cfg && s.snd == Snd() && s.xmit == xmit && s.dead == dead
              && Endpoint.EnvOf(s) == Retransmission.Env(current, rxRto, if cfg.nodelay == 0 then rxRto / 8 else 0,
                                        if cfg.fastResend > 0 then cfg.fastResend else 0xffff_ffff, cfg.nodelay, cfg.fastLimit)
    {
    }

    /** The second half of `ikcp_flush`: number what the window admits, send what is due. */
    method FlushSegments(ptr: nat, window: u32, ghost items: seq<WireSeg>, ghost start: nat) returns (change: bool, lost: bool)
      requires Packed(ptr, items, start) && buffer.Length == (cfg.mtu + OVERHEAD) * 3
      requires Counted()
      requires FlushReady(State()) && window == Endpoint.Window(State())
      modifies buffer, `output, `sndQueue, `sndBuf, `nsndQue, `nsndBuf, `sndNxt, `xmit, `dead
      ensures Counted() && old(output) <= output && start <= |output|
      ensures State() == old(State()).(snd := State().snd, xmit := State().xmit, dead := State().dead)
      ensures SegmentsFlushed(old(State()), State().snd, State().xmit, State().dead, change, lost)
      ensures var s := old(State());
              Carries(output[start..], Packets(Pack(cfg.mtu, items + Endpoint.DataItems(s, Endpoint.Number(s).buf))))
    {
      hide Packed, Looked, FlushReady, SegmentsFlushed, Pack, Carries, State, SendBuffer.FragOk, SendBuffer.InFlight, Endpoint.EnvOf,
        Endpoint.Number, Endpoint.Window, Endpoint.FlushedBuf, Endpoint.DataItems, Endpoint.AnyOvertaken, Endpoint.CountLate,
        Endpoint.AnyDead;
      ghost var s := State();
      ReadyFacts(s);
      Parts();
      MoveToBuf(window);
      Parts();
      ghost var buf := sndBuf;
      SameItems(s, State(), buf);
      var env := Retransmission.Env(current, rxRto, if cfg.nodelay == 0 then rxRto / 8 else 0,
                                    if cfg.fastResend > 0 then cfg.fastResend else 0xffff_ffff, cfg.nodelay, cfg.fastLimit);
      var next;
      next, change, lost := FlushData(ptr, env, items, start);
      LookedAtAll(buf, sndBuf, env, cfg.deadLink, old(xmit), xmit, old(dead), dead, change, lost);
      SegmentsAre(s, State().snd, env, xmit, dead, change, lost);
      FlushRest(next, items + Endpoint.DataItems(s, Endpoint.Number(s).buf), start);
    }

    /** Everything that `ikcp_flush` sends. */
    method FlushSend(ghost s: State, ghost start: nat) returns (window: u32, change: bool, lost: bool)
      requires s == State() && start == |output| && FlushReady(s)
      requires Counted() && buffer.Length == (cfg.mtu + OVERHEAD) * 3 && 50 <= cfg.mtu
      modifies buffer, `output, `acklist, `askSend, `askTell, `tsProbe, `probeWait, `sndQueue, `sndBuf, `nsndQue, `nsndBuf,
        `sndNxt, `xmit, `dead
      ensures Counted() && old(output) <= output && window == Endpoint.Window(s)
      ensures State() == Sent(s, State().snd, State().xmit, State().dead)
      ensures SegmentsFlushed(s, State().snd, State().xmit, State().dead, change, lost)
      ensures start <= |output| && Carries(output[start..], Packets(Pack(s.cfg.mtu, Endpoint.FlushItems(s))))
    {
      hide Packed, Endpoint.Number, Endpoint.AckItems, Endpoint.ProbeItems, Endpoint.DataItems, Endpoint.ProbeTimer,
        FlushReady, Endpoint.Window, Pack, Carries, SegmentsFlushed;
      assert nrcvQue == |rcvQueue|;
      var ptr := FlushControl(start);
      ghost var s1 := State();
      assert Counted();
      hide State, Counted;
      SameNumber(s, s1);
      SameItems(s, s1, Endpoint.Number(s).buf);
      window := SendWindow();
      change, lost := FlushSegments(ptr, window, Endpoint.AckItems(s) + Endpoint.ProbeItems(s), start);
      SameFlush(s, s1, State().snd, State().xmit, State().dead, change, lost);
    }

    /** `ikcp_flush` once updating has begun. */
    method FlushUpdated(ghost s: State, ghost start: nat)
      requires s == State() && start == |output| && FlushReady(s)
      requires Counted() && buffer.Length == (cfg.mtu + OVERHEAD) * 3 && 50 <= cfg.mtu
      modifies buffer, `output, `acklist, `askSend, `askTell, `tsProbe, `probeWait, `sndQueue, `sndBuf, `nsndQue, `nsndBuf,
        `sndNxt, `xmit, `dead, `cwnd, `ssthresh, `incr
      ensures Counted() && old(output) <= output
      ensures State() == Endpoint.AfterFlush(s)
      ensures start <= |output| && Carries(output[start..], Packets(Pack(s.cfg.mtu, Endpoint.FlushItems(s))))
    {
      hide Endpoint.Number, Endpoint.FlushItems, Endpoint.ProbeTimer, Congestion.OnFlush,
        FlushReady, Endpoint.Window, Pack, Packets, Endpoint.AfterFlush, Carries, SegmentsFlushed;
      var window, change, lost := FlushSend(s, start);
      FlushParts(s, State().snd, State().xmit, State().dead, change, lost);
      hide State, Counted, Sent;
      AdjustWindow(change, lost, window, if cfg.fastResend > 0 then cfg.fastResend else 0xffff_ffff);
    }

    /** `ikcp_flush`. */
    method Flush()
      requires Valid()
      modifies buffer, `output, `acklist, `askSend, `askTell, `tsProbe, `probeWait, `sndQueue, `sndBuf, `nsndQue, `nsndBuf,
        `sndNxt, `xmit, `dead, `cwnd, `ssthresh, `incr
      ensures Valid()
      ensures State() == Endpoint.Flush(old(State())).0
      ensures old(output) <= output && Carries(output[|old(output)|..], Endpoint.Flush(old(State())).1)
    {
      FlushFacts(State());
      hide EndpointInvariant.Inv, FlushReady, Endpoint.FlushItems, Pack, Endpoint.AfterFlush;
      if updated {
        FlushUpdated(State(), |output|);
      }
    }

    /** The clock's part of `ikcp_update`. */
    method TickClock(now: u32) returns (flush: bool)
      modifies `current, `tsFlush, `updated
      ensures (Clock(current, tsFlush, updated), flush) == FlushClock.Tick(old(Clock(current, tsFlush, updated)), now, cfg.interval)
    {
      current := now;
      if !updated {
        updated := true;
        tsFlush := current;
      }
      var slap := Diff(current, tsFlush);
      if slap >= FlushClock.SLAP_LIMIT || slap < -FlushClock.SLAP_LIMIT {
        tsFlush := current;
        slap := 0;
      }
      flush := slap >= 0;
      if flush {
        tsFlush := Add32(tsFlush, cfg.interval);
        if Diff(current, tsFlush) >= 0 {
          tsFlush := Add32(current, cfg.interval);
        }
      }
    }

    /** `ikcp_update`. */
    method Update(now: u32)
      requires Valid()
      modifies buffer, `output, `acklist, `askSend, `askTell, `tsProbe, `probeWait, `sndQueue, `sndBuf, `nsndQue, `nsndBuf,
        `sndNxt, `xmit, `dead, `cwnd, `ssthresh, `incr, `current, `tsFlush, `updated
      ensures Valid()
      ensures State() == Endpoint.Update(old(State()), now).0
      ensures old(output) <= output && Carries(output[|old(output)|..], Endpoint.Update(old(State()), now).1)
    {
      EndpointInvariant.ClockKeepsInv(State(), FlushClock.Tick(Clock(current, tsFlush, updated), now, cfg.interval).0);
      hide Endpoint.Flush, FlushClock.Tick, EndpointInvariant.Inv;
      var flush := TickClock(now);
      if flush {
        Flush();
      }
    }

    /** The loop of `ikcp_check`: the first retransmission deadline. */
    method FirstDeadline(now: u32) returns (overdue: bool, wait: i32)
      ensures overdue == FlushClock.Overdue(sndBuf, now)
      ensures !overdue ==> wait == FlushClock.ShortestWait(sndBuf, now)
    {
      overdue, wait := false, 0x7fff_ffff;
      var i := 0;
      while i < |sndBuf|
        invariant 0 <= i <= |sndBuf|
        invariant wait == FlushClock.ShortestWait(sndBuf[..i], now)
        invariant !FlushClock.Overdue(sndBuf[..i], now)
      {
        WaitStep(sndBuf, i, now);
        var diff := Diff(sndBuf[i].resendts, now);
        if diff <= 0 { return true, diff; }
        if diff < wait { wait := diff; }
        i := i + 1;
      }
      assert sndBuf[..|sndBuf|] == sndBuf;
    }

    /** `ikcp_check`. */
    method Check(now: u32) returns (t: u32)
      ensures t == FlushClock.Check(Clock(current, tsFlush, updated), sndBuf, cfg.interval, now)
    {
      FlushClock.ShortestWaitProps(sndBuf, now);
      hide FlushClock.Overdue, FlushClock.ShortestWait;
      if !updated { return now; }
      var flushAt := tsFlush;
      if Diff(now, flushAt) >= FlushClock.SLAP_LIMIT || Diff(now, flushAt) < -FlushClock.SLAP_LIMIT {
        flushAt := now;
      }
      if Diff(now, flushAt) >= 0 { return now; }
      var tmFlush := Diff(flushAt, now);
      var overdue, tmPacket := FirstDeadline(now);
      if overdue { return now; }
      var minimal: u32 := if tmPacket < tmFlush then tmPacket else tmFlush;
      if minimal >= cfg.interval { minimal := cfg.interval; }
      t := Add32(now, minimal);
    }

    /** How many segments may be in flight. */
    method SendWindow() returns (window: u32)
      ensures window == Endpoint.Window(State())
    {
      window := Min(cfg.sndWnd, rmtWnd);
      if !cfg.noCwnd { window := Min(cwnd, window); }
    }
  }

  /** The three cases of the flush loop. */
  method FlushSegment(g: SndSeg, e: Retransmission.Env) returns (g': SndSeg, needsend: bool, late: bool, fast: bool)
    ensures g' == Retransmission.Flushed(g, e)
    ensures needsend == Retransmission.Due(g, e) && late == Retransmission.Late(g, e) && fast == Retransmission.Overtaken(g, e)
  {
    g', needsend, late, fast := g, false, false, false;
    if g.xmit == 0 {
      needsend := true;
      g' := g'.(xmit := 1, rto := e.rto, resendts := Add32(Add32(e.current, e.rto), e.rtoMin));
    } else if Diff(e.current, g.resendts) >= 0 {
      needsend, late := true, true;
      g' := g'.(xmit := Add32(g.xmit, 1));
      if e.nodelay == 0 {
        g' := g'.(rto := Add32(g.rto, Max(g.rto, e.rto)));
      } else {
        var step := if e.nodelay < 2 then AsSigned(g.rto) else AsSigned(e.rto);
        g' := g'.(rto := Add32(g.rto, Low32(TruncDiv(step, 2))));
      }
      g' := g'.(resendts := Add32(e.current, g'.rto));
    } else if g.fastack >= e.resent {
      if AsSigned(g.xmit) <= e.fastLimit || e.fastLimit <= 0 {
        needsend, fast := true, true;
        g' := g'.(xmit := Add32(g.xmit, 1), fastack := 0, resendts := Add32(e.current, g.rto));
      }
    }
  }

  lemma AckItemsAre(s: State)
    ensures |Endpoint.AckItems(s)| == |s.rcv.acks|
    ensures forall i | 0 <= i < |s.rcv.acks| :: Endpoint.AckItems(s)[i] ==
              WireSeg(s.cfg.conv, CMD_ACK, 0, (if |s.rcv.queue| < s.cfg.rcvWnd then s.cfg.rcvWnd - |s.rcv.queue| else 0) % 0x1_0000,
                      s.rcv.acks[i].ts, s.rcv.acks[i].sn, s.rcv.nxt, [])
  {
  }

  lemma PushItemsAre(s: State)
    requires 50 <= s.cfg.mtu <= 65535
    ensures forall g: SndSeg | SendBuffer.FragOk(g.frag, s.cfg.Mss()) ::
              && Sendable(Endpoint.PushItem(s, g)) && Size(Endpoint.PushItem(s, g)) <= s.cfg.mtu
    ensures forall g: SndSeg :: Endpoint.PushItem(s, g) ==
              WireSeg(s.cfg.conv, CMD_PUSH, g.frag.frg % 0x100,
                      (if |s.rcv.queue| < s.cfg.rcvWnd then s.cfg.rcvWnd - |s.rcv.queue| else 0) % 0x1_0000,
                      s.clock.current, g.sn, s.rcv.nxt, g.frag.data)
  {
    forall g: SndSeg | SendBuffer.FragOk(g.frag, s.cfg.Mss())
      ensures Sendable(Endpoint.PushItem(s, g)) && Size(Endpoint.PushItem(s, g)) <= s.cfg.mtu
    {
      assert Endpoint.PushItem(s, g).data == g.frag.data;
    }
  }

  /** What the flush loop has done after looking at the first `i` segments of `buf`. */
  ghost predicate Looked(buf: seq<SndSeg>, cur: seq<SndSeg>, i: nat, e: Retransmission.Env, deadLink: u32,
                         xmit0: u32, xmit: u32, dead0: bool, dead: bool, change: bool, lost: bool)
  {
    && i <= |buf| == |cur|
    && (forall j | 0 <= j < i :: cur[j] == Retransmission.Flushed(buf[j], e))
    && (forall j | i <= j < |buf| :: cur[j] == buf[j])
    && change == Endpoint.AnyOvertaken(buf[..i], e)
    && lost == (Endpoint.CountLate(buf[..i], e) > 0)
    && xmit == Low32(xmit0 + Endpoint.CountLate(buf[..i], e))
    && dead == (dead0 || Endpoint.AnyDead(buf[..i], e, deadLink))
  }

  lemma LookedAtNone(buf: seq<SndSeg>, e: Retransmission.Env, deadLink: u32, xmit: u32, dead: bool)
    ensures Looked(buf, buf, 0, e, deadLink, xmit, xmit, dead, dead, false, false)
  {
  }

  lemma LookAtOne(buf: seq<SndSeg>, cur: seq<SndSeg>, i: nat, e: Retransmission.Env, deadLink: u32,
                  xmit0: u32, xmit: u32, dead0: bool, dead: bool, change: bool, lost: bool)
    requires Looked(buf, cur, i, e, deadLink, xmit0, xmit, dead0, dead, change, lost) && i < |buf|
    ensures i < |cur| && cur[i] == buf[i]
    ensures var g := buf[i];
            Looked(buf, cur[i := Retransmission.Flushed(g, e)], i + 1, e, deadLink,
                   xmit0, if Retransmission.Late(g, e) then Add32(xmit, 1) else xmit,
                   dead0, dead || (Retransmission.Due(g, e) && Retransmission.Flushed(g, e).xmit >= deadLink),
                   change || Retransmission.Overtaken(g, e), lost || Retransmission.Late(g, e))
  {
    hide Retransmission.Due, Retransmission.Late, Retransmission.Overtaken, Retransmission.Flushed;
    assert buf[..i + 1][..i] == buf[..i];
    assert buf[..i + 1] == buf[..i] + [buf[i]];
    assert forall g :: g in buf[..i + 1] <==> g in buf[..i] || g == buf[i];
    Low32Add(xmit0 + Endpoint.CountLate(buf[..i], e), 1);
  }

  lemma LookedAtAll(buf: seq<SndSeg>, cur: seq<SndSeg>, e: Retransmission.Env, deadLink: u32,
                    xmit0: u32, xmit: u32, dead0: bool, dead: bool, change: bool, lost: bool)
    requires Looked(buf, cur, |buf|, e, deadLink, xmit0, xmit, dead0, dead, change, lost)
    ensures buf[..|buf|] == buf
    ensures cur == Endpoint.FlushedBuf(buf, e)
    ensures change == Endpoint.AnyOvertaken(buf, e) && lost == (Endpoint.CountLate(buf, e) > 0)
    ensures xmit == Low32(xmit0 + Endpoint.CountLate(buf, e)) && dead == (dead0 || Endpoint.AnyDead(buf, e, deadLink))
  {
    assert buf[..|buf|] == buf;
  }

  /** What is sent before the first segment of the send buffer ... */
  lemma DataStart(s: State, items: seq<WireSeg>, buf: seq<SndSeg>)
    ensures items + Endpoint.DataItems(s, buf[..0]) == items
  {
  }

  /** ... and after one more. */
  lemma DataStep(s: State, items: seq<WireSeg>, buf: seq<SndSeg>, i: nat, e: Retransmission.Env)
    requires i < |buf| && e == Endpoint.EnvOf(s)
    ensures var g, before, after := buf[i], items + Endpoint.DataItems(s, buf[..i]), items + Endpoint.DataItems(s, buf[..i + 1]);
            after == before + if Retransmission.Due(g, e) then [Endpoint.PushItem(s, g)] else []
  {
    hide Retransmission.Due, Endpoint.PushItem, Endpoint.EnvOf;
    assert buf[..i + 1][..i] == buf[..i];
  }

  /** What the parts of a flush need to know about the state it starts in. */
  ghost predicate FlushReady(s: State) {
    && 50 <= s.cfg.mtu <= 65535 && SendBuffer.InFlight(s.snd) <= MAX_WND && Endpoint.Window(s) <= MAX_WND
    && forall g | g in Endpoint.Number(s).buf :: SendBuffer.FragOk(g.frag, s.cfg.Mss())
  }

  lemma ReadyFacts(s: State)
    requires FlushReady(s)
    ensures 50 <= s.cfg.mtu <= 65535 && SendBuffer.InFlight(s.snd) <= MAX_WND && Endpoint.Window(s) <= MAX_WND
    ensures forall i | 0 <= i < |Endpoint.Number(s).buf| :: SendBuffer.FragOk(Endpoint.Number(s).buf[i].frag, s.cfg.Mss())
  {
  }

  lemma FlushFacts(s: State)
    requires EndpointInvariant.Inv(s)
    ensures FlushReady(s) && 50 <= s.cfg.mtu
    ensures EndpointInvariant.Inv(Endpoint.AfterFlush(s))
  {
    hide Endpoint.Number, Endpoint.AfterFlush, Endpoint.Window, SendBuffer.Ordered, RecvBuffer.Inv, Congestion.Inv;
    EndpointInvariant.NumberKeepsInv(s);
    SmallWindow(s);
    assert FlushReady(s) && 50 <= s.cfg.mtu;
    hide EndpointInvariant.Inv, FlushReady;
    EndpointInvariant.AfterFlushKeepsInv(s);
  }

  lemma SmallWindow(s: State)
    ensures s.rmtWnd <= MAX_WND ==> Endpoint.Window(s) <= MAX_WND
  {
  }

  /** What a flush makes of the sending half. */
  ghost predicate SegmentsFlushed(s: State, snd': Sender, xmit: u32, dead: bool, change: bool, lost: bool) {
    var snd, e := Endpoint.Number(s), Endpoint.EnvOf(s);
    && snd' == snd.(buf := Endpoint.FlushedBuf(snd.buf, e))
    && change == Endpoint.AnyOvertaken(snd.buf, e)
    && lost == (Endpoint.CountLate(snd.buf, e) > 0)
    && xmit == Low32(s.xmit + Endpoint.CountLate(snd.buf, e))
    && dead == (s.dead || Endpoint.AnyDead(snd.buf, e, s.cfg.deadLink))
  }

  lemma SegmentsAre(s: State, snd: Sender, e: Retransmission.Env, xmit: u32, dead: bool, change: bool, lost: bool)
    requires e == Endpoint.EnvOf(s) && snd == Endpoint.Number(s).(buf := Endpoint.FlushedBuf(Endpoint.Number(s).buf, e))
    requires change == Endpoint.AnyOvertaken(Endpoint.Number(s).buf, e) && lost == (Endpoint.CountLate(Endpoint.Number(s).buf, e) > 0)
    requires xmit == Low32(s.xmit + Endpoint.CountLate(Endpoint.Number(s).buf, e))
    requires dead == (s.dead || Endpoint.AnyDead(Endpoint.Number(s).buf, e, s.cfg.deadLink))
    ensures SegmentsFlushed(s, snd, xmit, dead, change, lost)
  {
    hide Endpoint.Number, Endpoint.FlushedBuf, Endpoint.AnyOvertaken, Endpoint.CountLate, Endpoint.AnyDead, Endpoint.EnvOf;
  }

  lemma SameFlush(s: State, s1: State, snd': Sender, xmit: u32, dead: bool, change: bool, lost: bool)
    requires SegmentsFlushed(s1, snd', xmit, dead, change, lost)
    requires SameHeaders(s, s1) && Endpoint.Number(s1) == Endpoint.Number(s) && s1.xmit == s.xmit && s1.dead == s.dead
    ensures SegmentsFlushed(s, snd', xmit, dead, change, lost)
  {
    assert Endpoint.EnvOf(s1) == Endpoint.EnvOf(s);
    hide Endpoint.Number, Endpoint.EnvOf;
  }

  /** The state after a flush, but for the congestion window. */
  ghost function Sent(s: State, snd: Sender, xmit: u32, dead: bool): State {
    Controlled(s).(snd := snd, xmit := xmit, dead := dead)
  }

  /** The state after acknowledgements and probes. */
  ghost function Controlled(s: State): State {
    s.(rcv := s.rcv.(acks := []),
       probe := Endpoint.ProbeTimer(s.probe, s.rmtWnd, s.clock.current).(ask := false, tell := false))
  }

  lemma FlushParts(s: State, snd: Sender, xmit: u32, dead: bool, change: bool, lost: bool)
    requires SegmentsFlushed(s, snd, xmit, dead, change, lost)
    ensures Endpoint.AfterFlush(s) == Sent(s, snd, xmit, dead).(cong :=
              Congestion.OnFlush(s.cong, s.cfg.Mss(), change, lost, SendBuffer.InFlight(snd), Endpoint.Window(s),
                                 if s.cfg.fastResend > 0 then s.cfg.fastResend else 0xffff_ffff))
    ensures var s' := Sent(s, snd, xmit, dead); s'.cfg == s.cfg && s'.cong == s.cong && s'.snd == snd
  {
    hide Endpoint.NumberUpTo, Endpoint.FlushedBuf, Endpoint.ProbeTimer, Congestion.OnFlush, Endpoint.AnyOvertaken,
      Endpoint.CountLate, Endpoint.AnyDead;
  }

  /** What the flush sends depends only on these parts of the state. */
  ghost predicate SameHeaders(s: State, s': State) {
    s'.cfg == s.cfg && s'.rcv.nxt == s.rcv.nxt && s'.rcv.queue == s.rcv.queue && s'.clock == s.clock && s'.rtt == s.rtt
  }

  lemma SamePush(s: State, s': State, g: SndSeg)
    requires SameHeaders(s, s')
    ensures Endpoint.PushItem(s', g) == Endpoint.PushItem(s, g)
  {
  }

  lemma {:induction false} SameItems(s: State, s': State, buf: seq<SndSeg>)
    requires SameHeaders(s, s')
    ensures Endpoint.DataItems(s', buf) == Endpoint.DataItems(s, buf)
    ensures Endpoint.EnvOf(s') == Endpoint.EnvOf(s)
  {
    hide Retransmission.Due, Endpoint.Unused;
    if buf != [] {
      SameItems(s, s', buf[..|buf| - 1]);
      assert Endpoint.Unused(s') == Endpoint.Unused(s) by { UnusedIs(s); UnusedIs(s'); }
    }
  }

  lemma UnusedIs(s: State)
    ensures Endpoint.Unused(s) == if |s.rcv.queue| < s.cfg.rcvWnd then s.cfg.rcvWnd - |s.rcv.queue| else 0
  {
  }

  /** What is numbered depends only on these parts of the state. */
  lemma SameNumber(s: State, s': State)
    requires SameHeaders(s, s') && s'.snd == s.snd && s'.rmtWnd == s.rmtWnd && s'.cong == s.cong
    ensures Endpoint.Number(s') == Endpoint.Number(s) && Endpoint.Window(s') == Endpoint.Window(s)
    ensures FlushReady(s) ==> FlushReady(s')
  {
    var n := Endpoint.Admitted(s);
    assert forall i | 0 <= i < n :: Endpoint.Numbered(s', i) == Endpoint.Numbered(s, i);
    assert Endpoint.Number(s').buf == Endpoint.Number(s).buf;
  }

  lemma ProbeTimerTell(s: State)
    ensures Endpoint.ProbeTimer(s.probe, s.rmtWnd, s.clock.current).tell == s.probe.tell
  {
  }

  lemma AdmitNone(s: State)
    ensures Endpoint.NumberUpTo(s, 0) == s.snd
  {
    assert Endpoint.NumberUpTo(s, 0).buf == s.snd.buf;
  }

  /** The loop goes on exactly while there is something left to admit. */
  lemma AdmitMore(s: State, k: nat)
    requires SendBuffer.InFlight(s.snd) <= MAX_WND && Endpoint.Window(s) <= MAX_WND && k <= Endpoint.Admitted(s)
    ensures Endpoint.Admitted(s) <= |s.snd.queue|
    ensures var snd := Endpoint.NumberUpTo(s, k);
            Diff(snd.nxt, Add32(snd.una, Endpoint.Window(s))) < 0 && snd.queue != [] <==> k < Endpoint.Admitted(s)
  {
    hide Low32;
    Low32Offset(s.snd.nxt, s.snd.una, k);
  }

  lemma AdmitOne(s: State, k: nat)
    requires k < |s.snd.queue|
    ensures var snd := Endpoint.NumberUpTo(s, k);
            && snd.queue != []
            && Endpoint.NumberUpTo(s, k + 1) ==
               Sender(snd.una, Add32(snd.nxt, 1), snd.queue[1..],
                      snd.buf + [SndSeg(snd.queue[0], snd.nxt, s.clock.current, s.rtt.rto, 0, 0)])
  {
    Low32Add(s.snd.nxt + k, 1);
    hide Low32;
    assert seq(k + 1, i requires 0 <= i < k + 1 => Endpoint.Numbered(s, i))
        == seq(k, i requires 0 <= i < k => Endpoint.Numbered(s, i)) + [Endpoint.Numbered(s, k)];
  }

  lemma EmptyPack(mtu: nat)
    ensures Pack(mtu, []) == PackState([], []) && PacketSize([]) == 0 && EncodePacket([]) == []
  {
  }

  /** Packing one more segment, in the terms of the code. */
  lemma StepIs(mtu: nat, items: seq<WireSeg>, w: WireSeg)
    ensures var st, st' := Pack(mtu, items), Pack(mtu, items + [w]);
            if PacketSize(st.cur) + Size(w) > mtu then st'.cur == [w] && st'.done == Packets(st)
            else st'.cur == st.cur + [w] && st'.done == st.done
  {
    PackSnoc(mtu, items, w);
  }

  lemma AppendSeg(p: Packet, w: WireSeg)
    requires Encodable(p) && Sendable(w)
    ensures Encodable(p + [w]) && p + [w] != []
    ensures EncodePacket(p + [w]) == EncodePacket(p) + (EncodeHeader(w) + w.data)
    ensures PacketSize(p + [w]) == PacketSize(p) + Size(w)
    ensures EncodePacket([]) == [] && PacketSize([]) == 0
  {
    EncodeAppend(p, w);
  }

  lemma AckKeepsRcv(rcv: Receiver, wnd: u32, ack: Ack)
    requires RecvBuffer.Inv(rcv, wnd)
    ensures RecvBuffer.Inv(rcv.(acks := rcv.acks + [ack]), wnd)
  {
  }

  /** An old segment is acknowledged and otherwise ignored. */
  lemma ParseDataOutside(rcv: Receiver, wnd: u32, ack: Ack, frag: Frag)
    requires Diff(ack.sn, rcv.nxt) < 0
    ensures RecvBuffer.ParseData(rcv.(acks := rcv.acks + [ack]), wnd, RcvSeg(ack.sn, frag)) == rcv.(acks := rcv.acks + [ack])
  {
  }

  lemma ParseFastackLength(snd: Sender, sn: u32)
    ensures |SendBuffer.ParseFastack(snd, sn)| == |snd.buf|
  {
  }

  lemma SenderOf(s: State)
    requires EndpointInvariant.Inv(s)
    ensures SendBuffer.Inv(s.snd, s.cfg.Mss()) && s.cfg.Mss() > 0
  {
  }

  lemma ReceiverOf(s: State)
    requires EndpointInvariant.Inv(s)
    ensures RecvBuffer.Inv(s.rcv, s.cfg.rcvWnd) && WND_RCV <= s.cfg.rcvWnd <= MAX_WND
  {
  }

  /** One step of the parsing loop. */
  lemma NextSegment(conv: u32, data: seq<u8>, pos: nat)
    requires pos + OVERHEAD <= |data| && ParseOne(conv, data[pos..]).Segment?
    ensures var (h, len) := DecodeHeader(data[pos..]);
            && pos + OVERHEAD + len <= |data|
            && var w := h.(data := data[pos + OVERHEAD..pos + OVERHEAD + len]);
               var (ws, code) := Parse(conv, data[pos + OVERHEAD + len..]);
               Parse(conv, data[pos..]) == ([w] + ws, code)
  {
    hide DecodeHeader;
    var (h, len) := DecodeHeader(data[pos..]);
    assert OVERHEAD + len <= |data[pos..]|;
    SliceOfRest(data, pos, OVERHEAD, OVERHEAD + len);
  }

  lemma SliceOfRest(data: seq<u8>, pos: nat, i: nat, j: nat)
    requires pos <= |data| && i <= j <= |data| - pos
    ensures data[pos..][i..j] == data[pos + i..pos + j] && data[pos..][j..] == data[pos + j..]
  {
  }

  lemma MergeEnds(q: seq<Frag>)
    ensures q[0..] == q && RecvBuffer.NextMsg(q[|q|..]) == [] && RecvBuffer.MsgEnd(q[|q|..]) == 0
  {
    assert Bytes([]) == [];
  }

  /** One more fragment of a message after `data`. */
  lemma MergeStep(q: seq<Frag>, i: nat, data: seq<u8>)
    requires i < |q|
    ensures q[i..][1..] == q[i + 1..]
    ensures data + RecvBuffer.NextMsg(q[i..]) ==
            (data + q[i].data) + if q[i].frg == 0 then [] else RecvBuffer.NextMsg(q[i + 1..])
    ensures RecvBuffer.MsgEnd(q[i..]) == 1 + if q[i].frg == 0 then 0 else RecvBuffer.MsgEnd(q[i + 1..])
  {
    hide RecvBuffer.NextMsg, RecvBuffer.MsgEnd;
    NextMsgStep(q[i..]);
    assert q[i..][1..] == q[i + 1..];
  }

  lemma NextMsgStep(q: seq<Frag>)
    requires q != []
    ensures RecvBuffer.NextMsg(q) == q[0].data + if q[0].frg == 0 then [] else RecvBuffer.NextMsg(q[1..])
    ensures RecvBuffer.MsgEnd(q) == 1 + if q[0].frg == 0 then 0 else RecvBuffer.MsgEnd(q[1..])
  {
    var n := RecvBuffer.MsgEnd(q);
    assert q[..n][1..] == q[1..][..n - 1];
    assert Bytes(q[1..][..0]) == [];
  }
}
