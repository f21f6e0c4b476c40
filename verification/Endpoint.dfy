/** One endpoint: what each call of the interface does to its state, and what it
    hands to the application or to the network. */
module Endpoint {
  import opened Serial
  import opened Wire
  import opened ControlBlock
  import opened RttEstimator
  import opened Packing
  import opened Retransmission
  import SendBuffer
  import RecvBuffer
  import Congestion
  import FlushClock

  // ---- ikcp_send ----

  /** A message cut into fragments of at most `mss` bytes. */
  function Fragment(data: seq<u8>, mss: u32, stream: bool): (fs: seq<Frag>)
    requires mss > 0
    ensures fs != []
    decreases |data|
  {
    if |data| <= mss then [Frag(0, data)]
    else
      var rest := Fragment(data[mss..], mss, stream);
      [Frag(if stream then 0 else |rest|, data[..mss])] + rest
  }

  /** Stream mode: how much of the new data the last queued fragment still takes. */
  function TailRoom(queue: seq<Frag>, mss: u32, len: nat): (room: nat)
    ensures room <= len && (room > 0 ==> queue != [])
  {
    if queue == [] || |queue[|queue| - 1].data| >= mss then 0
    else Min(len, mss - |queue[|queue| - 1].data|)
  }

  function ExtendTail(queue: seq<Frag>, mss: u32, data: seq<u8>): seq<Frag> {
    if queue == [] || |queue[|queue| - 1].data| >= mss then queue
    else queue[..|queue| - 1] + [Frag(0, queue[|queue| - 1].data + data)]
  }

  /** How much of the data the tail takes in this mode, and the queue after that. */
  function Room(s: State, len: int): (room: nat)
    ensures room <= Max(0, len) && (room > 0 ==> s.snd.queue != [])
  {
    if s.cfg.stream && len >= 0 then TailRoom(s.snd.queue, s.cfg.Mss(), len) else 0
  }

  function Tailed(s: State, data: seq<u8>): seq<Frag> {
    if s.cfg.stream then ExtendTail(s.snd.queue, s.cfg.Mss(), data) else s.snd.queue
  }

  function Enqueue(s: State, fs: seq<Frag>): State {
    s.(snd := s.snd.(queue := s.snd.queue + fs))
  }

  /** `ikcp_send` of the first `len` bytes of `buffer`: the new state and the
      return code. In stream mode the tail may be extended even when the call
      then fails. */
  function Send(s: State, buffer: seq<u8>, len: int): (State, int)
    requires len <= |buffer| && s.cfg.Mss() > 0
  {
    if len < 0 then (s, -1)
    else
      var room := Room(s, len);
      var s1 := s.(snd := s.snd.(queue := Tailed(s, buffer[..room])));
      if s.cfg.stream && len == room then (s1, 0)
      else
        var fs := Fragment(buffer[room..len], s.cfg.Mss(), s.cfg.stream);
        if |fs| >= WND_RCV then (s1, -2) else (Enqueue(s1, fs), 0)
  }

  // ---- ikcp_recv ----

  /** `ikcp_recv` into a buffer of |len| bytes; a negative `len` only peeks. The
      results are the new state, the return code and the bytes copied. */
  function Recv(s: State, len: int): (State, int, seq<u8>) {
    var q := s.rcv.queue;
    var size := RecvBuffer.PeekSize(q);
    if q == [] then (s, -1, [])
    else if size < 0 then (s, -2, [])
    else if size > (if len < 0 then -len else len) then (s, -3, [])
    else
      var taken := s.rcv.(queue := if len < 0 then q else q[RecvBuffer.MsgEnd(q)..]);
      var rcv := RecvBuffer.Drain(taken, s.cfg.rcvWnd);
      var recovered := |q| >= s.cfg.rcvWnd && |rcv.queue| < s.cfg.rcvWnd;
      (s.(rcv := rcv, probe := s.probe.(tell := s.probe.tell || recovered)), |RecvBuffer.NextMsg(q)|, RecvBuffer.NextMsg(q))
  }

  // ---- ikcp_input ----

  /** The state while a datagram is being read, and the latest serial number that
      one of its ACK segments named. */
  datatype Hearing = Hearing(s: State, flag: bool, maxack: u32)

  /** The window and the cumulative acknowledgement that every segment carries. */
  function HearHeader(s: State, w: WireSeg): State {
    s.(rmtWnd := w.wnd, snd := SendBuffer.HearUna(s.snd, w.una))
  }

  function HearCommand(h: Hearing, w: WireSeg): Hearing {
    var s := h.s;
    if w.cmd == CMD_ACK then
      var rtt := if Diff(s.clock.current, w.ts) >= 0
                 then UpdateAck(s.rtt, Diff(s.clock.current, w.ts), s.cfg.interval, s.cfg.minRto) else s.rtt;
      Hearing(s.(rtt := rtt, snd := SendBuffer.HearAck(s.snd, w.sn)),
              true, if h.flag && Diff(w.sn, h.maxack) <= 0 then h.maxack else w.sn)
    else if w.cmd == CMD_PUSH then
      h.(s := s.(rcv := RecvBuffer.HearPush(s.rcv, s.cfg.rcvWnd, Ack(w.sn, w.ts), Frag(w.frg, w.data))))
    else if w.cmd == CMD_WASK then
      h.(s := s.(probe := s.probe.(tell := true)))
    else
      h
  }

  function HearSeg(h: Hearing, w: WireSeg): Hearing {
    HearCommand(h.(s := HearHeader(h.s, w)), w)
  }

  function HearAll(h: Hearing, ws: Packet): Hearing
    decreases |ws|
  {
    if ws == [] then h else HearAll(HearSeg(h, ws[0]), ws[1..])
  }

  /** After the last segment: count the segments that were overtaken, and let the
      congestion window react when `snd_una` moved. */
  function FinishInput(h: Hearing, prevUna: u32): State
    requires h.s.cfg.Mss() > 0
  {
    var s := if h.flag then h.s.(snd := h.s.snd.(buf := SendBuffer.ParseFastack(h.s.snd, h.maxack))) else h.s;
    if Diff(s.snd.una, prevUna) > 0 then s.(cong := Congestion.OnAck(s.cong, s.cfg.Mss(), s.rmtWnd)) else s
  }

  lemma {:induction false} HearAllKeepsCfg(h: Hearing, ws: Packet)
    ensures HearAll(h, ws).s.cfg == h.s.cfg
    decreases |ws|
  {
    if ws != [] { HearAllKeepsCfg(HearSeg(h, ws[0]), ws[1..]); }
  }

  /** `ikcp_input`: the new state and the return code. What precedes a malformed
      header has taken effect, but without the two final steps. */
  function Input(s: State, data: seq<u8>): (State, int)
    requires s.cfg.Mss() > 0
  {
    if AsSigned(Low32(|data|)) < OVERHEAD then (s, -1)
    else
      var (ws, code) := Parse(s.cfg.conv, data);
      var h := HearAll(Hearing(s, false, 0), ws);
      HearAllKeepsCfg(Hearing(s, false, 0), ws);
      if code != 0 then (h.s, code) else (FinishInput(h, s.snd.una), 0)
  }

  // ---- ikcp_flush ----

  /** `ikcp_wnd_unused`. */
  function Unused(s: State): u32 {
    if |s.rcv.queue| < s.cfg.rcvWnd then s.cfg.rcvWnd - |s.rcv.queue| else 0
  }

  /** The zero-window probe timer. */
  function ProbeTimer(p: Probe, rmtWnd: u32, current: u32): Probe {
    if rmtWnd != 0 then p.(ts := 0, wait := 0)
    else if p.wait == 0 then p.(ts := Add32(current, PROBE_INIT), wait := PROBE_INIT)
    else if Diff(current, p.ts) >= 0 then
      var base: u32 := Max(p.wait, PROBE_INIT);
      var wait: u32 := Min(Add32(base, base / 2), PROBE_LIMIT);
      p.(ask := true, ts := Add32(current, wait), wait := wait)
    else p
  }

  /** How many segments may be in flight. */
  function Window(s: State): u32 {
    var w: u32 := Min(s.cfg.sndWnd, s.rmtWnd);
    if s.cfg.noCwnd then w else Min(s.cong.cwnd, w)
  }

  /** How many queued fragments the window admits. */
  function Admitted(s: State): nat {
    Min(|s.snd.queue|, Max(0, Window(s) - SendBuffer.InFlight(s.snd)))
  }

  function Numbered(s: State, i: nat): SndSeg
    requires i < |s.snd.queue|
  {
    SndSeg(s.snd.queue[i], Low32(s.snd.nxt + i), s.clock.current, s.rtt.rto, 0, 0)
  }

  /** The first `n` queued fragments numbered and put in flight. */
  function NumberUpTo(s: State, n: nat): Sender
    requires n <= |s.snd.queue|
  {
    Sender(s.snd.una, Low32(s.snd.nxt + n), s.snd.queue[n..],
           s.snd.buf + seq(n, i requires 0 <= i < n => Numbered(s, i)))
  }

  /** What the window admits is numbered and put in flight. */
  function Number(s: State): Sender {
    NumberUpTo(s, Admitted(s))
  }

  function EnvOf(s: State): Env {
    Env(s.clock.current, s.rtt.rto, if s.cfg.nodelay == 0 then s.rtt.rto / 8 else 0,
        if s.cfg.fastResend > 0 then s.cfg.fastResend else 0xffff_ffff, s.cfg.nodelay, s.cfg.fastLimit)
  }

  function Outgoing(s: State, cmd: u8, frg: nat, ts: u32, sn: u32, data: seq<u8>): WireSeg {
    WireSeg(s.cfg.conv, cmd, frg % 0x100, Unused(s) % 0x1_0000, ts, sn, s.rcv.nxt, data)
  }

  function AckItems(s: State): seq<WireSeg> {
    seq(|s.rcv.acks|, i requires 0 <= i < |s.rcv.acks| =>
      Outgoing(s, CMD_ACK, 0, s.rcv.acks[i].ts, s.rcv.acks[i].sn, []))
  }

  /** Probe segments repeat the numbers of the last acknowledgement. */
  function LastAck(s: State): Ack {
    if s.rcv.acks == [] then Ack(0, 0) else s.rcv.acks[|s.rcv.acks| - 1]
  }

  function ProbeItems(s: State): seq<WireSeg> {
    (if ProbeTimer(s.probe, s.rmtWnd, s.clock.current).ask
     then [Outgoing(s, CMD_WASK, 0, LastAck(s).ts, LastAck(s).sn, [])] else [])
    + (if s.probe.tell then [Outgoing(s, CMD_WINS, 0, LastAck(s).ts, LastAck(s).sn, [])] else [])
  }

  function PushItem(s: State, g: SndSeg): WireSeg {
    Outgoing(s, CMD_PUSH, g.frag.frg, s.clock.current, g.sn, g.frag.data)
  }

  /** The due segments, oldest first. */
  function DataItems(s: State, buf: seq<SndSeg>): seq<WireSeg> {
    if buf == [] then []
    else
      var g := buf[|buf| - 1];
      DataItems(s, buf[..|buf| - 1]) + (if Due(g, EnvOf(s)) then [PushItem(s, g)] else [])
  }

  function FlushItems(s: State): seq<WireSeg> {
    AckItems(s) + ProbeItems(s) + DataItems(s, Number(s).buf)
  }

  function CountLate(buf: seq<SndSeg>, e: Env): nat {
    if buf == [] then 0 else CountLate(buf[..|buf| - 1], e) + (if Late(buf[|buf| - 1], e) then 1 else 0)
  }

  predicate AnyOvertaken(buf: seq<SndSeg>, e: Env) {
    exists g | g in buf :: Overtaken(g, e)
  }

  /** Some segment was transmitted so often that the link counts as dead. */
  predicate AnyDead(buf: seq<SndSeg>, e: Env, deadLink: u32) {
    exists g | g in buf :: Due(g, e) && Flushed(g, e).xmit >= deadLink
  }

  function FlushedBuf(buf: seq<SndSeg>, e: Env): seq<SndSeg> {
    seq(|buf|, i requires 0 <= i < |buf| => Flushed(buf[i], e))
  }

  function AfterFlush(s: State): State {
    var snd, e := Number(s), EnvOf(s);
    var probe := ProbeTimer(s.probe, s.rmtWnd, s.clock.current);
    s.(snd := snd.(buf := FlushedBuf(snd.buf, e)),
       rcv := s.rcv.(acks := []),
       probe := probe.(ask := false, tell := false),
       cong := Congestion.OnFlush(s.cong, s.cfg.Mss(), AnyOvertaken(snd.buf, e), CountLate(snd.buf, e) > 0,
                                  SendBuffer.InFlight(snd), Window(s), e.resent),
       dead := s.dead || AnyDead(snd.buf, e, s.cfg.deadLink),
       xmit := Low32(s.xmit + CountLate(snd.buf, e)))
  }

  /** `ikcp_flush`: the new state and the datagrams. */
  function Flush(s: State): (State, seq<Packet>) {
    if !s.clock.updated then (s, [])
    else (AfterFlush(s), Packets(Pack(s.cfg.mtu, FlushItems(s))))
  }

  /** `ikcp_update`. */
  function Update(s: State, now: u32): (State, seq<Packet>) {
    var (clock, flush) := FlushClock.Tick(s.clock, now, s.cfg.interval);
    if flush then Flush(s.(clock := clock)) else (s.(clock := clock), [])
  }
}
