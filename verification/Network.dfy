/** Two endpoints and a network that keeps every datagram ever sent and may deliver
    any of them to the other side, at any time, any number of times or never. */
module Network {
  import opened Serial
  import opened Wire
  import opened ControlBlock
  import opened Link
  import opened Endpoint
  import Retransmission
  import EndpointInvariant
  import RecvBuffer
  import FlushClock

  /** An endpoint with its history: the unbounded counts behind its 32-bit fields,
      the fragments it numbered and those its application took, the messages it
      accepted from its application and those it handed over. */
  datatype Node = Node(
    st: State, una: nat, sent: seq<Frag>, nxt: nat, acks: seq<nat>, delivered: seq<Frag>,
    msgs: seq<seq<u8>>, got: seq<seq<u8>>, bytes: seq<u8>, leaked: nat)

  function TxOf(n: Node): Tx { Tx(n.st.snd, n.una, n.sent) }

  function RxOf(n: Node): Rx { Rx(n.st.rcv, n.nxt, n.acks, n.delivered) }

  function Fresh(cfg: Config): Node {
    Node(Create(cfg), 0, [], 0, [], [], [], [], [], 0)
  }

  ghost predicate NodeInv(n: Node) {
    && EndpointInvariant.Inv(n.st)
    && TxInv(TxOf(n), n.st.cfg.Mss())
    && RxInv(RxOf(n), n.st.cfg.rcvWnd)
  }

  // ---- what a node does ----

  /** The bytes a call of `ikcp_send` takes over: all when it succeeds; when it fails
      in stream mode, those that still fitted into the last queued fragment. */
  function Absorbed(s: State, buffer: seq<u8>, len: int): seq<u8>
    requires len <= |buffer| && s.cfg.Mss() > 0
  {
    var code := Send(s, buffer, len).1;
    if code == 0 then buffer[..len]
    else buffer[..Room(s, len)]
  }

  function NodeSend(n: Node, buffer: seq<u8>, len: int): Node
    requires len <= |buffer| && n.st.cfg.Mss() > 0
  {
    var (st, code) := Send(n.st, buffer, len);
    var taken := Absorbed(n.st, buffer, len);
    n.(st := st,
       msgs := if code == 0 then n.msgs + [buffer[..len]] else n.msgs,
       bytes := n.bytes + taken,
       leaked := if code == 0 then n.leaked else n.leaked + |taken|)
  }

  function NodeRecv(n: Node, len: int): Node {
    var (st, code, data) := Recv(n.st, len);
    if code >= 0 && len >= 0 then
      n.(st := st,
         nxt := n.nxt + Sub32(st.rcv.nxt, n.st.rcv.nxt),
         delivered := n.delivered + n.st.rcv.queue[..RecvBuffer.MsgEnd(n.st.rcv.queue)],
         got := n.got + [data])
    else
      n.(st := st, nxt := n.nxt + Sub32(st.rcv.nxt, n.st.rcv.nxt))
  }

  function Strip(d: Datagram): Packet {
    seq(|d|, i requires 0 <= i < |d| => d[i].w)
  }

  /** A node in the middle of reading a datagram. */
  datatype Ear = Ear(n: Node, flag: bool, maxack: u32)

  function Listen(e: Ear, t: Tag): Ear {
    var h := HearSeg(Hearing(e.n.st, e.flag, e.maxack), t.w);
    var n := e.n.(
      st := h.s,
      una := e.n.una + Sub32(h.s.snd.una, e.n.st.snd.una),
      nxt := e.n.nxt + Sub32(h.s.rcv.nxt, e.n.st.rcv.nxt),
      acks := if |h.s.rcv.acks| > |e.n.st.rcv.acks| then e.n.acks + [t.sn] else e.n.acks);
    Ear(n, h.flag, h.maxack)
  }

  function ListenAll(e: Ear, d: Datagram): Ear
    decreases |d|
  {
    if d == [] then e else ListenAll(Listen(e, d[0]), d[1..])
  }

  ghost predicate WireOk(conv: u32, d: Datagram) {
    && d != []
    && PacketSize(Strip(d)) < HALF
    && forall w | w in Strip(d) :: Sendable(w) && w.conv == conv
  }

  /** Delivery: the bytes of the datagram go through `ikcp_input`; the counts follow
      the fields they stand for. */
  function NodeHear(n: Node, d: Datagram): Node
    requires n.st.cfg.Mss() > 0 && forall w | w in Strip(d) :: Sendable(w)
  {
    ListenAll(Ear(n, false, 0), d).n.(st := Input(n.st, EncodePacket(Strip(d))).0)
  }

  /** The segments of a flush with the numbers they stand for. */
  function AckTags(n: Node): seq<Tag>
    requires |n.acks| == |n.st.rcv.acks|
  {
    seq(|n.acks|, i requires 0 <= i < |n.acks| => Tag(AckItems(n.st)[i], n.acks[i], n.nxt))
  }

  function ProbeTags(n: Node): seq<Tag> {
    seq(|ProbeItems(n.st)|, i requires 0 <= i < |ProbeItems(n.st)| => Tag(ProbeItems(n.st)[i], 0, n.nxt))
  }

  function DataTags(n: Node, buf: seq<SndSeg>): seq<Tag> {
    if buf == [] then []
    else
      var g := buf[|buf| - 1];
      DataTags(n, buf[..|buf| - 1])
      + (if Retransmission.Due(g, EnvOf(n.st)) then [Tag(PushItem(n.st, g), SndNo(TxOf(n), g.sn), n.nxt)] else [])
  }

  function FlushTags(n: Node): seq<Tag>
    requires |n.acks| == |n.st.rcv.acks|
  {
    AckTags(n) + ProbeTags(n) + DataTags(n, Number(n.st).buf)
  }

  /** The tags of a flush, cut where the flush cut its datagrams. */
  function Cut(tags: seq<Tag>, ps: seq<Packet>): seq<Datagram>
    decreases |ps|
  {
    if ps == [] then []
    else
      var k := Max(0, |tags| - |ps[|ps| - 1]|);
      Cut(tags[..k], ps[..|ps| - 1]) + [tags[k..]]
  }

  function NodeFlush(n: Node): (Node, seq<Datagram>)
    requires |n.acks| == |n.st.rcv.acks|
  {
    var (st, packets) := Flush(n.st);
    if !n.st.clock.updated then (n, [])
    else (n.(st := st, sent := n.sent + n.st.snd.queue[..Admitted(n.st)], acks := []), Cut(FlushTags(n), packets))
  }

  function NodeUpdate(n: Node, now: u32): (Node, seq<Datagram>)
    requires |n.acks| == |n.st.rcv.acks|
  {
    var (clock, flush) := FlushClock.Tick(n.st.clock, now, n.st.cfg.interval);
    var n1 := n.(st := n.st.(clock := clock));
    if flush then NodeFlush(n1) else (n1, [])
  }

  // ---- the system ----

  datatype Sys = Sys(a: Node, b: Node, ab: set<Datagram>, ba: set<Datagram>)

  function Swap(s: Sys): Sys { Sys(s.b, s.a, s.ba, s.ab) }

  datatype Action =
    | DoSend(buffer: seq<u8>, len: int)
    | DoRecv(len: int)
    | DoUpdate(now: u32)
    | DoFlush
    | Deliver(d: Datagram)

  /** An action at one of the two sides. */
  datatype Event = Event(atA: bool, act: Action)

  /** No serial number in the datagram is more than 2^31 behind the newest number
      of the side that issued it. */
  ghost predicate Recent(x: Node, y: Node, d: Datagram) {
    forall t | t in d ::
      && |x.sent| - HALF <= t.una
      && (t.w.cmd == CMD_ACK ==> |x.sent| - HALF <= t.sn)
      && (t.w.cmd == CMD_PUSH ==> |y.sent| - HALF <= t.sn)
  }

  /** What may happen at `a`: any call with any arguments, and the delivery of any
      recent datagram that the other side ever sent. */
  ghost predicate EnabledAtA(s: Sys, act: Action) {
    && s.a.st.cfg.Mss() > 0
    && |s.a.acks| == |s.a.st.rcv.acks|
    && match act
       case DoSend(buffer, len) => len <= |buffer|
       case Deliver(d) => d in s.ba && Recent(s.a, s.b, d) && forall w | w in Strip(d) :: Sendable(w)
       case _ => true
  }

  ghost function StepAtA(s: Sys, act: Action): Sys
    requires EnabledAtA(s, act)
  {
    match act
    case DoSend(buffer, len) => s.(a := NodeSend(s.a, buffer, len))
    case DoRecv(len) => s.(a := NodeRecv(s.a, len))
    case DoUpdate(now) =>
      var (a, ds) := NodeUpdate(s.a, now);
      s.(a := a, ab := s.ab + set d | d in ds)
    case DoFlush =>
      var (a, ds) := NodeFlush(s.a);
      s.(a := a, ab := s.ab + set d | d in ds)
    case Deliver(d) => s.(a := NodeHear(s.a, d))
  }

  ghost predicate Enabled(s: Sys, e: Event) {
    if e.atA then EnabledAtA(s, e.act) else EnabledAtA(Swap(s), e.act)
  }

  ghost function Next(s: Sys, e: Event): Sys
    requires Enabled(s, e)
  {
    if e.atA then StepAtA(s, e.act) else Swap(StepAtA(Swap(s), e.act))
  }

  ghost predicate Possible(s: Sys, es: seq<Event>)
    decreases |es|
  {
    es == [] || (Enabled(s, es[0]) && Possible(Next(s, es[0]), es[1..]))
  }

  ghost function Run(s: Sys, es: seq<Event>): Sys
    requires Possible(s, es)
    decreases |es|
  {
    if es == [] then s else Run(Next(s, es[0]), es[1..])
  }

  ghost predicate InitOk(cfgA: Config, cfgB: Config) {
    cfgA.Valid() && cfgB.Valid() && cfgA.conv == cfgB.conv
  }

  function Init(cfgA: Config, cfgB: Config): Sys {
    Sys(Fresh(cfgA), Fresh(cfgB), {}, {})
  }
}
