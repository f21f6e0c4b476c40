/** The data a KCP endpoint keeps between calls, grouped by the part of the
    protocol that owns it. Fields of the C structs that are written but never
    read back are not represented. */
module ControlBlock {
  import opened Serial
  import opened Wire

  const RTO_NDL: u32 := 30
  const RTO_MIN: u32 := 100
  const RTO_DEF: u32 := 200
  const RTO_MAX: u32 := 60000
  const WND_SND: u32 := 32
  const WND_RCV: u32 := 128
  const MTU_DEF: u32 := 1400
  const INTERVAL: u32 := 100
  const DEADLINK: u32 := 20
  const THRESH_INIT: u32 := 2
  const THRESH_MIN: u32 := 2
  const PROBE_INIT: u32 := 7000
  const PROBE_LIMIT: u32 := 120000
  const FASTACK_LIMIT: i32 := 5

  /** Largest window the 16-bit field of the header can carry. */
  const MAX_WND: int := 65535

  /** A message fragment: how many fragments of its message follow, and its bytes. */
  datatype Frag = Frag(frg: nat, data: seq<u8>)

  /** A segment in the send buffer: numbered, sent or about to be, not yet acknowledged. */
  datatype SndSeg = SndSeg(frag: Frag, sn: u32, resendts: u32, rto: u32, fastack: u32, xmit: u32)

  /** A segment in the receive buffer: accepted, but not yet in order. */
  datatype RcvSeg = RcvSeg(sn: u32, frag: Frag)

  /** An acknowledgement still to be sent. */
  datatype Ack = Ack(sn: u32, ts: u32)

  datatype Config = Config(
    conv: u32, mtu: u32, sndWnd: u32, rcvWnd: u32, interval: u32, nodelay: u32, minRto: u32,
    fastResend: u32, fastLimit: i32, noCwnd: bool, stream: bool, deadLink: u32)
  {
    function Mss(): u32 { Sub32(mtu, OVERHEAD) }

    /** The settings the wrapper can make: window sizes and `fastresend` come from
        16-bit and 8-bit fields, and a datagram's size fits in 16 bits. */
    predicate Valid() {
      && 50 <= mtu <= 65535
      && 0 < sndWnd
      && WND_RCV <= rcvWnd <= MAX_WND
      && 10 <= interval <= 5000
      && RTO_NDL <= minRto <= RTO_MIN
      && fastResend <= 255
    }
  }

  datatype Sender = Sender(una: u32, nxt: u32, queue: seq<Frag>, buf: seq<SndSeg>)
  datatype Receiver = Receiver(nxt: u32, queue: seq<Frag>, buf: seq<RcvSeg>, acks: seq<Ack>)
  datatype Rtt = Rtt(srtt: i32, rttval: i32, rto: u32)
  datatype Cong = Cong(cwnd: u32, ssthresh: u32, incr: u32)
  datatype Probe = Probe(ask: bool, tell: bool, ts: u32, wait: u32)
  datatype Clock = Clock(current: u32, tsFlush: u32, updated: bool)

  datatype State = State(
    cfg: Config, snd: Sender, rcv: Receiver, rtt: Rtt, cong: Cong, rmtWnd: u32,
    probe: Probe, clock: Clock, dead: bool, xmit: u32)

  /** `ikcp_create`, with the settings made before any traffic. */
  function Create(cfg: Config): State {
    State(cfg, Sender(0, 0, [], []), Receiver(0, [], [], []), Rtt(0, 0, RTO_DEF), Cong(0, THRESH_INIT, 0), WND_RCV,
          Probe(false, false, 0, 0), Clock(0, INTERVAL, false), false, 0)
  }

  function Bytes(fs: seq<Frag>): seq<u8> {
    if fs == [] then [] else fs[0].data + Bytes(fs[1..])
  }

  lemma {:induction false} BytesConcat(a: seq<Frag>, b: seq<Frag>)
    ensures Bytes(a + b) == Bytes(a) + Bytes(b)
  {
    if a == [] {
      assert a + b == b;
    } else {
      assert (a + b)[1..] == a[1..] + b;
      BytesConcat(a[1..], b);
    }
  }
}
