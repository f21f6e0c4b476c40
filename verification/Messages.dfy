/** What the two applications see: messages in message mode, bytes in stream mode. */
module Messages {
  import opened Serial
  import opened ControlBlock
  import opened Link
  import opened Endpoint
  import opened Network
  import opened Safety
  import EndpointInvariant
  import RecvBuffer
  import FlushClock
  import Congestion

  function Concat(ms: seq<seq<u8>>): seq<u8> {
    if ms == [] then [] else Concat(ms[..|ms| - 1]) + ms[|ms| - 1]
  }

  /** The fragments of a sequence of messages. */
  function Flat(ms: seq<seq<u8>>, mss: u32): seq<Frag>
    requires mss > 0
  {
    if ms == [] then [] else Flat(ms[..|ms| - 1], mss) + Fragment(ms[|ms| - 1], mss, false)
  }

  lemma ConcatSnoc(ms: seq<seq<u8>>, m: seq<u8>)
    ensures Concat(ms + [m]) == Concat(ms) + m
  {
    assert (ms + [m])[..|ms|] == ms;
  }

  lemma FlatSnoc(ms: seq<seq<u8>>, m: seq<u8>, mss: u32)
    requires mss > 0
    ensures Flat(ms + [m], mss) == Flat(ms, mss) + Fragment(m, mss, false)
  {
    assert (ms + [m])[..|ms|] == ms;
  }

  lemma {:induction false} FlatSplit(ms: seq<seq<u8>>, k: nat, mss: u32)
    requires mss > 0 && k <= |ms|
    ensures Flat(ms[..k], mss) <= Flat(ms, mss)
    ensures k < |ms| ==> Flat(ms[..k], mss) + Fragment(ms[k], mss, false) <= Flat(ms, mss)
    ensures Flat(ms[..k], mss) == Flat(ms, mss) ==> k == |ms|
  {
    if k == |ms| {
      assert ms[..k] == ms;
    } else {
      var init := ms[..|ms| - 1];
      FlatSplit(init, k, mss);
      assert init[..k] == ms[..k];
      assert |Flat(init, mss)| < |Flat(ms, mss)|;
    }
  }

  // ---- the sending application ----

  /** All fragments that were numbered or are queued. */
  function Offered(n: Node): seq<Frag> { n.sent + n.st.snd.queue }

  ghost predicate HistoryInv(n: Node) {
    && n.st.cfg.Valid()
    && Bytes(Offered(n)) == n.bytes
    && (n.leaked == 0 ==> n.bytes == Concat(n.msgs))
    && (forall f | f in Offered(n) :: f.frg < WND_RCV - 1)
    && (if n.st.cfg.stream then forall f | f in Offered(n) :: f.frg == 0
        else n.leaked == 0 && Offered(n) == Flat(n.msgs, n.st.cfg.Mss()))
  }

  /** What a failing call leaves behind, and exactly when: in stream mode, when the
      last queued fragment still has room and the rest is too long. */
  lemma SendLeaksExactly(s: State, buffer: seq<u8>, len: int)
    requires s.cfg.Mss() > 0 && len <= |buffer|
    ensures var (s', code) := Send(s, buffer, len);
            var room := Room(s, len);
            && (code == 0 <==> len >= 0 && len - room <= 127 * s.cfg.Mss())
            && (code != 0 ==> code == if len < 0 then -1 else -2)
            && (code != 0 ==> (s' == s <==> room == 0))
            && Absorbed(s, buffer, len) == buffer[..if code == 0 then len else room]
  {
    if len >= 0 {
      var mss, room := s.cfg.Mss(), Room(s, len);
      var rest := buffer[room..len];
      EndpointInvariant.FragmentCount(rest, mss, s.cfg.stream);
      CountBelow(|rest|, mss);
      if room > 0 {
        var n := |s.snd.queue|;
        assert |Tailed(s, buffer[..room])[n - 1].data| == |s.snd.queue[n - 1].data| + room;
      }
    }
  }

  lemma CountBelow(n: nat, mss: u32)
    requires mss > 0
    ensures (if n <= mss then 1 else (n + mss - 1) / mss) < 128 <==> n <= 127 * mss
  {
    if n > mss {
      var k := (n + mss - 1) / mss;
      assert k * mss <= n + mss - 1 < k * mss + mss;
      Congestion.MulMono(k, 127, mss);
      Congestion.MulMono(128, k, mss);
    }
  }

  /** A failing call of `ikcp_send` can leave part of its data behind in stream mode:
      after a first send that leaves one byte of room, a second one of that byte and
      127 segments and one byte more returns -2, but the byte that fits stays queued. */
  lemma FailingSendLeaks(first: seq<u8>, buffer: seq<u8>)
    requires |first| == 25 && |buffer| == 127 * 26 + 2
    ensures var s0 := Create(Config(1, 50, 32, 128, 100, 0, 100, 0, 5, false, true, 20));
            var (s, code) := Send(s0, first, 25);
            && code == 0
            && Send(s, buffer, |buffer|).1 == -2 && Absorbed(s, buffer, |buffer|) == buffer[..1] && Send(s, buffer, |buffer|).0 != s
  {
    var s0 := Create(Config(1, 50, 32, 128, 100, 0, 100, 0, 5, false, true, 20));
    SendLeaksExactly(s0, first, 25);
    SendQueueIs(s0, first, 25);
    var s := Send(s0, first, 25).0;
    assert s.snd.queue == [Frag(0, first[0..25])];
    SendLeaksExactly(s, buffer, |buffer|);
  }

  lemma BytesOfTailed(s: State, len: int, data: seq<u8>)
    requires |data| == Room(s, len)
    ensures Bytes(Tailed(s, data)) == Bytes(s.snd.queue) + data
  {
    var queue := s.snd.queue;
    if s.cfg.stream && queue != [] && |queue[|queue| - 1].data| < s.cfg.Mss() {
      var init, last := queue[..|queue| - 1], queue[|queue| - 1];
      BytesConcat(init, [last]);
      BytesConcat(init, [Frag(0, last.data + data)]);
      assert init + [last] == queue;
      SingleBytes(last);
      SingleBytes(Frag(0, last.data + data));
    } else {
      assert data == [];
    }
  }

  lemma SingleBytes(f: Frag)
    ensures Bytes([f]) == f.data
  {
    assert Bytes([f]) == f.data + Bytes([]);
  }

  /** What a call adds to the queue. */
  lemma SendQueueIs(s: State, buffer: seq<u8>, len: int)
    requires len <= |buffer| && s.cfg.Mss() > 0
    ensures var room := Room(s, len);
            var (s', code) := Send(s, buffer, len);
            s'.snd.queue == if len < 0 then s.snd.queue
                            else Tailed(s, buffer[..room])
                                 + if code == 0 && (s.cfg.stream ==> len != room) then Fragment(buffer[room..len], s.cfg.Mss(), s.cfg.stream) else []
  {
    hide Fragment, Room;
    var q := Tailed(s, buffer[..Room(s, len)]);
    assert q + [] == q;
  }

  lemma FragmentBytes(data: seq<u8>, mss: u32, stream: bool)
    requires mss > 0
    ensures Bytes(Fragment(data, mss, stream)) == data
  {
    EndpointInvariant.FragmentProps(data, mss, stream);
  }

  lemma ConcatSlices(front: seq<u8>, buffer: seq<u8>, room: nat, len: nat)
    requires room <= len <= |buffer|
    ensures (front + buffer[..room]) + buffer[room..len] == front + buffer[..len]
  {
    assert buffer[..room] + buffer[room..len] == buffer[..len];
  }

  /** The queue after a call, in terms of what the call took over. */
  lemma SendBytes(s: State, buffer: seq<u8>, len: int)
    requires len <= |buffer| && s.cfg.Mss() > 0
    ensures Bytes(Send(s, buffer, len).0.snd.queue) == Bytes(s.snd.queue) + Absorbed(s, buffer, len)
  {
    SendQueueIs(s, buffer, len);
    SendLeaksExactly(s, buffer, len);
    hide Send, Fragment, Bytes, Room, Tailed, Absorbed;
    var room := Room(s, len);
    if len >= 0 {
      var q := Tailed(s, buffer[..room]);
      BytesOfTailed(s, len, buffer[..room]);
      if Send(s, buffer, len).1 == 0 && (s.cfg.stream ==> len != room) {
        var fs := Fragment(buffer[room..len], s.cfg.Mss(), s.cfg.stream);
        FragmentBytes(buffer[room..len], s.cfg.Mss(), s.cfg.stream);
        BytesConcat(q, fs);
        ConcatSlices(Bytes(s.snd.queue), buffer, room, len);
      } else {
        assert q + [] == q;
      }
    }
  }

  /** In message mode a call queues the whole message or nothing. */
  lemma SendMessage(s: State, buffer: seq<u8>, len: int)
    requires len <= |buffer| && s.cfg.Mss() > 0 && !s.cfg.stream
    ensures var (s', code) := Send(s, buffer, len);
            s'.snd.queue == s.snd.queue + if code == 0 then Fragment(buffer[..len], s.cfg.Mss(), false) else []
  {
    SendQueueIs(s, buffer, len);
    hide Fragment;
    if len >= 0 { assert buffer[0..len] == buffer[..len]; }
  }

  lemma SendFrgs(s: State, buffer: seq<u8>, len: int)
    requires len <= |buffer| && s.cfg.Mss() > 0
    requires forall f | f in s.snd.queue :: f.frg < WND_RCV - 1 && (s.cfg.stream ==> f.frg == 0)
    ensures forall f | f in Send(s, buffer, len).0.snd.queue :: f.frg < WND_RCV - 1 && (s.cfg.stream ==> f.frg == 0)
  {
    if len >= 0 {
      var room := Room(s, len);
      var fs := Fragment(buffer[room..len], s.cfg.Mss(), s.cfg.stream);
      EndpointInvariant.FragmentProps(buffer[room..len], s.cfg.Mss(), s.cfg.stream);
      var q := Tailed(s, buffer[..room]);
      forall f | f in q ensures f.frg < WND_RCV - 1 && (s.cfg.stream ==> f.frg == 0) {}
      forall f | f in q + fs && |fs| < WND_RCV ensures f.frg < WND_RCV - 1 && (s.cfg.stream ==> f.frg == 0) {
        assert f in q || f in fs;
      }
    }
  }

  lemma OfferedBytes(n: Node, buffer: seq<u8>, len: int)
    requires len <= |buffer| && n.st.cfg.Mss() > 0
    ensures Bytes(Offered(NodeSend(n, buffer, len))) == Bytes(Offered(n)) + Absorbed(n.st, buffer, len)
  {
    hide Send, Absorbed, Bytes;
    SendBytes(n.st, buffer, len);
    var n' := NodeSend(n, buffer, len);
    BytesConcat(n.sent, n.st.snd.queue);
    BytesConcat(n.sent, n'.st.snd.queue);
    assert Bytes(n.sent) + (Bytes(n.st.snd.queue) + Absorbed(n.st, buffer, len))
        == (Bytes(n.sent) + Bytes(n.st.snd.queue)) + Absorbed(n.st, buffer, len);
  }

  lemma OfferedFrgs(n: Node, buffer: seq<u8>, len: int)
    requires len <= |buffer| && n.st.cfg.Mss() > 0
    requires forall f | f in Offered(n) :: f.frg < WND_RCV - 1 && (n.st.cfg.stream ==> f.frg == 0)
    ensures forall f | f in Offered(NodeSend(n, buffer, len)) :: f.frg < WND_RCV - 1 && (n.st.cfg.stream ==> f.frg == 0)
  {
    forall f | f in n.st.snd.queue || f in n.sent ensures f in Offered(n) {}
    SendFrgs(n.st, buffer, len);
    hide Send, Absorbed;
    var n' := NodeSend(n, buffer, len);
    forall f | f in Offered(n') ensures f.frg < WND_RCV - 1 && (n.st.cfg.stream ==> f.frg == 0) {
      assert f in n.sent || f in n'.st.snd.queue;
    }
  }

  lemma SendKeepsHistory(n: Node, buffer: seq<u8>, len: int)
    requires HistoryInv(n) && len <= |buffer|
    ensures HistoryInv(NodeSend(n, buffer, len))
  {
    EndpointInvariant.SendChangesQueueOnly(n.st, buffer, len);
    OfferedBytes(n, buffer, len);
    OfferedFrgs(n, buffer, len);
    OfferedAfterSend(n, buffer, len);
    if !n.st.cfg.stream { MessagesAfterSend(n, buffer, len); }
    hide Send, Absorbed, Fragment, Bytes, Flat, Concat, Offered;
  }

  lemma OfferedAfterSend(n: Node, buffer: seq<u8>, len: int)
    requires HistoryInv(n) && len <= |buffer|
    ensures var n' := NodeSend(n, buffer, len);
            && n'.bytes == n.bytes + Absorbed(n.st, buffer, len)
            && (n.leaked == 0 ==> n'.leaked == 0 ==> n'.bytes == Concat(n'.msgs))
            && n.leaked <= n'.leaked
            && (!n.st.cfg.stream ==> n'.leaked == n.leaked)
  {
    SendLeaksExactly(n.st, buffer, len);
    hide Send, Absorbed, Bytes, Flat, Offered;
    if Send(n.st, buffer, len).1 == 0 { ConcatSnoc(n.msgs, buffer[..len]); }
  }

  lemma MessagesAfterSend(n: Node, buffer: seq<u8>, len: int)
    requires HistoryInv(n) && len <= |buffer| && !n.st.cfg.stream
    ensures Offered(NodeSend(n, buffer, len)) == Flat(NodeSend(n, buffer, len).msgs, n.st.cfg.Mss())
  {
    SendMessage(n.st, buffer, len);
    hide Send, Absorbed, Fragment, Bytes, Flat;
    if Send(n.st, buffer, len).1 == 0 {
      FlatSnoc(n.msgs, buffer[..len], n.st.cfg.Mss());
      assert Offered(NodeSend(n, buffer, len)) == Offered(n) + Fragment(buffer[..len], n.st.cfg.Mss(), false);
    } else {
      assert Offered(NodeSend(n, buffer, len)) == Offered(n);
    }
  }

  // ---- the receiving application ----

  /** What `b` handed over against what `a` offered. */
  ghost predicate HandedOver(a: Node, b: Node) {
    && a.st.cfg.Mss() > 0
    && Concat(b.got) == Bytes(b.delivered)
    && (!a.st.cfg.stream ==>
          && |b.got| <= |a.msgs|
          && b.got == a.msgs[..|b.got|]
          && b.delivered == Flat(b.got, a.st.cfg.Mss()))
  }

  /** `q` begins with a whole message exactly when a receive may take it, and then
      that is what it takes. */
  lemma FrontMessage(q: seq<Frag>, m: seq<u8>, rest: seq<Frag>, mss: u32)
    requires mss > 0 && q != [] && q <= Fragment(m, mss, false) + rest
    ensures var fs := Fragment(m, mss, false);
            && (RecvBuffer.PeekSize(q) >= 0 <==> |fs| <= |q|)
            && q[0].frg == |fs| - 1
            && (RecvBuffer.PeekSize(q) >= 0 ==> RecvBuffer.MsgEnd(q) == |fs| && q[..|fs|] == fs && RecvBuffer.NextMsg(q) == m)
  {
    var fs := Fragment(m, mss, false);
    EndpointInvariant.FragmentProps(m, mss, false);
    hide Fragment, Bytes;
    RecvBuffer.PeekSizeIsNextMsg(q);
    assert q[0] == fs[0];
    if |fs| <= |q| {
      assert q[..|fs|] == fs;
      forall i | 0 <= i < |fs| ensures q[i] == fs[i] {}
      MsgEndIs(q, |fs|);
    }
  }

  lemma {:induction false} MsgEndIs(q: seq<Frag>, n: nat)
    requires 0 < n <= |q| && q[n - 1].frg == 0 && forall i | 0 <= i < n - 1 :: q[i].frg != 0
    ensures RecvBuffer.MsgEnd(q) == n
  {
    if n > 1 {
      assert q[0].frg != 0;
      MsgEndIs(q[1..], n - 1);
    }
  }

  /** The receive queue always starts at a message boundary. */
  lemma QueueStartsAtMessage(a: Node, b: Node)
    requires InOrder(TxOf(a), RxOf(b)) && HistoryInv(a) && HandedOver(a, b) && !a.st.cfg.stream
    requires b.st.rcv.queue != []
    ensures |b.got| < |a.msgs|
    ensures var m, mss := a.msgs[|b.got|], a.st.cfg.Mss();
            exists rest :: b.st.rcv.queue <= Fragment(m, mss, false) + rest
  {
    var k, mss, q := |b.got|, a.st.cfg.Mss(), b.st.rcv.queue;
    hide Fragment, Bytes, Concat;
    var all := Flat(a.msgs, mss);
    FlatSplit(a.msgs, k, mss);
    assert a.msgs[..|a.msgs|] == a.msgs;
    hide Flat;
    assert b.delivered + q <= a.sent <= all;
    assert |b.delivered + q| <= |all|;
    var fs := Fragment(a.msgs[k], mss, false);
    var rest := all[|b.delivered| + |fs|..];
    assert all == b.delivered + (fs + rest) by { assert b.delivered + fs <= all; }
    PrefixCancel(b.delivered, q, fs + rest);
  }

  lemma PrefixCancel(d: seq<Frag>, q: seq<Frag>, r: seq<Frag>)
    requires d + q <= d + r
    ensures q <= r
  {
    forall i | 0 <= i < |q| ensures i < |r| && q[i] == r[i] {
      assert (d + q)[|d| + i] == (d + r)[|d| + i];
    }
    assert |d + q| <= |d + r|;
  }

  /** In message mode the message that a receive takes is the next one. */
  lemma NextMsgHandedOver(a: Node, b: Node)
    requires InOrder(TxOf(a), RxOf(b)) && HistoryInv(a) && HandedOver(a, b) && !a.st.cfg.stream
    requires b.st.rcv.queue != [] && RecvBuffer.PeekSize(b.st.rcv.queue) >= 0
    ensures var q, n := b.st.rcv.queue, |b.got|;
            var got := b.got + [RecvBuffer.NextMsg(q)];
            && n < |a.msgs| && got == a.msgs[..n + 1]
            && b.delivered + q[..RecvBuffer.MsgEnd(q)] == Flat(got, a.st.cfg.Mss())
  {
    hide Fragment, Flat, Concat, Bytes, HistoryInv, InOrder, Config.Mss, RecvBuffer.MsgEnd, RecvBuffer.NextMsg, RecvBuffer.PeekSize;
    QueueStartsAtMessage(a, b);
    var q, mss, m := b.st.rcv.queue, a.st.cfg.Mss(), a.msgs[|b.got|];
    NextMsgTaken(q, m, mss);
    FlatSnoc(b.got, m, mss);
    assert a.msgs[..|b.got| + 1] == a.msgs[..|b.got|] + [m];
  }

  lemma NextMsgTaken(q: seq<Frag>, m: seq<u8>, mss: u32)
    requires mss > 0 && q != [] && RecvBuffer.PeekSize(q) >= 0 && exists rest :: q <= Fragment(m, mss, false) + rest
    ensures RecvBuffer.MsgEnd(q) <= |q| && q[..RecvBuffer.MsgEnd(q)] == Fragment(m, mss, false) && RecvBuffer.NextMsg(q) == m
  {
    hide Fragment, RecvBuffer.MsgEnd, RecvBuffer.NextMsg, RecvBuffer.PeekSize;
    var rest :| q <= Fragment(m, mss, false) + rest;
    FrontMessage(q, m, rest, mss);
  }

  lemma RecvKeepsHandedOver(a: Node, b: Node, len: int)
    requires InOrder(TxOf(a), RxOf(b)) && HistoryInv(a) && HandedOver(a, b)
    ensures HandedOver(a, NodeRecv(b, len))
  {
    hide Flat, Concat, Bytes, HistoryInv, InOrder, RecvBuffer.Drain, RecvBuffer.MsgEnd, RecvBuffer.PeekSize;
    var q := b.st.rcv.queue;
    if Recv(b.st, len).1 >= 0 && len >= 0 {
      var k := RecvBuffer.MsgEnd(q);
      ConcatSnoc(b.got, RecvBuffer.NextMsg(q));
      BytesConcat(b.delivered, q[..k]);
      if !a.st.cfg.stream {
        NextMsgHandedOver(a, b);
      }
    }
  }

  // ---- runs ----

  ghost predicate AppInv(s: Sys) {
    && SysInv(s)
    && HistoryInv(s.a) && HistoryInv(s.b)
    && HandedOver(s.a, s.b) && HandedOver(s.b, s.a)
  }

  /** Nothing but a send of its own changes what a node offers, and nothing but a
      receive of its own what it handed over. */
  ghost predicate SameApp(n: Node, n': Node) {
    && n'.st.cfg == n.st.cfg && Offered(n') == Offered(n)
    && n'.msgs == n.msgs && n'.bytes == n.bytes && n'.leaked == n.leaked
    && n'.got == n.got && n'.delivered == n.delivered
  }

  lemma SameAppKeepsInv(s: Sys, s': Sys)
    requires AppInv(s) && SysInv(s') && s'.b == s.b && SameApp(s.a, s'.a)
    ensures AppInv(s')
  {
    hide SysInv, Flat, Bytes, Concat;
  }

  lemma {:induction false} ListenAllKeepsApp(e: Ear, d: Datagram)
    ensures var n := ListenAll(e, d).n;
            && n.st.cfg == e.n.st.cfg && n.st.snd.queue == e.n.st.snd.queue && n.sent == e.n.sent
            && n.msgs == e.n.msgs && n.bytes == e.n.bytes && n.leaked == e.n.leaked
            && n.got == e.n.got && n.delivered == e.n.delivered
    decreases |d|
  {
    if d != [] {
      ListenAllKeepsApp(Listen(e, d[0]), d[1..]);
    }
  }

  lemma HearKeepsApp(n: Node, d: Datagram)
    requires EndpointInvariant.Inv(n.st) && WireOk(n.st.cfg.conv, d)
    ensures SameApp(n, NodeHear(n, d))
  {
    HearIsListen(n, d);
    ListenAllKeepsApp(Ear(n, false, 0), d);
    var e := ListenAll(Ear(n, false, 0), d);
    hide ListenAll, EndpointInvariant.Inv, NodeHear;
    FinishFields(Hearing(e.n.st, e.flag, e.maxack), n.st.snd.una);
  }

  lemma FlushKeepsApp(n: Node)
    requires |n.acks| == |n.st.rcv.acks|
    ensures SameApp(n, NodeFlush(n).0)
  {
    hide AfterFlush, Flush, FlushTags, Cut, EnvOf, FlushedBuf, Window;
    if n.st.clock.updated {
      FlushFields(n);
      var q, k := n.st.snd.queue, Admitted(n.st);
      assert n.sent + q[..k] + q[k..] == n.sent + q;
    }
  }

  lemma UpdateKeepsApp(n: Node, now: u32)
    requires |n.acks| == |n.st.rcv.acks|
    ensures SameApp(n, NodeUpdate(n, now).0)
  {
    var (clock, flush) := FlushClock.Tick(n.st.clock, now, n.st.cfg.interval);
    FlushKeepsApp(n.(st := n.st.(clock := clock)));
    hide NodeFlush, FlushClock.Tick;
  }

  lemma AppFacts(s: Sys, act: Action)
    requires SysInv(s) && EnabledAtA(s, act)
    ensures act.Deliver? ==> EndpointInvariant.Inv(s.a.st) && WireOk(s.a.st.cfg.conv, act.d)
    ensures InOrder(TxOf(s.b), RxOf(s.a))
    ensures s.a.st.cfg.Mss() > 0 && |s.a.acks| == |s.a.st.rcv.acks| && (act.DoSend? ==> act.len <= |act.buffer|)
  {
    hide EndpointInvariant.Inv, WireOk, InOrder;
  }

  lemma StepKeepsAppInv(s: Sys, act: Action)
    requires AppInv(s) && EnabledAtA(s, act)
    ensures AppInv(StepAtA(s, act))
  {
    hide SysInv, EnabledAtA, HistoryInv, HandedOver, InOrder, NodeSend, NodeRecv, NodeUpdate, NodeFlush, NodeHear, WireOk, EndpointInvariant.Inv;
    AppFacts(s, act);
    StepKeepsSysInv(s, act);
    match act
    case DoSend(buffer, len) =>
      SendKeepsHistory(s.a, buffer, len);
      SendKeepsPeers(s.a, s.b, buffer, len);
    case DoRecv(len) =>
      RecvKeepsHandedOver(s.b, s.a, len);
      RecvKeepsPeers(s.a, s.b, len);
    case DoUpdate(now) =>
      UpdateKeepsApp(s.a, now);
      SameAppKeepsInv(s, StepAtA(s, act));
    case DoFlush =>
      FlushKeepsApp(s.a);
      SameAppKeepsInv(s, StepAtA(s, act));
    case Deliver(d) =>
      HearKeepsApp(s.a, d);
      SameAppKeepsInv(s, StepAtA(s, act));
  }

  /** A send adds to the messages without changing those handed over before. */
  lemma SendKeepsPeers(a: Node, b: Node, buffer: seq<u8>, len: int)
    requires len <= |buffer| && HistoryInv(a) && HandedOver(a, b) && HandedOver(b, a)
    ensures HandedOver(NodeSend(a, buffer, len), b) && HandedOver(b, NodeSend(a, buffer, len))
  {
    EndpointInvariant.SendChangesQueueOnly(a.st, buffer, len);
    hide Send, Absorbed, Flat, Concat, Bytes;
    if !a.st.cfg.stream {
      assert NodeSend(a, buffer, len).msgs[..|b.got|] == a.msgs[..|b.got|];
    }
  }

  lemma RecvKeepsPeers(a: Node, b: Node, len: int)
    requires HistoryInv(a) && HandedOver(a, b)
    ensures HistoryInv(NodeRecv(a, len)) && HandedOver(NodeRecv(a, len), b)
  {
    EndpointInvariant.RecvFields(a.st, len);
    hide Recv, Flat, Concat, Bytes;
    assert Offered(NodeRecv(a, len)) == Offered(a);
  }

  lemma SwapAppInv(s: Sys)
    ensures AppInv(s) <==> AppInv(Swap(s))
  {
    SwapInv(s);
  }

  lemma {:induction false} RunKeepsAppInv(s: Sys, es: seq<Event>)
    requires AppInv(s) && Possible(s, es)
    ensures AppInv(Run(s, es))
    decreases |es|
  {
    hide AppInv, StepAtA;
    if es != [] {
      var e := es[0];
      if e.atA {
        StepKeepsAppInv(s, e.act);
      } else {
        SwapAppInv(s);
        StepKeepsAppInv(Swap(s), e.act);
        SwapAppInv(StepAtA(Swap(s), e.act));
      }
      RunKeepsAppInv(Next(s, e), es[1..]);
    }
  }

  lemma InitAppInv(cfgA: Config, cfgB: Config)
    requires InitOk(cfgA, cfgB)
    ensures AppInv(Init(cfgA, cfgB))
  {
    InitInv(cfgA, cfgB);
    hide SysInv;
  }

  lemma ReachableAppInv(s: Sys)
    requires Reachable(s)
    ensures AppInv(s)
  {
    hide AppInv;
    var cfgA, cfgB, es :| InitOk(cfgA, cfgB) && Possible(Init(cfgA, cfgB), es) && s == Run(Init(cfgA, cfgB), es);
    InitAppInv(cfgA, cfgB);
    RunKeepsAppInv(Init(cfgA, cfgB), es);
  }
}
