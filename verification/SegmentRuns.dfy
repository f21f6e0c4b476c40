/** The segments of a control block over its whole life: any run of what the engine does
    with them leaves in the queues what it leaves in lists, and every segment that was
    allocated is freed exactly once. */
module SegmentRuns {
  import opened Serial
  import opened ControlBlock
  import opened IntrusiveList
  import opened SegmentQueues
  import SendBuffer
  import RecvBuffer
  import Retransmission
  import Endpoint

  /** What the queues hold. */
  datatype Halves = Halves(snd: Sender, rcv: Receiver)

  /** What the engine does with its segments. */
  datatype Work =
    | Queued(frag: Frag)                        // `ikcp_send` queues a fragment
    | Extended(data: seq<u8>)                   // in stream mode it first extends the tail
    | Numbered(window: u32, now: u32, rto: u32) // a flush puts the next segment in flight
    | Swept(e: Retransmission.Env)              // a flush goes over the segments in flight
    | HeardUna(una: u32)                        // `ikcp_input` hears a cumulative acknowledgement,
    | HeardAck(sn: u32)                         // a selective one,
    | Overtook(sn: u32)                         // counts what the newest one overtook,
    | Arrived(seg: RcvSeg)                      // and hears a data segment
    | Taken(k: nat)                             // `ikcp_recv` takes the first k fragments

  predicate Admits(snd: Sender, window: u32) {
    Diff(snd.nxt, Add32(snd.una, window)) < 0 && snd.queue != []
  }

  function NumberedOne(snd: Sender, now: u32, rto: u32): Sender
    requires snd.queue != []
  {
    Sender(snd.una, Add32(snd.nxt, 1), snd.queue[1..], snd.buf + [SndSeg(snd.queue[0], snd.nxt, now, rto, 0, 0)])
  }

  function SndDone(snd: Sender, w: Work, mss: u32): Sender {
    match w
    case Queued(frag) => snd.(queue := snd.queue + [frag])
    case Extended(data) =>
      snd.(queue := Endpoint.ExtendTail(snd.queue, mss, data[..Endpoint.TailRoom(snd.queue, mss, |data|)]))
    case Numbered(window, now, rto) => if Admits(snd, window) then NumberedOne(snd, now, rto) else snd
    case Swept(e) => snd.(buf := Endpoint.FlushedBuf(snd.buf, e))
    case HeardUna(una) => SendBuffer.HearUna(snd, una)
    case HeardAck(sn) => SendBuffer.HearAck(snd, sn)
    case Overtook(sn) => snd.(buf := SendBuffer.ParseFastack(snd, sn))
    case _ => snd
  }

  function RcvDone(rcv: Receiver, w: Work, wnd: u32): Receiver {
    match w
    case Arrived(seg) => RecvBuffer.ParseData(rcv, wnd, seg)
    case Taken(k) => RecvBuffer.Drain(rcv.(queue := After(rcv.queue, k)), wnd)
    case _ => rcv
  }

  /** One piece of work on lists, ... */
  function Done(h: Halves, w: Work, mss: u32, wnd: u32): Halves {
    Halves(SndDone(h.snd, w, mss), RcvDone(h.rcv, w, wnd))
  }

  /** ... and how many segments it allocates. */
  function Makes(h: Halves, w: Work, mss: u32, wnd: u32): nat {
    match w
    case Queued(_) => 1
    case Extended(_) => if h.snd.queue != [] && |h.snd.queue[|h.snd.queue| - 1].data| < mss then 1 else 0
    case Arrived(seg) => if RecvBuffer.InWindow(h.rcv, wnd, seg.sn) then 1 else 0
    case _ => 0
  }

  function AllDone(h: Halves, ws: seq<Work>, mss: u32, wnd: u32): Halves {
    if ws == [] then h else Done(AllDone(h, ws[..|ws| - 1], mss, wnd), ws[|ws| - 1], mss, wnd)
  }

  function AllMakes(h: Halves, ws: seq<Work>, mss: u32, wnd: u32): nat {
    if ws == [] then 0
    else AllMakes(h, ws[..|ws| - 1], mss, wnd) + Makes(AllDone(h, ws[..|ws| - 1], mss, wnd), ws[|ws| - 1], mss, wnd)
  }

  /** How many segments the lists hold. */
  function Size(h: Halves): nat {
    |h.snd.queue| + |h.snd.buf| + |h.rcv.queue| + |h.rcv.buf|
  }

  ghost predicate HalvesOk(h: Halves, mss: u32, wnd: u32) {
    SendBuffer.Inv(h.snd, mss) && RecvBuffer.Inv(h.rcv, wnd) && WND_RCV <= wnd <= MAX_WND
  }

  /** Fragments are those that `ikcp_send` makes, and windows fit their 16-bit field. */
  ghost predicate Legal(w: Work, mss: u32) {
    (w.Queued? ==> SendBuffer.FragOk(w.frag, mss)) && (w.Numbered? ==> w.window <= MAX_WND)
  }

  lemma SndDoneKeepsInv(snd: Sender, w: Work, mss: u32)
    requires SendBuffer.Inv(snd, mss) && Legal(w, mss)
    ensures SendBuffer.Inv(SndDone(snd, w, mss), mss)
  {
    match w
    case Numbered(window, now, rto) =>
      if Admits(snd, window) { NumberedKeepsInv(snd, window, now, rto, mss); }
    case Swept(e) => SweptKeepsInv(snd, e, mss);
    case HeardUna(una) => SendBuffer.HearUnaKeepsInv(snd, una, mss);
    case HeardAck(sn) => SendBuffer.HearAckKeepsInv(snd, sn, mss);
    case Overtook(sn) => SendBuffer.ParseFastackKeepsInv(snd, sn, mss);
    case Extended(data) => ExtendedKeepsInv(snd, data, mss);
    case Queued(frag) => assert forall f | f in snd.queue + [frag] :: f in snd.queue || f == frag;
    case _ =>
  }

  lemma ExtendedKeepsInv(snd: Sender, data: seq<u8>, mss: u32)
    requires SendBuffer.Inv(snd, mss)
    ensures SendBuffer.Inv(SndDone(snd, Extended(data), mss), mss)
  {
    hide SendBuffer.Ordered;
    var q, q' := snd.queue, SndDone(snd, Extended(data), mss).queue;
    if q != [] {
      assert q[|q| - 1] in q;
      assert forall f | f in q' :: f in q || f == q'[|q'| - 1];
    }
  }

  lemma NumberedKeepsInv(snd: Sender, window: u32, now: u32, rto: u32, mss: u32)
    requires SendBuffer.Inv(snd, mss) && window <= MAX_WND && Admits(snd, window)
    ensures SendBuffer.Inv(NumberedOne(snd, now, rto), mss)
  {
    var g, n := SndSeg(snd.queue[0], snd.nxt, now, rto, 0, 0), SendBuffer.InFlight(snd);
    assert n < window && SendBuffer.InFlight(NumberedOne(snd, now, rto)) == n + 1;
    SendBuffer.AppendOrdered(snd.buf, [g], snd.una, n);
    hide SendBuffer.Ordered;
    assert snd.queue[0] in snd.queue;
    assert forall f | f in snd.queue[1..] :: f in snd.queue;
    assert forall h | h in snd.buf + [g] :: h in snd.buf || h == g;
  }

  lemma SweptKeepsInv(snd: Sender, e: Retransmission.Env, mss: u32)
    requires SendBuffer.Inv(snd, mss)
    ensures SendBuffer.Inv(snd.(buf := Endpoint.FlushedBuf(snd.buf, e)), mss)
  {
    var buf := Endpoint.FlushedBuf(snd.buf, e);
    forall i | 0 <= i < |buf| ensures buf[i].sn == snd.buf[i].sn && buf[i].frag == snd.buf[i].frag && snd.buf[i] in snd.buf {}
    hide Endpoint.FlushedBuf;
  }

  lemma DoneKeepsOk(h: Halves, w: Work, mss: u32, wnd: u32)
    requires HalvesOk(h, mss, wnd) && Legal(w, mss)
    ensures HalvesOk(Done(h, w, mss, wnd), mss, wnd)
  {
    hide SendBuffer.Inv, RecvBuffer.Ordered, SndDone, RecvBuffer.Drain, RecvBuffer.Insert;
    SndDoneKeepsInv(h.snd, w, mss);
    match w
    case Arrived(seg) => RecvBuffer.ParseDataKeepsInv(h.rcv, wnd, seg);
    case Taken(k) => RecvBuffer.DrainKeepsInv(h.rcv.(queue := After(h.rcv.queue, k)), wnd);
    case _ =>
  }

  /** The four queues of a control block, with the numbers that go with them. */
  class Segments {
    const mss: u32
    const rcvWnd: u32
    const mem: Memory
    const sndQueue: Queue
    const sndBuf: Queue
    const rcvQueue: Queue
    const rcvBuf: Queue
    var sndUna: u32
    var sndNxt: u32
    var rcvNxt: u32

    ghost function All(): set<Queue> { {sndQueue, sndBuf, rcvQueue, rcvBuf} }

    /** The heads of the queues and whatever is allocated. */
    ghost function Area(): set<Node> reads mem`live { {sndQueue.head, sndBuf.head, rcvQueue.head, rcvBuf.head} + mem.live }

    ghost predicate Linked()
      reads mem, All(), AllLinks(All())`next, AllLinks(All())`prev, AllLinks(All())`owner
    {
      && sndQueue !in {sndBuf, rcvQueue, rcvBuf} && sndBuf !in {rcvQueue, rcvBuf} && rcvQueue != rcvBuf
      && Kept(All(), mem)
    }

    ghost function Held(): Halves
      reads this, All()`nodes, sndBuf.nodes`snd
    {
      Halves(SndView(sndUna, sndNxt, sndQueue, sndBuf), RcvView(rcvNxt, rcvQueue, rcvBuf))
    }

    ghost predicate Valid()
      reads this, mem, All(), AllLinks(All())`next, AllLinks(All())`prev, AllLinks(All())`owner, sndBuf.nodes`snd
    {
      Linked() && HalvesOk(Held(), mss, rcvWnd)
    }

    lemma InArea()
      requires Linked()
      ensures sndQueue.Links() + sndBuf.Links() + rcvQueue.Links() + rcvBuf.Links() <= Area()
    {
    }

    constructor (mss: u32, rcvWnd: u32, mem: Memory, a: Queue, b: Queue, c: Queue, d: Queue)
      requires WND_RCV <= rcvWnd <= MAX_WND && a !in {b, c, d} && b !in {c, d} && c != d
      requires Kept({a, b, c, d}, mem) && a.nodes == b.nodes == c.nodes == d.nodes == []
      ensures this.mss == mss && this.rcvWnd == rcvWnd && this.mem == mem
      ensures sndQueue == a && sndBuf == b && rcvQueue == c && rcvBuf == d
      ensures Valid() && Held() == Halves(Sender(0, 0, [], []), Receiver(0, [], [], []))
    {
      hide Ring, Distinct;
      this.mss, this.rcvWnd, this.mem := mss, rcvWnd, mem;
      sndQueue, sndBuf, rcvQueue, rcvBuf := a, b, c, d;
      sndUna, sndNxt, rcvNxt := 0, 0, 0;
      new;
      assert Contents([]) == [];
    }

    /** `ikcp_send` queues a fragment. */
    method Enqueue(frag: Frag)
      requires Linked()
      modifies mem, sndQueue, Area()
      ensures Linked() && fresh(mem.live - old(mem.live)) && mem.made == old(mem.made) + 1
      ensures Held() == old(Held()).(snd := SndDone(old(Held().snd), Queued(frag), mss))
    {
      hide Kept, Sent, Contents, RecvBuffer.FragsOf;
      InArea();
      ghost var before := sndQueue.nodes;
      var node := New(sndQueue, RcvSeg(0, frag), All(), mem);
      FragsMoved(before, node, 0);
    }

    /** In stream mode it first extends the tail, if that has room. */
    method Extend(data: seq<u8>)
      requires Linked()
      modifies mem, sndQueue, Area()
      ensures Linked() && fresh(mem.live - old(mem.live))
      ensures mem.made == old(mem.made) + Makes(old(Held()), Extended(data), mss, rcvWnd)
      ensures Held() == old(Held()).(snd := SndDone(old(Held().snd), Extended(data), mss))
    {
      hide Kept, Sent, Contents, RecvBuffer.FragsOf, Endpoint.ExtendTail, Endpoint.TailRoom;
      InArea();
      ExtendTail(sndQueue, data, mss, All(), mem);
    }

    /** A flush puts the next segment in flight, if the window admits it. */
    method Number(window: u32, now: u32, rto: u32)
      requires Linked()
      modifies `sndNxt, sndQueue, sndBuf, Area()
      ensures Linked()
      ensures Held() == old(Held()).(snd := SndDone(old(Held().snd), Numbered(window, now, rto), mss))
    {
      hide Holds, Sent, Contents, RecvBuffer.FragsOf;
      InArea();
      FragsMoved(sndQueue.nodes, sndQueue.head, 0);
      if Diff(sndNxt, Add32(sndUna, window)) < 0 {
        var empty := IsEmptyQueue(sndQueue, All(), mem.live);
        if !empty {
          NumberNext(sndNxt, now, rto, sndQueue, sndBuf, All(), mem.live);
          sndNxt := Add32(sndNxt, 1);
        }
      }
    }

    /** It goes over the segments in flight. */
    method FlushAll(e: Retransmission.Env)
      requires Linked()
      modifies Area()
      ensures Linked()
      ensures Held() == old(Held()).(snd := SndDone(old(Held().snd), Swept(e), mss))
    {
      hide Holds, Sent, Contents, RecvBuffer.FragsOf, Endpoint.FlushedBuf;
      InArea();
      Sweep(e, sndBuf, All(), mem.live);
    }

    /** A cumulative acknowledgement, then `ikcp_shrink_buf`. */
    method HearUna(una: u32)
      requires Linked() && SendBuffer.Inv(Held().snd, mss)
      modifies `sndUna, mem, sndBuf, Area()
      ensures Linked() && mem.live <= old(mem.live) && mem.made == old(mem.made)
      ensures Held() == old(Held()).(snd := SndDone(old(Held().snd), HeardUna(una), mss))
    {
      hide Kept, Contents, RecvBuffer.FragsOf, SendBuffer.Inv, SendBuffer.ParseUna;
      InArea();
      ParseUna(una, Held().snd, mss, sndBuf, All(), mem);
      ShrinkBuf();
    }

    /** A selective one. */
    method HearAck(sn: u32)
      requires Linked() && SendBuffer.Inv(Held().snd, mss)
      modifies `sndUna, mem, sndBuf, Area()
      ensures Linked() && mem.live <= old(mem.live) && mem.made == old(mem.made)
      ensures Held() == old(Held()).(snd := SndDone(old(Held().snd), HeardAck(sn), mss))
    {
      hide Kept, Contents, RecvBuffer.FragsOf, SendBuffer.Inv, SendBuffer.ParseAck;
      InArea();
      ParseAck(sn, Held().snd, mss, sndUna, sndNxt, sndBuf, All(), mem);
      ShrinkBuf();
    }

    /** `ikcp_shrink_buf`. */
    method ShrinkBuf()
      requires Linked()
      modifies `sndUna
      ensures Linked() && sndUna == SendBuffer.Shrink(Sent(sndBuf.nodes), sndNxt)
    {
      hide Holds, Sent;
      var empty := IsEmptyQueue(sndBuf, All(), mem.live);
      if empty {
        sndUna := sndNxt;
      } else {
        var first := FirstOf(sndBuf, All(), mem.live);
        SentAt(sndBuf.nodes, 0);
        sndUna := first.snd.sn;
      }
    }

    /** What the newest acknowledged segment overtook. */
    method CountOvertaken(sn: u32)
      requires Linked() && SendBuffer.Inv(Held().snd, mss)
      modifies Area()
      ensures Linked()
      ensures Held() == old(Held()).(snd := SndDone(old(Held().snd), Overtook(sn), mss))
    {
      hide Holds, Sent, Contents, RecvBuffer.FragsOf, SendBuffer.Inv, SendBuffer.ParseFastack;
      InArea();
      ParseFastack(sn, Held().snd, mss, sndUna, sndNxt, sndBuf, All(), mem.live);
    }

    /** A data segment: `ikcp_input` allocates it if it is in the window, and hands it on. */
    method HearPush(seg: RcvSeg)
      requires Linked() && RecvBuffer.Inv(Held().rcv, rcvWnd) && WND_RCV <= rcvWnd <= MAX_WND
      modifies `rcvNxt, mem, rcvQueue, rcvBuf, Area()
      ensures Linked() && fresh(mem.live - old(mem.live))
      ensures mem.made == old(mem.made) + Makes(old(Held()), Arrived(seg), mss, rcvWnd)
      ensures Held() == old(Held()).(rcv := RcvDone(old(Held().rcv), Arrived(seg), rcvWnd))
    {
      hide Kept, Sent, Contents, RecvBuffer.FragsOf, RecvBuffer.Inv, RecvBuffer.ParseData, RecvBuffer.InWindow;
      InArea();
      rcvNxt := SegmentQueues.HearPush(seg, rcvNxt, rcvWnd, rcvQueue, rcvBuf, All(), mem);
    }

    /** `ikcp_recv` frees the fragments it takes, then moves on what fits. */
    method Take(k: nat)
      requires Linked()
      modifies `rcvNxt, mem, rcvQueue, rcvBuf, Area()
      ensures Linked() && mem.live <= old(mem.live) && mem.made == old(mem.made)
      ensures Held() == old(Held()).(rcv := RcvDone(old(Held().rcv), Taken(k), rcvWnd))
    {
      hide Kept, Sent, Contents, RecvBuffer.FragsOf, RecvBuffer.Drain, After;
      InArea();
      rcvNxt := SegmentQueues.Take(k, rcvNxt, rcvWnd, rcvQueue, rcvBuf, All(), mem);
    }

    /** One piece of work. */
    method Perform(w: Work)
      requires Valid() && Legal(w, mss)
      modifies this, mem, All(), Area()
      ensures Valid() && fresh(mem.live - old(mem.live))
      ensures Held() == Done(old(Held()), w, mss, rcvWnd)
      ensures mem.made == old(mem.made) + Makes(old(Held()), w, mss, rcvWnd)
    {
      hide Linked, Held, SendBuffer.Inv, RecvBuffer.Inv, RecvBuffer.ParseData, RecvBuffer.Drain, RecvBuffer.InWindow;
      DoneKeepsOk(Held(), w, mss, rcvWnd);
      match w
      case Queued(frag) => Enqueue(frag);
      case Extended(data) => Extend(data);
      case Numbered(window, now, rto) => Number(window, now, rto);
      case Swept(e) => FlushAll(e);
      case HeardUna(una) => HearUna(una);
      case HeardAck(sn) => HearAck(sn);
      case Overtook(sn) => CountOvertaken(sn);
      case Arrived(seg) => HearPush(seg);
      case Taken(k) => Take(k);
    }

    /** `ikcp_release`: whatever is allocated is freed. */
    method Release()
      requires Linked()
      modifies mem, All(), Area()
      ensures Linked() && mem.Valid() && mem.live == {} && mem.made == old(mem.made)
      ensures sndQueue.count == sndBuf.count == rcvQueue.count == rcvBuf.count == 0
    {
      hide Holds;
      InArea();
      assert All() == {sndBuf, rcvBuf, sndQueue, rcvQueue};
      SegmentQueues.Release(sndBuf, rcvBuf, sndQueue, rcvQueue, mem);
    }

    /** Everything allocated and not yet freed is in the lists, once. */
    lemma Conserved()
      requires Linked()
      ensures |mem.live| == Size(Held()) && mem.made == |mem.freed| + Size(Held())
      ensures sndQueue.count + sndBuf.count + rcvQueue.count + rcvBuf.count == |mem.live|
    {
      CountersAddUp(sndQueue, sndBuf, rcvQueue, rcvBuf, mem.live);
      hide Holds, Frags;
      FragsAt(sndQueue.nodes);
      FragsAt(rcvQueue.nodes);
      Counts(sndQueue, All(), mem.live);
      Counts(sndBuf, All(), mem.live);
      Counts(rcvQueue, All(), mem.live);
      Counts(rcvBuf, All(), mem.live);
    }
  }

  /** `ikcp_create`, as far as the queues go. */
  method Create(mss: u32, rcvWnd: u32) returns (s: Segments)
    requires WND_RCV <= rcvWnd <= MAX_WND
    ensures fresh(s) && fresh(s.mem) && fresh(s.All()) && fresh(s.Area()) && s.mss == mss && s.rcvWnd == rcvWnd
    ensures s.Valid() && s.Held() == Halves(Sender(0, 0, [], []), Receiver(0, [], [], []))
    ensures s.mem.live == {} && s.mem.made == 0
  {
    hide Kept, HalvesOk;
    var mem := new Memory();
    NoQueueKept(mem);
    var a, b, c, d := FourQueues(mem);
    s := new Segments(mss, rcvWnd, mem, a, b, c, d);
  }

  method FourQueues(ghost mem: Memory) returns (a: Queue, b: Queue, c: Queue, d: Queue)
    requires Kept({}, mem) && mem.live == {}
    ensures Kept({a, b, c, d}, mem) && a !in {b, c, d} && b !in {c, d} && c != d
    ensures a.nodes == b.nodes == c.nodes == d.nodes == []
    ensures fresh({a, b, c, d}) && fresh({a.head, b.head, c.head, d.head})
  {
    hide Kept;
    a := NewQueue({}, mem);
    b := NewQueue({a} + {}, mem);
    c := NewQueue({b} + ({a} + {}), mem);
    d := NewQueue({c} + ({b} + ({a} + {})), mem);
    assert {a, b, c, d} == {d} + ({c} + ({b} + ({a} + {})));
  }

  /** One more empty queue. */
  method NewQueue(ghost qs: set<Queue>, ghost mem: Memory) returns (q: Queue)
    requires Kept(qs, mem) && mem.live == {} && forall r | r in qs :: r.nodes == []
    ensures Kept({q} + qs, mem) && q.nodes == [] && fresh(q) && fresh(q.head)
    ensures forall r | r in qs :: r.nodes == []
  {
    hide Ring, Distinct;
    q := new Queue();
  }

  lemma NoQueueKept(mem: Memory)
    requires mem.Valid() && mem.live == {}
    ensures Kept({}, mem)
  {
  }

  /** The run itself. */
  method PerformEach(s: Segments, ws: seq<Work>)
    requires s.Valid() && forall w | w in ws :: Legal(w, s.mss)
    modifies s, s.mem, s.All(), s.Area()
    ensures s.Valid() && fresh(s.mem.live - old(s.mem.live))
    ensures s.Held() == AllDone(old(s.Held()), ws, s.mss, s.rcvWnd)
    ensures s.mem.made == old(s.mem.made) + AllMakes(old(s.Held()), ws, s.mss, s.rcvWnd)
  {
    hide Done, Makes, Legal, Segments.Held, Segments.Valid;
    ghost var h := s.Held();
    for i := 0 to |ws|
      invariant s.Valid() && fresh(s.mem.live - old(s.mem.live))
      invariant s.Held() == AllDone(h, ws[..i], s.mss, s.rcvWnd)
      invariant s.mem.made == old(s.mem.made) + AllMakes(h, ws[..i], s.mss, s.rcvWnd)
    {
      assert ws[..i + 1][..i] == ws[..i];
      s.Perform(ws[i]);
    }
    assert ws[..|ws|] == ws;
  }

  /** Any run of work leaves in the queues what it leaves in lists, and allocates as
      many segments. Whatever was allocated is in one of the queues, at one position, or
      was freed; the counters add up. */
  method PerformAll(s: Segments, ws: seq<Work>)
    requires s.Valid() && forall w | w in ws :: Legal(w, s.mss)
    modifies s, s.mem, s.All(), s.Area()
    ensures s.Valid() && fresh(s.mem.live - old(s.mem.live))
    ensures s.Held() == AllDone(old(s.Held()), ws, s.mss, s.rcvWnd)
    ensures s.mem.made == old(s.mem.made) + AllMakes(old(s.Held()), ws, s.mss, s.rcvWnd)
    ensures s.mem.made == |s.mem.freed| + Size(s.Held())
    ensures forall n | n in s.mem.live :: exists q, i :: q in s.All() && 0 <= i < |q.nodes| && q.nodes[i] == n
    ensures s.sndQueue.count + s.sndBuf.count + s.rcvQueue.count + s.rcvBuf.count == |s.mem.live|
  {
    hide AllDone, AllMakes, Legal, Size, Segments.Held, Segments.Valid, Segments.Area;
    PerformEach(s, ws);
    AllInPlace(s);
  }

  lemma AllInPlace(s: Segments)
    requires s.Valid()
    ensures s.mem.made == |s.mem.freed| + Size(s.Held())
    ensures forall n | n in s.mem.live :: exists q, i :: q in s.All() && 0 <= i < |q.nodes| && q.nodes[i] == n
    ensures s.sndQueue.count + s.sndBuf.count + s.rcvQueue.count + s.rcvBuf.count == |s.mem.live|
  {
    s.Conserved();
    hide Holds;
    forall n | n in s.mem.live ensures exists q, i :: q in s.All() && 0 <= i < |q.nodes| && q.nodes[i] == n {
      InOnePlace(s.All(), s.mem.live, n);
    }
  }

  /** From creation to release, whatever work comes between: the run allocates as many
      segments as its work asks for, and by the end each has been freed, once. */
  method WholeLife(mss: u32, rcvWnd: u32, ws: seq<Work>) returns (s: Segments)
    requires WND_RCV <= rcvWnd <= MAX_WND && forall w | w in ws :: Legal(w, mss)
    ensures s.mem.Valid() && s.mem.live == {}
    ensures |s.mem.freed| == s.mem.made == AllMakes(Halves(Sender(0, 0, [], []), Receiver(0, [], [], [])), ws, mss, rcvWnd)
  {
    hide AllMakes, AllDone, Legal, Segments.Held, Segments.Linked, HalvesOk;
    s := Create(mss, rcvWnd);
    PerformEach(s, ws);
    s.Release();
  }
}
