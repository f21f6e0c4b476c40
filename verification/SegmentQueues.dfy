/** What the engine does with its queues on pointers: each operation leaves in them
    what it leaves in lists, and the queues hold exactly the segments that are allocated. */
module SegmentQueues {
  import opened Serial
  import opened ControlBlock
  import opened IntrusiveList
  import SendBuffer
  import RecvBuffer
  import Retransmission
  import Endpoint
  import KcpObject

  ghost function AllLinks(qs: set<Queue>): set<Node>
    reads qs`nodes
  {
    set q, n | q in qs && n in q.Links() :: n
  }

  /** The queues hold the segments of `live`, and only those. */
  ghost predicate Holds(qs: set<Queue>, live: set<Node>)
    reads qs, AllLinks(qs)`next, AllLinks(qs)`prev, AllLinks(qs)`owner
  {
    && (forall q | q in qs :: q.Valid() && q.Repr() <= live)
    && (forall n | n in live :: exists q :: q in qs && n in q.nodes)
  }

  /** The queues hold what is allocated: nothing leaks, nothing that was freed is linked. */
  ghost predicate Kept(qs: set<Queue>, mem: Memory)
    reads mem, qs, AllLinks(qs)`next, AllLinks(qs)`prev, AllLinks(qs)`owner
  {
    mem.Valid() && Holds(qs, mem.live)
  }

  /** All of it but `node`, which is in no queue. */
  ghost predicate KeptBut(qs: set<Queue>, mem: Memory, node: Node)
    reads mem, node`owner, qs, AllLinks(qs)`next, AllLinks(qs)`prev, AllLinks(qs)`owner
  {
    mem.Valid() && node in mem.live && node.owner == null && Holds(qs, mem.live - {node})
  }

  /** Different queues share no memory: a segment is in one of them only, ... */
  lemma QueuesAreApart(qs: set<Queue>, live: set<Node>, q: Queue)
    requires Holds(qs, live) && q in qs
    ensures forall r | r in qs && r != q :: r.Links() !! q.Links()
  {
    hide Ring, Distinct;
    forall r | r in qs && r != q ensures r.Links() !! q.Links() {
      assert forall n | n in r.Links() :: n.owner == r;
      assert forall n | n in q.Links() :: n.owner == q;
    }
  }

  /** ... at one position. */
  lemma InOnePlace(qs: set<Queue>, live: set<Node>, n: Node)
    requires Holds(qs, live) && n in live
    ensures exists q, i :: q in qs && 0 <= i < |q.nodes| && q.nodes[i] == n
    ensures forall q, i, r, j | q in qs && r in qs && 0 <= i < |q.nodes| && 0 <= j < |r.nodes| && q.nodes[i] == n == r.nodes[j] ::
              q == r && i == j
  {
    forall q, i, r, j | q in qs && r in qs && 0 <= i < |q.nodes| && 0 <= j < |r.nodes| && q.nodes[i] == n == r.nodes[j]
      ensures q == r && i == j
    {
      assert q.nodes[i].owner == q && r.nodes[j].owner == r;
      assert Distinct(q.nodes);
    }
  }

  lemma {:induction false} DistinctSize(ns: seq<Node>)
    requires Distinct(ns)
    ensures |set n | n in ns| == |ns|
  {
    if ns != [] {
      var init, last := ns[..|ns| - 1], ns[|ns| - 1];
      assert ns == init + [last];
      DistinctSize(init);
      assert (set n | n in ns) == (set n | n in init) + {last};
    }
  }

  /** Put together, four queues list every allocated segment once. */
  lemma AllApart(a: Queue, b: Queue, c: Queue, d: Queue, live: set<Node>)
    requires a !in {b, c, d} && b !in {c, d} && c != d && Holds({a, b, c, d}, live)
    ensures var all := a.nodes + b.nodes + c.nodes + d.nodes; Distinct(all) && forall n :: n in all <==> n in live
  {
    QueuesAreApart({a, b, c, d}, live, a);
    QueuesAreApart({a, b, c, d}, live, b);
    QueuesAreApart({a, b, c, d}, live, c);
    DistinctParts(a.nodes, b.nodes);
    DistinctParts(a.nodes + b.nodes, c.nodes);
    DistinctParts(a.nodes + b.nodes + c.nodes, d.nodes);
    hide Ring;
    assert Distinct(a.nodes + b.nodes + c.nodes + d.nodes) by {
      assert forall n | n in a.nodes :: n in a.Links();
      assert forall n | n in b.nodes :: n in b.Links();
      assert forall n | n in c.nodes :: n in c.Links();
      assert forall n | n in d.nodes :: n in d.Links();
    }
    hide Distinct;
  }

  /** The counters add up to the number of allocated segments. */
  lemma CountersAddUp(a: Queue, b: Queue, c: Queue, d: Queue, live: set<Node>)
    requires a !in {b, c, d} && b !in {c, d} && c != d && Holds({a, b, c, d}, live)
    ensures a.count + b.count + c.count + d.count == |live|
  {
    hide Ring, Distinct;
    var all := a.nodes + b.nodes + c.nodes + d.nodes;
    AllApart(a, b, c, d, live);
    DistinctSize(all);
    assert (set n | n in all) == live;
  }

  // ---- one segment ----

  /** Put a segment that is in no queue at the tail of one. */
  method Attach(q: Queue, node: Node, ghost qs: set<Queue>, ghost live: set<Node>)
    requires Holds(qs, live) && q in qs && node.owner == null
    modifies q, q.Links()`next, q.Links()`prev, q.Links()`owner, node`next, node`prev, node`owner
    ensures Holds(qs, live + {node})
    ensures q.nodes == old(q.nodes) + [node]
    ensures forall r | r in qs && r != q :: r.nodes == old(r.nodes)
  {
    hide Ring, Distinct;
    QueuesAreApart(qs, live, q);
    q.Append(node);
  }

  /** Allocate a segment and put it at the tail of a queue. */
  method New(q: Queue, seg: RcvSeg, ghost qs: set<Queue>, mem: Memory) returns (node: Node)
    requires Kept(qs, mem) && q in qs
    modifies mem, q, q.Links()`next, q.Links()`prev, q.Links()`owner
    ensures Kept(qs, mem) && fresh(node) && node.seg == seg
    ensures mem.live == old(mem.live) + {node} && mem.made == old(mem.made) + 1
    ensures q.nodes == old(q.nodes) + [node]
    ensures forall r | r in qs && r != q :: r.nodes == old(r.nodes)
  {
    hide Holds;
    node := Alloc(seg, qs, mem);
    Attach(q, node, qs, mem.live - {node});
    assert mem.live - {node} + {node} == mem.live;
  }

  /** A new segment, in no queue yet. */
  method Alloc(seg: RcvSeg, ghost qs: set<Queue>, mem: Memory) returns (node: Node)
    requires Kept(qs, mem)
    modifies mem
    ensures KeptBut(qs, mem, node) && fresh(node) && node.seg == seg
    ensures mem.live == old(mem.live) + {node} && mem.made == old(mem.made) + 1
  {
    hide Ring, Distinct;
    node := new Node(mem, seg);
    assert mem.live - {node} == old(mem.live);
  }

  /** A segment in no queue is freed. */
  method Drop(node: Node, ghost qs: set<Queue>, mem: Memory)
    requires KeptBut(qs, mem, node)
    modifies mem
    ensures Kept(qs, mem) && mem.live == old(mem.live) - {node} && mem.made == old(mem.made)
  {
    hide Ring, Distinct;
    mem.Delete(node);
  }

  function Without<T>(s: seq<T>, k: nat): seq<T> {
    if k < |s| then s[..k] + s[k + 1..] else s
  }

  lemma Removing(ns: seq<Node>, k: nat)
    requires Distinct(ns) && k < |ns|
    ensures forall m :: m in Without(ns, k) <==> m in ns && m != ns[k]
  {
    assert ns == ns[..k] + [ns[k]] + ns[k + 1..];
    DistinctParts(ns[..k] + [ns[k]], ns[k + 1..]);
    DistinctParts(ns[..k], [ns[k]]);
  }

  /** Take the k-th segment of a queue out. */
  method Detach(q: Queue, node: Node, ghost k: nat, ghost qs: set<Queue>, ghost live: set<Node>)
    requires Holds(qs, live) && q in qs && k < |q.nodes| && q.nodes[k] == node
    modifies q, q.Links()`next, q.Links()`prev, q.Links()`owner
    ensures node.owner == null && Holds(qs, live - {node}) && node in live
    ensures q.nodes == Without(old(q.nodes), k)
    ensures forall r | r in qs && r != q :: r.nodes == old(r.nodes)
  {
    QueuesAreApart(qs, live, q);
    assert Distinct(q.nodes);
    Removing(q.nodes, k);
    hide Ring, Distinct;
    q.Remove(node, k);
  }

  /** Take it out and free it. */
  method Free(q: Queue, node: Node, ghost k: nat, ghost qs: set<Queue>, mem: Memory)
    requires Kept(qs, mem) && q in qs && k < |q.nodes| && q.nodes[k] == node
    modifies mem, q, q.Links()`next, q.Links()`prev, q.Links()`owner
    ensures Kept(qs, mem) && mem.live == old(mem.live) - {node} && mem.made == old(mem.made)
    ensures q.nodes == Without(old(q.nodes), k)
    ensures forall r | r in qs && r != q :: r.nodes == old(r.nodes)
  {
    hide Holds, Without;
    Detach(q, node, k, qs, mem.live);
    Drop(node, qs, mem);
  }

  /** Move the first segment of one queue to the tail of another: what a flush does
      from `snd_queue` to `snd_buf`, and a receive from `rcv_buf` to `rcv_queue`. */
  method Move(from: Queue, to: Queue, ghost qs: set<Queue>, ghost live: set<Node>) returns (node: Node)
    requires Holds(qs, live) && from in qs && to in qs && from != to && from.nodes != []
    modifies from, from.Links()`next, from.Links()`prev, from.Links()`owner
    modifies to, to.Links()`next, to.Links()`prev, to.Links()`owner
    ensures Holds(qs, live) && node == old(from.nodes)[0]
    ensures from.nodes == old(from.nodes)[1..] && to.nodes == old(to.nodes) + [node]
    ensures forall r | r in qs && r != from && r != to :: r.nodes == old(r.nodes)
  {
    node := FirstOf(from, qs, live);
    WithoutFirst(from.nodes);
    hide Holds, Without;
    Detach(from, node, 0, qs, live);
    Attach(to, node, qs, live - {node});
    assert live - {node} + {node} == live;
  }

  lemma WithoutFirst(ns: seq<Node>)
    requires ns != []
    ensures Without(ns, 0) == ns[1..]
  {
  }

  method FirstOf(q: Queue, ghost qs: set<Queue>, ghost live: set<Node>) returns (node: Node)
    requires Holds(qs, live) && q in qs && q.nodes != []
    ensures node == q.nodes[0] && Holds(qs, live)
  {
    hide Ring, Distinct;
    node := q.First();
  }

  method LastOf(q: Queue, ghost qs: set<Queue>, ghost live: set<Node>) returns (node: Node)
    requires Holds(qs, live) && q in qs && q.nodes != []
    ensures node == q.nodes[|q.nodes| - 1] && Holds(qs, live)
  {
    hide Ring, Distinct;
    node := q.Last();
  }

  /** The first k segments of a queue, or all if there are fewer, are freed. */
  method FreeFirst(q: Queue, k: nat, ghost qs: set<Queue>, mem: Memory)
    requires Kept(qs, mem) && q in qs
    modifies mem, q, q.Links()`next, q.Links()`prev, q.Links()`owner
    ensures Kept(qs, mem) && mem.live <= old(mem.live) && mem.made == old(mem.made)
    ensures q.nodes == After(old(q.nodes), k) && q.Repr() <= old(q.Repr())
    ensures forall r | r in qs && r != q :: r.nodes == old(r.nodes)
  {
    hide Holds, Queue.Valid, Without;
    ghost var all := q.nodes;
    for i := 0 to k
      invariant Kept(qs, mem) && mem.live <= old(mem.live) && mem.made == old(mem.made)
      invariant q.nodes == After(all, i) && q.Repr() <= old(q.Repr())
      invariant forall r | r in qs && r != q :: r.nodes == old(r.nodes)
    {
      var empty := IsEmptyQueue(q, qs, mem.live);
      if empty { break; }
      WithoutFirst(q.nodes);
      var node := FirstOf(q, qs, mem.live);
      Free(q, node, 0, qs, mem);
    }
  }

  function After<T>(s: seq<T>, k: nat): seq<T> {
    if k < |s| then s[k..] else []
  }

  method IsEmptyQueue(q: Queue, ghost qs: set<Queue>, ghost live: set<Node>) returns (empty: bool)
    requires Holds(qs, live) && q in qs
    ensures Holds(qs, live) && (empty <==> q.nodes == [])
  {
    hide Ring, Distinct;
    empty := q.Empty();
  }

  /** One loop of `ikcp_release`. */
  method ReleaseQueue(q: Queue, ghost qs: set<Queue>, mem: Memory)
    requires Kept(qs, mem) && q in qs
    modifies mem, q, q.Links()`next, q.Links()`prev, q.Links()`owner
    ensures Kept(qs, mem) && mem.made == old(mem.made)
    ensures q.nodes == []
    ensures forall r | r in qs && r != q :: r.nodes == old(r.nodes)
  {
    hide Holds, Queue.Valid, Without;
    var empty := IsEmptyQueue(q, qs, mem.live);
    while !empty
      invariant Kept(qs, mem) && mem.made == old(mem.made) && q.Repr() <= old(q.Repr())
      invariant empty <==> q.nodes == []
      invariant forall r | r in qs && r != q :: r.nodes == old(r.nodes)
      decreases |q.nodes|
    {
      WithoutFirst(q.nodes);
      var seg := FirstOf(q, qs, mem.live);
      Free(q, seg, 0, qs, mem);
      empty := IsEmptyQueue(q, qs, mem.live);
    }
  }

  /** `ikcp_release`: whatever is allocated is freed, and nothing else. */
  method Release(sndBuf: Queue, rcvBuf: Queue, sndQueue: Queue, rcvQueue: Queue, mem: Memory)
    requires sndBuf !in {rcvBuf, sndQueue, rcvQueue} && rcvBuf !in {sndQueue, rcvQueue} && sndQueue != rcvQueue
    requires Kept({sndBuf, rcvBuf, sndQueue, rcvQueue}, mem)
    modifies mem, sndBuf, sndBuf.Links()`next, sndBuf.Links()`prev, sndBuf.Links()`owner
    modifies rcvBuf, rcvBuf.Links()`next, rcvBuf.Links()`prev, rcvBuf.Links()`owner
    modifies sndQueue, sndQueue.Links()`next, sndQueue.Links()`prev, sndQueue.Links()`owner
    modifies rcvQueue, rcvQueue.Links()`next, rcvQueue.Links()`prev, rcvQueue.Links()`owner
    ensures Kept({sndBuf, rcvBuf, sndQueue, rcvQueue}, mem) && mem.live == {} && mem.made == old(mem.made)
    ensures sndBuf.count == rcvBuf.count == sndQueue.count == rcvQueue.count == 0
  {
    hide Holds;
    ghost var qs := {sndBuf, rcvBuf, sndQueue, rcvQueue};
    ReleaseQueue(sndBuf, qs, mem);
    ReleaseQueue(rcvBuf, qs, mem);
    ReleaseQueue(sndQueue, qs, mem);
    ReleaseQueue(rcvQueue, qs, mem);
    EmptyHoldsNothing(qs, mem.live);
  }

  lemma EmptyHoldsNothing(qs: set<Queue>, live: set<Node>)
    requires Holds(qs, live) && forall q | q in qs :: q.nodes == []
    ensures live == {} && forall q | q in qs :: q.count == 0
  {
    hide Ring;
    forall n ensures n !in live {}
  }

  // ---- what queues hold, as fragments ----

  ghost function Frags(ns: seq<Node>): (fs: seq<Frag>) {
    RecvBuffer.FragsOf(Contents(ns))
  }

  lemma {:induction false} FragsAt(ns: seq<Node>)
    ensures |Frags(ns)| == |ns| && forall i | 0 <= i < |ns| :: Frags(ns)[i] == ns[i].seg.frag
  {
    if ns != [] {
      FragsAt(ns[1..]);
      assert Contents(ns)[1..] == Contents(ns[1..]);
    }
  }

  lemma FragsMoved(ns: seq<Node>, node: Node, k: nat)
    ensures Frags(ns + [node]) == Frags(ns) + [node.seg.frag]
    ensures ns != [] ==> Frags(ns)[0] == ns[0].seg.frag && Frags(ns[1..]) == Frags(ns)[1..]
    ensures Frags(After(ns, k)) == After(Frags(ns), k)
    ensures |Frags(ns)| == |ns|
  {
    hide Frags;
    FragsAt(ns);
    FragsAt(ns + [node]);
    FragsAt(After(ns, k));
    if ns != [] { FragsAt(ns[1..]); }
  }

  lemma FragsExtended(ns: seq<Node>, node: Node)
    requires ns != []
    ensures var fs, k := Frags(ns), |ns| - 1;
            |fs| == |ns| && fs[k] == ns[k].seg.frag && Frags(ns[..k] + [node]) == fs[..k] + [node.seg.frag]
  {
    hide Frags;
    FragsAt(ns);
    FragsAt(ns[..|ns| - 1] + [node]);
  }

  // ---- the tail of `ikcp_send` ----

  /** A segment with more data. */
  function Longer(seg: RcvSeg, data: seq<u8>): RcvSeg {
    RcvSeg(seg.sn, Frag(0, seg.frag.data + data))
  }

  /** The tail of a queue replaced by a longer segment, as a stream-mode `ikcp_send`
      does: the new one is linked in before the old one is taken out and freed. */
  method ReplaceTail(q: Queue, data: seq<u8>, ghost qs: set<Queue>, mem: Memory) returns (node: Node)
    requires Kept(qs, mem) && q in qs && q.nodes != []
    modifies mem, q, q.Links()`next, q.Links()`prev, q.Links()`owner
    ensures Kept(qs, mem) && mem.made == old(mem.made) + 1 && fresh(node)
    ensures var last := old(q.nodes)[|old(q.nodes)| - 1];
            && node.seg == Longer(last.seg, data) && mem.live == old(mem.live) + {node} - {last}
            && q.nodes == old(q.nodes)[..|old(q.nodes)| - 1] + [node]
    ensures forall r | r in qs && r != q :: r.nodes == old(r.nodes)
  {
    hide Holds, Queue.Valid, Without, Longer;
    ghost var before, k := q.nodes, |q.nodes| - 1;
    var last := LastOf(q, qs, mem.live);
    node := New(q, Longer(last.seg, data), qs, mem);
    TailReplaced(before, node);
    Free(q, last, k, qs, mem);
  }

  lemma TailReplaced(ns: seq<Node>, node: Node)
    requires ns != []
    ensures var k := |ns| - 1; (ns + [node])[k] == ns[k] && Without(ns + [node], k) == ns[..k] + [node]
  {
  }

  /** What stream mode makes of a non-empty queue of fragments. */
  lemma TailExtended(fs: seq<Frag>, mss: u32, data: seq<u8>)
    requires fs != []
    ensures var last, room := fs[|fs| - 1], Endpoint.TailRoom(fs, mss, |data|);
            && (|last.data| < mss ==> room == Min(|data|, mss - |last.data|))
            && Endpoint.ExtendTail(fs, mss, data[..room]) ==
                 if |last.data| < mss then fs[..|fs| - 1] + [Frag(0, last.data + data[..room])] else fs
  {
  }

  /** The tail, if there is one and it has room, gets more data. */
  method ExtendTail(q: Queue, data: seq<u8>, mss: u32, ghost qs: set<Queue>, mem: Memory)
    requires Kept(qs, mem) && q in qs
    modifies mem, q, q.Links()`next, q.Links()`prev, q.Links()`owner
    ensures Kept(qs, mem) && fresh(mem.live - old(mem.live))
    ensures var fs := Frags(old(q.nodes));
            && Frags(q.nodes) == Endpoint.ExtendTail(fs, mss, data[..Endpoint.TailRoom(fs, mss, |data|)])
            && mem.made == old(mem.made) + if fs != [] && |fs[|fs| - 1].data| < mss then 1 else 0
    ensures forall r | r in qs && r != q :: r.nodes == old(r.nodes)
  {
    hide Holds, Frags, Longer;
    FragsAt(q.nodes);
    var empty := IsEmptyQueue(q, qs, mem.live);
    if !empty {
      ghost var before, fs := q.nodes, Frags(q.nodes);
      var last := LastOf(q, qs, mem.live);
      TailExtended(fs, mss, data);
      hide Endpoint.ExtendTail, Endpoint.TailRoom;
      if |last.seg.frag.data| < mss {
        var node := ReplaceTail(q, data[..Min(|data|, mss - |last.seg.frag.data|)], qs, mem);
        FragsExtended(before, node);
        LongerIs(last.seg, data[..Min(|data|, mss - |last.seg.frag.data|)]);
      }
    }
  }

  lemma LongerIs(seg: RcvSeg, data: seq<u8>)
    ensures Longer(seg, data).frag == Frag(0, seg.frag.data + data)
  {
  }

  // ---- the receiving half ----

  ghost function RcvView(nxt: u32, rcvQueue: Queue, rcvBuf: Queue): Receiver
    reads rcvQueue`nodes, rcvBuf`nodes
  {
    Receiver(nxt, RecvBuffer.FragsOf(Contents(rcvQueue.nodes)), Contents(rcvBuf.nodes), [])
  }

  lemma {:induction false} FragsOfSnoc(buf: seq<RcvSeg>, seg: RcvSeg)
    ensures RecvBuffer.FragsOf(buf + [seg]) == RecvBuffer.FragsOf(buf) + [seg.frag]
    ensures |RecvBuffer.FragsOf(buf)| == |buf|
  {
    if buf == [] {
      assert RecvBuffer.FragsOf([seg]) == [seg.frag] + RecvBuffer.FragsOf([seg][1..]);
    } else {
      assert (buf + [seg])[1..] == buf[1..] + [seg];
      FragsOfSnoc(buf[1..], seg);
    }
  }

  /** One move from the front of the reordering buffer, on what the queues hold. */
  lemma MoveOneView(nxt: u32, q: seq<Node>, buf: seq<Node>)
    requires buf != []
    ensures var rcv := Receiver(nxt, RecvBuffer.FragsOf(Contents(q)), Contents(buf), []);
            RecvBuffer.MoveOne(rcv) ==
              Receiver(Add32(nxt, 1), RecvBuffer.FragsOf(Contents(q + [buf[0]])), Contents(buf[1..]), [])
    ensures |RecvBuffer.FragsOf(Contents(q))| == |q|
  {
    FragsOfSnoc(Contents(q), buf[0].seg);
    assert Contents(q + [buf[0]]) == Contents(q) + [buf[0].seg];
    assert Contents(buf[1..]) == Contents(buf)[1..];
  }

  /** One round of the loop that moves what is in order. */
  method MoveNext(rcvNxt: u32, rcvWnd: u32, rcvQueue: Queue, rcvBuf: Queue, ghost qs: set<Queue>, ghost live: set<Node>)
    returns (moved: bool)
    requires Holds(qs, live) && rcvQueue in qs && rcvBuf in qs && rcvQueue != rcvBuf
    modifies rcvQueue, rcvQueue.Links()`next, rcvQueue.Links()`prev, rcvQueue.Links()`owner
    modifies rcvBuf, rcvBuf.Links()`next, rcvBuf.Links()`prev, rcvBuf.Links()`owner
    ensures Holds(qs, live) && rcvQueue.Repr() + rcvBuf.Repr() <= old(rcvQueue.Repr() + rcvBuf.Repr())
    ensures moved <==> !RecvBuffer.Drained(old(RcvView(rcvNxt, rcvQueue, rcvBuf)), rcvWnd)
    ensures if moved then RcvView(Add32(rcvNxt, 1), rcvQueue, rcvBuf) == RecvBuffer.MoveOne(old(RcvView(rcvNxt, rcvQueue, rcvBuf)))
                     else RcvView(rcvNxt, rcvQueue, rcvBuf) == old(RcvView(rcvNxt, rcvQueue, rcvBuf))
    ensures if moved then |rcvBuf.nodes| < |old(rcvBuf.nodes)| else rcvBuf.nodes == old(rcvBuf.nodes)
    ensures forall r | r in qs && r != rcvQueue && r != rcvBuf :: r.nodes == old(r.nodes)
  {
    hide Holds, Queue.Valid, Ring, Distinct, RecvBuffer.MoveOne, RecvBuffer.FragsOf;
    assert |Contents(rcvBuf.nodes)| == |rcvBuf.nodes|;
    moved := false;
    var empty := IsEmptyQueue(rcvBuf, qs, live);
    if !empty {
      var node := FirstOf(rcvBuf, qs, live);
      MoveOneView(rcvNxt, rcvQueue.nodes, rcvBuf.nodes);
      Counts(rcvQueue, qs, live);
      if node.seg.sn == rcvNxt && rcvQueue.count < rcvWnd {
        var _ := Move(rcvBuf, rcvQueue, qs, live);
        moved := true;
      }
    }
  }

  lemma Counts(q: Queue, qs: set<Queue>, live: set<Node>)
    requires Holds(qs, live) && q in qs
    ensures q.count == |q.nodes|
  {
  }

  /** The loop: the longest run that is in order moves, as far as the queue has room. */
  method MoveAvailable(rcvNxt: u32, rcvWnd: u32, rcvQueue: Queue, rcvBuf: Queue, ghost qs: set<Queue>, ghost live: set<Node>)
    returns (nxt: u32)
    requires Holds(qs, live) && rcvQueue in qs && rcvBuf in qs && rcvQueue != rcvBuf
    modifies rcvQueue, rcvQueue.Links()`next, rcvQueue.Links()`prev, rcvQueue.Links()`owner
    modifies rcvBuf, rcvBuf.Links()`next, rcvBuf.Links()`prev, rcvBuf.Links()`owner
    ensures Holds(qs, live)
    ensures RcvView(nxt, rcvQueue, rcvBuf) == RecvBuffer.Drain(old(RcvView(rcvNxt, rcvQueue, rcvBuf)), rcvWnd)
    ensures forall r | r in qs && r != rcvQueue && r != rcvBuf :: r.nodes == old(r.nodes)
  {
    hide Holds, RcvView, RecvBuffer.MoveOne, RecvBuffer.Drained;
    nxt := rcvNxt;
    ghost var goal := RecvBuffer.Drain(RcvView(nxt, rcvQueue, rcvBuf), rcvWnd);
    var moved := true;
    while moved
      invariant Holds(qs, live) && rcvQueue.Repr() + rcvBuf.Repr() <= old(rcvQueue.Repr() + rcvBuf.Repr())
      invariant RecvBuffer.Drain(RcvView(nxt, rcvQueue, rcvBuf), rcvWnd) == goal
      invariant !moved ==> RecvBuffer.Drained(RcvView(nxt, rcvQueue, rcvBuf), rcvWnd)
      invariant forall r | r in qs && r != rcvQueue && r != rcvBuf :: r.nodes == old(r.nodes)
      decreases |rcvBuf.nodes|, moved
    {
      moved := MoveNext(nxt, rcvWnd, rcvQueue, rcvBuf, qs, live);
      if moved {
        nxt := Add32(nxt, 1);
      }
    }
  }

  /** Put a segment in its place, unless its number is there already. */
  method Place(q: Queue, node: Node, base: u32, n: int, ghost qs: set<Queue>, ghost live: set<Node>) returns (repeated: bool)
    requires Holds(qs, live) && q in qs && node.owner == null
    requires RecvBuffer.Ordered(Contents(q.nodes), base, n) && Sub32(node.seg.sn, base) < n <= MAX_WND
    modifies q, q.Links()`next, q.Links()`prev, q.Links()`owner, node`next, node`prev, node`owner
    ensures Holds(qs, if repeated then live else live + {node})
    ensures repeated ==> node.owner == null
    ensures Contents(q.nodes) == RecvBuffer.Insert(Contents(old(q.nodes)), base, node.seg)
    ensures q.Repr() <= old(q.Repr()) + {node}
    ensures forall r | r in qs && r != q :: r.nodes == old(r.nodes)
  {
    hide Ring, Distinct, RecvBuffer.Ordered, Contents, Sub32;
    QueuesAreApart(qs, live, q);
    repeated := q.InsertSegment(node, base, n);
  }

  /** A received segment is put in its place, or freed if its number is there already. */
  method Accept(q: Queue, newseg: Node, base: u32, n: int, ghost qs: set<Queue>, mem: Memory)
    requires KeptBut(qs, mem, newseg) && q in qs
    requires RecvBuffer.Ordered(Contents(q.nodes), base, n) && Sub32(newseg.seg.sn, base) < n <= MAX_WND
    modifies mem, q, q.Links()`next, q.Links()`prev, q.Links()`owner, newseg`next, newseg`prev, newseg`owner
    ensures Kept(qs, mem) && mem.live <= old(mem.live) && mem.made == old(mem.made)
    ensures Contents(q.nodes) == RecvBuffer.Insert(Contents(old(q.nodes)), base, newseg.seg)
    ensures q.Repr() <= old(q.Repr()) + {newseg}
    ensures forall r | r in qs && r != q :: r.nodes == old(r.nodes)
  {
    hide Holds, RecvBuffer.Ordered, Contents, Sub32;
    var repeated := Place(q, newseg, base, n, qs, mem.live - {newseg});
    if repeated {
      Drop(newseg, qs, mem);
    } else {
      assert mem.live - {newseg} + {newseg} == mem.live;
    }
  }

  /** `ikcp_parse_data`: the queues do what the specification says, and whatever becomes
      of the segment, they hold what is allocated afterwards. */
  method ParseData(newseg: Node, rcvNxt: u32, rcvWnd: u32, rcvQueue: Queue, rcvBuf: Queue, ghost qs: set<Queue>, mem: Memory)
    returns (nxt: u32)
    requires KeptBut(qs, mem, newseg) && rcvQueue in qs && rcvBuf in qs && rcvQueue != rcvBuf && WND_RCV <= rcvWnd <= MAX_WND
    requires RecvBuffer.Inv(RcvView(rcvNxt, rcvQueue, rcvBuf), rcvWnd)
    modifies mem, newseg`next, newseg`prev, newseg`owner
    modifies rcvQueue, rcvQueue.Links()`next, rcvQueue.Links()`prev, rcvQueue.Links()`owner
    modifies rcvBuf, rcvBuf.Links()`next, rcvBuf.Links()`prev, rcvBuf.Links()`owner
    ensures Kept(qs, mem) && mem.live <= old(mem.live) && mem.made == old(mem.made)
    ensures RcvView(nxt, rcvQueue, rcvBuf) == RecvBuffer.ParseData(old(RcvView(rcvNxt, rcvQueue, rcvBuf)), rcvWnd, newseg.seg)
    ensures forall r | r in qs && r != rcvQueue && r != rcvBuf :: r.nodes == old(r.nodes)
  {
    hide Holds, Contents, RecvBuffer.Insert, RecvBuffer.Drain, RecvBuffer.Ordered, Sub32, Diff, Add32;
    RecvBuffer.InWindowIsOffset(RcvView(rcvNxt, rcvQueue, rcvBuf), rcvWnd, newseg.seg.sn);
    if Diff(newseg.seg.sn, Add32(rcvNxt, rcvWnd)) >= 0 || Diff(newseg.seg.sn, rcvNxt) < 0 {
      Drop(newseg, qs, mem);
      nxt := rcvNxt;
    } else {
      Accept(rcvBuf, newseg, rcvNxt, rcvWnd, qs, mem);
      nxt := MoveAvailable(rcvNxt, rcvWnd, rcvQueue, rcvBuf, qs, mem.live);
    }
  }

  /** A data segment in `ikcp_input`: allocated if it is in the window, and handed on. */
  method HearPush(seg: RcvSeg, rcvNxt: u32, rcvWnd: u32, rcvQueue: Queue, rcvBuf: Queue, ghost qs: set<Queue>, mem: Memory)
    returns (nxt: u32)
    requires Kept(qs, mem) && rcvQueue in qs && rcvBuf in qs && rcvQueue != rcvBuf && WND_RCV <= rcvWnd <= MAX_WND
    requires RecvBuffer.Inv(RcvView(rcvNxt, rcvQueue, rcvBuf), rcvWnd)
    modifies mem
    modifies rcvQueue, rcvQueue.Links()`next, rcvQueue.Links()`prev, rcvQueue.Links()`owner
    modifies rcvBuf, rcvBuf.Links()`next, rcvBuf.Links()`prev, rcvBuf.Links()`owner
    ensures var rcv := old(RcvView(rcvNxt, rcvQueue, rcvBuf));
            && RcvView(nxt, rcvQueue, rcvBuf) == RecvBuffer.ParseData(rcv, rcvWnd, seg)
            && mem.made == old(mem.made) + if RecvBuffer.InWindow(rcv, rcvWnd, seg.sn) then 1 else 0
    ensures Kept(qs, mem) && fresh(mem.live - old(mem.live))
    ensures forall r | r in qs && r != rcvQueue && r != rcvBuf :: r.nodes == old(r.nodes)
  {
    hide Kept, KeptBut, Holds, Contents, RecvBuffer.FragsOf, RecvBuffer.Inv, RecvBuffer.ParseData, Diff, Add32;
    WindowOf(RcvView(rcvNxt, rcvQueue, rcvBuf), rcvWnd, seg);
    hide RecvBuffer.InWindow;
    nxt := rcvNxt;
    if Diff(seg.sn, Add32(rcvNxt, rcvWnd)) < 0 {
      if Diff(seg.sn, rcvNxt) >= 0 {
        var newseg := Alloc(seg, qs, mem);
        nxt := ParseData(newseg, rcvNxt, rcvWnd, rcvQueue, rcvBuf, qs, mem);
      }
    }
  }

  lemma WindowOf(rcv: Receiver, wnd: u32, seg: RcvSeg)
    ensures RecvBuffer.InWindow(rcv, wnd, seg.sn) <==> Diff(seg.sn, Add32(rcv.nxt, wnd)) < 0 && Diff(seg.sn, rcv.nxt) >= 0
    ensures !RecvBuffer.InWindow(rcv, wnd, seg.sn) ==> RecvBuffer.ParseData(rcv, wnd, seg) == rcv
  {
  }

  /** `ikcp_recv`: free the fragments taken, then move on what fits. */
  method Take(k: nat, rcvNxt: u32, rcvWnd: u32, rcvQueue: Queue, rcvBuf: Queue, ghost qs: set<Queue>, mem: Memory)
    returns (nxt: u32)
    requires Kept(qs, mem) && rcvQueue in qs && rcvBuf in qs && rcvQueue != rcvBuf
    modifies mem
    modifies rcvQueue, rcvQueue.Links()`next, rcvQueue.Links()`prev, rcvQueue.Links()`owner
    modifies rcvBuf, rcvBuf.Links()`next, rcvBuf.Links()`prev, rcvBuf.Links()`owner
    ensures var rcv := old(RcvView(rcvNxt, rcvQueue, rcvBuf));
            RcvView(nxt, rcvQueue, rcvBuf) == RecvBuffer.Drain(rcv.(queue := After(rcv.queue, k)), rcvWnd)
    ensures Kept(qs, mem) && mem.live <= old(mem.live) && mem.made == old(mem.made)
    ensures forall r | r in qs && r != rcvQueue && r != rcvBuf :: r.nodes == old(r.nodes)
  {
    hide Holds, Contents, RecvBuffer.Drain, RecvBuffer.FragsOf, After;
    FragsMoved(rcvQueue.nodes, rcvQueue.head, k);
    FreeFirst(rcvQueue, k, qs, mem);
    nxt := MoveAvailable(rcvNxt, rcvWnd, rcvQueue, rcvBuf, qs, mem.live);
  }

  // ---- the sending half ----

  /** What the nodes say about segments in flight. */
  ghost function Sent(ns: seq<Node>): (buf: seq<SndSeg>)
    reads ns`snd
    ensures |buf| == |ns|
  {
    if ns == [] then [] else Sent(ns[..|ns| - 1]) + [ns[|ns| - 1].snd]
  }

  lemma {:induction false} SentAt(ns: seq<Node>, i: nat)
    requires i < |ns|
    ensures Sent(ns)[i] == ns[i].snd
  {
    if i < |ns| - 1 { SentAt(ns[..|ns| - 1], i); }
  }

  lemma {:induction false} SentConcat(a: seq<Node>, b: seq<Node>)
    ensures Sent(a + b) == Sent(a) + Sent(b)
  {
    if b == [] {
      assert a + b == a;
    } else {
      var init, last := b[..|b| - 1], b[|b| - 1];
      SentConcat(a, init);
      assert (a + b)[..|a + b| - 1] == a + init && (a + b)[|a + b| - 1] == last;
    }
  }

  /** The nodes before the k-th, the k-th, and those after it. */
  lemma SentParts(ns: seq<Node>, k: nat)
    requires k < |ns|
    ensures Sent(ns) == Sent(ns[..k]) + [ns[k].snd] + Sent(ns[k + 1..])
  {
    hide Sent;
    PartsOf(ns, k);
    SentConcat(ns[..k], [ns[k]]);
    SentConcat(ns[..k] + [ns[k]], ns[k + 1..]);
    SentOne(ns[k]);
  }

  lemma SentOne(node: Node)
    ensures Sent([node]) == [node.snd]
  {
    assert Sent([node][..0]) == [];
  }

  lemma PartsOf(ns: seq<Node>, k: nat)
    requires k < |ns|
    ensures ns == ns[..k] + [ns[k]] + ns[k + 1..]
  {
  }

  ghost function SndView(una: u32, nxt: u32, sndQueue: Queue, sndBuf: Queue): Sender
    reads sndQueue`nodes, sndBuf`nodes, sndBuf.nodes`snd
  {
    Sender(una, nxt, RecvBuffer.FragsOf(Contents(sndQueue.nodes)), Sent(sndBuf.nodes))
  }

  method StartOf(q: Queue, ghost qs: set<Queue>, ghost live: set<Node>) returns (p: Node)
    requires Holds(qs, live) && q in qs
    ensures Holds(qs, live) && p == q.At(0) && (p == q.head <==> q.nodes == [])
  {
    hide Ring, Distinct;
    q.AtHead(0);
    p := q.Start();
  }

  method FollowingOf(q: Queue, p: Node, ghost k: nat, ghost qs: set<Queue>, ghost live: set<Node>) returns (next: Node)
    requires Holds(qs, live) && q in qs && k < |q.nodes| && p == q.nodes[k]
    ensures Holds(qs, live) && next == q.At(k + 1) && (next == q.head <==> k + 1 == |q.nodes|)
  {
    hide Ring, Distinct;
    q.AtHead(k + 1);
    next := q.Following(p, k);
  }

  /** `ikcp_parse_una`. */
  method ParseUna(una: u32, ghost snd: Sender, ghost mss: u32, q: Queue, ghost qs: set<Queue>, mem: Memory)
    requires Kept(qs, mem) && q in qs && SendBuffer.Inv(snd, mss) && snd.buf == Sent(q.nodes)
    modifies mem, q, q.Links()`next, q.Links()`prev, q.Links()`owner
    ensures Kept(qs, mem) && mem.live <= old(mem.live) && mem.made == old(mem.made)
    ensures Sent(q.nodes) == SendBuffer.ParseUna(snd, una)
    ensures forall r | r in qs && r != q :: r.nodes == old(r.nodes)
  {
    hide Holds, Queue.Valid, Without, Sent, SendBuffer.Inv, SendBuffer.UnaScanned, SendBuffer.ParseUna;
    SendBuffer.UnaStart(snd, una, mss);
    var p := StartOf(q, qs, mem.live);
    while p != q.head
      invariant Kept(qs, mem) && mem.live <= old(mem.live) && mem.made == old(mem.made)
      invariant p == q.At(0) && (p == q.head <==> q.nodes == []) && q.Repr() <= old(q.Repr())
      invariant SendBuffer.UnaScanned(snd, una, Sent(q.nodes))
      invariant forall r | r in qs && r != q :: r.nodes == old(r.nodes)
      decreases |q.nodes|
    {
      var next := FollowingOf(q, p, 0, qs, mem.live);
      SendBuffer.UnaStep(snd, una, Sent(q.nodes), mss);
      SentFirst(q.nodes);
      if Diff(una, p.snd.sn) > 0 {
        DropFirst(q, p, qs, mem);
      } else {
        return;
      }
      p := next;
    }
  }

  lemma SentFirst(ns: seq<Node>)
    requires ns != []
    ensures Sent(ns) != [] && Sent(ns)[0] == ns[0].snd
  {
    SentAt(ns, 0);
  }

  /** The first segment in flight is freed. */
  method DropFirst(q: Queue, p: Node, ghost qs: set<Queue>, mem: Memory)
    requires Kept(qs, mem) && q in qs && q.nodes != [] && p == q.nodes[0]
    modifies mem, q, q.Links()`next, q.Links()`prev, q.Links()`owner
    ensures Kept(qs, mem) && mem.live <= old(mem.live) && mem.made == old(mem.made)
    ensures q.nodes == old(q.nodes)[1..] && Sent(q.nodes) == old(Sent(q.nodes))[1..] && q.Repr() <= old(q.Repr())
    ensures forall r | r in qs && r != q :: r.nodes == old(r.nodes)
  {
    hide Kept, Holds, Without, Sent;
    SentTail(q.nodes);
    Free(q, p, 0, qs, mem);
  }

  lemma SentTail(ns: seq<Node>)
    requires ns != []
    ensures Without(ns, 0) == ns[1..] && Sent(ns[1..]) == Sent(ns)[1..] && Sent(ns)[0] == ns[0].snd
  {
    hide Sent;
    SentParts(ns, 0);
  }

  lemma SentWithout(ns: seq<Node>, k: nat)
    requires k < |ns|
    ensures Sent(Without(ns, k)) == Sent(ns)[..k] + Sent(ns)[k + 1..]
  {
    hide Sent;
    SentParts(ns, k);
    SentConcat(ns[..k], ns[k + 1..]);
  }

  /** `ikcp_parse_ack`. */
  method ParseAck(sn: u32, ghost snd: Sender, ghost mss: u32, sndUna: u32, sndNxt: u32, q: Queue, ghost qs: set<Queue>, mem: Memory)
    requires Kept(qs, mem) && q in qs && SendBuffer.Inv(snd, mss) && snd.buf == Sent(q.nodes)
    requires sndUna == snd.una && sndNxt == snd.nxt
    modifies mem, q, q.Links()`next, q.Links()`prev, q.Links()`owner
    ensures Kept(qs, mem) && mem.live <= old(mem.live) && mem.made == old(mem.made)
    ensures Sent(q.nodes) == SendBuffer.ParseAck(snd, sn)
    ensures forall r | r in qs && r != q :: r.nodes == old(r.nodes)
  {
    hide Holds, Queue.Valid, Without, Sent, SendBuffer.Inv, SendBuffer.Ordered, SendBuffer.Without, SendBuffer.Outstanding;
    SendBuffer.FastackRange(snd, sn, mss);
    if Diff(sn, sndUna) < 0 || Diff(sn, sndNxt) >= 0 {
      return;
    }
    var p;
    ghost var i;
    p, i := FindSent(sn, snd, mss, q, qs, mem.live);
    if p != q.head {
      SentWithout(q.nodes, i);
      ghost var rest := Without(q.nodes, i);
      Free(q, p, i, qs, mem);
      assert Sent(rest) == old(Sent(rest));
    }
  }

  /** The scan of `ikcp_parse_ack` for a segment in flight. */
  method FindSent(sn: u32, ghost snd: Sender, ghost mss: u32, q: Queue, ghost qs: set<Queue>, ghost live: set<Node>)
    returns (p: Node, ghost i: nat)
    requires Holds(qs, live) && q in qs && SendBuffer.Inv(snd, mss) && snd.buf == Sent(q.nodes)
    requires SendBuffer.Outstanding(snd, sn)
    ensures Holds(qs, live)
    ensures if p == q.head then SendBuffer.ParseAck(snd, sn) == snd.buf
            else i < |q.nodes| && p == q.nodes[i] && SendBuffer.ParseAck(snd, sn) == snd.buf[..i] + snd.buf[i + 1..]
  {
    hide Holds, Queue.Valid, Sent, SendBuffer.Inv, SendBuffer.Outstanding, SendBuffer.ParseAck;
    i := 0;
    p := StartOf(q, qs, live);
    while p != q.head
      invariant Holds(qs, live)
      invariant i <= |q.nodes| && p == q.At(i) && (p == q.head <==> i == |q.nodes|)
      invariant forall j | 0 <= j < i :: snd.buf[j].sn != sn
      decreases |q.nodes| - i
    {
      var next := FollowingOf(q, p, i, qs, live);
      SentAt(q.nodes, i);
      if sn == p.snd.sn {
        AckFound(snd, sn, i, mss);
        return;
      }
      if Diff(sn, p.snd.sn) < 0 {
        SendBuffer.AckStop(snd, sn, i, mss);
        p := q.head;
        return;
      }
      p, i := next, i + 1;
    }
    SendBuffer.AckStop(snd, sn, i, mss);
  }

  lemma AckFound(snd: Sender, sn: u32, i: nat, mss: u32)
    requires SendBuffer.Inv(snd, mss) && i < |snd.buf| && snd.buf[i].sn == sn && SendBuffer.Outstanding(snd, sn)
    ensures SendBuffer.ParseAck(snd, sn) == snd.buf[..i] + snd.buf[i + 1..]
  {
    SendBuffer.WithoutAt(snd.buf, sn, snd.una, SendBuffer.InFlight(snd), i);
  }

  /** `ikcp_parse_fastack`. */
  method ParseFastack(sn: u32, ghost snd: Sender, ghost mss: u32, sndUna: u32, sndNxt: u32, q: Queue,
                      ghost qs: set<Queue>, ghost live: set<Node>)
    requires Holds(qs, live) && q in qs && SendBuffer.Inv(snd, mss) && snd.buf == Sent(q.nodes)
    requires sndUna == snd.una && sndNxt == snd.nxt
    modifies q.Repr()`snd
    ensures Holds(qs, live)
    ensures Sent(q.nodes) == SendBuffer.ParseFastack(snd, sn)
  {
    hide Holds, Queue.Valid, Sent, Swept, SendBuffer.Inv, SendBuffer.ParseFastack, SendBuffer.Outstanding;
    ghost var spec := SendBuffer.ParseFastack(snd, sn);
    SendBuffer.FastackRange(snd, sn, mss);
    if Diff(sn, sndUna) < 0 || Diff(sn, sndNxt) >= 0 {
      return;
    }
    ghost var i := 0;
    var p := StartOf(q, qs, live);
    SweptEnds(snd.buf, spec, snd.buf, 0);
    while p != q.head
      invariant i <= |q.nodes| && p == q.At(i) && (p == q.head <==> i == |q.nodes|)
      invariant Holds(qs, live) && Swept(Sent(q.nodes), spec, snd.buf, i)
      decreases |q.nodes| - i
    {
      var next := FollowingOf(q, p, i, qs, live);
      SendBuffer.FastackAt(snd, sn, mss, i);
      SweptNext(Sent(q.nodes), spec, snd.buf, i);
      SentAt(q.nodes, i);
      if Diff(sn, p.snd.sn) < 0 {
        break;
      } else if sn != p.snd.sn {
        Store(p, p.snd.(fastack := Add32(p.snd.fastack, 1)), i, q, qs, live);
      }
      p, i := next, i + 1;
    }
    SweptEnds(Sent(q.nodes), spec, snd.buf, i);
  }

  /** The first `i` segments are as in `spec`, the others as they were in `buf`. */
  ghost predicate Swept(cur: seq<SndSeg>, spec: seq<SndSeg>, buf: seq<SndSeg>, i: nat) {
    i <= |spec| == |buf| && cur == spec[..i] + buf[i..]
  }

  lemma SweptEnds(cur: seq<SndSeg>, spec: seq<SndSeg>, buf: seq<SndSeg>, i: nat)
    requires |spec| == |buf|
    ensures Swept(buf, spec, buf, 0)
    ensures Swept(cur, spec, buf, i) && (forall j | i <= j < |spec| :: spec[j] == buf[j]) ==> cur == spec
  {
  }

  lemma SweptNext(cur: seq<SndSeg>, spec: seq<SndSeg>, buf: seq<SndSeg>, i: nat)
    requires Swept(cur, spec, buf, i) && i < |spec|
    ensures |cur| == |buf| && cur[i] == buf[i] && Swept(cur[i := spec[i]], spec, buf, i + 1)
    ensures spec[i] == buf[i] ==> Swept(cur, spec, buf, i + 1)
  {
    assert cur[i := spec[i]] == spec[..i + 1] + buf[i + 1..];
    assert spec[i] == buf[i] ==> cur[i := spec[i]] == cur;
  }

  /** Assign to the fields of one segment. */
  method Store(p: Node, g: SndSeg, ghost k: nat, ghost q: Queue, ghost qs: set<Queue>, ghost live: set<Node>)
    requires Holds(qs, live) && q in qs && k < |q.nodes| && p == q.nodes[k]
    modifies p`snd
    ensures Holds(qs, live) && Sent(q.nodes) == old(Sent(q.nodes))[k := g]
  {
    hide Holds, Distinct, Sent;
    DistinctOf(q, qs, live);
    ghost var a, b := q.nodes[..k], q.nodes[k + 1..];
    Others(q.nodes, k);
    SentParts(q.nodes, k);
    p.snd := g;
    SentParts(q.nodes, k);
    assert Sent(a) == old(Sent(a)) && Sent(b) == old(Sent(b));
  }

  lemma Others(ns: seq<Node>, k: nat)
    requires Distinct(ns) && k < |ns|
    ensures ns[k] !in ns[..k] && ns[k] !in ns[k + 1..]
  {
  }

  lemma DistinctOf(q: Queue, qs: set<Queue>, live: set<Node>)
    requires Holds(qs, live) && q in qs
    ensures Distinct(q.nodes)
  {
  }

  /** The loop of a flush over the segments in flight. */
  method Sweep(e: Retransmission.Env, q: Queue, ghost qs: set<Queue>, ghost live: set<Node>)
    requires Holds(qs, live) && q in qs
    modifies q.Repr()`snd
    ensures Holds(qs, live)
    ensures Sent(q.nodes) == Endpoint.FlushedBuf(old(Sent(q.nodes)), e)
  {
    hide Holds, Queue.Valid, Sent, Swept, Retransmission.Flushed, Endpoint.FlushedBuf;
    FlushedBufAt(Sent(q.nodes), e);
    ghost var buf, spec, i := Sent(q.nodes), Endpoint.FlushedBuf(Sent(q.nodes), e), 0;
    var p := StartOf(q, qs, live);
    SweptEnds(buf, spec, buf, 0);
    while p != q.head
      invariant i <= |q.nodes| == |spec| && p == q.At(i) && (p == q.head <==> i == |q.nodes|)
      invariant Holds(qs, live) && Swept(Sent(q.nodes), spec, buf, i)
      decreases |q.nodes| - i
    {
      SweptNext(Sent(q.nodes), spec, buf, i);
      SweepOne(e, p, i, q, qs, live);
      p := FollowingOf(q, p, i, qs, live);
      i := i + 1;
    }
    SweptEnds(Sent(q.nodes), spec, buf, i);
  }

  method SweepOne(e: Retransmission.Env, p: Node, ghost k: nat, ghost q: Queue, ghost qs: set<Queue>, ghost live: set<Node>)
    requires Holds(qs, live) && q in qs && k < |q.nodes| && p == q.nodes[k]
    modifies p`snd
    ensures Holds(qs, live)
    ensures Sent(q.nodes) == old(Sent(q.nodes))[k := Retransmission.Flushed(old(Sent(q.nodes))[k], e)]
  {
    hide Ring, Distinct, Sent, Retransmission.Flushed, Retransmission.Due, Retransmission.Late, Retransmission.Overtaken;
    SentAt(q.nodes, k);
    var segment, _, _, _ := KcpObject.FlushSegment(p.snd, e);
    Store(p, segment, k, q, qs, live);
  }

  lemma FlushedBufAt(buf: seq<SndSeg>, e: Retransmission.Env)
    ensures |Endpoint.FlushedBuf(buf, e)| == |buf|
    ensures forall i | 0 <= i < |buf| :: Endpoint.FlushedBuf(buf, e)[i] == Retransmission.Flushed(buf[i], e)
  {
    hide Retransmission.Flushed;
  }

  /** A flush numbers the next segment and puts it in flight. */
  method NumberNext(sn: u32, now: u32, rto: u32, sndQueue: Queue, sndBuf: Queue, ghost qs: set<Queue>, ghost live: set<Node>)
    requires Holds(qs, live) && sndQueue in qs && sndBuf in qs && sndQueue != sndBuf && sndQueue.nodes != []
    modifies sndQueue, sndQueue.Links()`next, sndQueue.Links()`prev, sndQueue.Links()`owner
    modifies sndBuf, sndBuf.Links()`next, sndBuf.Links()`prev, sndBuf.Links()`owner, sndQueue.Repr()`snd
    ensures Holds(qs, live)
    ensures sndQueue.nodes == old(sndQueue.nodes)[1..]
    ensures Sent(sndBuf.nodes) == old(Sent(sndBuf.nodes)) + [SndSeg(old(sndQueue.nodes)[0].seg.frag, sn, now, rto, 0, 0)]
    ensures forall r | r in qs && r != sndQueue && r != sndBuf :: r.nodes == old(r.nodes)
  {
    hide Holds, Queue.Valid, Sent;
    FirstIsElsewhere(sndQueue, sndBuf, qs, live);
    ghost var before := sndBuf.nodes;
    var newseg := Move(sndQueue, sndBuf, qs, live);
    Fill(newseg, SndSeg(newseg.seg.frag, sn, now, rto, 0, 0), before, qs, live);
    SentJoined(before, newseg);
  }

  lemma FirstIsElsewhere(q: Queue, r: Queue, qs: set<Queue>, live: set<Node>)
    requires Holds(qs, live) && q in qs && r in qs && q != r && q.nodes != []
    ensures q.nodes[0] !in r.nodes && q.nodes[0] in q.Repr()
  {
    hide Ring;
    QueuesAreApart(qs, live, r);
    assert q.nodes[0] in q.Links();
    assert forall n | n in r.nodes :: n in r.Links();
  }

  /** Assign to the fields of a segment, apart from those in `ns`. */
  method Fill(p: Node, g: SndSeg, ghost ns: seq<Node>, ghost qs: set<Queue>, ghost live: set<Node>)
    requires Holds(qs, live) && p !in ns
    modifies p`snd
    ensures Holds(qs, live) && p.snd == g && Sent(ns) == old(Sent(ns))
  {
    hide Holds, Sent;
    p.snd := g;
  }

  lemma SentJoined(ns: seq<Node>, node: Node)
    ensures Sent(ns + [node]) == Sent(ns) + [node.snd]
  {
    assert (ns + [node])[..|ns|] == ns;
  }
}
