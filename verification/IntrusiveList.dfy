/** The circular doubly linked queues of ikcp.h, on nodes that point to each other. */
module IntrusiveList {
  import opened Serial
  import opened ControlBlock
  import RecvBuffer

  /** A segment with its embedded queue node. A queue's head is a node whose
      segment nobody reads. */
  class Node {
    var next: Node?
    var prev: Node?
    /** Number and fragment as received, or as queued, where the number does not matter. */
    const seg: RcvSeg
    /** What a flush fills in when it numbers the segment, and keeps up to date. */
    var snd: SndSeg
    /** The queue that the node is in, or the head of. */
    ghost var owner: Queue?

    /** `ikcp_segment_new`. */
    constructor (mem: Memory, seg: RcvSeg)
      requires mem.Valid()
      modifies mem
      ensures this.seg == seg && owner == null
      ensures mem.Valid() && mem.live == old(mem.live) + {this} && mem.made == old(mem.made) + 1
    {
      this.seg, next, prev, owner := seg, null, null, null;
      new;
      mem.live, mem.made := mem.live + {this}, mem.made + 1;
    }

    constructor Head()
      ensures owner == null
    {
      seg, next, prev, owner := RcvSeg(0, Frag(0, [])), null, null, null;
    }
  }

  /** The segments that a control block allocated and has not freed, those that it has
      freed, and how many it allocated. */
  class Memory {
    ghost var live: set<Node>
    ghost var freed: set<Node>
    ghost var made: nat

    ghost predicate Valid()
      reads this
    {
      live !! freed && |live| + |freed| == made
    }

    constructor ()
      ensures Valid() && live == freed == {} && made == 0
    {
      live, freed, made := {}, {}, 0;
    }

    /** `ikcp_segment_delete`: of a segment that was not freed before and is in no queue. */
    method Delete(node: Node)
      requires Valid() && node in live && node.owner == null
      modifies this
      ensures Valid() && live == old(live) - {node} && freed == old(freed) + {node} && made == old(made)
    {
      live, freed := live - {node}, freed + {node};
    }
  }

  /** Neighbours point to each other. */
  ghost predicate Linked(ms: seq<Node>)
    reads ms`next, ms`prev
  {
    forall i | 0 < i < |ms| :: ms[i - 1].next == ms[i] && ms[i].prev == ms[i - 1]
  }

  ghost predicate Distinct(ns: seq<Node>) {
    forall i, j | 0 <= i < j < |ns| :: ns[i] != ns[j]
  }

  /** Following the pointers from the head either way visits `ns` and comes back. */
  ghost predicate Ring(head: Node, ns: seq<Node>)
    reads head`next, head`prev, ns`next, ns`prev
  {
    head !in ns && Distinct(ns) && Linked([head] + ns + [head])
  }

  lemma Joined(ms: seq<Node>, ns: seq<Node>)
    requires ms != [] && ns != []
    ensures Linked(ms + ns) <==>
              Linked(ms) && Linked(ns) && ms[|ms| - 1].next == ns[0] && ns[0].prev == ms[|ms| - 1]
  {
    var all, k := ms + ns, |ms|;
    assert forall i | 0 <= i < k :: all[i] == ms[i];
    assert forall i | k <= i < |all| :: all[i] == ns[i - k];
    if Linked(all) {
      assert all[k - 1].next == all[k] && all[k].prev == all[k - 1];
      forall i | 0 < i < k ensures ms[i - 1].next == ms[i] && ms[i].prev == ms[i - 1] {
        assert all[i - 1].next == all[i] && all[i].prev == all[i - 1];
      }
      forall i | 0 < i < |ns| ensures ns[i - 1].next == ns[i] && ns[i].prev == ns[i - 1] {
        assert all[k + i - 1].next == all[k + i] && all[k + i].prev == all[k + i - 1];
      }
    }
  }

  lemma DistinctParts(ms: seq<Node>, ns: seq<Node>)
    ensures Distinct(ms + ns) <==> Distinct(ms) && Distinct(ns) && forall m | m in ms :: m !in ns
  {
    var all, k := ms + ns, |ms|;
    assert forall i | 0 <= i < k :: all[i] == ms[i];
    assert forall i | k <= i < |all| :: all[i] == ns[i - k];
    if Distinct(all) {
      forall i, j | 0 <= i < j < k ensures ms[i] != ms[j] {
        assert all[i] != all[j];
      }
      forall i, j | 0 <= i < j < |ns| ensures ns[i] != ns[j] {
        assert all[k + i] != all[k + j];
      }
      forall i, j | 0 <= i < k && 0 <= j < |ns| ensures ms[i] != ns[j] {
        assert all[i] != all[k + j];
      }
    }
    if Distinct(ms) && Distinct(ns) && forall m | m in ms :: m !in ns {
      forall i, j | 0 <= i < j < |all| ensures all[i] != all[j] {
        assert i < k ==> all[i] in ms;
        assert j >= k ==> all[j] in ns;
      }
    }
  }

  /** A node between two parts of the ring. */
  lemma Around(head: Node, a: seq<Node>, node: Node, b: seq<Node>)
    ensures [head] + (a + b) + [head] == ([head] + a) + (b + [head])
    ensures [head] + (a + [node] + b) + [head] == (([head] + a) + [node]) + (b + [head])
    ensures Distinct(a + [node] + b) <==> Distinct(a + b) && node !in a + b
  {
    DistinctParts(a, b);
    DistinctParts(a, [node]);
    DistinctParts(a + [node], b);
  }

  /** The neighbours of a gap occur once in the ring. */
  lemma Apart(head: Node, a: seq<Node>, b: seq<Node>)
    requires Distinct(a + b) && head !in a + b
    ensures var x, y := [head] + a, b + [head];
            && (forall i | 0 <= i < |a| :: x[i] != x[|a|]) && (forall i | 0 < i <= |a| :: x[i] != y[0])
            && (forall i | 0 < i <= |b| :: y[i] != y[0]) && (forall i | 0 <= i < |b| :: y[i] != x[|a|])
  {
    DistinctParts(a, b);
    var x, y := [head] + a, b + [head];
    assert a != [] ==> x[|a|] == a[|a| - 1] && a[|a| - 1] in a;
    assert b != [] ==> y[0] == b[0] && b[0] in b;
    assert forall i | 0 < i <= |a| :: x[i] == a[i - 1] && x[i] in a;
    assert forall i | 0 <= i < |b| :: y[i] == b[i] && y[i] in b;
  }

  /** `IQUEUE_INIT`. */
  method Init(head: Node)
    modifies head`next, head`prev
    ensures Ring(head, [])
  {
    head.next := head;
    head.prev := head;
  }

  /** `IQUEUE_ADD`: put `node` behind `p`, the head or any node of the ring. */
  method Add(node: Node, p: Node, ghost head: Node, ghost a: seq<Node>, ghost b: seq<Node>)
    requires Ring(head, a + b) && p == ([head] + a)[|a|] && p.next != null && node != head && node !in a + b
    modifies node`next, node`prev, p`next, p.next`prev
    ensures Ring(head, a + [node] + b)
  {
    ghost var x, y := [head] + a, b + [head];
    Around(head, a, node, b);
    Apart(head, a, b);
    Joined(x, y);
    hide Distinct;
    node.prev := p;
    node.next := p.next;
    p.next.prev := node;
    p.next := node;
    assert Linked(x) && Linked(y);
    Joined(x, [node]);
    Joined(x + [node], y);
  }

  /** `IQUEUE_ADD_TAIL`. */
  method AddTail(node: Node, head: Node, ghost ns: seq<Node>)
    requires Ring(head, ns) && head.prev != null && node != head && node !in ns
    modifies node`next, node`prev, head`prev, head.prev`next
    ensures Ring(head, ns + [node])
  {
    ghost var x, y := [head] + ns, [head];
    assert ns + [] == ns && ns + [node] + [] == ns + [node] && [] + [head] == y;
    Around(head, ns, node, []);
    Apart(head, ns, []);
    Joined(x, y);
    hide Distinct;
    node.prev := head.prev;
    node.next := head;
    head.prev.next := node;
    head.prev := node;
    assert Linked(x);
    Joined(x, [node]);
    Joined(x + [node], y);
  }

  /** `IQUEUE_DEL`. */
  method Del(entry: Node, ghost head: Node, ghost a: seq<Node>, ghost b: seq<Node>)
    requires Ring(head, a + [entry] + b) && entry.next != null && entry.prev != null
    modifies entry`next, entry`prev, entry.next`prev, entry.prev`next
    ensures Ring(head, a + b)
    ensures entry.next == null && entry.prev == null
  {
    ghost var x, y := [head] + a, b + [head];
    Around(head, a, entry, b);
    Apart(head, a, b);
    Joined(x + [entry], y);
    Joined(x, [entry]);
    hide Distinct;
    entry.next.prev := entry.prev;
    entry.prev.next := entry.next;
    entry.next := null;
    entry.prev := null;
    assert Linked(x) && Linked(y);
    Joined(x, y);
  }

  /** `IQUEUE_IS_EMPTY`. */
  method IsEmpty(head: Node, ghost ns: seq<Node>) returns (empty: bool)
    requires Ring(head, ns)
    ensures empty <==> ns == []
  {
    ghost var ms := [head] + ns + [head];
    assert ms[0].next == ms[1];
    empty := head == head.next;
  }

  /** The neighbours of the node at position `i`. */
  lemma RingAt(head: Node, ns: seq<Node>, i: nat)
    requires Ring(head, ns) && i <= |ns|
    ensures i < |ns| ==> ns[i].prev == (if i == 0 then head else ns[i - 1]) && ns[i].next == (if i + 1 == |ns| then head else ns[i + 1])
    ensures head.next == (if ns == [] then head else ns[0]) && head.prev == (if ns == [] then head else ns[|ns| - 1])
  {
    var ms := [head] + ns + [head];
    assert ms[0].next == ms[1] && ms[|ns| + 1].prev == ms[|ns|];
    if i < |ns| {
      assert ms[i + 1].prev == ms[i] && ms[i + 1].next == ms[i + 2];
    }
  }

  lemma GapAt(head: Node, a: seq<Node>, b: seq<Node>)
    requires Ring(head, a + b)
    ensures ([head] + a)[|a|].next == (b + [head])[0]
    ensures (b + [head])[0].prev == ([head] + a)[|a|]
  {
    assert [head] + (a + b) + [head] == ([head] + a) + (b + [head]);
    Joined([head] + a, b + [head]);
  }

  ghost function Contents(ns: seq<Node>): seq<RcvSeg> {
    seq(|ns|, i requires 0 <= i < |ns| => ns[i].seg)
  }

  /** Between position `i` and the one before there is room for `sn`. */
  ghost predicate IsPlace(buf: seq<RcvSeg>, base: u32, sn: u32, i: nat) {
    && i <= |buf|
    && (forall j | 0 <= j < i :: Sub32(buf[j].sn, base) < Sub32(sn, base))
    && (i < |buf| ==> Sub32(sn, base) < Sub32(buf[i].sn, base))
  }

  lemma NewerThan(buf: seq<RcvSeg>, base: u32, n: int, sn: u32, i: nat)
    requires RecvBuffer.Ordered(buf, base, n) && Sub32(sn, base) < n <= MAX_WND
    requires 0 < i <= |buf| && Diff(sn, buf[i - 1].sn) > 0
    ensures forall j | 0 <= j < i :: Sub32(buf[j].sn, base) < Sub32(sn, base)
  {
  }

  lemma InsertedContents(ns: seq<Node>, base: u32, node: Node, i: nat)
    requires IsPlace(Contents(ns), base, node.seg.sn, i)
    ensures ns == ns[..i] + ns[i..]
    ensures Contents(ns[..i] + [node] + ns[i..]) == RecvBuffer.Insert(Contents(ns), base, node.seg)
    ensures forall m :: m in ns[..i] + [node] + ns[i..] <==> m in ns || m == node
  {
    RecvBuffer.InsertAt(Contents(ns), base, node.seg, i);
    assert ns == ns[..i] + ns[i..];
    assert Contents(ns[..i] + [node] + ns[i..]) == Contents(ns)[..i] + [node.seg] + Contents(ns)[i..];
  }

  /** A queue of the control block with its counter. */
  class Queue {
    const head: Node
    var count: nat
    ghost var nodes: seq<Node>

    ghost function Repr(): set<Node> reads `nodes { set n | n in nodes }

    /** The nodes whose pointers make up the ring. */
    ghost function Links(): set<Node> reads `nodes { {head} + Repr() }

    ghost predicate Valid()
      reads this, Links()`next, Links()`prev, Links()`owner
    {
      && Ring(head, nodes) && count == |nodes|
      && head.owner == this && forall n | n in nodes :: n.owner == this
    }

    constructor ()
      ensures Valid() && nodes == [] && fresh(head)
    {
      head := new Node.Head();
      count, nodes := 0, [];
      new;
      Init(head);
      head.owner := this;
    }

    /** Add a segment that is in no queue behind `p`: the head, or the last node of `a`. */
    method InsertBehind(node: Node, p: Node, ghost a: seq<Node>, ghost b: seq<Node>)
      requires Valid() && nodes == a + b && p == ([head] + a)[|a|] && node.owner == null
      modifies this, Links()`next, Links()`prev, Links()`owner, node`next, node`prev, node`owner
      ensures Valid() && nodes == a + [node] + b
    {
      GapAt(head, a, b);
      assert (p == head || p in a) && (p.next == head || p.next in b);
      assert forall m :: m in nodes <==> m in a || m in b;
      hide Ring, Distinct;
      Add(node, p, head, a, b);
      node.owner := this;
      count, nodes := count + 1, a + [node] + b;
    }

    /** Add it at the tail. */
    method Append(node: Node)
      requires Valid() && node.owner == null
      modifies this, Links()`next, Links()`prev, Links()`owner, node`next, node`prev, node`owner
      ensures Valid() && nodes == old(nodes) + [node]
    {
      RingAt(head, nodes, |nodes|);
      AddTail(node, head, nodes);
      node.owner := this;
      count, nodes := count + 1, nodes + [node];
    }

    /** Take the k-th segment out of the queue. */
    method Remove(node: Node, ghost k: nat)
      requires Valid() && k < |nodes| && nodes[k] == node
      modifies this, Links()`next, Links()`prev, Links()`owner
      ensures Valid() && nodes == old(nodes[..k] + nodes[k + 1..])
      ensures node.owner == null
    {
      RingAt(head, nodes, k);
      ghost var a, b := nodes[..k], nodes[k + 1..];
      assert nodes == a + [node] + b;
      Around(head, a, node, b);
      hide Ring, Distinct;
      Del(node, head, a, b);
      node.owner := null;
      count, nodes := count - 1, a + b;
    }

    method First() returns (node: Node)
      requires Valid() && nodes != []
      ensures node == nodes[0]
    {
      RingAt(head, nodes, 0);
      node := head.next;
    }

    method Last() returns (node: Node)
      requires Valid() && nodes != []
      ensures node == nodes[|nodes| - 1]
    {
      RingAt(head, nodes, |nodes|);
      node := head.prev;
    }

    /** Where a scan from the head is after `k` steps: back at the head in the end. */
    ghost function At(k: nat): Node reads `nodes {
      if k < |nodes| then nodes[k] else head
    }

    method Start() returns (p: Node)
      requires Valid()
      ensures p == At(0) && Valid()
    {
      RingAt(head, nodes, 0);
      p := head.next;
    }

    method Following(p: Node, ghost k: nat) returns (next: Node)
      requires Valid() && k < |nodes| && p == nodes[k]
      ensures next == At(k + 1) && Valid()
    {
      RingAt(head, nodes, k);
      next := p.next;
    }

    lemma AtHead(k: nat)
      requires Valid() && k <= |nodes|
      ensures At(k) == head <==> k == |nodes|
    {
      assert k < |nodes| ==> nodes[k] in nodes;
    }

    method Empty() returns (empty: bool)
      requires Valid()
      ensures Valid() && (empty <==> nodes == [])
    {
      empty := IsEmpty(head, nodes);
    }

    /** The scan of `ikcp_parse_data`: from the tail towards the head, for the place
        of a segment or for one with the same number. */
    method FindPlace(sn: u32, base: u32, n: int) returns (p: Node, repeated: bool, ghost i: nat)
      requires Valid() && RecvBuffer.Ordered(Contents(nodes), base, n)
      requires 0 <= Sub32(sn, base) < n <= MAX_WND
      ensures i <= |nodes| && p == ([head] + nodes)[i]
      ensures if repeated then i > 0 && nodes[i - 1].seg.sn == sn else IsPlace(Contents(nodes), base, sn, i)
    {
      ghost var buf := Contents(nodes);
      i := |nodes|;
      RingAt(head, nodes, i);
      hide Ring, Distinct;
      p := head.prev;
      repeated := false;
      while p != head
        invariant 0 <= i <= |nodes| && p == ([head] + nodes)[i]
        invariant i < |nodes| ==> Sub32(sn, base) < Sub32(buf[i].sn, base)
        invariant !repeated
        decreases i
      {
        assert p.seg == buf[i - 1];
        if p.seg.sn == sn {
          repeated := true;
          break;
        }
        if Diff(sn, p.seg.sn) > 0 {
          NewerThan(buf, base, n, sn, i);
          break;
        }
        RingAt(head, nodes, i - 1);
        i := i - 1;
        p := p.prev;
      }
    }

    /** The rest of `ikcp_parse_data` before the move to the queue; a repeated segment
        stays out of the queue and is freed by the caller. */
    method InsertSegment(newseg: Node, base: u32, n: int) returns (repeated: bool)
      requires Valid() && newseg.owner == null && Sub32(newseg.seg.sn, base) < n <= MAX_WND
      requires RecvBuffer.Ordered(Contents(nodes), base, n)
      modifies this, Links()`next, Links()`prev, Links()`owner, newseg`next, newseg`prev, newseg`owner
      ensures Valid()
      ensures Contents(nodes) == RecvBuffer.Insert(Contents(old(nodes)), base, newseg.seg)
      ensures repeated ==> nodes == old(nodes) && newseg.owner == null
      ensures !repeated ==> Repr() == old(Repr()) + {newseg}
    {
      var p;
      ghost var i;
      p, repeated, i := FindPlace(newseg.seg.sn, base, n);
      if !repeated {
        ghost var a, b := nodes[..i], nodes[i..];
        InsertedContents(nodes, base, newseg, i);
        hide RecvBuffer.Ordered, Contents, Ring, Distinct, IsPlace;
        InsertBehind(newseg, p, a, b);
      } else {
        RecvBuffer.InsertDuplicate(Contents(nodes), base, n, newseg.seg, i - 1);
      }
    }
  }
}
