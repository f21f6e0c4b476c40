/** How a flush fills datagrams: each segment goes into the one being filled if it
    still fits, and otherwise starts the next. */
module Packing {
  import opened Wire

  datatype PackState = PackState(done: seq<Packet>, cur: Packet)

  function Step(mtu: nat, st: PackState, w: WireSeg): PackState {
    if PacketSize(st.cur) + Size(w) > mtu then PackState(Packets(st), [w])
    else PackState(st.done, st.cur + [w])
  }

  /** The datagrams handed to the output, the last one included. */
  function Packets(st: PackState): seq<Packet> {
    if st.cur == [] then st.done else st.done + [st.cur]
  }

  function Pack(mtu: nat, items: seq<WireSeg>): PackState {
    if items == [] then PackState([], [])
    else Step(mtu, Pack(mtu, items[..|items| - 1]), items[|items| - 1])
  }

  function Flatten(ps: seq<Packet>): seq<WireSeg> {
    if ps == [] then [] else Flatten(ps[..|ps| - 1]) + ps[|ps| - 1]
  }

  lemma FlattenSnoc(ps: seq<Packet>, p: Packet)
    ensures Flatten(ps + [p]) == Flatten(ps) + p
  {
    assert (ps + [p])[..|ps|] == ps;
  }

  lemma {:induction false} SizeAppend(p: Packet, w: WireSeg)
    ensures PacketSize(p + [w]) == PacketSize(p) + Size(w)
  {
    if p == [] {
    } else {
      assert (p + [w])[1..] == p[1..] + [w];
      SizeAppend(p[1..], w);
    }
  }

  lemma StepFlatten(mtu: nat, st: PackState, w: WireSeg)
    ensures Flatten(Packets(Step(mtu, st, w))) == Flatten(Packets(st)) + [w]
  {
    if PacketSize(st.cur) + Size(w) > mtu {
      FlattenSnoc(Packets(st), [w]);
    } else {
      FlattenSnoc(st.done, st.cur + [w]);
      if st.cur == [] {
        assert [] + [w] == [w];
      } else {
        FlattenSnoc(st.done, st.cur);
        assert Flatten(st.done) + (st.cur + [w]) == (Flatten(st.done) + st.cur) + [w];
      }
    }
  }

  predicate Fits(mtu: nat, p: Packet) {
    p != [] && PacketSize(p) <= mtu
  }

  lemma StepFits(mtu: nat, st: PackState, w: WireSeg)
    requires Size(w) <= mtu && forall p | p in Packets(st) :: Fits(mtu, p)
    ensures forall p | p in Packets(Step(mtu, st, w)) :: Fits(mtu, p)
    ensures Step(mtu, st, w).cur != []
    ensures PacketSize(Step(mtu, st, w).cur) ==
            if PacketSize(st.cur) + Size(w) > mtu then Size(w) else PacketSize(st.cur) + Size(w)
  {
    SizeAppend(st.cur, w);
    SizeAppend([], w);
    assert [] + [w] == [w];
    var st' := Step(mtu, st, w);
    assert Fits(mtu, st'.cur);
    forall p | p in Packets(st') ensures Fits(mtu, p) {
      assert p == st'.cur || p in Packets(st);
    }
  }

  lemma {:induction false} PackFits(mtu: nat, items: seq<WireSeg>)
    requires forall w | w in items :: Size(w) <= mtu
    ensures forall p | p in Packets(Pack(mtu, items)) :: Fits(mtu, p)
    ensures Pack(mtu, items).cur == [] <==> items == []
  {
    hide Step, PacketSize, Size, Fits;
    if items != [] {
      var init, w := items[..|items| - 1], items[|items| - 1];
      forall v | v in init ensures Size(v) <= mtu { assert v in items; }
      PackFits(mtu, init);
      StepFits(mtu, Pack(mtu, init), w);
    }
  }

  lemma PackSnoc(mtu: nat, init: seq<WireSeg>, w: WireSeg)
    ensures Pack(mtu, init + [w]) == Step(mtu, Pack(mtu, init), w)
  {
    assert (init + [w])[..|init|] == init;
  }

  lemma PackNone(mtu: nat)
    ensures Flatten(Packets(Pack(mtu, []))) == []
  {
  }

  lemma {:induction false} PackFlatten(mtu: nat, items: seq<WireSeg>)
    ensures Flatten(Packets(Pack(mtu, items))) == items
  {
    hide *;
    if items == [] {
      PackNone(mtu);
    } else {
      var init, w := items[..|items| - 1], items[|items| - 1];
      PackFlatten(mtu, init);
      PackSnoc(mtu, init, w);
      StepFlatten(mtu, Pack(mtu, init), w);
      assert init + [w] == items;
    }
  }

  /** Packing loses, adds and reorders nothing, and every datagram fits. */
  lemma PackingIsFaithful(mtu: nat, items: seq<WireSeg>)
    requires forall w | w in items :: Size(w) <= mtu
    ensures Flatten(Packets(Pack(mtu, items))) == items
    ensures forall p | p in Packets(Pack(mtu, items)) :: Fits(mtu, p)
  {
    PackFlatten(mtu, items);
    PackFits(mtu, items);
  }

  /** Greedy stays ahead: against any other way to cut the same segments, in order,
      into datagrams that fit, packing has used fewer datagrams, or as many with
      no more in the last one. */
  lemma {:induction false} GreedyStaysAhead(mtu: nat, items: seq<WireSeg>, ps: seq<Packet>)
    requires forall w | w in items :: Size(w) <= mtu
    requires Flatten(ps) == items && forall p | p in ps :: PacketSize(p) <= mtu
    ensures |Packets(Pack(mtu, items))| <= |ps|
    ensures |Packets(Pack(mtu, items))| == |ps| > 0 ==>
              PacketSize(Pack(mtu, items).cur) <= PacketSize(ps[|ps| - 1])
    decreases |items|, |ps|
  {
    PackFits(mtu, items);
    if ps != [] {
      var front, last := ps[..|ps| - 1], ps[|ps| - 1];
      if last == [] {
        GreedyStaysAhead(mtu, items, front);
      } else {
        var init, w := items[..|items| - 1], items[|items| - 1];
        var last' := last[..|last| - 1];
        RemoveLast(front, last, items);
        SizeAppend(last', w);
        assert last in ps;
        assert forall v | v in init :: v in items;
        GreedyStaysAhead(mtu, init, front + [last']);
        PackFits(mtu, init);
        StepFits(mtu, Pack(mtu, init), w);
      }
    }
  }

  lemma RemoveLast(front: seq<Packet>, last: Packet, items: seq<WireSeg>)
    requires last != [] && Flatten(front) + last == items
    ensures items != [] && last == last[..|last| - 1] + [items[|items| - 1]]
    ensures Flatten(front + [last[..|last| - 1]]) == items[..|items| - 1]
  {
    FlattenSnoc(front, last[..|last| - 1]);
  }
}
