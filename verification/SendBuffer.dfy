/** The send buffer: what acknowledgements do to it. The scans of ikcp.c stop
    early; here they are plain filters and maps over the whole buffer. */
module SendBuffer {
  import opened Serial
  import opened ControlBlock

  /** Strictly increasing in wrap order inside [base, base + n). */
  ghost predicate Ordered(buf: seq<SndSeg>, base: u32, n: int) {
    && (forall i | 0 <= i < |buf| :: Sub32(buf[i].sn, base) < n)
    && (forall i, j | 0 <= i < j < |buf| :: Sub32(buf[i].sn, base) < Sub32(buf[j].sn, base))
  }

  ghost predicate FragOk(f: Frag, mss: u32) {
    |f.data| <= mss && f.frg <= WND_RCV - 2
  }

  function InFlight(snd: Sender): u32 {
    Sub32(snd.nxt, snd.una)
  }

  ghost predicate Inv(snd: Sender, mss: u32) {
    && InFlight(snd) <= MAX_WND
    && Ordered(snd.buf, snd.una, InFlight(snd))
    && snd.una == Shrink(snd.buf, snd.nxt)
    && (forall f | f in snd.queue :: FragOk(f, mss))
    && (forall g | g in snd.buf :: FragOk(g.frag, mss))
  }

  /** `ikcp_shrink_buf`: the oldest unacknowledged serial number. */
  function Shrink(buf: seq<SndSeg>, nxt: u32): u32 {
    if buf == [] then nxt else buf[0].sn
  }

  /** The segments at least `k` past `base`. */
  function KeepFrom(buf: seq<SndSeg>, base: u32, k: u32): seq<SndSeg> {
    if buf == [] then []
    else (if Sub32(buf[0].sn, base) >= k then [buf[0]] else []) + KeepFrom(buf[1..], base, k)
  }

  function Without(buf: seq<SndSeg>, sn: u32): seq<SndSeg> {
    if buf == [] then []
    else (if buf[0].sn != sn then [buf[0]] else []) + Without(buf[1..], sn)
  }

  /** `ikcp_parse_una`: a cumulative acknowledgement. One that lies in the half of
      the serial space behind `snd_una` is old and removes nothing. */
  function ParseUna(snd: Sender, una: u32): seq<SndSeg> {
    if Sub32(una, snd.una) < HALF then KeepFrom(snd.buf, snd.una, Sub32(una, snd.una)) else snd.buf
  }

  /** `sn` names a segment that was numbered and may still be unacknowledged. */
  predicate Outstanding(snd: Sender, sn: u32) {
    Sub32(sn, snd.una) < InFlight(snd)
  }

  /** `ikcp_parse_ack`: a selective acknowledgement. */
  function ParseAck(snd: Sender, sn: u32): seq<SndSeg> {
    if Outstanding(snd, sn) then Without(snd.buf, sn) else snd.buf
  }

  function Skipped(g: SndSeg): SndSeg {
    g.(fastack := Add32(g.fastack, 1))
  }

  /** `ikcp_parse_fastack`: every segment older than `sn` was overtaken once more. */
  function ParseFastack(snd: Sender, sn: u32): seq<SndSeg> {
    if Outstanding(snd, sn) then
      seq(|snd.buf|, i requires 0 <= i < |snd.buf| =>
        if Sub32(snd.buf[i].sn, snd.una) < Sub32(sn, snd.una) then Skipped(snd.buf[i]) else snd.buf[i])
    else
      snd.buf
  }

  function HearUna(snd: Sender, una: u32): Sender {
    var buf := ParseUna(snd, una);
    snd.(buf := buf, una := Shrink(buf, snd.nxt))
  }

  function HearAck(snd: Sender, sn: u32): Sender {
    var buf := ParseAck(snd, sn);
    snd.(buf := buf, una := Shrink(buf, snd.nxt))
  }

  // ---- the filters on an ordered buffer ----

  lemma OrderedBound(buf: seq<SndSeg>, base: u32, n: int)
    requires Ordered(buf, base, n)
    ensures forall g | g in buf :: Sub32(g.sn, base) < n
  {
  }

  lemma OrderedTail(buf: seq<SndSeg>, base: u32, n: int)
    requires Ordered(buf, base, n) && buf != []
    ensures Ordered(buf[1..], base, n)
    ensures forall g | g in buf[1..] :: Sub32(buf[0].sn, base) < Sub32(g.sn, base)
    ensures forall g :: g in buf <==> g == buf[0] || g in buf[1..]
  {
    assert forall i | 0 <= i < |buf[1..]| :: buf[1..][i] == buf[i + 1];
  }

  lemma OrderedCons(h: SndSeg, t: seq<SndSeg>, base: u32, n: int)
    requires Ordered(t, base, n) && Sub32(h.sn, base) < n
    requires forall g | g in t :: Sub32(h.sn, base) < Sub32(g.sn, base)
    ensures Ordered([h] + t, base, n)
  {
    var buf := [h] + t;
    forall i, j | 0 <= i < j < |buf| ensures Sub32(buf[i].sn, base) < Sub32(buf[j].sn, base) {
      assert buf[j] == t[j - 1] && buf[j] in t;
    }
  }

  lemma {:induction false} KeepFromProps(buf: seq<SndSeg>, base: u32, k: u32, n: int)
    requires Ordered(buf, base, n)
    ensures forall g :: g in KeepFrom(buf, base, k) <==> g in buf && Sub32(g.sn, base) >= k
    ensures Ordered(KeepFrom(buf, base, k), base, n)
  {
    if buf != [] {
      OrderedTail(buf, base, n);
      KeepFromProps(buf[1..], base, k, n);
      OrderedCons(buf[0], KeepFrom(buf[1..], base, k), base, n);
    }
  }

  lemma {:induction false} KeepFromAll(buf: seq<SndSeg>, base: u32, k: u32)
    requires forall g | g in buf :: Sub32(g.sn, base) >= k
    ensures KeepFrom(buf, base, k) == buf
  {
    if buf != [] {
      KeepFromAll(buf[1..], base, k);
    }
  }

  lemma {:induction false} WithoutProps(buf: seq<SndSeg>, sn: u32, base: u32, n: int)
    requires Ordered(buf, base, n)
    ensures forall g :: g in Without(buf, sn) <==> g in buf && g.sn != sn
    ensures Ordered(Without(buf, sn), base, n)
  {
    if buf != [] {
      OrderedTail(buf, base, n);
      WithoutProps(buf[1..], sn, base, n);
      OrderedCons(buf[0], Without(buf[1..], sn), base, n);
    }
  }

  lemma {:induction false} WithoutAbsent(buf: seq<SndSeg>, sn: u32)
    requires forall g | g in buf :: g.sn != sn
    ensures Without(buf, sn) == buf
  {
    if buf != [] {
      WithoutAbsent(buf[1..], sn);
    }
  }

  /** On an ordered buffer the filter takes out one segment. */
  lemma {:induction false} WithoutAt(buf: seq<SndSeg>, sn: u32, base: u32, n: int, i: nat)
    requires Ordered(buf, base, n) && i < |buf| && buf[i].sn == sn
    ensures Without(buf, sn) == buf[..i] + buf[i + 1..]
  {
    assert forall j | 0 <= j < |buf[1..]| :: buf[1..][j] == buf[j + 1];
    if i == 0 {
      WithoutAbsent(buf[1..], sn);
    } else {
      WithoutAt(buf[1..], sn, base, n, i - 1);
      assert buf[..i] + buf[i + 1..] == [buf[0]] + (buf[1..][..i - 1] + buf[1..][i..]);
    }
  }

  /** Newly numbered segments go at the end. */
  lemma AppendOrdered(buf: seq<SndSeg>, new': seq<SndSeg>, base: u32, m: int)
    requires Ordered(buf, base, m) && m + |new'| <= TWO32
    requires forall i | 0 <= i < |new'| :: Sub32(new'[i].sn, base) == m + i
    ensures Ordered(buf + new', base, m + |new'|)
  {
    var all := buf + new';
    forall i | 0 <= i < |all|
      ensures if i < |buf| then Sub32(all[i].sn, base) == Sub32(buf[i].sn, base) else Sub32(all[i].sn, base) == m + (i - |buf|)
    {
      assert i >= |buf| ==> all[i] == new'[i - |buf|];
    }
  }

  lemma RebaseOrdered(buf: seq<SndSeg>, base: u32, n: int, d: u32)
    requires Ordered(buf, base, n) && forall i | 0 <= i < |buf| :: Sub32(buf[i].sn, base) >= d
    ensures Ordered(buf, Add32(base, d), n - d)
  {
    forall i | 0 <= i < |buf| ensures Sub32(buf[i].sn, Add32(base, d)) == Sub32(buf[i].sn, base) - d {
      Rebase(buf[i].sn, base, d);
    }
  }

  /** Taking any segments out and shrinking keeps the invariant and never moves
      `snd_una` back: it advances by at most the number in flight. */
  lemma ShrinkKeepsInv(snd: Sender, buf: seq<SndSeg>, mss: u32)
    requires Inv(snd, mss)
    requires Ordered(buf, snd.una, InFlight(snd)) && forall g | g in buf :: g in snd.buf
    ensures var snd' := snd.(buf := buf, una := Shrink(buf, snd.nxt));
            && Inv(snd', mss)
            && Sub32(snd'.una, snd.una) + InFlight(snd') == InFlight(snd)
  {
    var una' := Shrink(buf, snd.nxt);
    var d := Sub32(una', snd.una);
    assert una' == Add32(snd.una, d);
    if buf != [] {
      assert forall i | 0 < i < |buf| :: Sub32(buf[0].sn, snd.una) < Sub32(buf[i].sn, snd.una);
    }
    RebaseOrdered(buf, snd.una, InFlight(snd), d);
    Rebase(snd.nxt, snd.una, d);
  }

  /** Whatever number the peer acknowledges cumulatively. */
  lemma HearUnaKeepsInv(snd: Sender, una: u32, mss: u32)
    requires Inv(snd, mss)
    ensures Inv(HearUna(snd, una), mss)
    ensures Sub32(HearUna(snd, una).una, snd.una) + InFlight(HearUna(snd, una)) == InFlight(snd)
    ensures forall g :: g in HearUna(snd, una).buf <==>
              g in snd.buf && (Sub32(una, snd.una) < HALF ==> Sub32(g.sn, snd.una) >= Sub32(una, snd.una))
  {
    KeepFromProps(snd.buf, snd.una, Sub32(una, snd.una), InFlight(snd));
    ShrinkKeepsInv(snd, ParseUna(snd, una), mss);
  }

  /** Whatever number the peer acknowledges selectively. */
  lemma HearAckKeepsInv(snd: Sender, sn: u32, mss: u32)
    requires Inv(snd, mss)
    ensures Inv(HearAck(snd, sn), mss)
    ensures Sub32(HearAck(snd, sn).una, snd.una) + InFlight(HearAck(snd, sn)) == InFlight(snd)
    ensures forall g :: g in HearAck(snd, sn).buf <==> g in snd.buf && g.sn != sn
  {
    WithoutProps(snd.buf, sn, snd.una, InFlight(snd));
    if !Outstanding(snd, sn) {
      assert forall g | g in snd.buf :: g.sn != sn;
    }
    ShrinkKeepsInv(snd, ParseAck(snd, sn), mss);
  }

  lemma ParseFastackKeepsInv(snd: Sender, sn: u32, mss: u32)
    requires Inv(snd, mss)
    ensures Inv(snd.(buf := ParseFastack(snd, sn)), mss)
  {
    var buf := ParseFastack(snd, sn);
    assert forall i | 0 <= i < |buf| :: buf[i].sn == snd.buf[i].sn && buf[i].frag == snd.buf[i].frag;
    assert forall i | 0 <= i < |buf| :: snd.buf[i] in snd.buf;
  }

  // ---- the scans, one step at a time ----

  /** `cur` is what the scan for `una` has left so far: one behind removes nothing, and
      otherwise the filter keeps the same of `cur` as of the whole buffer. */
  ghost predicate UnaScanned(snd: Sender, una: u32, cur: seq<SndSeg>) {
    var k := Sub32(una, snd.una);
    && Ordered(cur, snd.una, InFlight(snd))
    && if k < HALF then KeepFrom(cur, snd.una, k) == KeepFrom(snd.buf, snd.una, k) else cur == snd.buf
  }

  lemma UnaStart(snd: Sender, una: u32, mss: u32)
    requires Inv(snd, mss)
    ensures UnaScanned(snd, una, snd.buf)
    ensures UnaScanned(snd, una, []) ==> ParseUna(snd, una) == []
  {
  }

  /** Each step drops the front segment or ends the scan. */
  lemma UnaStep(snd: Sender, una: u32, cur: seq<SndSeg>, mss: u32)
    requires Inv(snd, mss) && UnaScanned(snd, una, cur) && cur != []
    ensures if Diff(una, cur[0].sn) > 0 then UnaScanned(snd, una, cur[1..]) else ParseUna(snd, una) == cur
  {
    OrderedTail(cur, snd.una, InFlight(snd));
    if Sub32(una, snd.una) < HALF && Diff(una, cur[0].sn) <= 0 {
      KeepFromAll(cur, snd.una, Sub32(una, snd.una));
    }
  }

  /** The scan for `sn` finds the segment, or stops where none of that number can follow. */
  lemma AckStop(snd: Sender, sn: u32, i: nat, mss: u32)
    requires Inv(snd, mss) && i <= |snd.buf| && forall j | 0 <= j < i :: snd.buf[j].sn != sn
    requires i < |snd.buf| ==> Diff(sn, snd.buf[i].sn) < 0
    ensures ParseAck(snd, sn) == snd.buf
  {
    if Outstanding(snd, sn) {
      forall g | g in snd.buf ensures g.sn != sn {
        var j :| 0 <= j < |snd.buf| && snd.buf[j] == g;
        assert j > i ==> Sub32(snd.buf[i].sn, snd.una) < Sub32(snd.buf[j].sn, snd.una);
      }
      WithoutAbsent(snd.buf, sn);
    }
  }

  /** The range check of the scan. */
  lemma FastackRange(snd: Sender, sn: u32, mss: u32)
    requires Inv(snd, mss)
    ensures Outstanding(snd, sn) <==> !(Diff(sn, snd.una) < 0 || Diff(sn, snd.nxt) >= 0)
    ensures |ParseFastack(snd, sn)| == |snd.buf|
    ensures !Outstanding(snd, sn) ==> ParseFastack(snd, sn) == snd.buf
  {
  }

  /** One step of the scan: a newer segment ends it, since all later ones are newer. */
  lemma FastackAt(snd: Sender, sn: u32, mss: u32, i: nat)
    requires Inv(snd, mss) && Outstanding(snd, sn) && i < |snd.buf|
    ensures var spec := ParseFastack(snd, sn);
            && |spec| == |snd.buf|
            && (Diff(sn, snd.buf[i].sn) < 0 ==> forall j | i <= j < |spec| :: spec[j] == snd.buf[j])
            && (Diff(sn, snd.buf[i].sn) >= 0 ==>
                  spec[i] == if sn != snd.buf[i].sn then Skipped(snd.buf[i]) else snd.buf[i])
  {
    var spec := ParseFastack(snd, sn);
    forall j | i <= j < |spec| && Diff(sn, snd.buf[i].sn) < 0 ensures spec[j] == snd.buf[j] {
      assert i < j ==> Sub32(snd.buf[i].sn, snd.una) < Sub32(snd.buf[j].sn, snd.una);
    }
  }

  // ---- how the filters relate to the signed comparison ----

  /** The plain filter by `_itimediff(una, seg->sn) > 0`, without the early exit. */
  function SignedFilter(buf: seq<SndSeg>, una: u32): seq<SndSeg> {
    if buf == [] then []
    else (if Diff(una, buf[0].sn) > 0 then [] else [buf[0]]) + SignedFilter(buf[1..], una)
  }

  /** The scan with its early exit is the plain signed filter, for every buffer
      and every `una`, exactly unless `una` lies just past the antipode of
      `snd_una`, so close that the newest segment in flight is beyond it. */
  lemma UnaScanIsSignedFilter(snd: Sender, una: u32, mss: u32)
    requires Inv(snd, mss)
    ensures ParseUna(snd, una) == SignedFilter(snd.buf, una) <==>
            || snd.buf == []
            || Sub32(una, snd.una) < HALF
            || Sub32(snd.buf[|snd.buf| - 1].sn, snd.una) <= Sub32(una, snd.una) - HALF
  {
    var k := Sub32(una, snd.una);
    if k < HALF {
      SignedFilterIsKeepFrom(snd.buf, snd.una, una);
    } else if snd.buf != [] {
      var last := snd.buf[|snd.buf| - 1];
      if Sub32(last.sn, snd.una) <= k - HALF {
        forall g | g in snd.buf ensures Diff(una, g.sn) <= 0 {
          var i :| 0 <= i < |snd.buf| && snd.buf[i] == g;
          assert Sub32(g.sn, snd.una) <= Sub32(last.sn, snd.una);
        }
        SignedFilterAll(snd.buf, una);
      } else {
        SignedFilterDrops(snd.buf, una, last);
        assert last in snd.buf;
      }
    }
  }

  /** They do differ: with 0 and 1 in flight, a `una` of 2^31 is behind 0, where the scan
      stops, but ahead of 1. */
  lemma UnaScanDiffers(f: Frag, mss: u32)
    requires FragOk(f, mss)
    ensures var snd := Sender(0, 2, [], [SndSeg(f, 0, 0, 0, 0, 1), SndSeg(f, 1, 0, 0, 0, 1)]);
            && Inv(snd, mss)
            && ParseUna(snd, HALF) == snd.buf
            && SignedFilter(snd.buf, HALF) == snd.buf[..1]
  {
    var snd := Sender(0, 2, [], [SndSeg(f, 0, 0, 0, 0, 1), SndSeg(f, 1, 0, 0, 0, 1)]);
    assert SignedFilter(snd.buf[1..], HALF) == SignedFilter(snd.buf[1..][1..], HALF) == [];
    assert SignedFilter(snd.buf, HALF) == [snd.buf[0]] + SignedFilter(snd.buf[1..], HALF);
  }

  lemma {:induction false} SignedFilterIsKeepFrom(buf: seq<SndSeg>, base: u32, una: u32)
    requires Sub32(una, base) < HALF && forall g | g in buf :: Sub32(g.sn, base) < MAX_WND
    ensures SignedFilter(buf, una) == KeepFrom(buf, base, Sub32(una, base))
  {
    if buf != [] {
      assert buf[0] in buf;
      SignedFilterIsKeepFrom(buf[1..], base, una);
    }
  }

  lemma {:induction false} SignedFilterAll(buf: seq<SndSeg>, una: u32)
    requires forall g | g in buf :: Diff(una, g.sn) <= 0
    ensures SignedFilter(buf, una) == buf
  {
    if buf != [] {
      assert buf[0] in buf;
      SignedFilterAll(buf[1..], una);
    }
  }

  lemma {:induction false} SignedFilterDrops(buf: seq<SndSeg>, una: u32, g: SndSeg)
    requires Diff(una, g.sn) > 0
    ensures g !in SignedFilter(buf, una)
  {
    if buf != [] {
      SignedFilterDrops(buf[1..], una, g);
    }
  }
}
