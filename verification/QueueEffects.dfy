/** What a send adds to the queue of fragments, and what a receive takes and answers,
    said in the fields of the control block. */
module QueueEffects {
  import opened Serial
  import opened ControlBlock
  import opened Endpoint
  import opened EndpointInvariant
  import RecvBuffer

  // ---- send ----

  /** The bytes cut as late as possible: every fragment but the last is full. */
  ghost predicate CutLate(fs: seq<Frag>, data: seq<u8>, mss: u32) {
    && Bytes(fs) == data
    && (forall i | 0 <= i < |fs| - 1 :: |fs[i].data| == mss)
    && (fs != [] ==> |fs[|fs| - 1].data| <= mss && (fs[|fs| - 1].data == [] ==> data == []))
  }

  lemma {:induction false} FragmentsAreFull(data: seq<u8>, mss: u32, stream: bool)
    requires mss > 0
    ensures CutLate(Fragment(data, mss, stream), data, mss)
    decreases |data|
  {
    FragmentProps(data, mss, stream);
    if |data| > mss {
      var rest := Fragment(data[mss..], mss, stream);
      FragmentsAreFull(data[mss..], mss, stream);
      var fs := Fragment(data, mss, stream);
      forall i | 0 <= i < |fs| - 1 ensures |fs[i].data| == mss {
        assert i > 0 ==> fs[i] == rest[i - 1];
      }
      assert fs[|fs| - 1] == rest[|rest| - 1];
    }
  }

  /** Message mode: a send puts behind the queue the whole message, cut into full
      fragments that count down to 0, or nothing; an empty message is one fragment. */
  lemma MessageSendQueues(s: State, buffer: seq<u8>, len: int)
    requires len <= |buffer| && s.cfg.Mss() > 0 && !s.cfg.stream
    ensures var (s', code) := Send(s, buffer, len);
            var fs := s'.snd.queue[|s.snd.queue|..];
            && s.snd.queue <= s'.snd.queue
            && (code != 0 <==> fs == [])
            && (code == 0 ==> CutLate(fs, buffer[..len], s.cfg.Mss()))
            && (forall i | 0 <= i < |fs| :: fs[i].frg == |fs| - 1 - i)
  {
    var q := s.snd.queue;
    if len >= 0 {
      var data := buffer[0..len];
      assert data == buffer[..len];
      FragmentsAreFull(data, s.cfg.Mss(), false);
      FragmentProps(data, s.cfg.Mss(), false);
      var fs := Fragment(data, s.cfg.Mss(), false);
      assert (q + fs)[|q|..] == fs;
    }
    assert q[|q|..] == [];
    hide Fragment, CutLate;
  }

  /** Stream mode: a send first fills the last fragment of the queue, as far as the data
      goes, and queues the rest cut into full fragments, or, if those are too many, only
      fills the last one. */
  lemma StreamSendFills(s: State, buffer: seq<u8>, len: int)
    requires 0 <= len <= |buffer| && s.cfg.Mss() > 0 && s.cfg.stream && s.snd.queue != []
    ensures var (s', code) := Send(s, buffer, len);
            var q, q', mss, n := s.snd.queue, s'.snd.queue, s.cfg.Mss(), |s.snd.queue|;
            && n <= |q'| && q'[..n - 1] == q[..n - 1]
            && var tail, tail' := q[n - 1].data, q'[n - 1].data;
               var k := |tail'| - |tail|;
               && 0 <= k <= len && tail' == tail + buffer[..k]
               && |tail'| <= Max(|tail|, mss) && (k < len ==> |tail'| >= mss)
               && (code != 0 ==> |q'| == n)
               && (code == 0 ==> CutLate(q'[n..], buffer[k..len], mss) && (k == len ==> |q'| == n))
               && forall i | n <= i < |q'| :: q'[i].frg == 0
  {
    var n, room, mss := |s.snd.queue|, Room(s, len), s.cfg.Mss();
    var q1, rest := Tailed(s, buffer[..room]), buffer[room..len];
    TailFilled(s, buffer, len);
    var code := Send(s, buffer, len).1;
    var more := if code == 0 && len != room then Fragment(rest, mss, true) else [];
    SendQueue(s, buffer, len);
    hide Send, Tailed, Room, Fragment, CutLate;
    Behind(q1, more, n);
    if code == 0 && len != room {
      FragmentsAreFull(rest, mss, true);
      FragmentProps(rest, mss, true);
    } else {
      CutNothing(mss);
    }
  }

  lemma SendQueue(s: State, buffer: seq<u8>, len: int)
    requires 0 <= len <= |buffer| && s.cfg.Mss() > 0 && s.cfg.stream
    ensures var room, (s', code) := Room(s, len), Send(s, buffer, len);
            && (len == room ==> code == 0)
            && s'.snd.queue == Tailed(s, buffer[..room]) +
                 if code == 0 && len != room then Fragment(buffer[room..len], s.cfg.Mss(), true) else []
  {
    hide Fragment, Tailed, Room;
    var q1 := Tailed(s, buffer[..Room(s, len)]);
    assert q1 + [] == q1;
  }

  lemma Behind(q: seq<Frag>, more: seq<Frag>, n: nat)
    requires |q| == n > 0
    ensures (q + more)[n..] == more && (q + more)[..n - 1] == q[..n - 1] && (q + more)[n - 1] == q[n - 1]
  {
  }

  lemma CutNothing(mss: u32)
    ensures CutLate([], [], mss)
  {
  }

  lemma TailFilled(s: State, buffer: seq<u8>, len: int)
    requires 0 <= len <= |buffer| && s.cfg.stream && s.snd.queue != []
    ensures var q, room, n := s.snd.queue, Room(s, len), |s.snd.queue|;
            var q1 := Tailed(s, buffer[..room]);
            && room <= len && |q1| == n && q1[..n - 1] == q[..n - 1]
            && q1[n - 1].data == q[n - 1].data + buffer[..room]
            && |q1[n - 1].data| <= Max(|q[n - 1].data|, s.cfg.Mss()) && (room < len ==> |q1[n - 1].data| >= s.cfg.Mss())
  {
  }

  /** Stream mode with an empty queue: there is nothing to fill. */
  lemma StreamSendStarts(s: State, buffer: seq<u8>, len: int)
    requires 0 <= len <= |buffer| && s.cfg.Mss() > 0 && s.cfg.stream && s.snd.queue == []
    ensures var (s', code) := Send(s, buffer, len);
            && (code != 0 || len == 0 ==> s'.snd.queue == [])
            && (code == 0 ==> CutLate(s'.snd.queue, buffer[..len], s.cfg.Mss()))
            && forall f | f in s'.snd.queue :: f.frg == 0
  {
    var rest := buffer[0..len];
    assert rest == buffer[..len];
    FragmentsAreFull(rest, s.cfg.Mss(), true);
    FragmentProps(rest, s.cfg.Mss(), true);
    assert [] + Fragment(rest, s.cfg.Mss(), true) == Fragment(rest, s.cfg.Mss(), true);
    hide Fragment;
  }

  // ---- recv ----

  /** The first `k` fragments are one message, or what is there of it. */
  ghost predicate OneMessage(q: seq<Frag>, k: nat) {
    && (q != [] ==> 0 < k) && k <= |q|
    && (forall i | 0 <= i < k - 1 :: q[i].frg != 0)
    && (k < |q| ==> q[k - 1].frg == 0)
  }

  /** A receive answers -1 when nothing is there, -2 when not all of the first message is,
      -3 when there is not the room for it, and otherwise with the message, which leaves
      the queue unless `len` is negative. A queue that was full and is not any more makes
      the next flush tell the peer. */
  lemma RecvAnswers(s: State, len: int) returns (k: nat)
    ensures OneMessage(s.rcv.queue, k)
    ensures var q, msg := s.rcv.queue, Bytes(s.rcv.queue[..k]);
            var (s', code, data) := Recv(s, len);
            && (code == -1 <==> q == [])
            && (code == -2 <==> q != [] && |q| <= q[0].frg)
            && (code == -3 <==> q != [] && q[0].frg < |q| && |msg| > Max(len, -len))
            && (code < 0 ==> code >= -3 && s' == s && data == [])
            && (code >= 0 ==> code == |msg| && data == msg && (if len < 0 then q else q[k..]) <= s'.rcv.queue)
            && s'.rcv.acks == s.rcv.acks
            && s'.probe == s.probe.(tell := s.probe.tell || (code >= 0 && |q| >= s.cfg.rcvWnd && |s'.rcv.queue| < s.cfg.rcvWnd))
            && s' == s.(rcv := s'.rcv, probe := s'.probe)
  {
    var q := s.rcv.queue;
    k := RecvBuffer.MsgEnd(q);
    RecvBuffer.MsgEndProps(q);
    RecvBuffer.PeekSizeIsNextMsg(q);
    DrainGrows(s.rcv.(queue := if len < 0 then q else q[k..]), s.cfg.rcvWnd);
    hide RecvBuffer.PeekSize, RecvBuffer.MsgEnd, RecvBuffer.Drain, Bytes;
  }

  lemma {:induction false} DrainGrows(rcv: Receiver, wnd: u32)
    ensures rcv.queue <= RecvBuffer.Drain(rcv, wnd).queue && RecvBuffer.Drain(rcv, wnd).acks == rcv.acks
    decreases |rcv.buf|
  {
    if !RecvBuffer.Drained(rcv, wnd) { DrainGrows(RecvBuffer.MoveOne(rcv), wnd); }
  }
}
