/** The timers and the timer manager as objects, proved against `TimerSet`. */
module TimerManager {
  import opened TimerSet

  /** A class `KTimer`, as far as the manager uses it. */
  class KTimer {
    const id: nat
    const tid: nat
    var time: nat
    var recycle: nat
    var cb: Callback

    ghost function View(): Timer reads this { Timer(time, id, recycle, cb, tid) }

    constructor (now: nat, ms: nat, cb: Callback, recycle: nat, tid: nat, id: nat)
      ensures View() == Timer(now + ms, id, recycle, cb, tid)
    {
      this.id, this.tid, time, this.recycle, this.cb := id, tid, now + ms, recycle, cb;
    }

    method Update()
      modifies `time
      ensures View() == Next(old(View()))
    {
      if recycle != 0 {
        time := time + recycle;
      }
    }

    method SetCallback(cb: Callback)
      modifies `cb
      ensures View() == old(View()).(cb := cb)
    {
      this.cb := cb;
    }
  }

  ghost function Views(ts: seq<KTimer>): (vs: seq<Timer>)
    reads ts
    ensures |vs| == |ts|
  {
    seq(|ts|, i requires 0 <= i < |ts| reads ts => ts[i].View())
  }

  /** What a caller gets for a timer: its callback and the thread to run it on. */
  function Job(t: Timer): (Callback, nat) { (t.cb, t.tid) }

  function Jobs(ts: seq<Timer>): seq<(Callback, nat)> {
    if ts == [] then [] else Jobs(ts[..|ts| - 1]) + [Job(ts[|ts| - 1])]
  }

  lemma HandedNone(rest: seq<Timer>, due: seq<Timer>)
    ensures Jobs(Handed(due[..0])) == [] && PutBack(rest, due[..0]) == rest
  {
  }

  lemma JobsStep(due: seq<Timer>, i: nat)
    requires i < |due|
    ensures Jobs(Handed(due[..i + 1])) == Jobs(Handed(due[..i])) + if due[i].cb.Callback? then [Job(due[i])] else []
  {
    var before := Handed(due[..i]);
    assert due[..i + 1][..i] == due[..i];
    assert Handed(due[..i + 1]) == before + if due[i].cb.Callback? then [due[i]] else [];
    assert (before + [due[i]])[..|before|] == before && before + [] == before;
  }

  lemma PutBackStep(rest: seq<Timer>, due: seq<Timer>, i: nat)
    requires i < |due|
    ensures PutBack(rest, due[..i + 1]) ==
            if Recurs(due[i]) then Insert(PutBack(rest, due[..i]), Next(due[i])) else PutBack(rest, due[..i])
  {
    assert due[..i + 1][..i] == due[..i];
  }

  /** Where insertion puts a timer. */
  lemma {:induction false} InsertAt(ts: seq<Timer>, t: Timer, i: nat)
    requires i <= |ts| && forall j | 0 <= j < i :: Before(ts[j], t)
    requires i < |ts| ==> !Before(ts[i], t)
    ensures Insert(ts, t) == if i < |ts| && !Before(t, ts[i]) then ts else ts[..i] + [t] + ts[i..]
  {
    if i == 0 {
      assert ts[..0] + [t] + ts[0..] == [t] + ts;
    } else {
      assert Before(ts[0], t) && !Before(t, ts[0]);
      hide Before;
      InsertAt(ts[1..], t, i - 1);
      PartsOf(ts, i, [t]);
    }
  }

  lemma PartsOf(ts: seq<Timer>, i: nat, mid: seq<Timer>)
    requires 0 < i <= |ts|
    ensures ts == [ts[0]] + ts[1..]
    ensures ts[..i] + mid + ts[i..] == [ts[0]] + (ts[1..][..i - 1] + mid + ts[1..][i - 1..])
  {
  }

  lemma ViewsCut(ts: seq<KTimer>, i: nat)
    requires i < |ts|
    ensures Views(ts[..i] + ts[i + 1..]) == Views(ts)[..i] + Views(ts)[i + 1..]
  {
  }

  lemma ViewsAt(ts: seq<KTimer>)
    ensures forall i | 0 <= i < |ts| :: Views(ts)[i] == ts[i].View()
  {
  }

  lemma ViewsPut(ts: seq<KTimer>, i: nat, t: KTimer)
    requires i <= |ts|
    ensures Views(ts[..i] + [t] + ts[i..]) == Views(ts)[..i] + [t.View()] + Views(ts)[i..]
  {
  }

  /** What deletion takes out. */
  lemma {:induction false} DeleteAt(ts: seq<Timer>, id: nat, i: nat)
    requires i <= |ts| && forall j | 0 <= j < i :: ts[j].id != id
    requires i < |ts| ==> ts[i].id == id
    ensures Delete(ts, id) == if i < |ts| then ts[..i] + ts[i + 1..] else ts
  {
    if i > 0 {
      DeleteAt(ts[1..], id, i - 1);
      assert ts == [ts[0]] + ts[1..];
    }
  }

  lemma RefsDistinct(ts: seq<KTimer>)
    requires Unique(Views(ts))
    ensures forall i, j | 0 <= i < j < |ts| :: ts[i] != ts[j]
  {
    forall i, j | 0 <= i < j < |ts| ensures ts[i] != ts[j] {
      assert Views(ts)[i].id != Views(ts)[j].id;
    }
  }

  const NO_TIMEOUT: nat := 0xffff_ffff_ffff_ffff

  class KTimerManager {
    var timers: seq<KTimer>
    var tickle: bool

    ghost predicate Valid()
      reads this, timers
    {
      Sorted(Views(timers)) && Unique(Views(timers))
    }

    constructor ()
      ensures Valid() && timers == []
    {
      timers, tickle := [], false;
    }

    /** `std::set::insert`, and whether the timer is now the first. */
    method Insert(timer: KTimer) returns (first: bool)
      modifies `timers
      ensures Views(timers) == TimerSet.Insert(Views(old(timers)), timer.View())
      ensures forall t | t in timers :: t in old(timers) || t == timer
      ensures first <==> old(timers) == [] || !Before(old(timers)[0].View(), timer.View())
    {
      hide TimerSet.Insert, Views;
      ghost var vs, v := Views(timers), timer.View();
      ViewsAt(timers);
      var i := Place(timer, vs);
      InsertAt(vs, v, i);
      if i == |timers| || timers[i].time > timer.time || timers[i].id > timer.id {
        ViewsPut(timers, i, timer);
        timers := timers[..i] + [timer] + timers[i..];
      }
      first := i == 0;
    }

    method Place(timer: KTimer, ghost vs: seq<Timer>) returns (i: nat)
      requires vs == Views(timers)
      ensures i <= |timers| == |vs| && forall j | 0 <= j < i :: Before(vs[j], timer.View())
      ensures i < |timers| ==> !Before(vs[i], timer.View())
    {
      i := 0;
      while i < |timers| && (timers[i].time < timer.time || (timers[i].time == timer.time && timers[i].id < timer.id))
        invariant 0 <= i <= |timers|
        invariant forall j | 0 <= j < i :: Before(vs[j], timer.View())
      {
        i := i + 1;
      }
    }

    /** `listExpiredTimer`. */
    method ListExpiredTimer(now: nat) returns (cbs: seq<(Callback, nat)>)
      requires Valid()
      modifies this, timers
      ensures var (handed, left) := Expire(old(Views(timers)), now);
              cbs == Jobs(handed) && Views(timers) == left
      ensures Valid() && forall t | t in timers :: t in old(timers)
    {
      hide Sorted, Unique, DueCount, Handed, PutBack, Views, Jobs;
      ExpireHandsOutTheDue(Views(timers), now);
      var it := CountDue(now);
      var expired := TakeOut(it);
      cbs := HandOutAll(expired);
    }

    /** Take the first `it` timers out of the set. */
    method TakeOut(it: nat) returns (expired: seq<KTimer>)
      requires Unique(Views(timers)) && it <= |timers|
      modifies `timers
      ensures Views(expired) == old(Views(timers))[..it] && Views(timers) == old(Views(timers))[it..]
      ensures forall t | t in expired :: t !in timers
      ensures forall i, j | 0 <= i < j < |expired| :: expired[i] != expired[j]
      ensures expired == old(timers)[..it] && timers == old(timers)[it..]
    {
      RefsDistinct(timers);
      hide Unique;
      expired := timers[..it];
      timers := timers[it..];
    }

    /** The loop over the timers that were taken out. */
    method HandOutAll(expired: seq<KTimer>) returns (cbs: seq<(Callback, nat)>)
      requires forall t | t in expired :: t !in timers
      requires forall i, j | 0 <= i < j < |expired| :: expired[i] != expired[j]
      modifies `timers, expired
      ensures cbs == Jobs(Handed(old(Views(expired))))
      ensures Views(timers) == PutBack(old(Views(timers)), old(Views(expired)))
      ensures forall t | t in timers :: t in old(timers) || t in expired
    {
      hide Views, Jobs, Handed, PutBack, TimerSet.Insert;
      ghost var due, rest := Views(expired), Views(timers);
      HandedNone(rest, due);
      ViewsAt(expired);
      cbs := [];
      var i := 0;
      while i < |expired|
        invariant 0 <= i <= |expired|
        invariant forall j | i <= j < |expired| :: expired[j] !in timers && expired[j].View() == due[j]
        invariant cbs == Jobs(Handed(due[..i])) && Views(timers) == PutBack(rest, due[..i])
        invariant forall t | t in timers :: t in old(timers) || t in expired
      {
        JobsStep(due, i);
        PutBackStep(rest, due, i);
        var more := HandOut(expired[i]);
        cbs := cbs + more;
        i := i + 1;
      }
      assert due[..i] == due;
    }

    /** One timer: hand out its callback unless it was cancelled, and put it back
        with its next deadline if it recurs. */
    method HandOut(timer: KTimer) returns (job: seq<(Callback, nat)>)
      requires timer !in timers
      modifies `timers, timer`time
      ensures var v := old(timer.View());
              && job == (if v.cb.Callback? then [Job(v)] else [])
              && Views(timers) == if Recurs(v) then TimerSet.Insert(old(Views(timers)), Next(v)) else old(Views(timers))
      ensures forall t | t in timers :: t in old(timers) || t == timer
    {
      job := [];
      if timer.cb != NoCallback {
        job := [(timer.cb, timer.tid)];
        if timer.recycle != 0 {
          timer.Update();
          var _ := Insert(timer);
        }
      }
    }

    /** How many timers at the front are due. */
    method CountDue(now: nat) returns (it: nat)
      ensures it == DueCount(Views(timers), now) <= |timers|
    {
      it := 0;
      while it < |timers| && timers[it].time <= now
        invariant 0 <= it <= |timers|
        invariant DueCount(Views(timers), now) == it + DueCount(Views(timers)[it..], now)
      {
        assert Views(timers)[it..][1..] == Views(timers)[it + 1..];
        it := it + 1;
      }
    }

    /** `addTimer`; the result says whether the waiting thread must be told. */
    method AddTimer(timer: KTimer) returns (notify: bool)
      requires Valid() && !HasId(Views(timers), timer.id)
      modifies `timers, `tickle
      ensures Valid() && Views(timers) == TimerSet.Insert(old(Views(timers)), timer.View())
      ensures notify <==> !old(tickle) && (old(timers) == [] || Before(timer.View(), old(timers)[0].View()))
      ensures tickle == (old(tickle) || notify)
    {
      ghost var vs := Views(timers);
      assert timers != [] ==> vs[0] in vs;
      InsertProps(vs, timer.View());
      hide Sorted, Unique;
      var first := Insert(timer);
      notify := first && !tickle;
      if notify {
        tickle := true;
      }
    }

    /** `delTimer`. */
    method DelTimer(id: nat)
      requires Valid()
      modifies `timers
      ensures Valid() && Views(timers) == Delete(old(Views(timers)), id)
    {
      hide Sorted, Unique, Delete, Views;
      ghost var vs := Views(timers);
      DeleteProps(vs, id);
      var i := Find(id, vs);
      DeleteAt(vs, id, i);
      if i < |timers| {
        ViewsCut(timers, i);
        timers := timers[..i] + timers[i + 1..];
      }
    }

    method Find(id: nat, ghost vs: seq<Timer>) returns (i: nat)
      requires vs == Views(timers)
      ensures i <= |timers| == |vs| && forall j | 0 <= j < i :: vs[j].id != id
      ensures i < |timers| ==> vs[i].id == id
    {
      i := 0;
      while i < |timers| && timers[i].id != id
        invariant 0 <= i <= |timers|
        invariant forall j | 0 <= j < i :: vs[j].id != id
      {
        i := i + 1;
      }
    }

    /** `getNearTimeout`: nothing is due before the time it names, and something is
        due from then on. */
    method GetNearTimeout(now: nat) returns (wait: nat)
      modifies `tickle
      ensures !tickle
      ensures timers == [] ==> wait == NO_TIMEOUT
      ensures timers != [] ==> forall u | u >= now :: DueCount(Views(timers), u) > 0 <==> u - now >= wait
    {
      tickle := false;
      if timers == [] {
        wait := NO_TIMEOUT;
      } else if now >= timers[0].time {
        wait := 0;
      } else {
        wait := timers[0].time - now;
      }
    }
  }
}
