/** The timer set: timers ordered by deadline, then number, handed out when due and
    put back when they recur. */
module TimerSet {
  import Congestion

  datatype Callback = NoCallback | Callback(task: nat)

  /** A timer as the set sees it; `time` and `recycle` are milliseconds. */
  datatype Timer = Timer(time: nat, id: nat, recycle: nat, cb: Callback, tid: nat)

  /** `KTimer::Comparator`. */
  predicate Before(a: Timer, b: Timer) {
    if a.time == b.time then a.id < b.id else a.time < b.time
  }

  ghost predicate Sorted(ts: seq<Timer>) {
    forall i, j | 0 <= i < j < |ts| :: Before(ts[i], ts[j])
  }

  /** No number twice. */
  ghost predicate Unique(ts: seq<Timer>) {
    forall i, j | 0 <= i < j < |ts| :: ts[i].id != ts[j].id
  }

  // ---- what the operations do ----

  /** `std::set::insert`: an equivalent element stays. */
  function Insert(ts: seq<Timer>, t: Timer): seq<Timer> {
    if ts == [] || Before(t, ts[0]) then [t] + ts
    else if Before(ts[0], t) then [ts[0]] + Insert(ts[1..], t)
    else ts
  }

  /** How many timers at the front are due. */
  function DueCount(ts: seq<Timer>, now: nat): (k: nat)
    ensures k <= |ts|
  {
    if ts == [] || ts[0].time > now then 0 else 1 + DueCount(ts[1..], now)
  }

  /** The timers among `ts` that were not cancelled. */
  function Handed(ts: seq<Timer>): seq<Timer> {
    if ts == [] then []
    else Handed(ts[..|ts| - 1]) + (if ts[|ts| - 1].cb.Callback? then [ts[|ts| - 1]] else [])
  }

  /** `KTimer::update`. */
  function Next(t: Timer): Timer {
    t.(time := t.time + t.recycle)
  }

  predicate Recurs(t: Timer) {
    t.cb.Callback? && t.recycle > 0
  }

  /** `ts` with the recurring ones among `due` put back. */
  function PutBack(ts: seq<Timer>, due: seq<Timer>): seq<Timer> {
    if due == [] then ts
    else
      var init, last := PutBack(ts, due[..|due| - 1]), due[|due| - 1];
      if Recurs(last) then Insert(init, Next(last)) else init
  }

  /** `listExpiredTimer`: the timers handed out and the set that is left. */
  function Expire(ts: seq<Timer>, now: nat): (seq<Timer>, seq<Timer>) {
    var k := DueCount(ts, now);
    (Handed(ts[..k]), PutBack(ts[k..], ts[..k]))
  }

  /** `delTimer`. */
  function Delete(ts: seq<Timer>, id: nat): seq<Timer> {
    if ts == [] then [] else if ts[0].id == id then ts[1..] else [ts[0]] + Delete(ts[1..], id)
  }

  // ---- insertion ----

  lemma Prepend(t: Timer, ts: seq<Timer>)
    requires Sorted(ts) && Unique(ts) && forall u | u in ts :: Before(t, u) && u.id != t.id
    ensures Sorted([t] + ts) && Unique([t] + ts)
  {
    var all := [t] + ts;
    assert forall i | 0 < i < |all| :: all[i] == ts[i - 1] && all[i] in ts;
  }

  lemma Tail(ts: seq<Timer>)
    requires Sorted(ts) && Unique(ts) && ts != []
    ensures Sorted(ts[1..]) && Unique(ts[1..])
    ensures forall t :: t in ts <==> t == ts[0] || t in ts[1..]
    ensures forall t | t in ts[1..] :: Before(ts[0], t) && t.id != ts[0].id
  {
    assert forall i | 0 < i < |ts| :: Before(ts[0], ts[i]) && ts[i].id != ts[0].id;
  }

  lemma {:induction false} InsertProps(ts: seq<Timer>, t: Timer)
    requires Sorted(ts) && Unique(ts) && forall u | u in ts :: u.id != t.id
    ensures Sorted(Insert(ts, t)) && Unique(Insert(ts, t))
    ensures forall u :: u in Insert(ts, t) <==> u in ts || u == t
  {
    if ts == [] {
      Prepend(t, ts);
    } else {
      Tail(ts);
      hide Sorted, Unique;
      if Before(t, ts[0]) {
        Prepend(t, ts);
      } else {
        InsertProps(ts[1..], t);
        Prepend(ts[0], Insert(ts[1..], t));
      }
    }
  }

  // ---- expiry ----

  lemma {:induction false} DuePrefix(ts: seq<Timer>, now: nat)
    requires Sorted(ts)
    ensures forall i | 0 <= i < |ts| :: ts[i].time <= now <==> i < DueCount(ts, now)
  {
    if ts != [] {
      DuePrefix(ts[1..], now);
      assert forall i | 0 < i < |ts| :: ts[i] == ts[1..][i - 1] && ts[0].time <= ts[i].time;
    }
  }

  lemma {:induction false} HandedProps(ts: seq<Timer>)
    requires Sorted(ts)
    ensures Sorted(Handed(ts))
    ensures forall t :: t in Handed(ts) <==> t in ts && t.cb.Callback?
  {
    if ts != [] {
      var init, last := ts[..|ts| - 1], ts[|ts| - 1];
      HandedProps(init);
      assert forall t | t in init :: t in ts && Before(t, last);
      assert forall t | t in ts :: t in init || t == last;
    }
  }

  lemma {:induction false} PutBackProps(ts: seq<Timer>, due: seq<Timer>)
    requires Sorted(ts) && Unique(ts + due)
    ensures Sorted(PutBack(ts, due)) && Unique(PutBack(ts, due))
    ensures forall t :: t in PutBack(ts, due) <==> t in ts || exists u :: u in due && Recurs(u) && t == Next(u)
  {
    if due == [] {
      assert ts + due == ts;
    } else {
      var init, last := due[..|due| - 1], due[|due| - 1];
      var all := ts + due;
      assert (ts + init) == all[..|all| - 1] && last == all[|all| - 1];
      PutBackProps(ts, init);
      var back := PutBack(ts, init);
      assert forall u | u in due :: u in init || u == last;
      assert forall u | u in init :: u in due;
      forall t | t in back ensures t.id != last.id {
        IdOf(ts, init, last, t);
      }
      if Recurs(last) {
        InsertProps(back, Next(last));
      }
    }
  }

  lemma IdOf(ts: seq<Timer>, init: seq<Timer>, last: Timer, t: Timer)
    requires Unique(ts + init + [last])
    requires t in ts || exists u :: u in init && t == Next(u)
    ensures t.id != last.id
  {
    var all := ts + init + [last];
    assert all[|all| - 1] == last;
    if t in ts {
      var i :| 0 <= i < |ts| && ts[i] == t;
      assert all[i] == t;
    } else {
      var u :| u in init && t == Next(u);
      var i :| 0 <= i < |init| && init[i] == u;
      assert all[|ts| + i] == u;
    }
  }

  /** One call hands out exactly the due timers that were not cancelled, in order of
      deadline and number; what is left are the timers that were not due and, with
      the next deadline, those handed out that recur, in order again. */
  lemma ExpireHandsOutTheDue(ts: seq<Timer>, now: nat)
    requires Sorted(ts) && Unique(ts)
    ensures var (handed, left) := Expire(ts, now);
            && Sorted(handed) && (forall t :: t in handed <==> t in ts && t.time <= now && t.cb.Callback?)
            && Sorted(left) && Unique(left)
            && forall t :: t in left <==>
                 (t in ts && t.time > now) || exists u :: u in handed && u.recycle > 0 && t == Next(u)
    ensures var (handed, left) := Expire(ts, now); EarliestFirst(handed) && EarliestFirst(left)
  {
    var k := DueCount(ts, now);
    var due, rest := ts[..k], ts[k..];
    DueSplit(ts, now);
    hide Unique, EarliestFirst;
    HandedProps(due);
    SortedIsEarliestFirst(Expire(ts, now).0);
    hide Sorted;
    PutBackProps(rest, due);
    SortedIsEarliestFirst(Expire(ts, now).1);
  }

  /** By deadline, and timers with the same deadline by number. */
  ghost predicate EarliestFirst(ts: seq<Timer>) {
    forall i, j | 0 <= i < j < |ts| ::
      ts[i].time < ts[j].time || (ts[i].time == ts[j].time && ts[i].id < ts[j].id)
  }

  lemma SortedIsEarliestFirst(ts: seq<Timer>)
    requires Sorted(ts)
    ensures EarliestFirst(ts)
  {
  }

  lemma DueSplit(ts: seq<Timer>, now: nat)
    requires Sorted(ts) && Unique(ts)
    ensures var k := DueCount(ts, now);
            && Sorted(ts[..k]) && Sorted(ts[k..]) && Unique(ts[k..] + ts[..k])
            && (forall t :: t in ts[..k] <==> t in ts && t.time <= now)
            && (forall t :: t in ts[k..] <==> t in ts && t.time > now)
  {
    hide Sorted, DueCount, Unique;
    var k := DueCount(ts, now);
    DuePrefix(ts, now);
    PartsSorted(ts, k);
    assert ts == ts[..k] + ts[k..];
    RotatedUnique(ts[..k], ts[k..]);
    assert forall t :: t in ts <==> t in ts[..k] || t in ts[k..];
    assert forall i | 0 <= i < k :: ts[..k][i] == ts[i];
    assert forall i | 0 <= i < |ts| - k :: ts[k..][i] == ts[k + i];
  }

  lemma PartsSorted(ts: seq<Timer>, k: nat)
    requires Sorted(ts) && k <= |ts|
    ensures Sorted(ts[..k]) && Sorted(ts[k..])
  {
    hide Before;
  }

  lemma RotatedUnique(a: seq<Timer>, b: seq<Timer>)
    requires Unique(a + b)
    ensures Unique(b + a) && Unique(a) && Unique(b)
  {
    var all, turned := a + b, b + a;
    forall i, j | 0 <= i < j < |turned| ensures turned[i].id != turned[j].id {
      var i', j' := if i < |b| then |a| + i else i - |b|, if j < |b| then |a| + j else j - |b|;
      assert turned[i] == all[i'] && turned[j] == all[j'];
    }
    assert forall i | 0 <= i < |a| :: a[i] == all[i];
    assert forall i | 0 <= i < |b| :: b[i] == turned[i];
    forall i, j | 0 <= i < j < |a| ensures a[i].id != a[j].id { assert all[i].id != all[j].id; }
    forall i, j | 0 <= i < j < |b| ensures b[i].id != b[j].id { assert turned[i].id != turned[j].id; }
  }

  // ---- runs ----

  /** `setCallback`, also with a null callback. */
  function SetCallback(ts: seq<Timer>, id: nat, cb: Callback): seq<Timer> {
    seq(|ts|, i requires 0 <= i < |ts| => if ts[i].id == id then ts[i].(cb := cb) else ts[i])
  }

  /** `setRecycleTime`. */
  function SetRecycle(ts: seq<Timer>, id: nat, ms: nat): seq<Timer> {
    seq(|ts|, i requires 0 <= i < |ts| => if ts[i].id == id then ts[i].(recycle := ms) else ts[i])
  }

  datatype Event =
    | Expiring(now: nat)
    | Adding(t: Timer)
    | Deleting(id: nat)
    | Calling(id: nat, cb: Callback)
    | Recycling(id: nat, ms: nat)

  function Step(ts: seq<Timer>, e: Event): seq<Timer> {
    match e
    case Expiring(now) => Expire(ts, now).1
    case Adding(t) => Insert(ts, t)
    case Deleting(id) => Delete(ts, id)
    case Calling(id, cb) => SetCallback(ts, id, cb)
    case Recycling(id, ms) => SetRecycle(ts, id, ms)
  }

  function After(ts: seq<Timer>, es: seq<Event>): seq<Timer> {
    if es == [] then ts else Step(After(ts, es[..|es| - 1]), es[|es| - 1])
  }

  predicate HasId(ts: seq<Timer>, id: nat) {
    exists t | t in ts :: t.id == id
  }

  /** How often the timer `id` was handed out. */
  function Fired(ts: seq<Timer>, es: seq<Event>, id: nat): nat {
    if es == [] then 0
    else
      var init, e := es[..|es| - 1], es[|es| - 1];
      Fired(ts, init, id) + (if e.Expiring? && HasId(Expire(After(ts, init), e.now).0, id) then 1 else 0)
  }

  /** The time of the last expiry. */
  function Latest(es: seq<Event>): nat {
    if es == [] then 0
    else if es[|es| - 1].Expiring? then es[|es| - 1].now else Latest(es[..|es| - 1])
  }

  /** The clock is steady, timers get fresh numbers, none is numbered `id`, and the
      period of that one stays. */
  ghost predicate Possible(ts: seq<Timer>, es: seq<Event>, id: nat) {
    es == [] ||
    var init, e := es[..|es| - 1], es[|es| - 1];
    && Possible(ts, init, id)
    && (e.Expiring? ==> Latest(init) <= e.now)
    && (e.Adding? ==> e.t.id != id && !HasId(After(ts, init), e.t.id))
    && (e.Recycling? ==> e.id != id)
  }

  lemma {:induction false} DeleteProps(ts: seq<Timer>, id: nat)
    requires Sorted(ts) && Unique(ts)
    ensures Sorted(Delete(ts, id)) && Unique(Delete(ts, id))
    ensures forall t :: t in Delete(ts, id) <==> t in ts && t.id != id
  {
    if ts != [] {
      Tail(ts);
      hide Sorted, Unique, Before;
      DeleteProps(ts[1..], id);
      Prepend(ts[0], Delete(ts[1..], id));
    }
  }

  /** Every operation keeps the set in order. */
  lemma StepKeepsOrder(ts: seq<Timer>, e: Event)
    requires Sorted(ts) && Unique(ts) && (e.Adding? ==> !HasId(ts, e.t.id))
    ensures Sorted(Step(ts, e)) && Unique(Step(ts, e))
  {
    match e
    case Expiring(now) => ExpireHandsOutTheDue(ts, now);
    case Adding(t) => InsertProps(ts, t);
    case Deleting(id) => DeleteProps(ts, id);
    case Calling(id, cb) =>
    case Recycling(id, ms) =>
  }

  /** What one operation does to the timer `id`. */
  lemma StepMoves(ts: seq<Timer>, e: Event, id: nat, t': Timer)
    requires Sorted(ts) && Unique(ts) && (e.Adding? ==> e.t.id != id && !HasId(ts, e.t.id)) && (e.Recycling? ==> e.id != id)
    requires t' in Step(ts, e) && t'.id == id
    ensures exists t :: t in ts && t.id == id && t'.recycle == t.recycle &&
              t'.time == t.time + (if e.Expiring? && HasId(Expire(ts, e.now).0, id) then t.recycle else 0)
  {
    match e
    case Expiring(now) =>
      ExpireHandsOutTheDue(ts, now);
      var handed := Expire(ts, now).0;
      if t' in ts && t'.time > now {
        forall u | u in handed ensures u.id != id { SameTimer(ts, u, t'); }
      } else {
        var u :| u in handed && u.recycle > 0 && t' == Next(u);
      }
    case Adding(t) => InsertProps(ts, t);
    case Deleting(x) => DeleteProps(ts, x);
    case Calling(x, cb) =>
      var i :| 0 <= i < |ts| && SetCallback(ts, x, cb)[i] == t';
      assert ts[i] in ts;
    case Recycling(x, ms) =>
      var i :| 0 <= i < |ts| && SetRecycle(ts, x, ms)[i] == t';
      assert ts[i] in ts;
  }

  lemma SameTimer(ts: seq<Timer>, t: Timer, u: Timer)
    requires Unique(ts) && t in ts && u in ts && t != u
    ensures t.id != u.id
  {
  }

  /** The timer started as `t0` has fired k times and is waiting for its next deadline. */
  ghost predicate OnSchedule(ts: seq<Timer>, t0: Timer, k: nat, now: nat) {
    && Sorted(ts) && Unique(ts)
    && (forall t | t in ts && t.id == t0.id :: t.recycle == t0.recycle && t.time == t0.time + k * t0.recycle)
    && (k > 0 ==> t0.time + (k - 1) * t0.recycle <= now)
  }

  lemma StepKeepsSchedule(ts: seq<Timer>, e: Event, t0: Timer, k: nat, now: nat)
    requires OnSchedule(ts, t0, k, now)
    requires e.Expiring? ==> now <= e.now
    requires e.Adding? ==> e.t.id != t0.id && !HasId(ts, e.t.id)
    requires e.Recycling? ==> e.id != t0.id
    ensures OnSchedule(Step(ts, e), t0,
                       if e.Expiring? && HasId(Expire(ts, e.now).0, t0.id) then k + 1 else k,
                       if e.Expiring? then e.now else now)
  {
    StepKeepsOrder(ts, e);
    assert (k + 1) * t0.recycle == k * t0.recycle + t0.recycle;
    hide Sorted, Unique, Step, Expire;
    forall t' | t' in Step(ts, e) && t'.id == t0.id
      ensures t'.recycle == t0.recycle
      ensures t'.time == t0.time + k * t0.recycle + if e.Expiring? && HasId(Expire(ts, e.now).0, t0.id) then t0.recycle else 0
    {
      StepMoves(ts, e, t0.id, t');
    }
    if e.Expiring? && HasId(Expire(ts, e.now).0, t0.id) {
      ExpireHandsOutTheDue(ts, e.now);
      var t :| t in Expire(ts, e.now).0 && t.id == t0.id;
      assert t in ts && t.time <= e.now;
    }
  }

  lemma {:induction false} RunKeepsSchedule(ts: seq<Timer>, es: seq<Event>, t0: Timer)
    requires Sorted(ts) && Unique(ts) && t0 in ts && Possible(ts, es, t0.id)
    ensures OnSchedule(After(ts, es), t0, Fired(ts, es, t0.id), Latest(es))
  {
    if es == [] {
      forall t | t in ts && t != t0 ensures t.id != t0.id { SameTimer(ts, t, t0); }
    } else {
      hide OnSchedule, Sorted, Unique, Step;
      var init, e := es[..|es| - 1], es[|es| - 1];
      RunKeepsSchedule(ts, init, t0);
      StepKeepsSchedule(After(ts, init), e, t0, Fired(ts, init, t0.id), Latest(init));
    }
  }

  /** Over any run, a recurring timer with first deadline d and period p that fired k
      times has its next deadline at exactly d + k * p, as long as it is in the set and
      keeps its period, and it has fired no more than (now - d) / p + 1 times, `now` being the time of
      the last expiry. */
  lemma TimersKeepTheirSchedule(ts: seq<Timer>, es: seq<Event>, t0: Timer)
    requires Sorted(ts) && Unique(ts) && t0 in ts && Possible(ts, es, t0.id) && t0.recycle > 0
    ensures var k, d, p, now := Fired(ts, es, t0.id), t0.time, t0.recycle, Latest(es);
            && (forall t | t in After(ts, es) && t.id == t0.id :: t.time == d + k * p)
            && (k > 0 ==> d <= now && k <= (now - d) / p + 1)
  {
    hide Sorted, Unique, After, Fired, OnSchedule, Latest, Possible;
    RunKeepsSchedule(ts, es, t0);
    BoundOf(After(ts, es), t0, Fired(ts, es, t0.id), Latest(es));
  }

  lemma BoundOf(ts: seq<Timer>, t0: Timer, k: nat, now: nat)
    requires OnSchedule(ts, t0, k, now) && t0.recycle > 0
    ensures forall t | t in ts && t.id == t0.id :: t.time == t0.time + k * t0.recycle
    ensures k > 0 ==> t0.time <= now && k <= (now - t0.time) / t0.recycle + 1
  {
    hide Sorted, Unique;
    if k > 0 {
      Periods(now - t0.time, t0.recycle, k - 1);
    }
  }

  lemma Periods(x: int, p: nat, k: nat)
    requires p > 0 && k * p <= x
    ensures 0 <= x && k <= x / p
  {
    Congestion.MulMono(0, k, p);
    var q := x / p;
    assert x < q * p + p == (q + 1) * p;
    Congestion.MulMono(q + 1, k, p);
  }
}
