/** Fair runs exist: taking turns, with first-in first-out delivery, is one from every
    state. */
module FairSchedule {
  import opened Serial
  import opened ControlBlock
  import opened Link
  import opened Network
  import opened Safety
  import opened Messages
  import opened Continuations
  import opened FairRuns
  import RecvBuffer

  /** The system with what is still to be delivered to each side. */
  datatype Desk = Desk(s: Sys, toA: seq<Datagram>, toB: seq<Datagram>)

  function UpdateOf(n: Node): Action { DoUpdate(Add32(n.st.clock.current, 1)) }

  function ReadOf(n: Node): Action { DoRecv(Max(0, RecvBuffer.PeekSize(n.st.rcv.queue))) }

  function DeliveryOr(ds: seq<Datagram>, n: Node): Action {
    if ds == [] then ReadOf(n) else Deliver(ds[0])
  }

  /** Six turns: each side updates, gets a datagram if one waits, and receives. */
  function Turn(k: Desk, i: nat): Event {
    match i % 6
    case 0 => Event(true, UpdateOf(k.s.a))
    case 1 => Event(false, UpdateOf(k.s.b))
    case 2 => Event(false, DeliveryOr(k.toB, k.s.b))
    case 3 => Event(true, DeliveryOr(k.toA, k.s.a))
    case 4 => Event(true, ReadOf(k.s.a))
    case _ => Event(false, ReadOf(k.s.b))
  }

  function Rest(ds: seq<Datagram>, taken: bool): seq<Datagram> {
    if taken && ds != [] then ds[1..] else ds
  }

  ghost function After(k: Desk, i: nat): Desk {
    var e := Turn(k, i);
    if !Enabled(k.s, e) then k
    else
      var out := Emitted(k.s, e);
      Desk(Next(k.s, e), Rest(k.toA, i % 6 == 3) + (if e.atA then [] else out), Rest(k.toB, i % 6 == 2) + (if e.atA then out else []))
  }

  ghost function DeskAt(s: Sys, i: nat): Desk {
    if i == 0 then Desk(s, [], []) else After(DeskAt(s, i - 1), i - 1)
  }

  ghost function Schedule(s: Sys): Trace {
    Trace((i: nat) => DeskAt(s, i).s, (i: nat) => Turn(DeskAt(s, i), i))
  }

  // ---- every turn can be taken ----

  ghost predicate DeskOk(k: Desk) {
    Good(k.s) && (forall d | d in k.toA :: d in k.s.ba) && (forall d | d in k.toB :: d in k.s.ab)
  }

  lemma TurnIsHarmless(k: Desk, i: nat)
    requires DeskOk(k)
    ensures var e := Turn(k, i); !e.act.DoSend? && Harmless(if e.atA then k.s else Swap(k.s), e.act)
  {
    hide Good, RecvBuffer.PeekSize;
  }

  lemma TurnIsTaken(k: Desk, i: nat)
    requires DeskOk(k)
    ensures Enabled(k.s, Turn(k, i)) && DeskOk(After(k, i))
  {
    var e := Turn(k, i);
    TurnIsHarmless(k, i);
    GoodSwap(k.s);
    hide Good, Turn, StepAtA, EnabledAtA, NodeUpdate, NodeFlush, NotBehind, Possible, Run;
    if e.atA {
      StepAtALeads(k.s, e.act);
    } else {
      StepAtBLeads(k.s, e.act);
    }
    EmittedIsInNet(k.s, e);
  }

  lemma EmittedIsInNet(s: Sys, e: Event)
    requires Enabled(s, e)
    ensures forall d | d in Emitted(s, e) :: if e.atA then d in Next(s, e).ab else d in Next(s, e).ba
    ensures s.ab <= Next(s, e).ab && s.ba <= Next(s, e).ba
  {
    hide NodeUpdate, NodeFlush, NodeSend, NodeRecv, NodeHear;
  }

  lemma {:induction false} AllTaken(s: Sys, i: nat)
    requires Good(s)
    ensures DeskOk(DeskAt(s, i)) && Enabled(DeskAt(s, i).s, Turn(DeskAt(s, i), i))
  {
    hide Good, Turn, Enabled, After, DeskOk;
    if i > 0 {
      AllTaken(s, i - 1);
      TurnIsTaken(DeskAt(s, i - 1), i - 1);
    } else {
      assert DeskOk(DeskAt(s, 0)) by { StartIsOk(s); }
    }
    TurnIsTaken(DeskAt(s, i), i);
  }

  lemma StartIsOk(s: Sys)
    requires Good(s)
    ensures DeskOk(Desk(s, [], []))
  {
    hide Good;
  }

  lemma TurnSteps(s: Sys, i: nat)
    requires Good(s)
    ensures StepOk(Schedule(s), i)
  {
    hide Good, Next, Enabled, Emitted, DeskOk, Turn;
    AllTaken(s, i);
    TurnIsNoSend(DeskAt(s, i), i);
  }

  lemma TurnIsNoSend(k: Desk, i: nat)
    ensures !Turn(k, i).act.DoSend?
  {
  }

  lemma TurnIsSteady(s: Sys, i: nat)
    ensures Steady(Schedule(s), i)
    ensures i % 6 == 0 ==> Advances(Schedule(s), i, true)
    ensures i % 6 == 1 ==> Advances(Schedule(s), i, false)
    ensures i % 6 == 4 ==> Reads(Schedule(s), i, true)
    ensures i % 6 == 5 ==> Reads(Schedule(s), i, false)
    ensures i % 6 == 2 && DeskAt(s, i).toB != [] ==> Gets(Schedule(s), i, false, DeskAt(s, i).toB[0])
    ensures i % 6 == 3 && DeskAt(s, i).toA != [] ==> Gets(Schedule(s), i, true, DeskAt(s, i).toA[0])
    ensures forall atA: bool, d | Gets(Schedule(s), i, atA, d) ::
              if atA then i % 6 == 3 && DeskAt(s, i).toA != [] && d == DeskAt(s, i).toA[0]
              else i % 6 == 2 && DeskAt(s, i).toB != [] && d == DeskAt(s, i).toB[0]
  {
    hide DeskAt, RecvBuffer.PeekSize;
  }

  /** What a turn does to the list of datagrams for `b`: the first one leaves at turn 2,
      and what `a` sends is added at the end. */
  lemma ListsMove(s: Sys, i: nat)
    requires Good(s)
    ensures StepOk(Schedule(s), i)
    ensures DeskAt(s, i + 1).toB == Rest(DeskAt(s, i).toB, i % 6 == 2) + SentBy(s, i, true)
    ensures DeskAt(s, i + 1).toA == Rest(DeskAt(s, i).toA, i % 6 == 3) + SentBy(s, i, false)
    ensures forall d | d in SentBy(s, i, true) :: Schedule(s).ev(i).atA && Emits(Schedule(s), i, d)
    ensures forall d | d in SentBy(s, i, false) :: !Schedule(s).ev(i).atA && Emits(Schedule(s), i, d)
    ensures forall d | Emits(Schedule(s), i, d) :: d in SentBy(s, i, Schedule(s).ev(i).atA)
  {
    hide Good, Next, Enabled, Emitted, DeskOk, Turn;
    TurnSteps(s, i);
    AllTaken(s, i);
  }

  /** What one of the sides hands over in a turn. */
  ghost function SentBy(s: Sys, i: nat, atA: bool): seq<Datagram> {
    var k := DeskAt(s, i);
    var e := Turn(k, i);
    if e.atA == atA && Enabled(k.s, e) then Emitted(k.s, e) else []
  }

  // ---- nothing is lost ----

  /** Every place in the list for `b` comes to the front. */
  lemma {:induction false} ComesUp(s: Sys, i: nat, p: nat) returns (j: nat)
    requires Good(s) && p < |DeskAt(s, i).toB|
    ensures i <= j && Gets(Schedule(s), j, false, DeskAt(s, i).toB[p])
    decreases p, (8 - i % 6) % 6
  {
    hide Good, Gets, SentBy, DeskAt, Schedule, StepOk;
    ListsMove(s, i);
    TurnIsSteady(s, i);
    if i % 6 == 2 && p == 0 {
      j := i;
    } else {
      j := ComesUp(s, i + 1, if i % 6 == 2 then p - 1 else p);
    }
  }

  lemma {:induction false} ComesUpAtA(s: Sys, i: nat, p: nat) returns (j: nat)
    requires Good(s) && p < |DeskAt(s, i).toA|
    ensures i <= j && Gets(Schedule(s), j, true, DeskAt(s, i).toA[p])
    decreases p, (9 - i % 6) % 6
  {
    hide Good, Gets, SentBy, DeskAt, Schedule, StepOk;
    ListsMove(s, i);
    TurnIsSteady(s, i);
    if i % 6 == 3 && p == 0 {
      j := i;
    } else {
      j := ComesUpAtA(s, i + 1, if i % 6 == 3 then p - 1 else p);
    }
  }

  lemma EmittedArrives(s: Sys, i: nat, d: Datagram)
    requires Good(s) && Emits(Schedule(s), i, d)
    ensures Arrives(Schedule(s), i, !Schedule(s).ev(i).atA, d)
  {
    hide Good, Gets, SentBy, DeskAt, Schedule, StepOk, Emits;
    ListsMove(s, i);
    var l := DeskAt(s, i + 1);
    assert d in SentBy(s, i, Schedule(s).ev(i).atA);
    if Schedule(s).ev(i).atA {
      assert d in l.toB;
      var p :| 0 <= p < |l.toB| && l.toB[p] == d;
      var j := ComesUp(s, i + 1, p);
    } else {
      assert d in l.toA;
      var p :| 0 <= p < |l.toA| && l.toA[p] == d;
      var j := ComesUpAtA(s, i + 1, p);
    }
  }

  // ---- nothing keeps arriving ----

  /** Behind the first `p` of the one list and `q` of the other there are only datagrams
      that were sent since `i`. */
  ghost predicate NewBehind(s: Sys, i: nat, j: nat, p: nat, q: nat) {
    && (forall x | p <= x < |DeskAt(s, j).toB| :: SentBetween(Schedule(s), i, j, true, DeskAt(s, j).toB[x]))
    && (forall x | q <= x < |DeskAt(s, j).toA| :: SentBetween(Schedule(s), i, j, false, DeskAt(s, j).toA[x]))
  }

  lemma SentLonger(r: Trace, i: nat, j: nat, atA: bool, d: Datagram)
    ensures SentBetween(r, i, j, atA, d) ==> SentBetween(r, i, j + 1, atA, d)
    ensures i <= j && r.ev(j).atA == atA && Emits(r, j, d) ==> SentBetween(r, i, j + 1, atA, d)
  {
    hide Emits;
  }

  function Less(p: nat, taken: bool): nat { if taken && p > 0 then p - 1 else p }

  lemma NewStays(s: Sys, i: nat, j: nat, p: nat, q: nat)
    requires Good(s) && i <= j && NewBehind(s, i, j, p, q)
    ensures NewBehind(s, i, j + 1, Less(p, j % 6 == 2), Less(q, j % 6 == 3))
  {
    hide Good, SentBy, DeskAt, Schedule, StepOk, Emits, SentBetween;
    ListsMove(s, j);
    var k, l, p', q' := DeskAt(s, j), DeskAt(s, j + 1), Less(p, j % 6 == 2), Less(q, j % 6 == 3);
    forall x | p' <= x < |l.toB| ensures SentBetween(Schedule(s), i, j + 1, true, l.toB[x]) {
      SentLonger(Schedule(s), i, j, true, l.toB[x]);
      if x >= |Rest(k.toB, j % 6 == 2)| { assert l.toB[x] in SentBy(s, j, true); }
    }
    forall x | q' <= x < |l.toA| ensures SentBetween(Schedule(s), i, j + 1, false, l.toA[x]) {
      SentLonger(Schedule(s), i, j, false, l.toA[x]);
      if x >= |Rest(k.toA, j % 6 == 3)| { assert l.toA[x] in SentBy(s, j, false); }
    }
  }

  lemma {:induction false} OldLeave(s: Sys, i: nat, j: nat, p: nat, q: nat) returns (m: nat)
    requires Good(s) && i <= j && NewBehind(s, i, j, p, q)
    ensures j <= m && NewBehind(s, i, m, 0, 0)
    decreases p + q, if p > 0 then (8 - j % 6) % 6 else (9 - j % 6) % 6
  {
    hide Good, NewBehind;
    if p == 0 && q == 0 {
      m := j;
    } else {
      NewStays(s, i, j, p, q);
      m := OldLeave(s, i, j + 1, Less(p, j % 6 == 2), Less(q, j % 6 == 3));
    }
  }

  lemma StartsOld(s: Sys, i: nat)
    ensures NewBehind(s, i, i, |DeskAt(s, i).toB|, |DeskAt(s, i).toA|)
  {
  }

  lemma ThenAllIsNew(s: Sys, i: nat, m: nat)
    requires Good(s) && i <= m && NewBehind(s, i, m, 0, 0)
    ensures OnlyNew(Schedule(s), i, m)
  {
    hide Good, Gets, SentBetween;
    forall j: nat, atA: bool, d | m <= j && Gets(Schedule(s), j, atA, d) ensures SentBetween(Schedule(s), i, j, !atA, d) {
      StaysNew(s, i, m, j);
      TurnIsSteady(s, j);
    }
  }

  lemma {:induction false} StaysNew(s: Sys, i: nat, m: nat, j: nat)
    requires Good(s) && i <= m <= j && NewBehind(s, i, m, 0, 0)
    ensures NewBehind(s, i, j, 0, 0)
    decreases j - m
  {
    hide Good, NewBehind;
    if m < j {
      NewStays(s, i, m, 0, 0);
      StaysNew(s, i, m + 1, j);
    }
  }

  lemma OldDiesOut(s: Sys, i: nat)
    requires Good(s)
    ensures DieOut(Schedule(s), i)
  {
    hide Good, NewBehind, OnlyNew;
    StartsOld(s, i);
    var m := OldLeave(s, i, i, |DeskAt(s, i).toB|, |DeskAt(s, i).toA|);
    ThenAllIsNew(s, i, m);
  }

  // ---- so it is fair ----

  lemma TurnComes(i: nat, c: nat) returns (j: nat)
    requires c < 6
    ensures i <= j && j % 6 == c
  {
    j := 6 * i + c;
  }

  lemma TimeComesRound(s: Sys, i: nat, atA: bool)
    ensures TimePasses(Schedule(s), i, atA)
  {
    hide Advances, Reads, Gets, Schedule;
    var j := TurnComes(i, if atA then 0 else 1);
    TurnIsSteady(s, j);
    assert Advances(Schedule(s), j, atA);
  }

  lemma ReadsComeRound(s: Sys, i: nat, atA: bool)
    ensures KeepsReading(Schedule(s), i, atA)
  {
    hide Advances, Reads, Gets, Schedule;
    var j := TurnComes(i, if atA then 4 else 5);
    TurnIsSteady(s, j);
    assert Reads(Schedule(s), j, atA);
  }

  /** From every state that two endpoints can reach with fewer than 2^31 fragments offered
      per direction there is a fair run. */
  lemma FairRunExists(s: Sys) returns (r: Trace)
    requires Reachable(s) && |Offered(s.a)| < HALF && |Offered(s.b)| < HALF
    ensures IsFair(r) && r.at(0) == s
  {
    ReachableAppInv(s);
    assert Good(s) by { hide AppInv, Offered; }
    hide Reachable, Offered;
    r := Schedule(s);
    hide Good, StepOk, Emits, Arrives, DieOut, Steady, TimePasses, KeepsReading, Schedule;
    forall i: nat ensures StepOk(r, i) && DieOut(r, i) && Steady(r, i) {
      TurnSteps(s, i);
      OldDiesOut(s, i);
      TurnIsSteady(s, i);
    }
    forall i: nat, d | Emits(r, i, d) ensures Arrives(r, i, !r.ev(i).atA, d) { EmittedArrives(s, i, d); }
    forall i: nat, atA: bool ensures TimePasses(r, i, atA) && KeepsReading(r, i, atA) {
      TimeComesRound(s, i, atA);
      ReadsComeRound(s, i, atA);
    }
    assert Schedule(s).at(0) == s by { StartsThere(s); }
  }

  lemma StartsThere(s: Sys)
    ensures Schedule(s).at(0) == s
  {
  }
}
