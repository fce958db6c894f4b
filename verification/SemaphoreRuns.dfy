/** Every interleaving of waits, signals, timeouts, interruptions and kills on one
    synchronisation object (kernel/src/sync/semaphore.rs). */
module SemaphoreRuns {
  import opened Semaphore

  /** The object and what an observer can know of its users: tasks being killed or dead,
      acquisitions not yet released, the arrival ticket of each parked task, and who parked in a
      wait that may be interrupted. */
  datatype World = World(
    sem: Sync,
    dying: set<Tid>,
    held: multiset<Tid>,
    arrived: map<Tid, nat>,
    clock: nat,
    soft: set<Tid>)

  datatype Action =
    | DoWait(t: Tid, zeroTimeout: bool, interruptible: bool, adm: Admission)
    | DoSignal(caller: Tid)
    | Expire(t: Tid)
    | Interrupt(t: Tid)
    | Kill(t: Tid)
    | FinishKill(t: Tid)
    | DoReset

  function Start(st: State): World {
    World(Sync(st, []), {}, multiset{}, map[], 0, {})
  }

  predicate LegalInit(st: State) {
    st.Counting? ==> 0 <= st.counter <= st.max && 1 <= st.max
  }

  /** A parked or dying task runs no code. */
  predicate Enabled(w: World, a: Action) {
    match a
    case DoWait(t, _, _, _) => t !in w.sem.blocked && t !in w.dying
    case DoSignal(caller) => caller !in w.sem.blocked && caller !in w.dying
    case FinishKill(t) => t in w.dying
    case _ => true
  }

  function Step(w: World, a: Action): World {
    match a
    case DoWait(t, zeroTimeout, interruptible, adm) =>
      var (s, o) := Wait(w.sem, t, zeroTimeout, adm);
      if o == Ok then w.(sem := s, held := w.held + multiset{t})
      else if o == Parked then
        w.(sem := s, arrived := w.arrived[t := w.clock], clock := w.clock + 1,
           soft := if interruptible then w.soft + {t} else w.soft - {t})
      else w.(sem := s)
    case DoSignal(caller) =>
      var (s, woken) := Signal(w.sem, w.dying);
      w.(sem := s, held := w.held - multiset{caller} + multiset(woken))
    case Expire(t) => w.(sem := SignalOnTask(w.sem, t, false, t in w.soft, w.dying))
    case Interrupt(t) => w.(sem := SignalOnTask(w.sem, t, true, t in w.soft, w.dying))
    case Kill(t) => w.(dying := w.dying + {t})
    case FinishKill(t) => w.(sem := Leave(w.sem, t))
    case DoReset => w.(sem := Reset(w.sem))
  }

  function Run(w: World, acts: seq<Action>): World
    decreases acts
  {
    if acts == [] then w else Run(Step(w, acts[0]), acts[1..])
  }

  /** The run can happen, and no signal lands between a kill and its clean-up. */
  predicate Legal(w: World, acts: seq<Action>)
    decreases acts
  {
    acts != [] ==>
      && Enabled(w, acts[0])
      && (acts[0].DoSignal? ==> SignalIsSafe(w.sem, w.dying))
      && Legal(Step(w, acts[0]), acts[1..])
  }

  /** Each signal gives back an acquisition its caller still holds. */
  predicate Disciplined(w: World, acts: seq<Action>)
    decreases acts
  {
    acts != [] ==>
      && (acts[0].DoSignal? ==> acts[0].caller in w.held)
      && Disciplined(Step(w, acts[0]), acts[1..])
  }

  predicate InOrder(b: seq<Tid>, arrived: map<Tid, nat>, clock: nat) {
    && (forall i | 0 <= i < |b| :: b[i] in arrived && arrived[b[i]] < clock)
    && (forall i, j | 0 <= i < j < |b| :: arrived[b[i]] < arrived[b[j]])
  }

  predicate TicketsOrdered(w: World) {
    InOrder(w.sem.blocked, w.arrived, w.clock)
  }

  predicate Inv(w: World) {
    Consistent(w.sem) && TicketsOrdered(w)
  }

  lemma {:induction false} WithoutKeepsTickets(w: World, t: Tid)
    requires Inv(w)
    ensures TicketsOrdered(w.(sem := Leave(w.sem, t)))
  {
    var b := w.sem.blocked;
    if t in b {
      var i :| 0 <= i < |b| && b[i] == t;
      assert b[i] !in b[..i];
      WithoutAt(b, i);
      RemoveKeepsOrder(b, w.arrived, w.clock, i);
    }
  }

  lemma {:induction false} RemoveKeepsOrder(b: seq<Tid>, arrived: map<Tid, nat>, clock: nat, i: nat)
    requires InOrder(b, arrived, clock) && i < |b|
    ensures InOrder(b[..i] + b[i + 1..], arrived, clock)
  {
    var c := b[..i] + b[i + 1..];
    assert forall k | 0 <= k < |c| :: c[k] == b[if k < i then k else k + 1];
  }

  lemma {:induction false} SignalKeepsTickets(w: World, caller: Tid)
    requires Inv(w)
    ensures TicketsOrdered(Step(w, DoSignal(caller)))
  {
    var s := Signal(w.sem, w.dying).0;
    var k := |w.sem.blocked| - |s.blocked|;
    assert s.blocked == w.sem.blocked[k..];
    assert forall i | 0 <= i < |s.blocked| :: s.blocked[i] == w.sem.blocked[k + i];
  }

  lemma {:induction false} StepKeepsInv(w: World, a: Action)
    requires Inv(w) && Enabled(w, a)
    requires a.DoSignal? ==> SignalIsSafe(w.sem, w.dying)
    ensures Inv(Step(w, a))
  {
    match a {
      case DoWait(t, z, _, adm) => WaitKeepsConsistent(w.sem, t, z, adm);
      case DoSignal(caller) => SignalKeepsConsistentIff(w.sem, w.dying); SignalKeepsTickets(w, caller);
      case Expire(t) => LeaveKeepsConsistent(w.sem, t); WithoutKeepsTickets(w, t);
      case Interrupt(t) => LeaveKeepsConsistent(w.sem, t); WithoutKeepsTickets(w, t);
      case FinishKill(t) => LeaveKeepsConsistent(w.sem, t); WithoutKeepsTickets(w, t);
      case Kill(_) =>
      case DoReset =>
    }
  }

  /** A run that can happen; signals may land anywhere. */
  predicate Possible(w: World, acts: seq<Action>)
    decreases acts
  {
    acts != [] ==> Enabled(w, acts[0]) && Possible(Step(w, acts[0]), acts[1..])
  }

  /** The invariant holds in every state the run passes. */
  predicate AlwaysInv(w: World, acts: seq<Action>)
    decreases acts
  {
    Inv(w) && (acts != [] ==> AlwaysInv(Step(w, acts[0]), acts[1..]))
  }

  /** Over every run that can happen: consistency and arrival order hold all the way exactly
      when no signal lands between a kill and its clean-up. */
  lemma {:induction false} RunKeepsInvIff(w: World, acts: seq<Action>)
    requires Inv(w) && Possible(w, acts)
    ensures AlwaysInv(w, acts) <==> Legal(w, acts)
    decreases acts
  {
    if acts != [] {
      if acts[0].DoSignal? { SignalKeepsConsistentIff(w.sem, w.dying); }
      if acts[0].DoSignal? ==> SignalIsSafe(w.sem, w.dying) {
        StepKeepsInv(w, acts[0]);
        RunKeepsInvIff(Step(w, acts[0]), acts[1..]);
      }
    }
  }

  lemma {:induction false} RunKeepsInv(w: World, acts: seq<Action>)
    requires Inv(w) && Legal(w, acts)
    ensures Inv(Run(w, acts))
    decreases acts
  {
    if acts != [] {
      StepKeepsInv(w, acts[0]);
      RunKeepsInv(Step(w, acts[0]), acts[1..]);
    }
  }

  /** On every legal run the counter stays at or below its maximum, a negative counter is
      exactly the number of parked tasks, and otherwise nobody is parked; a raised event
      has nobody parked. */
  lemma {:induction false} CounterCountsBlocked(st: State, acts: seq<Action>)
    requires LegalInit(st) && Legal(Start(st), acts)
    ensures var s := Run(Start(st), acts).sem;
            match s.state
            case Counting(max, counter) =>
              counter <= max && |s.blocked| == if counter < 0 then -counter else 0
            case Event(signalled, _) => signalled ==> s.blocked == []
  {
    RunKeepsInv(Start(st), acts);
  }

  lemma {:induction false} SignalSplitsBlocked(s: Sync, dying: set<Tid>)
    ensures Signal(s, dying).1 + Signal(s, dying).0.blocked == s.blocked
    ensures Consistent(s) && SignalIsSafe(s, dying) && s.blocked != [] ==> Signal(s, dying).1 != []
  {
  }

  lemma {:induction false} OlderFirst(w: World, woken: seq<Tid>, rest: seq<Tid>, t: Tid, u: Tid)
    requires TicketsOrdered(w) && woken + rest == w.sem.blocked && t in woken && u in rest
    ensures t in w.arrived && u in w.arrived && w.arrived[t] < w.arrived[u]
  {
    var i :| 0 <= i < |woken| && woken[i] == t;
    var j :| 0 <= j < |rest| && rest[j] == u;
    assert w.sem.blocked[i] == t && w.sem.blocked[|woken| + j] == u;
  }

  /** A signal wakes the task that has been parked longest: whoever is still parked
      afterwards arrived later than everybody it woke, and a safe signal on a non-empty
      list wakes somebody. */
  lemma {:induction false} SignalIsFifo(st: State, acts: seq<Action>, t: Tid, u: Tid)
    requires LegalInit(st) && Legal(Start(st), acts)
    ensures var w := Run(Start(st), acts);
            var (s, woken) := Signal(w.sem, w.dying);
            && (t in woken && u in s.blocked ==>
                  t in w.arrived && u in w.arrived && w.arrived[t] < w.arrived[u])
            && (SignalIsSafe(w.sem, w.dying) && w.sem.blocked != [] ==> woken != [])
  {
    RunKeepsInv(Start(st), acts);
    var w := Run(Start(st), acts);
    var (s, woken) := Signal(w.sem, w.dying);
    SignalSplitsBlocked(w.sem, w.dying);
    if t in woken && u in s.blocked { OlderFirst(w, woken, s.blocked, t, u); }
  }

  /** Conservation of units: free units, minus the parked demand, plus acquisitions
      outstanding, is always the initial count. */
  predicate Balanced(w: World, init: int) {
    && w.sem.state.Counting?
    && init <= w.sem.state.max
    && w.sem.state.counter + |w.sem.blocked| + |w.held| == init
  }

  lemma {:induction false} SignalKeepsBalance(w: World, caller: Tid, init: int)
    requires Inv(w) && Balanced(w, init) && SignalIsSafe(w.sem, w.dying) && caller in w.held
    ensures Balanced(Step(w, DoSignal(caller)), init)
  {
    assert |w.held - multiset{caller}| == |w.held| - 1;
  }

  lemma {:induction false} StepKeepsBalance(w: World, a: Action, init: int)
    requires Inv(w) && Enabled(w, a) && Balanced(w, init)
    requires a.DoSignal? ==> SignalIsSafe(w.sem, w.dying) && a.caller in w.held
    ensures Balanced(Step(w, a), init)
  {
    match a {
      case DoSignal(caller) => SignalKeepsBalance(w, caller, init);
      case Expire(t) => WithoutFacts(w.sem.blocked, t);
      case Interrupt(t) => WithoutFacts(w.sem.blocked, t);
      case FinishKill(t) => WithoutFacts(w.sem.blocked, t);
      case _ =>
    }
  }

  lemma {:induction false} RunKeepsBalance(w: World, acts: seq<Action>, init: int)
    requires Inv(w) && Balanced(w, init) && Legal(w, acts) && Disciplined(w, acts)
    ensures Balanced(Run(w, acts), init)
    decreases acts
  {
    if acts != [] {
      StepKeepsInv(w, acts[0]);
      StepKeepsBalance(w, acts[0], init);
      RunKeepsBalance(Step(w, acts[0]), acts[1..], init);
    }
  }

  /** Mutual exclusion, generalised: a semaphore that starts with `init` units never has
      more than `init` acquisitions outstanding, and when none is outstanding every unit is
      free again and nobody is parked. */
  lemma {:induction false} AtMostInitHolders(init: int, max: int, acts: seq<Action>)
    requires 0 <= init <= max && 1 <= max
    requires Legal(Start(Counting(max, init)), acts) && Disciplined(Start(Counting(max, init)), acts)
    ensures var w := Run(Start(Counting(max, init)), acts);
            && |w.held| <= init
            && (init > 0 && w.held == multiset{} ==> w.sem == Sync(Counting(max, init), []))
            && (w.sem.blocked != [] ==> |w.held| == init)
  {
    RunKeepsInv(Start(Counting(max, init)), acts);
    RunKeepsBalance(Start(Counting(max, init)), acts, init);
    StateMaxFixed(Start(Counting(max, init)), acts);
  }

  lemma {:induction false} StateMaxFixed(w: World, acts: seq<Action>)
    requires w.sem.state.Counting?
    ensures Run(w, acts).sem.state.Counting? && Run(w, acts).sem.state.max == w.sem.state.max
    decreases acts
  {
    if acts != [] {
      StepMaxFixed(w, acts[0]);
      StateMaxFixed(Step(w, acts[0]), acts[1..]);
    }
  }

  lemma {:induction false} StepMaxFixed(w: World, a: Action)
    requires w.sem.state.Counting?
    ensures Step(w, a).sem.state.Counting? && Step(w, a).sem.state.max == w.sem.state.max
  {
    match a {
      case DoWait(t, zeroTimeout, _, adm) => assert SameMax(w.sem, Wait(w.sem, t, zeroTimeout, adm).0);
      case DoSignal(_) => assert SameMax(w.sem, Signal(w.sem, w.dying).0);
      case Expire(t) => assert SameMax(w.sem, Leave(w.sem, t));
      case Interrupt(t) => assert SameMax(w.sem, Leave(w.sem, t));
      case FinishKill(t) => assert SameMax(w.sem, Leave(w.sem, t));
      case Kill(_) =>
      case DoReset =>
    }
  }

  predicate SameMax(s: Sync, r: Sync) {
    s.state.Counting? && r.state.Counting? && r.state.max == s.state.max
  }

  // ----- How a parked task leaves

  /** The last wait of `t` in the actions may be interrupted. */
  predicate LastWaitIsSoft(acts: seq<Action>, t: Tid) {
    if acts == [] then false
    else
      var last := acts[|acts| - 1];
      if last.DoWait? && last.t == t then last.interruptible else LastWaitIsSoft(acts[..|acts| - 1], t)
  }

  predicate Killed(acts: seq<Action>, t: Tid) {
    exists i | 0 <= i < |acts| :: acts[i] == Kill(t)
  }

  /** What the world records is what the actions say. */
  ghost predicate Recorded(w: World, acts: seq<Action>) {
    && Distinct(w.sem.blocked)
    && (forall t :: t in w.dying <==> Killed(acts, t))
    && (forall t :: t in w.sem.blocked ==> (t in w.soft <==> LastWaitIsSoft(acts, t)))
  }

  lemma {:induction false} BlockedAfter(w: World, a: Action)
    requires Enabled(w, a) && Distinct(w.sem.blocked)
    ensures Distinct(Step(w, a).sem.blocked)
    ensures forall t :: t in Step(w, a).sem.blocked ==> t in w.sem.blocked || (a.DoWait? && a.t == t)
    ensures a.DoWait? && a.t in Step(w, a).sem.blocked ==> (a.t in Step(w, a).soft <==> a.interruptible)
    ensures forall t :: t in w.sem.blocked ==> (t in Step(w, a).soft <==> t in w.soft)
  {
    match a {
      case DoSignal(_) =>
        var s := Signal(w.sem, w.dying).0;
        assert s.blocked == w.sem.blocked[|w.sem.blocked| - |s.blocked|..];
      case Expire(t) => WithoutFacts(w.sem.blocked, t);
      case Interrupt(t) => WithoutFacts(w.sem.blocked, t);
      case FinishKill(t) => WithoutFacts(w.sem.blocked, t);
      case _ =>
    }
  }

  lemma {:induction false} StepRecords(w: World, acts: seq<Action>, a: Action)
    requires Recorded(w, acts) && Enabled(w, a)
    ensures Recorded(Step(w, a), acts + [a])
  {
    BlockedAfter(w, a);
    var more := acts + [a];
    assert more[..|more| - 1] == acts && more[|more| - 1] == a;
    forall t ensures Killed(more, t) <==> Killed(acts, t) || a == Kill(t) {
      if Killed(acts, t) {
        var i :| 0 <= i < |acts| && acts[i] == Kill(t);
        assert more[i] == Kill(t);
      }
      if a == Kill(t) { assert more[|acts|] == Kill(t); }
    }
  }

  lemma {:induction false} RunRecords(w: World, past: seq<Action>, acts: seq<Action>)
    requires Recorded(w, past) && Possible(w, acts)
    ensures Recorded(Run(w, acts), past + acts)
    decreases acts
  {
    if acts == [] {
      assert past + acts == past;
    } else {
      StepRecords(w, past, acts[0]);
      RunRecords(Step(w, acts[0]), past + [acts[0]], acts[1..]);
      assert past + [acts[0]] + acts[1..] == past + acts;
    }
  }

  /** After every run: an interruption ends the wait of a parked task exactly when that wait may
      be interrupted and the task is not being killed, a timeout exactly when it is not being
      killed, and nobody else leaves or enters the list. */
  lemma {:induction false} WhoLeaves(st: State, acts: seq<Action>, t: Tid)
    requires Possible(Start(st), acts) && t in Run(Start(st), acts).sem.blocked
    ensures var w := Run(Start(st), acts);
            && (t !in Step(w, Interrupt(t)).sem.blocked <==> LastWaitIsSoft(acts, t) && !Killed(acts, t))
            && (t !in Step(w, Expire(t)).sem.blocked <==> !Killed(acts, t))
            && (forall u | u != t :: u in Step(w, Interrupt(t)).sem.blocked <==> u in w.sem.blocked)
            && (forall u | u != t :: u in Step(w, Expire(t)).sem.blocked <==> u in w.sem.blocked)
  {
    RunRecords(Start(st), [], acts);
    assert [] + acts == acts;
    WithoutFacts(Run(Start(st), acts).sem.blocked, t);
  }

  /** Discipline is needed: a stray signal lets two tasks in. */
  lemma {:induction false} StraySignalBreaksExclusion()
    ensures var w1 := Step(Start(Counting(1, 1)), DoWait(0, false, false, Accept));
            var w2 := Step(w1, DoSignal(1));
            var w3 := Step(w2, DoWait(2, false, false, Accept));
            && Enabled(w1, DoSignal(1)) && Enabled(w2, DoWait(2, false, false, Accept))
            && w3.held == multiset{0, 2}
  {
    var w1 := Step(Start(Counting(1, 1)), DoWait(0, false, false, Accept));
    var w2 := Step(w1, DoSignal(1));
    assert w2.sem == Sync(Counting(1, 1), []) && w2.held == multiset{0};
  }

  /** The kill race, reached from a fresh semaphore: task 0 takes the only unit, tasks 1 and 2
      park, 1 is killed, and the release by 0 comes before the clean-up of 1. The signal is
      lost: 2 is alive and parked for good although nobody holds the unit. */
  lemma {:induction false} SignalDuringKillIsLost()
    ensures var w := Contended();
            var w1 := Step(w, Kill(1));
            var w2 := Step(w1, DoSignal(0));
            && Enabled(w, Kill(1)) && Enabled(w1, DoSignal(0)) && Enabled(w2, FinishKill(1))
            && var w3 := Step(w2, FinishKill(1));
               w3.sem == Sync(Counting(1, 0), [2]) && w3.held == multiset{} && 2 !in w3.dying
  {
    ContendedIs();
    var w1 := Step(Contended(), Kill(1));
    SignalFindsDying(w1.sem, w1.dying);
    WithoutAt([1, 2], 0);
  }

  function Entry(t: Tid): Action {
    DoWait(t, false, false, Accept)
  }

  /** Three tasks wait on a semaphore with one unit. */
  function Contended(): World {
    Step(Step(Step(Start(Counting(1, 1)), Entry(0)), Entry(1)), Entry(2))
  }

  lemma {:induction false} ContendedIs()
    ensures Enabled(Start(Counting(1, 1)), Entry(0))
    ensures Enabled(Step(Start(Counting(1, 1)), Entry(0)), Entry(1))
    ensures Enabled(Step(Step(Start(Counting(1, 1)), Entry(0)), Entry(1)), Entry(2))
    ensures Contended() == World(Sync(Counting(1, -2), [1, 2]), {}, multiset{0}, map[1 := 0, 2 := 1], 2, {})
  {
    var w1 := Step(Start(Counting(1, 1)), Entry(0));
    assert w1 == World(Sync(Counting(1, 0), []), {}, multiset{0}, map[], 0, {});
    var w2 := Step(w1, Entry(1));
    assert w2 == World(Sync(Counting(1, -1), [1]), {}, multiset{0}, map[1 := 0], 1, {});
  }

  /** A signal whose first waiter is being killed wakes nobody. */
  lemma {:induction false} SignalFindsDying(s: Sync, dying: set<Tid>)
    requires s == Sync(Counting(1, -2), [1, 2]) && dying == {1}
    ensures Signal(s, dying) == (Sync(Counting(1, -1), [1, 2]), [])
  {
  }

  // ----- Events

  /** The tasks a step lets pass. */
  function Passed(w: World, a: Action): nat {
    match a
    case DoWait(t, zeroTimeout, _, adm) => if Wait(w.sem, t, zeroTimeout, adm).1 == Ok then 1 else 0
    case DoSignal(_) => |Signal(w.sem, w.dying).1|
    case _ => 0
  }

  function AllPassed(w: World, acts: seq<Action>): nat
    decreases acts
  {
    if acts == [] then 0 else Passed(w, acts[0]) + AllPassed(Step(w, acts[0]), acts[1..])
  }

  function Signals(acts: seq<Action>): nat {
    if acts == [] then 0 else (if acts[0].DoSignal? then 1 else 0) + Signals(acts[1..])
  }

  function Raised(w: World): nat {
    if w.sem.state.Event? && w.sem.state.signalled then 1 else 0
  }

  lemma {:induction false} OnePass(w: World, a: Action)
    requires w.sem.state.Event? && w.sem.state.autoReset
    ensures Step(w, a).sem.state.Event? && Step(w, a).sem.state.autoReset
    ensures Passed(w, a) + Raised(Step(w, a)) <= Raised(w) + if a.DoSignal? then 1 else 0
  {
    match a {
      case DoWait(t, z, _, adm) =>
      case DoSignal(_) =>
      case _ =>
    }
  }

  /** Over every run an auto-reset event lets at most one task pass for each signal, and none
      for the raise it still holds. */
  lemma {:induction false} OnePassPerSignal(w: World, acts: seq<Action>)
    requires w.sem.state.Event? && w.sem.state.autoReset
    ensures AllPassed(w, acts) + Raised(Run(w, acts)) <= Raised(w) + Signals(acts)
    decreases acts
  {
    if acts != [] {
      OnePass(w, acts[0]);
      OnePassPerSignal(Step(w, acts[0]), acts[1..]);
    }
  }

  /** A manual-reset event that is raised stays so until a reset, and nobody parks on it. */
  lemma {:induction false} RaisedUntilReset(w: World, acts: seq<Action>)
    requires Inv(w) && Legal(w, acts) && w.sem.state == Event(true, false)
    requires forall i | 0 <= i < |acts| :: acts[i] != DoReset
    ensures Run(w, acts).sem == Sync(Event(true, false), [])
    decreases acts
  {
    if acts != [] {
      assert acts[0] != DoReset;
      StepKeepsInv(w, acts[0]);
      RaisedUntilReset(Step(w, acts[0]), acts[1..]);
    }
  }
}
