/** The kernel's blocking primitive: counting semaphores and events that share one
    blocked list (kernel/src/sync/semaphore.rs).

    The pure functions give the effect of each critical section; class `KSemInner` performs
    them in place and is proved to compute those functions. `SemaphoreRuns` then reasons
    about every interleaving. */
module Semaphore {
  import opened Basics

  type Tid = nat

  datatype State =
    | Counting(max: int, counter: int)
    | Event(signalled: bool, autoReset: bool)

  /** State plus the list of tasks parked on it, oldest first. */
  datatype Sync = Sync(state: State, blocked: seq<Tid>)

  /** The scheduler's answer to a request to park the current task: accepted, or refused
      because the task is already terminated or has a signal pending. */
  datatype Admission = Accept | RefuseTerminated | RefuseInterrupted

  datatype Outcome = Ok | WaitTimedOut | WaitFailed | WaitInterrupted | Parked

  /** What the wait critical section decides before it looks at the scheduler:
      whether the task gets the object at once, and the state left behind. */
  function TryTake(s: State, zeroTimeout: bool): (bool, State) {
    match s
    case Counting(max, counter) =>
      if zeroTimeout then
        if counter >= 1 then (true, Counting(max, counter - 1)) else (false, s)
      else (counter >= 1, Counting(max, counter - 1))
    case Event(signalled, autoReset) =>
      (signalled, if signalled && autoReset then Event(false, true) else s)
  }

  function Wait(s: Sync, t: Tid, zeroTimeout: bool, adm: Admission): (Sync, Outcome) {
    var (taken, st) := TryTake(s.state, zeroTimeout);
    if taken then (Sync(st, s.blocked), Ok)
    else if zeroTimeout then (s, WaitTimedOut)
    else match adm
      case Accept => (Sync(st, s.blocked + [t]), Parked)
      case RefuseTerminated => (s, WaitFailed)
      case RefuseInterrupted => (s, WaitInterrupted)
  }

  /** The head can be woken unless it is being killed: the scheduler then reports failure. */
  predicate CanWakeHead(blocked: seq<Tid>, dying: set<Tid>) {
    blocked != [] && blocked[0] !in dying
  }

  /** How many tasks a manual-reset event wakes: up to the first that is being killed. */
  function Wakeable(blocked: seq<Tid>, dying: set<Tid>): (k: nat)
    ensures k <= |blocked|
  {
    if CanWakeHead(blocked, dying) then 1 + Wakeable(blocked[1..], dying) else 0
  }

  /** `do_signal`: the new object and the tasks it woke, in order. */
  function Signal(s: Sync, dying: set<Tid>): (Sync, seq<Tid>) {
    match s.state
    case Counting(max, counter) =>
      var c := Min(max, counter + 1);
      if c <= 0 && CanWakeHead(s.blocked, dying)
      then (Sync(Counting(max, c), s.blocked[1..]), [s.blocked[0]])
      else (Sync(Counting(max, c), s.blocked), [])
    case Event(signalled, true) =>
      if CanWakeHead(s.blocked, dying)
      then (Sync(s.state, s.blocked[1..]), [s.blocked[0]])
      else (Sync(Event(true, true), s.blocked), [])
    case Event(signalled, false) =>
      var k := Wakeable(s.blocked, dying);
      (Sync(Event(true, false), s.blocked[k..]), s.blocked[..k])
  }

  function Without(blocked: seq<Tid>, t: Tid): (r: seq<Tid>)
    ensures t !in blocked ==> r == blocked
  {
    if blocked == [] then []
    else if blocked[0] == t then blocked[1..]
    else [blocked[0]] + Without(blocked[1..], t)
  }

  /** Hand back the unit a counting wait took on entry. Events are left alone. */
  function Refund(s: State): State {
    match s
    case Counting(max, counter) => Counting(max, Min(max, counter + 1))
    case Event(_, _) => s
  }

  /** A task leaves the blocked list without being signalled: timer expiry, interruption,
      or the end of a kill. Nothing happens if it is no longer on the list. */
  function Leave(s: Sync, t: Tid): Sync {
    if t in s.blocked then Sync(Refund(s.state), Without(s.blocked, t)) else s
  }

  /** `do_signal_on_task`: a timeout or an interruption. It has no effect on a task that is
      being killed, and an interruption has none on an uninterruptible wait. */
  function SignalOnTask(s: Sync, t: Tid, interruption: bool, interruptible: bool, dying: set<Tid>): Sync {
    if t in dying || (interruption && !interruptible) then s else Leave(s, t)
  }

  function Reset(s: Sync): Sync {
    match s.state
    case Event(_, autoReset) => Sync(Event(false, autoReset), s.blocked)
    case Counting(_, _) => s
  }

  predicate Distinct(b: seq<Tid>) {
    forall i, j | 0 <= i < j < |b| :: b[i] != b[j]
  }

  /** The object invariant: a negative counter counts the parked tasks exactly, and a
      non-negative counter or a raised event has nobody parked. */
  predicate Consistent(s: Sync) {
    && Distinct(s.blocked)
    && match s.state
       case Counting(max, counter) =>
         counter <= max && 0 < max && |s.blocked| == if counter < 0 then -counter else 0
       case Event(signalled, _) => signalled ==> s.blocked == []
  }

  lemma {:induction false} WithoutFacts(b: seq<Tid>, t: Tid)
    requires Distinct(b)
    ensures Distinct(Without(b, t))
    ensures forall x :: x in Without(b, t) <==> x in b && x != t
    ensures |Without(b, t)| == |b| - if t in b then 1 else 0
  {
    if b != [] && b[0] != t {
      WithoutFacts(b[1..], t);
      assert forall x :: x in b <==> x == b[0] || x in b[1..];
      assert Distinct(b[1..]);
      assert b[0] !in Without(b[1..], t);
    } else if b != [] {
      assert forall x :: x in b <==> x == b[0] || x in b[1..];
    }
  }

  lemma {:induction false} WithoutAt(b: seq<Tid>, i: nat)
    requires i < |b| && b[i] !in b[..i]
    ensures Without(b, b[i]) == b[..i] + b[i + 1..]
  {
    if i > 0 {
      assert b[0] == b[..i][0];
      assert b[1..][..i - 1] == b[..i][1..];
      WithoutAt(b[1..], i - 1);
    }
  }

  /** Every way a task waits or stops waiting keeps the object consistent. */
  lemma {:induction false} WaitKeepsConsistent(s: Sync, t: Tid, zeroTimeout: bool, adm: Admission)
    requires Consistent(s) && t !in s.blocked
    ensures var (s', o) := Wait(s, t, zeroTimeout, adm);
            && Consistent(s')
            && (o == Parked <==> t in s'.blocked)
            && (o != Ok && o != Parked ==> s' == s)
  {
  }

  predicate Available(s: State) {
    match s
    case Counting(_, counter) => counter > 0
    case Event(signalled, _) => signalled
  }

  /** A wait succeeds at once exactly when a unit is free or the event is raised, whatever the
      timeout; a signal then gives the unit back, and a parked task is the one it would wake. */
  lemma {:induction false} SignalUndoesWait(s: Sync, t: Tid, zeroTimeout: bool, adm: Admission)
    requires Consistent(s) && t !in s.blocked
    ensures Wait(s, t, zeroTimeout, adm).1 == Ok <==> Available(s.state)
    ensures Wait(s, t, zeroTimeout, adm).1 == Parked <==> !Available(s.state) && !zeroTimeout && adm == Accept
    ensures var (s', o) := Wait(s, t, zeroTimeout, adm);
            && (o == WaitTimedOut <==> !Available(s.state) && zeroTimeout)
            && (o == WaitFailed <==> !Available(s.state) && !zeroTimeout && adm == RefuseTerminated)
            && (o == WaitInterrupted <==> !Available(s.state) && !zeroTimeout && adm == RefuseInterrupted)
            && (o == Ok && s.state.Event? ==> s'.blocked == s.blocked && (Available(s'.state) <==> !s.state.autoReset))
            && (o == Ok && s.state.Counting? ==> Signal(s', {}) == (s, []))
            && (o == Parked ==> s'.blocked == s.blocked + [t])
            && (o == Parked && s.blocked == [] ==> Signal(s', {}).1 == [t] && Leave(s', t) == s)
  {
    if s.blocked == [] { assert [t][1..] == [] && [t][..1] == [t]; }
  }

  lemma {:induction false} LeaveKeepsConsistent(s: Sync, t: Tid)
    requires Consistent(s)
    ensures Consistent(Leave(s, t)) && t !in Leave(s, t).blocked
  {
    WithoutFacts(s.blocked, t);
  }

  lemma {:induction false} WakeableStops(b: seq<Tid>, dying: set<Tid>)
    ensures forall i | 0 <= i < Wakeable(b, dying) :: b[i] !in dying
    ensures Wakeable(b, dying) < |b| ==> b[Wakeable(b, dying)] in dying
  {
    if CanWakeHead(b, dying) {
      WakeableStops(b[1..], dying);
      forall i | 0 <= i < Wakeable(b, dying) ensures b[i] !in dying {
        if i > 0 { assert b[i] == b[1..][i - 1]; }
      }
    }
  }

  /** A signal that meets a task mid-kill is lost. The exact condition for a signal to keep
      the object consistent: it does not find a dying task in the place it wakes. For a
      manual-reset event every parked task must be alive. */
  predicate SignalIsSafe(s: Sync, dying: set<Tid>) {
    match s.state
    case Counting(_, _) => s.blocked != [] ==> s.blocked[0] !in dying
    case Event(_, autoReset) =>
      if autoReset then s.blocked != [] ==> s.blocked[0] !in dying
      else forall t :: t in s.blocked ==> t !in dying
  }

  /** A signal wakes the oldest parked task, or all of them for a manual-reset event. Only that
      event, or an object nobody was parked on, can be had afterwards. */
  lemma {:induction false} SignalDelivers(s: Sync, dying: set<Tid>)
    requires Consistent(s) && SignalIsSafe(s, dying)
    ensures var (s', woken) := Signal(s, dying);
            var manual := s.state.Event? && !s.state.autoReset;
            && woken + s'.blocked == s.blocked
            && |woken| == (if manual || s.blocked == [] then |s.blocked| else 1)
            && (Available(s'.state) <==> manual || woken == [])
  {
    WakeableStops(s.blocked, dying);
    if s.blocked != [] { assert [s.blocked[0]] + s.blocked[1..] == s.blocked; }
  }

  lemma {:induction false} SignalKeepsConsistentIff(s: Sync, dying: set<Tid>)
    requires Consistent(s)
    ensures Consistent(Signal(s, dying).0) <==> SignalIsSafe(s, dying)
  {
    WakeableStops(s.blocked, dying);
  }

  /** In-place form: `KSemInner` under its spinlock. */
  class KSemInner {
    var state: State
    var blockedList: seq<Tid>

    function View(): Sync
      reads this
    {
      Sync(state, blockedList)
    }

    /** `KSem::new` */
    constructor Semaphore(init: int, max: int)
      ensures View() == Sync(Counting(max, init), [])
    {
      state, blockedList := Counting(max, init), [];
    }

    /** `KEvent::new` */
    constructor NewEvent(autoReset: bool)
      ensures View() == Sync(Event(false, autoReset), [])
    {
      state, blockedList := Event(false, autoReset), [];
    }

    method DoWait(t: Tid, zeroTimeout: bool, adm: Admission) returns (o: Outcome)
      modifies this
      ensures (View(), o) == Wait(old(View()), t, zeroTimeout, adm)
    {
      var shouldBlock;
      match state {
        case Counting(max, counter) =>
          if zeroTimeout {
            if counter >= 1 {
              state := Counting(max, counter - 1);
              return Ok;
            }
            return WaitTimedOut;
          }
          state := Counting(max, counter - 1);
          shouldBlock := counter - 1 < 0;
        case Event(signalled, autoReset) =>
          if zeroTimeout {
            if signalled && autoReset { state := Event(false, autoReset); }
            return if signalled then Ok else WaitTimedOut;
          }
          if signalled {
            if autoReset { state := Event(false, autoReset); }
            shouldBlock := false;
          } else {
            shouldBlock := true;
          }
      }
      if !shouldBlock { return Ok; }
      if adm == Accept {
        blockedList := blockedList + [t];
        return Parked;
      }
      if state.Counting? { state := Counting(state.max, state.counter + 1); }
      return if adm == RefuseInterrupted then WaitInterrupted else WaitFailed;
    }

    /** `wake_task` with no task id: pop the head if the scheduler agrees. */
    method WakeHead(dying: set<Tid>) returns (woken: Option<Tid>)
      modifies this`blockedList
      ensures CanWakeHead(old(blockedList), dying) ==>
                woken == Some(old(blockedList)[0]) && blockedList == old(blockedList)[1..]
      ensures !CanWakeHead(old(blockedList), dying) ==> woken == None && blockedList == old(blockedList)
    {
      if |blockedList| == 0 || blockedList[0] in dying { return None; }
      woken := Some(blockedList[0]);
      blockedList := blockedList[1..];
    }

    method DoSignal(dying: set<Tid>) returns (woken: seq<Tid>)
      modifies this
      ensures (View(), woken) == Signal(old(View()), dying)
    {
      woken := [];
      if state.Counting? {
        state := Counting(state.max, Min(state.max, state.counter + 1));
        if state.counter <= 0 {
          var w := WakeHead(dying);
          if w.Some? { woken := [w.value]; }
        }
      } else if state.autoReset {
        var w := WakeHead(dying);
        if w.Some? { woken := [w.value]; } else { state := Event(true, true); }
      } else {
        ghost var b0 := blockedList;
        var more := true;
        while more
          invariant state == old(state)
          invariant |woken| <= |b0| && woken == b0[..|woken|] && blockedList == b0[|woken|..]
          invariant Wakeable(b0, dying) == |woken| + if more then Wakeable(blockedList, dying) else 0
          decreases |blockedList|, more
        {
          var w := WakeHead(dying);
          if w.Some? {
            woken := woken + [w.value];
          } else {
            more := false;
          }
        }
        state := Event(true, false);
      }
    }

    /** `wake_task` with a task id: scan for it and unlink it. */
    method RemoveTask(t: Tid) returns (found: bool)
      modifies this`blockedList
      ensures found <==> t in old(blockedList)
      ensures blockedList == Without(old(blockedList), t)
    {
      var i := 0;
      while i < |blockedList| && blockedList[i] != t
        invariant 0 <= i <= |blockedList|
        invariant t !in blockedList[..i]
      {
        i := i + 1;
      }
      found := i < |blockedList|;
      if found {
        WithoutAt(blockedList, i);
        blockedList := blockedList[..i] + blockedList[i + 1..];
      } else {
        assert blockedList[..i] == blockedList;
      }
    }

    method DoSignalOnTask(t: Tid, interruption: bool, interruptible: bool, dying: set<Tid>)
      modifies this
      ensures View() == SignalOnTask(old(View()), t, interruption, interruptible, dying)
    {
      if t in dying || (interruption && !interruptible) { return; }
      var found := RemoveTask(t);
      if found && state.Counting? {
        state := Counting(state.max, Min(state.max, state.counter + 1));
      }
    }

    method DropTask(t: Tid)
      modifies this
      ensures View() == Leave(old(View()), t)
    {
      var found := RemoveTask(t);
      if found && state.Counting? {
        state := Counting(state.max, Min(state.max, state.counter + 1));
      }
    }

    method ResetEvent()
      modifies this
      ensures View() == Reset(old(View()))
    {
      if state.Event? { state := Event(false, state.autoReset); }
    }
  }
}
