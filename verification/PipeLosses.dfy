/** The two ways a pipe loses a wakeup, with the exact condition of each
    (kernel/src/pipe.rs): end of file with several readers, and a failed copy-in. */
module PipeLosses {
  import opened Basics
  import opened Semaphore
  import opened Pipe
  import opened PipeRuns

  // ----- A failed copy-in

  /** Somebody waits for room, and nobody but `t` is left to pass a wakeup on. */
  ghost predicate OnlyHope(p: Pipe, t: Tid) {
    && (exists u :: u in p.threads && WaitsToWrite(p.threads[u]))
    && !Raised(p.writeEv)
    && (forall u :: u in p.threads && AttendsWriters(p.threads[u]) ==> u == t)
  }

  /** A write whose copy-in fails loses a wakeup exactly when its thread was the only hope of a
      waiting writer. */
  lemma {:induction false} FailedCopyInLosesIff(p: Pipe, t: Tid)
    requires Inv(p) && Enabled(p, WriteLock(t, false)) && |p.stream| < CAPACITY
    ensures NoLost(Step(p, WriteLock(t, false))) <==> !OnlyHope(p, t)
  {
    var q := Step(p, WriteLock(t, false));
    assert q == Gone(p, t) && !WaitsToWrite(p.threads[t]);
    ReadersUntouched(p, q);
    if OnlyHope(p, t) {
      var u :| u in p.threads && WaitsToWrite(p.threads[u]);
      assert u in q.threads && WaitsToWrite(q.threads[u]);
    } else if !Raised(p.writeEv) {
      if u :| u in p.threads && AttendsWriters(p.threads[u]) && u != t {
        assert u in q.threads && AttendsWriters(q.threads[u]);
      } else {
        assert forall u :: u in q.threads ==> u in p.threads && q.threads[u] == p.threads[u];
      }
    }
  }

  /** The one step that loses a wakeup. */
  ghost predicate Loses(p: Pipe, a: Action) {
    CopyInFails(p, a) && OnlyHope(p, a.t)
  }

  lemma {:induction false} StepKeepsInvIff(p: Pipe, a: Action)
    requires Inv(p) && Enabled(p, a)
    ensures Inv(Step(p, a)) <==> !Loses(p, a)
  {
    if CopyInFails(p, a) {
      StepKeepsSane(p, a);
      FailedCopyInLosesIff(p, a.t);
    } else {
      StepKeepsInv(p, a);
    }
  }

  /** No state of the run has lost a wakeup. */
  ghost predicate AlwaysInv(p: Pipe, acts: seq<Action>)
    requires Possible(p, acts)
    decreases acts
  {
    Inv(p) && (acts != [] ==> AlwaysInv(Step(p, acts[0]), acts[1..]))
  }

  ghost predicate NeverLoses(p: Pipe, acts: seq<Action>)
    requires Possible(p, acts)
    decreases acts
  {
    acts != [] ==> !Loses(p, acts[0]) && NeverLoses(Step(p, acts[0]), acts[1..])
  }

  lemma {:induction false} RunKeepsInvIff(p: Pipe, acts: seq<Action>)
    requires Inv(p) && Possible(p, acts)
    ensures AlwaysInv(p, acts) <==> NeverLoses(p, acts)
    decreases acts
  {
    if acts != [] {
      StepKeepsInvIff(p, acts[0]);
      if Inv(Step(p, acts[0])) { RunKeepsInvIff(Step(p, acts[0]), acts[1..]); }
    }
  }

  /** Two writers asleep on a full pipe, and a reader about to empty it. */
  ghost function FullPipe(full: seq<Byte>, d: seq<Byte>): Pipe {
    Pipe(full, Sync(Event(true, true), []), Sync(Event(false, true), [1, 2]), 2, None,
         map[1 := WriteParked(d), 2 := WriteParked(d), 3 := ReadTop(CAPACITY)], {1, 2}, full, [])
  }

  /** A writer fills an unused empty pipe and leaves. */
  lemma {:induction false} WriterFills(p: Pipe, t: Tid, full: seq<Byte>)
    requires |full| == CAPACITY && p.stream == [] && p.lock == None && p.threads == map[]
    requires p.readEv == AUTO_RESET && p.writeEv == AUTO_RESET && p.accepted == []
    ensures Reaches(p, p.(stream := full, accepted := full, readEv := Sync(Event(true, true), [])))
  {
    var p1 := p.(threads := map[t := WriteTop(full)]);
    assert p1 == Step(p, CallWrite(t, full));
    OneStep(p, CallWrite(t, full));
    WriterFinishes(p1, t, full);
    ReachesOn(p, p1, p.(stream := full, accepted := full, readEv := Sync(Event(true, true), [])));
  }

  lemma {:induction false} WriterFinishes(p: Pipe, t: Tid, full: seq<Byte>)
    requires |full| == CAPACITY && p.stream == [] && p.lock == None && p.threads == map[t := WriteTop(full)]
    requires p.readEv == AUTO_RESET && p.writeEv == AUTO_RESET && p.accepted == []
    ensures Reaches(p, p.(stream := full, accepted := full, threads := map[], readEv := Sync(Event(true, true), [])))
  {
    assert full[..CAPACITY] == full;
    var p1 := p.(stream := full, accepted := full, lock := Some(t), threads := map[t := WriteOwesBoth]);
    assert p1 == Step(p, WriteLock(t, true));
    var p2 := p1.(readEv := Sync(Event(true, true), []), threads := map[t := WriteOwesWrite]);
    assert p2 == Step(p1, WriteNotifyReaders(t)) by { assert SignalReaders(p1).threads == p1.threads; }
    var p3 := p2.(threads := map[], lock := None);
    assert p3 == Step(p2, WriteNotifyWriters(t)) by { assert p2.threads - {t} == map[]; }
    ThreeSteps(p, WriteLock(t, true), WriteNotifyReaders(t), WriteNotifyWriters(t));
  }

  /** A writer goes to sleep on a full pipe. */
  lemma {:induction false} WriterParks(p: Pipe, t: Tid, d: seq<Byte>)
    requires |p.stream| == CAPACITY && p.lock == None && t !in p.threads && d != [] && p.writeEv.state == Event(false, true)
    ensures Reaches(p, p.(threads := p.threads[t := WriteParked(d)], writeEv := Sync(Event(false, true), p.writeEv.blocked + [t])))
  {
    var p1 := p.(threads := p.threads[t := WriteTop(d)]);
    assert p1 == Step(p, CallWrite(t, d));
    var p2 := p.(threads := p.threads[t := WriteWait(d)]);
    assert p2 == Step(p1, WriteLock(t, true)) by { assert p1.threads[t := WriteWait(d)] == p2.threads; }
    var p3 := p.(threads := p.threads[t := WriteParked(d)], writeEv := Sync(Event(false, true), p.writeEv.blocked + [t]));
    assert p3 == Step(p2, WriteSleep(t, Accept)) by { assert p2.threads[t := WriteParked(d)] == p3.threads; }
    ThreeSteps(p, CallWrite(t, d), WriteLock(t, true), WriteSleep(t, Accept));
  }

  lemma {:induction false} ReachFullPipe(p0: Pipe, full: seq<Byte>, d: seq<Byte>)
    requires p0 == EMPTY && |full| == CAPACITY && d != []
    ensures Reaches(p0, FullPipe(full, d))
  {
    var p1 := p0.(ends := {1, 2}, writerCount := 2);
    TwoEnds(p0);
    WriterFills(p1, 4, full);
    var p2 := p1.(stream := full, accepted := full, readEv := Sync(Event(true, true), []));
    WriterParks(p2, 1, d);
    var p3 := p2.(threads := map[1 := WriteParked(d)], writeEv := Sync(Event(false, true), [1]));
    WriterParks(p3, 2, d);
    var p4 := p3.(threads := map[1 := WriteParked(d), 2 := WriteParked(d)], writeEv := Sync(Event(false, true), [1, 2]));
    OneStep(p4, CallRead(3, CAPACITY));
    ReachesOn(p0, p1, p2);
    ReachesOn(p0, p2, p3);
    ReachesOn(p0, p3, p4);
    ReachesOn(p0, p4, FullPipe(full, d));
  }

  lemma {:induction false} TwoEnds(p: Pipe)
    requires p.ends == {} && p.writerCount == 0
    ensures Reaches(p, p.(ends := {1, 2}, writerCount := 2))
  {
    var q := p.(ends := {1}, writerCount := 1);
    OneStep(p, OpenEnd(1));
    OneStep(q, OpenEnd(2));
    assert {1} + {2} == {1, 2};
    ReachesOn(p, q, p.(ends := {1, 2}, writerCount := 2));
  }

  /** The reader empties the full pipe, which wakes the first writer. */
  lemma {:induction false} DrainFullPipe(p: Pipe, full: seq<Byte>, d: seq<Byte>) returns (q: Pipe)
    requires |full| == CAPACITY && p == FullPipe(full, d)
    ensures Reaches(p, q) && q.stream == [] && q.threads == map[1 := WriteTop(d), 2 := WriteParked(d)]
    ensures q.writeEv == Sync(Event(false, true), [2]) && q.lock == None
  {
    var p1 := p.(stream := [], delivered := full, lock := Some(3),
                 threads := map[1 := WriteParked(d), 2 := WriteParked(d), 3 := ReadOwesBoth]);
    assert p1 == Step(p, ReadLock(3, true)) by { assert full[..CAPACITY] == full && full[CAPACITY..] == []; }
    var p2 := p1.(writeEv := Sync(Event(false, true), [2]), threads := map[1 := WriteTop(d), 2 := WriteParked(d), 3 := ReadOwesRead]);
    assert p2 == Step(p1, ReadNotifyWriters(3)) by { assert [1, 2][1..] == [2]; assert SignalWriters(p1).threads[3 := ReadOwesRead] == p2.threads; }
    q := p2.(lock := None, threads := map[1 := WriteTop(d), 2 := WriteParked(d)]);
    assert q == Step(p2, ReadNotifyReaders(3)) by { assert p2.threads - {3} == q.threads; }
    ThreeSteps(p, ReadLock(3, true), ReadNotifyWriters(3), ReadNotifyReaders(3));
  }

  /** It happens: a run from the empty pipe at whose end a writer sleeps on an empty pipe with
      nobody left to wake it. */
  lemma {:induction false} FailedCopyInLosesWakeup(full: seq<Byte>, d: seq<Byte>) returns (p: Pipe)
    requires |full| == CAPACITY && d != []
    ensures Reaches(EMPTY, p)
    ensures p.stream == [] && p.threads == map[2 := WriteParked(d)] && !Raised(p.writeEv) && !NoLost(p)
  {
    ReachFullPipe(EMPTY, full, d);
    var q := DrainFullPipe(FullPipe(full, d), full, d);
    p := Gone(q, 1);
    assert p.threads == map[2 := WriteParked(d)];
    OneStep(q, WriteLock(1, false));
    ReachesOn(EMPTY, FullPipe(full, d), q);
    ReachesOn(EMPTY, q, p);
    assert WaitsToWrite(p.threads[2]);
  }

  // ----- End of file with several readers

  /** The writers are gone and the pipe is empty; readers are left, and droppers that still owe
      the announcement. */
  ghost predicate Ending(p: Pipe) {
    && Sane(p) && p.ends == {} && p.stream == []
    && forall t :: t in p.threads ==>
         p.threads[t].ReadTop? || p.threads[t].ReadWait? || p.threads[t].ReadParked? || p.threads[t].DropOwesRead?
  }

  ghost function Waiting(p: Pipe): set<Tid> {
    set t | t in p.threads && WaitsToRead(p.threads[t])
  }

  ghost function Droppers(p: Pipe): set<Tid> {
    set t | t in p.threads && p.threads[t].DropOwesRead?
  }

  /** Wakeups still to come. */
  ghost function Tokens(p: Pipe): nat {
    |Droppers(p)| + if Raised(p.readEv) then 1 else 0
  }

  /** No new writer comes, and no reader is interrupted or refused its sleep. */
  predicate Undisturbed(a: Action) {
    !(a.OpenEnd? || a.CallWrite? || a.ReadInterrupted? || (a.ReadSleep? && a.adm != Accept))
  }

  ghost predicate AllUndisturbed(acts: seq<Action>) {
    forall i | 0 <= i < |acts| :: Undisturbed(acts[i])
  }

  /** What the announcement does to every thread and to the event. */
  lemma {:induction false} NotifyThreads(p: Pipe, t: Tid)
    requires Sane(p) && Enabled(p, DropNotify(t))
    ensures var q, b := Step(p, DropNotify(t)), p.readEv.blocked;
            && q.threads.Keys == p.threads.Keys - {t}
            && (forall u :: u in q.threads ==>
                  q.threads[u] == if b != [] && u == b[0] then Woken(p.threads[u]) else p.threads[u])
            && q.readEv.blocked == (if b == [] then [] else b[1..])
            && (b == [] ==> Raised(q.readEv)) && (b != [] ==> !Raised(p.readEv) && !Raised(q.readEv))
            && (b != [] ==> b[0] in q.threads && p.threads[b[0]].ReadParked?)
  {
    SignalOnAutoReset(p.readEv);
    if p.readEv.blocked != [] { assert p.readEv.blocked[0] in p.readEv.blocked; }
  }

  /** The announcement wakes the reader that has been parked longest and no other: the readers
      still parked are exactly the rest of the list. */
  lemma {:induction false} LastDropWakesFirst(p: Pipe, t: Tid)
    requires Sane(p) && Enabled(p, DropNotify(t))
    ensures var q := Step(p, DropNotify(t));
            forall u :: u in q.threads && q.threads[u].ReadParked? <==>
              p.readEv.blocked != [] && u in p.readEv.blocked[1..]
  {
    var b := p.readEv.blocked;
    NotifyThreads(p, t);
    if b != [] { RestOf(b); }
  }

  lemma {:induction false} RestOf(b: seq<Tid>)
    requires b != [] && Distinct(b)
    ensures forall u :: u in b[1..] <==> u in b && u != b[0]
  {
    assert b == [b[0]] + b[1..];
  }

  // ----- Counting readers against wakeups

  lemma {:induction false} EnteringKeepsCount(p: Pipe, t: Tid, want: nat)
    requires Ending(p) && Enabled(p, CallRead(t, want))
    ensures var q := Step(p, CallRead(t, want)); Ending(q) && Waiting(q) == Waiting(p) && Tokens(q) == Tokens(p)
  {
    var q := Step(p, CallRead(t, want));
    StepKeepsSane(p, CallRead(t, want));
    assert Waiting(q) == Waiting(p) && Droppers(q) == Droppers(p);
  }

  /** A reader at the top of its loop finds end of file and leaves. */
  lemma {:induction false} ReturningKeepsCount(p: Pipe, t: Tid, copyOk: bool)
    requires Ending(p) && Enabled(p, ReadLock(t, copyOk))
    ensures var q := Step(p, ReadLock(t, copyOk));
            && q == Gone(p, t) && Returns(p, ReadLock(t, copyOk)) == Some(0)
            && Ending(q) && Waiting(q) == Waiting(p) && Tokens(q) == Tokens(p)
  {
    var q := Step(p, ReadLock(t, copyOk));
    StepKeepsSane(p, ReadLock(t, copyOk));
    assert Waiting(q) == Waiting(p) && Droppers(q) == Droppers(p);
  }

  /** Going to sleep uses up a raised event, or changes nothing that counts. */
  lemma {:induction false} SleepingCounts(p: Pipe, t: Tid)
    requires Ending(p) && Enabled(p, ReadSleep(t, Accept))
    ensures var q := Step(p, ReadSleep(t, Accept));
            && Ending(q) && q.threads.Keys == p.threads.Keys && Droppers(q) == Droppers(p)
            && if Raised(p.readEv) then Waiting(q) == Waiting(p) - {t} && !Raised(q.readEv)
               else Waiting(q) == Waiting(p) && !Raised(q.readEv)
  {
    var q := Step(p, ReadSleep(t, Accept));
    StepKeepsSane(p, ReadSleep(t, Accept));
    assert Droppers(q) == Droppers(p);
    assert Waiting(q) == if Raised(p.readEv) then Waiting(p) - {t} else Waiting(p);
  }

  /** An announcement releases one reader, or raises the event. */
  lemma {:induction false} NotifyingCounts(p: Pipe, t: Tid)
    requires Ending(p) && Enabled(p, DropNotify(t))
    ensures var q, b := Step(p, DropNotify(t)), p.readEv.blocked;
            && Ending(q) && q.threads.Keys == p.threads.Keys - {t} && Droppers(q) == Droppers(p) - {t}
            && (b == [] ==> Waiting(q) == Waiting(p) && Raised(q.readEv))
            && (b != [] ==> Waiting(q) == Waiting(p) - {b[0]} && b[0] in Waiting(p) && !Raised(p.readEv) && !Raised(q.readEv))
  {
    NotifyThreads(p, t);
    NotifyStaysEnding(p, t);
    CountsAfter(p, Step(p, DropNotify(t)), t, p.readEv.blocked);
  }

  lemma {:induction false} CountsAfter(p: Pipe, q: Pipe, t: Tid, b: seq<Tid>)
    requires t in p.threads && p.threads[t].DropOwesRead? && q.threads.Keys == p.threads.Keys - {t}
    requires b != [] ==> b[0] in p.threads && p.threads[b[0]].ReadParked?
    requires forall u :: u in q.threads ==>
               q.threads[u] == if b != [] && u == b[0] then Woken(p.threads[u]) else p.threads[u]
    ensures Droppers(q) == Droppers(p) - {t}
    ensures Waiting(q) == if b == [] then Waiting(p) else Waiting(p) - {b[0]}
    ensures b != [] ==> b[0] in Waiting(p)
  {
  }

  lemma {:induction false} NotifyStaysEnding(p: Pipe, t: Tid)
    requires Ending(p) && Enabled(p, DropNotify(t))
    ensures Ending(Step(p, DropNotify(t)))
  {
    NotifyThreads(p, t);
    StepKeepsSane(p, DropNotify(t));
  }

  lemma {:induction false} Less(s: set<Tid>, t: Tid)
    requires t in s
    ensures |s - {t}| == |s| - 1
  {
  }

  /** Every undisturbed step stays in this phase and uses at least one wakeup for each reader it
      releases. */
  lemma {:induction false} StepNeedsWakeup(p: Pipe, a: Action)
    requires Ending(p) && Enabled(p, a) && Undisturbed(a)
    ensures var q := Step(p, a); Ending(q) && |Waiting(q)| - Tokens(q) >= |Waiting(p)| - Tokens(p)
  {
    match a {
      case CallRead(t, want) => EnteringKeepsCount(p, t, want);
      case ReadLock(t, ok) => ReturningKeepsCount(p, t, ok);
      case ReadSleep(t, _) =>
        SleepingCounts(p, t);
        Less(Waiting(p), t);
      case DropNotify(t) =>
        NotifyingCounts(p, t);
        Less(Droppers(p), t);
        if p.readEv.blocked != [] { Less(Waiting(p), p.readEv.blocked[0]); }
      case DropEnd(t, e) => assert false;
      case _ => NobodyElse(p, a);
    }
  }

  lemma {:induction false} NobodyElse(p: Pipe, a: Action)
    requires Ending(p) && Enabled(p, a)
    ensures !(a.ReadNotifyWriters? || a.ReadNotifyReaders? || a.WriteLock? || a.WriteSleep? || a.WriteInterrupted? ||
              a.WriteNotifyReaders? || a.WriteNotifyWriters?)
  {
  }

  lemma {:induction false} RunNeedsWakeups(p: Pipe, acts: seq<Action>)
    requires Ending(p) && Possible(p, acts) && AllUndisturbed(acts)
    ensures var q := Run(p, acts); Ending(q) && |Waiting(q)| - Tokens(q) >= |Waiting(p)| - Tokens(p)
    decreases acts
  {
    if acts != [] {
      StepNeedsWakeup(p, acts[0]);
      RunNeedsWakeups(Step(p, acts[0]), acts[1..]);
    }
  }

  /** A schedule that lets everybody return, when there are enough wakeups. */
  lemma {:induction false} Finish(p: Pipe) returns (acts: seq<Action>)
    requires Ending(p) && |Waiting(p)| <= Tokens(p)
    ensures Possible(p, acts) && AllUndisturbed(acts) && Run(p, acts).threads == map[]
    decreases |p.threads.Keys| + |Waiting(p)|, 0
  {
    if t :| t in p.threads && p.threads[t].ReadTop? {
      assert p.lock == None;
      ReturningKeepsCount(p, t, true);
      Less(p.threads.Keys, t);
      acts := FinishAfter(p, ReadLock(t, true));
    } else if t :| Raised(p.readEv) && t in p.threads && p.threads[t].ReadWait? {
      SleepingCounts(p, t);
      Less(Waiting(p), t);
      acts := FinishAfter(p, ReadSleep(t, Accept));
    } else if t :| t in p.threads && p.threads[t].DropOwesRead? {
      NotifyingCounts(p, t);
      Less(p.threads.Keys, t);
      Less(Droppers(p), t);
      if p.readEv.blocked != [] { Less(Waiting(p), p.readEv.blocked[0]); }
      acts := FinishAfter(p, DropNotify(t));
    } else {
      NobodyLeft(p);
      acts := [];
    }
  }

  lemma {:induction false} FinishAfter(p: Pipe, a: Action) returns (acts: seq<Action>)
    requires Enabled(p, a) && Undisturbed(a)
    requires var q := Step(p, a); Ending(q) && |Waiting(q)| <= Tokens(q)
    ensures Possible(p, acts) && AllUndisturbed(acts) && Run(p, acts).threads == map[]
    decreases |Step(p, a).threads.Keys| + |Waiting(Step(p, a))|, 1
  {
    var rest := Finish(Step(p, a));
    acts := [a] + rest;
    assert acts[1..] == rest;
  }

  lemma {:induction false} NobodyLeft(p: Pipe)
    requires Ending(p) && |Waiting(p)| <= Tokens(p)
    requires forall t :: t in p.threads ==> !p.threads[t].ReadTop? && !p.threads[t].DropOwesRead?
    requires Raised(p.readEv) ==> forall t :: t in p.threads ==> !p.threads[t].ReadWait?
    ensures p.threads == map[]
  {
    assert Droppers(p) == {};
    assert Raised(p.readEv) ==> p.readEv.blocked == [];
    assert Waiting(p) == {};
    assert p.threads.Keys == Waiting(p);
  }

  /** End of file reaches every reader exactly when there are as many wakeups to come, from a
      raised event or from droppers, as there are waiting readers. */
  lemma {:induction false} EofReachesAllIff(p: Pipe)
    requires Ending(p)
    ensures (exists acts :: Possible(p, acts) && AllUndisturbed(acts) && Run(p, acts).threads == map[]) <==>
            |Waiting(p)| <= Tokens(p)
  {
    if |Waiting(p)| <= Tokens(p) { var acts := Finish(p); }
    if acts :| Possible(p, acts) && AllUndisturbed(acts) && Run(p, acts).threads == map[] {
      RunNeedsWakeups(p, acts);
      assert Waiting(Run(p, acts)) == {};
    }
  }

  lemma {:induction false} DistinctCount(b: seq<Tid>, s: set<Tid>)
    requires Distinct(b) && forall t :: t in s <==> t in b
    ensures |s| == |b|
  {
    if b == [] {
      assert s == {};
    } else {
      RestOf(b);
      DistinctCount(b[1..], s - {b[0]});
    }
  }

  /** With one dropper and parked readers only, that is at most one reader. */
  lemma {:induction false} LastDropReachesAllIff(p: Pipe, t: Tid)
    requires Ending(p) && Enabled(p, DropNotify(t)) && forall u :: u in p.threads && u != t ==> p.threads[u].ReadParked?
    ensures (exists acts :: Possible(p, acts) && AllUndisturbed(acts) && Run(p, acts).threads == map[]) <==>
            |p.readEv.blocked| <= 1
  {
    EofReachesAllIff(p);
    assert Droppers(p) == {t};
    DistinctCount(p.readEv.blocked, Waiting(p));
  }

  /** Once the announcements are used up, a parked reader stays parked whatever the other readers
      do. */
  lemma {:induction false} ParkedStayParked(p: Pipe, acts: seq<Action>, u: Tid)
    requires Ending(p) && Tokens(p) == 0 && Possible(p, acts) && AllUndisturbed(acts)
    requires u in p.threads && p.threads[u].ReadParked?
    ensures var q := Run(p, acts); u in q.threads && q.threads[u].ReadParked?
    decreases acts
  {
    if acts != [] {
      ParkedStaysOne(p, acts[0], u);
      ParkedStayParked(Step(p, acts[0]), acts[1..], u);
    }
  }

  lemma {:induction false} OwesToken(p: Pipe, t: Tid)
    requires Enabled(p, DropNotify(t))
    ensures Tokens(p) > 0
  {
    assert t in Droppers(p);
  }

  lemma {:induction false} ParkedStaysOne(p: Pipe, a: Action, u: Tid)
    requires Ending(p) && Tokens(p) == 0 && Enabled(p, a) && Undisturbed(a)
    requires u in p.threads && p.threads[u].ReadParked?
    ensures var q := Step(p, a); Ending(q) && Tokens(q) == 0 && u in q.threads && q.threads[u].ReadParked?
  {
    StepNeedsWakeup(p, a);
    match a {
      case CallRead(t, want) => EnteringKeepsCount(p, t, want);
      case ReadLock(t, ok) => ReturningKeepsCount(p, t, ok);
      case ReadSleep(t, _) => SleepingCounts(p, t);
      case DropNotify(t) => OwesToken(p, t);
      case DropEnd(t, e) => assert false;
      case _ => NobodyElse(p, a);
    }
  }

  /** A reader goes to sleep on an empty pipe that still has a writer. */
  lemma {:induction false} ReaderParks(p: Pipe, t: Tid, want: nat)
    requires p.stream == [] && p.writerCount > 0 && p.lock == None && t !in p.threads && want > 0 && p.readEv.state == Event(false, true)
    ensures Reaches(p, p.(threads := p.threads[t := ReadParked(want)], readEv := Sync(Event(false, true), p.readEv.blocked + [t])))
  {
    var p1 := p.(threads := p.threads[t := ReadTop(want)]);
    assert p1 == Step(p, CallRead(t, want));
    var p2 := p.(threads := p.threads[t := ReadWait(want)]);
    assert p2 == Step(p1, ReadLock(t, true)) by { assert p1.threads[t := ReadWait(want)] == p2.threads; }
    var p3 := p.(threads := p.threads[t := ReadParked(want)], readEv := Sync(Event(false, true), p.readEv.blocked + [t]));
    assert p3 == Step(p2, ReadSleep(t, Accept)) by { assert p2.threads[t := ReadParked(want)] == p3.threads; }
    ThreeSteps(p, CallRead(t, want), ReadLock(t, true), ReadSleep(t, Accept));
  }

  /** A pipe with two readers asleep, whose last writer has gone but not yet said so. */
  ghost function TwoAsleep(): Pipe {
    Pipe([], Sync(Event(false, true), [1, 2]), AUTO_RESET, 0, None,
         map[1 := ReadParked(1), 2 := ReadParked(1), 3 := DropOwesRead], {}, [], [])
  }

  lemma {:induction false} ReachTwoAsleep(p0: Pipe)
    requires p0 == EMPTY
    ensures Reaches(p0, TwoAsleep())
  {
    var p1 := p0.(ends := {0}, writerCount := 1);
    OneStep(p0, OpenEnd(0));
    ReaderParks(p1, 1, 1);
    var p2 := p1.(threads := map[1 := ReadParked(1)], readEv := Sync(Event(false, true), [1]));
    ReaderParks(p2, 2, 1);
    var p3 := p2.(threads := map[1 := ReadParked(1), 2 := ReadParked(1)], readEv := Sync(Event(false, true), [1, 2]));
    DropsLast(p3);
    ReachesOn(p0, p1, p2);
    ReachesOn(p0, p2, p3);
    ReachesOn(p0, p3, TwoAsleep());
  }

  lemma {:induction false} DropsLast(p: Pipe)
    requires p == TwoAsleep().(ends := {0}, writerCount := 1, threads := map[1 := ReadParked(1), 2 := ReadParked(1)])
    ensures Reaches(p, TwoAsleep())
  {
    assert p.ends - {0} == {};
    assert TwoAsleep() == Step(p, DropEnd(3, 0));
    OneStep(p, DropEnd(3, 0));
  }

  lemma {:induction false} TwoAsleepEnds()
    ensures Ending(TwoAsleep())
  {
    var p := TwoAsleep();
    assert p.threads.Keys == {1, 2, 3};
  }

  /** It happens: with two readers asleep when the last writer drops, no undisturbed run lets both
      return. */
  lemma {:induction false} SecondReaderMissesEof(p: Pipe)
    requires p == TwoAsleep()
    ensures Reaches(EMPTY, p) && Ending(p) && Enabled(p, DropNotify(3))
    ensures !exists acts :: Possible(p, acts) && AllUndisturbed(acts) && Run(p, acts).threads == map[]
  {
    ReachTwoAsleep(EMPTY);
    TwoAsleepEnds();
    LastDropReachesAllIff(p, 3);
  }
}
