/** The byte pipe (kernel/src/pipe.rs): any number of readers and writers share a bounded
    stream under a spinlock and sleep on two auto-reset events.

    Each action below is one atomic step of one thread: a critical section, one event
    operation, or one atomic counter operation. The signals a thread sends while it still
    holds the stream lock are steps of their own, so other threads may wait in between. */
module Pipe {
  import opened Basics
  import opened Semaphore

  const CAPACITY: nat := 512

  type End = nat

  /** Where a thread is inside `read`, `write` or the drop of a write end. */
  datatype Pc =
    | ReadTop(want: nat)
    | ReadWait(want: nat)
    | ReadParked(want: nat)
    | ReadOwesBoth
    | ReadOwesRead
    | WriteTop(data: seq<Byte>)
    | WriteWait(data: seq<Byte>)
    | WriteParked(data: seq<Byte>)
    | WriteOwesBoth
    | WriteOwesWrite
    | DropOwesRead

  datatype Pipe = Pipe(
    stream: seq<Byte>,
    readEv: Sync,
    writeEv: Sync,
    writerCount: nat,
    lock: Option<Tid>,
    threads: map<Tid, Pc>,
    ends: set<End>,
    accepted: seq<Byte>,
    delivered: seq<Byte>)

  datatype Action =
    | OpenEnd(e: End)
    | DropEnd(t: Tid, e: End)
    | DropNotify(t: Tid)
    | CallRead(t: Tid, want: nat)
    | ReadLock(t: Tid, copyOk: bool)
    | ReadSleep(t: Tid, adm: Admission)
    | ReadInterrupted(t: Tid)
    | ReadNotifyWriters(t: Tid)
    | ReadNotifyReaders(t: Tid)
    | CallWrite(t: Tid, data: seq<Byte>)
    | WriteLock(t: Tid, copyOk: bool)
    | WriteSleep(t: Tid, adm: Admission)
    | WriteInterrupted(t: Tid)
    | WriteNotifyReaders(t: Tid)
    | WriteNotifyWriters(t: Tid)

  const AUTO_RESET := Sync(Event(false, true), [])

  const EMPTY := Pipe([], AUTO_RESET, AUTO_RESET, 0, None, map[], {}, [], [])

  predicate Enabled(p: Pipe, a: Action) {
    match a
    case OpenEnd(e) => e !in p.ends
    case DropEnd(t, e) => t !in p.threads && e in p.ends
    case DropNotify(t) => t in p.threads && p.threads[t].DropOwesRead?
    case CallRead(t, _) => t !in p.threads
    case ReadLock(t, _) => t in p.threads && p.threads[t].ReadTop? && p.lock == None
    case ReadSleep(t, _) => t in p.threads && p.threads[t].ReadWait?
    case ReadInterrupted(t) => t in p.threads && p.threads[t].ReadParked?
    case ReadNotifyWriters(t) => t in p.threads && p.threads[t].ReadOwesBoth?
    case ReadNotifyReaders(t) => t in p.threads && p.threads[t].ReadOwesRead?
    case CallWrite(t, _) => t !in p.threads
    case WriteLock(t, _) => t in p.threads && p.threads[t].WriteTop? && p.lock == None
    case WriteSleep(t, _) => t in p.threads && p.threads[t].WriteWait?
    case WriteInterrupted(t) => t in p.threads && p.threads[t].WriteParked?
    case WriteNotifyReaders(t) => t in p.threads && p.threads[t].WriteOwesBoth?
    case WriteNotifyWriters(t) => t in p.threads && p.threads[t].WriteOwesWrite?
  }

  /** The top of the loop a woken thread returns to. */
  function Woken(pc: Pc): Pc {
    match pc
    case ReadParked(want) => ReadTop(want)
    case WriteParked(data) => WriteTop(data)
    case _ => pc
  }

  function SignalReaders(p: Pipe): Pipe {
    var (ev, woken) := Signal(p.readEv, {});
    p.(readEv := ev, threads := map t | t in p.threads :: if t in woken then Woken(p.threads[t]) else p.threads[t])
  }

  function SignalWriters(p: Pipe): Pipe {
    var (ev, woken) := Signal(p.writeEv, {});
    p.(writeEv := ev, threads := map t | t in p.threads :: if t in woken then Woken(p.threads[t]) else p.threads[t])
  }

  function Gone(p: Pipe, t: Tid): Pipe {
    p.(threads := p.threads - {t})
  }

  function Give(p: Pipe, want: nat): nat {
    if want < |p.stream| then want else |p.stream|
  }

  function Room(p: Pipe, len: nat): nat {
    if |p.stream| <= CAPACITY && CAPACITY - |p.stream| < len then CAPACITY - |p.stream| else len
  }

  function Step(p: Pipe, a: Action): Pipe
    requires Enabled(p, a)
  {
    match a
    case OpenEnd(e) => p.(ends := p.ends + {e}, writerCount := p.writerCount + 1)
    case DropEnd(t, e) =>
      var q := p.(ends := p.ends - {e}, writerCount := if p.writerCount == 0 then 0 else p.writerCount - 1);
      if p.writerCount == 1 then q.(threads := p.threads[t := DropOwesRead]) else q
    case DropNotify(t) => Gone(SignalReaders(p), t)
    case CallRead(t, want) => if want == 0 then p else p.(threads := p.threads[t := ReadTop(want)])
    case ReadLock(t, copyOk) =>
      if |p.stream| > 0 then
        var give := Give(p, p.threads[t].want);
        var q := p.(lock := Some(t), threads := p.threads[t := ReadOwesBoth]);
        if copyOk then q.(stream := p.stream[give..], delivered := p.delivered + p.stream[..give]) else q
      else if p.writerCount == 0 then Gone(p, t)
      else p.(threads := p.threads[t := ReadWait(p.threads[t].want)])
    case ReadSleep(t, adm) =>
      var (ev, o) := Wait(p.readEv, t, false, adm);
      var q := p.(readEv := ev);
      if o == Ok then q.(threads := p.threads[t := ReadTop(p.threads[t].want)])
      else if o == Parked then q.(threads := p.threads[t := ReadParked(p.threads[t].want)])
      else Gone(q, t)
    case ReadInterrupted(t) => Gone(p.(readEv := Leave(p.readEv, t)), t)
    case ReadNotifyWriters(t) =>
      var q := SignalWriters(p);
      q.(threads := q.threads[t := ReadOwesRead])
    case ReadNotifyReaders(t) =>
      var q := if |p.stream| > 0 then SignalReaders(p) else p;
      Gone(q, t).(lock := None)
    case CallWrite(t, data) => if data == [] then p else p.(threads := p.threads[t := WriteTop(data)])
    case WriteLock(t, copyOk) =>
      if |p.stream| == CAPACITY then p.(threads := p.threads[t := WriteWait(p.threads[t].data)])
      else if !copyOk then Gone(p, t)
      else
        var bytes := p.threads[t].data[..Room(p, |p.threads[t].data|)];
        p.(lock := Some(t), threads := p.threads[t := WriteOwesBoth],
           stream := p.stream + bytes, accepted := p.accepted + bytes)
    case WriteSleep(t, adm) =>
      var (ev, o) := Wait(p.writeEv, t, false, adm);
      var q := p.(writeEv := ev);
      if o == Ok then q.(threads := p.threads[t := WriteTop(p.threads[t].data)])
      else if o == Parked then q.(threads := p.threads[t := WriteParked(p.threads[t].data)])
      else Gone(q, t)
    case WriteInterrupted(t) => Gone(p.(writeEv := Leave(p.writeEv, t)), t)
    case WriteNotifyReaders(t) =>
      var q := SignalReaders(p);
      q.(threads := q.threads[t := WriteOwesWrite])
    case WriteNotifyWriters(t) =>
      var q := if |p.stream| < CAPACITY then SignalWriters(p) else p;
      Gone(q, t).(lock := None)
  }

  predicate HoldsLock(pc: Pc) {
    pc.ReadOwesBoth? || pc.ReadOwesRead? || pc.WriteOwesBoth? || pc.WriteOwesWrite?
  }

  predicate AutoResetOk(ev: Sync) {
    Consistent(ev) && ev.state.Event? && ev.state.autoReset
  }

  /** Bookkeeping: bounded buffer, conserved bytes, exact writer count, one lock holder, and
      the blocked list of each event is exactly the set of threads parked on it. */
  ghost predicate Sane(p: Pipe) {
    && AutoResetOk(p.readEv) && AutoResetOk(p.writeEv)
    && |p.stream| <= CAPACITY
    && p.accepted == p.delivered + p.stream
    && p.writerCount == |p.ends|
    && (forall t :: t in p.threads ==> (HoldsLock(p.threads[t]) <==> p.lock == Some(t)))
    && (p.lock.Some? ==> p.lock.value in p.threads)
    && (forall t :: t in p.readEv.blocked <==> t in p.threads && p.threads[t].ReadParked?)
    && (forall t :: t in p.writeEv.blocked <==> t in p.threads && p.threads[t].WriteParked?)
    && (forall t :: t in p.threads && p.threads[t].ReadTop? ==> p.threads[t].want > 0)
    && (forall t :: t in p.threads && p.threads[t].ReadWait? ==> p.threads[t].want > 0)
    && (forall t :: t in p.threads && p.threads[t].ReadParked? ==> p.threads[t].want > 0)
  }

  /** A reader on its way to sleep, or asleep. */
  predicate WaitsToRead(pc: Pc) {
    pc.ReadWait? || pc.ReadParked?
  }

  /** A thread that will look at the stream as a reader, or will signal readers after a
      stream change it has already made. */
  predicate AttendsReaders(pc: Pc) {
    pc.ReadTop? || pc.ReadOwesBoth? || pc.ReadOwesRead? || pc.WriteOwesBoth?
  }

  predicate WaitsToWrite(pc: Pc) {
    pc.WriteWait? || pc.WriteParked?
  }

  predicate AttendsWriters(pc: Pc) {
    pc.WriteTop? || pc.WriteOwesBoth? || pc.WriteOwesWrite? || pc.ReadOwesBoth?
  }

  predicate Raised(ev: Sync) {
    ev.state.Event? && ev.state.signalled
  }

  /** Data is never left with a reader waiting unless the wakeup is still on its way. */
  ghost predicate NoLostRead(p: Pipe) {
    |p.stream| > 0 && (exists t :: t in p.threads && WaitsToRead(p.threads[t])) ==>
      Raised(p.readEv) || exists t :: t in p.threads && AttendsReaders(p.threads[t])
  }

  /** Room is never left with a writer waiting unless the wakeup is still on its way. */
  ghost predicate NoLostWrite(p: Pipe) {
    |p.stream| < CAPACITY && (exists t :: t in p.threads && WaitsToWrite(p.threads[t])) ==>
      Raised(p.writeEv) || exists t :: t in p.threads && AttendsWriters(p.threads[t])
  }

  ghost predicate NoLost(p: Pipe) {
    NoLostRead(p) && NoLostWrite(p)
  }

  ghost predicate Inv(p: Pipe) {
    Sane(p) && NoLost(p)
  }

  ghost predicate AllAsleep(p: Pipe) {
    forall t :: t in p.threads ==> p.threads[t].ReadParked? || p.threads[t].WriteParked?
  }

  /** The one excluded event: the copy-in of a write fails, and `write` returns without
      passing on the wakeup it may have consumed. */
  predicate CopyInFails(p: Pipe, a: Action) {
    a.WriteLock? && !a.copyOk && |p.stream| != CAPACITY
  }

  lemma {:induction false} SignalOnAutoReset(ev: Sync)
    requires AutoResetOk(ev)
    ensures var (ev', woken) := Signal(ev, {});
            && AutoResetOk(ev')
            && (ev.blocked == [] ==> woken == [] && ev'.blocked == [] && ev'.state.signalled)
            && (ev.blocked != [] ==> woken == [ev.blocked[0]] && ev'.state == ev.state)
            && (forall t :: t in ev'.blocked <==> t in ev.blocked && t !in woken)
  {
    if ev.blocked != [] {
      assert ev.blocked == [ev.blocked[0]] + ev.blocked[1..];
    }
  }

  /** `m` is `p` after one signal to the readers: at most parked readers moved, back to the
      top of their loop, and the signal was not lost. */
  ghost predicate ReadersWoken(p: Pipe, m: Pipe) {
    && m.threads.Keys == p.threads.Keys
    && m == p.(readEv := m.readEv, threads := m.threads)
    && (forall t :: t in p.threads && !p.threads[t].ReadParked? ==> m.threads[t] == p.threads[t])
    && (forall t :: t in p.threads && p.threads[t].ReadParked? ==>
          m.threads[t] == p.threads[t] || m.threads[t] == ReadTop(p.threads[t].want))
    && (Raised(m.readEv) || exists t :: t in p.threads && p.threads[t].ReadParked? && m.threads[t].ReadTop?)
  }

  ghost predicate WritersWoken(p: Pipe, m: Pipe) {
    && m.threads.Keys == p.threads.Keys
    && m == p.(writeEv := m.writeEv, threads := m.threads)
    && (forall t :: t in p.threads && !p.threads[t].WriteParked? ==> m.threads[t] == p.threads[t])
    && (forall t :: t in p.threads && p.threads[t].WriteParked? ==>
          m.threads[t] == p.threads[t] || m.threads[t] == WriteTop(p.threads[t].data))
    && (Raised(m.writeEv) || exists t :: t in p.threads && p.threads[t].WriteParked? && m.threads[t].WriteTop?)
  }

  lemma {:induction false} SignalReadersWorks(p: Pipe)
    requires Sane(p)
    ensures Sane(SignalReaders(p)) && ReadersWoken(p, SignalReaders(p))
  {
    SignalOnAutoReset(p.readEv);
    var q := SignalReaders(p);
    if p.readEv.blocked != [] {
      var h := p.readEv.blocked[0];
      assert h in p.readEv.blocked;
      assert q.threads[h].ReadTop?;
    }
  }

  lemma {:induction false} SignalWritersWorks(p: Pipe)
    requires Sane(p)
    ensures Sane(SignalWriters(p)) && WritersWoken(p, SignalWriters(p))
  {
    SignalOnAutoReset(p.writeEv);
    var q := SignalWriters(p);
    if p.writeEv.blocked != [] {
      var h := p.writeEv.blocked[0];
      assert h in p.writeEv.blocked;
      assert q.threads[h].WriteTop?;
    }
  }

  // ----- Bookkeeping, action by action

  /** The lock holder moves on to its second signal. */
  lemma {:induction false} HolderAdvances(m: Pipe, t: Tid, pc: Pc)
    requires Sane(m) && m.lock == Some(t) && HoldsLock(pc)
    ensures Sane(m.(threads := m.threads[t := pc]))
  {
  }

  /** A thread that is not asleep can leave; if it holds the lock it releases it. */
  lemma {:induction false} LeavingIsSane(m: Pipe, t: Tid)
    requires Sane(m) && t in m.threads && !m.threads[t].ReadParked? && !m.threads[t].WriteParked?
    ensures Sane(Gone(m, t).(lock := if m.lock == Some(t) then None else m.lock))
  {
  }

  lemma {:induction false} EndIsSane(p: Pipe, a: Action)
    requires Sane(p) && Enabled(p, a) && (a.OpenEnd? || a.DropEnd?)
    ensures Sane(Step(p, a))
  {
  }

  lemma {:induction false} CallIsSane(p: Pipe, a: Action)
    requires Sane(p) && Enabled(p, a) && (a.CallRead? || a.CallWrite?)
    ensures Sane(Step(p, a))
  {
  }

  lemma {:induction false} ReadLockIsSane(p: Pipe, t: Tid, copyOk: bool)
    requires Sane(p) && Enabled(p, ReadLock(t, copyOk))
    ensures Sane(Step(p, ReadLock(t, copyOk)))
  {
  }

  lemma {:induction false} WriteLockIsSane(p: Pipe, t: Tid, copyOk: bool)
    requires Sane(p) && Enabled(p, WriteLock(t, copyOk))
    ensures Sane(Step(p, WriteLock(t, copyOk)))
  {
  }

  lemma {:induction false} ReadSleepIsSane(p: Pipe, t: Tid, adm: Admission)
    requires Sane(p) && Enabled(p, ReadSleep(t, adm))
    ensures Sane(Step(p, ReadSleep(t, adm)))
  {
    WaitKeepsConsistent(p.readEv, t, false, adm);
  }

  lemma {:induction false} WriteSleepIsSane(p: Pipe, t: Tid, adm: Admission)
    requires Sane(p) && Enabled(p, WriteSleep(t, adm))
    ensures Sane(Step(p, WriteSleep(t, adm)))
  {
    WaitKeepsConsistent(p.writeEv, t, false, adm);
  }

  lemma {:induction false} ReadInterruptedIsSane(p: Pipe, t: Tid)
    requires Sane(p) && Enabled(p, ReadInterrupted(t))
    ensures Sane(Step(p, ReadInterrupted(t)))
  {
    LeaveKeepsConsistent(p.readEv, t);
    WithoutFacts(p.readEv.blocked, t);
  }

  lemma {:induction false} WriteInterruptedIsSane(p: Pipe, t: Tid)
    requires Sane(p) && Enabled(p, WriteInterrupted(t))
    ensures Sane(Step(p, WriteInterrupted(t)))
  {
    LeaveKeepsConsistent(p.writeEv, t);
    WithoutFacts(p.writeEv.blocked, t);
  }

  lemma {:induction false} NotifyReadersIsSane(p: Pipe, a: Action)
    requires Sane(p) && Enabled(p, a) && (a.DropNotify? || a.ReadNotifyReaders? || a.WriteNotifyReaders?)
    ensures Sane(Step(p, a))
  {
    SignalReadersWorks(p);
    var m := SignalReaders(p);
    match a {
      case DropNotify(t) => LeavingIsSane(m, t);
      case ReadNotifyReaders(t) => LeavingIsSane(if |p.stream| > 0 then m else p, t);
      case WriteNotifyReaders(t) => HolderAdvances(m, t, WriteOwesWrite);
    }
  }

  lemma {:induction false} NotifyWritersIsSane(p: Pipe, a: Action)
    requires Sane(p) && Enabled(p, a) && (a.ReadNotifyWriters? || a.WriteNotifyWriters?)
    ensures Sane(Step(p, a))
  {
    SignalWritersWorks(p);
    var m := SignalWriters(p);
    match a {
      case ReadNotifyWriters(t) => HolderAdvances(m, t, ReadOwesRead);
      case WriteNotifyWriters(t) => LeavingIsSane(if |p.stream| < CAPACITY then m else p, t);
    }
  }

  lemma {:induction false} StepKeepsSane(p: Pipe, a: Action)
    requires Sane(p) && Enabled(p, a)
    ensures Sane(Step(p, a))
  {
    match a {
      case OpenEnd(_) => EndIsSane(p, a);
      case DropEnd(_, _) => EndIsSane(p, a);
      case CallRead(_, _) => CallIsSane(p, a);
      case CallWrite(_, _) => CallIsSane(p, a);
      case ReadLock(t, ok) => ReadLockIsSane(p, t, ok);
      case WriteLock(t, ok) => WriteLockIsSane(p, t, ok);
      case ReadSleep(t, adm) => ReadSleepIsSane(p, t, adm);
      case WriteSleep(t, adm) => WriteSleepIsSane(p, t, adm);
      case ReadInterrupted(t) => ReadInterruptedIsSane(p, t);
      case WriteInterrupted(t) => WriteInterruptedIsSane(p, t);
      case ReadNotifyWriters(_) => NotifyWritersIsSane(p, a);
      case WriteNotifyWriters(_) => NotifyWritersIsSane(p, a);
      case _ => NotifyReadersIsSane(p, a);
    }
  }

  // ----- Wakeups, action by action

  /** A step that adds no waiting reader, brings no data to an empty stream, and removes no
      attendance or raised event cannot lose a read wakeup. */
  lemma {:induction false} ReadersUntouched(p: Pipe, q: Pipe)
    requires NoLostRead(p)
    requires |q.stream| > 0 ==> |p.stream| > 0
    requires Raised(p.readEv) ==> Raised(q.readEv)
    requires forall t :: t in q.threads && WaitsToRead(q.threads[t]) ==> t in p.threads && WaitsToRead(p.threads[t])
    requires forall t :: t in p.threads && AttendsReaders(p.threads[t]) ==> t in q.threads && AttendsReaders(q.threads[t])
    ensures NoLostRead(q)
  {
  }

  lemma {:induction false} WritersUntouched(p: Pipe, q: Pipe)
    requires NoLostWrite(p)
    requires |q.stream| < CAPACITY ==> |p.stream| < CAPACITY
    requires Raised(p.writeEv) ==> Raised(q.writeEv)
    requires forall t :: t in q.threads && WaitsToWrite(q.threads[t]) ==> t in p.threads && WaitsToWrite(p.threads[t])
    requires forall t :: t in p.threads && AttendsWriters(p.threads[t]) ==> t in q.threads && AttendsWriters(q.threads[t])
    ensures NoLostWrite(q)
  {
  }

  /** After a signal to readers, a thread that was not parked may move on or leave. */
  lemma {:induction false} ReadersSignalled(p: Pipe, m: Pipe, q: Pipe, t: Tid)
    requires ReadersWoken(p, m) && q.readEv == m.readEv && t in p.threads && !p.threads[t].ReadParked?
    requires forall u :: u in m.threads && u != t ==> u in q.threads && q.threads[u] == m.threads[u]
    ensures NoLostRead(q)
  {
    if !Raised(m.readEv) {
      var u :| u in p.threads && p.threads[u].ReadParked? && m.threads[u].ReadTop?;
      assert u in q.threads && AttendsReaders(q.threads[u]);
    }
  }

  lemma {:induction false} WritersSignalled(p: Pipe, m: Pipe, q: Pipe, t: Tid)
    requires WritersWoken(p, m) && q.writeEv == m.writeEv && t in p.threads && !p.threads[t].WriteParked?
    requires forall u :: u in m.threads && u != t ==> u in q.threads && q.threads[u] == m.threads[u]
    ensures NoLostWrite(q)
  {
    if !Raised(m.writeEv) {
      var u :| u in p.threads && p.threads[u].WriteParked? && m.threads[u].WriteTop?;
      assert u in q.threads && AttendsWriters(q.threads[u]);
    }
  }

  lemma {:induction false} QuietStep(p: Pipe, a: Action)
    requires NoLost(p) && Enabled(p, a)
    requires a.OpenEnd? || a.DropEnd? || a.CallRead? || a.CallWrite? || a.ReadInterrupted? || a.WriteInterrupted?
    ensures NoLost(Step(p, a))
  {
    var q := Step(p, a);
    assert (a.ReadInterrupted? || a.WriteInterrupted?) ==> Raised(p.readEv) == Raised(q.readEv) && Raised(p.writeEv) == Raised(q.writeEv);
    ReadersUntouched(p, q);
    WritersUntouched(p, q);
  }

  lemma {:induction false} ReadLockNoLost(p: Pipe, t: Tid, copyOk: bool)
    requires NoLost(p) && Enabled(p, ReadLock(t, copyOk))
    ensures NoLost(Step(p, ReadLock(t, copyOk)))
  {
    var q := Step(p, ReadLock(t, copyOk));
    if |p.stream| > 0 {
      assert t in q.threads && AttendsReaders(q.threads[t]) && AttendsWriters(q.threads[t]);
    } else {
      WritersUntouched(p, q);
    }
  }

  lemma {:induction false} WriteLockNoLost(p: Pipe, t: Tid, copyOk: bool)
    requires NoLost(p) && Enabled(p, WriteLock(t, copyOk)) && !CopyInFails(p, WriteLock(t, copyOk))
    requires |p.stream| <= CAPACITY
    ensures NoLost(Step(p, WriteLock(t, copyOk)))
  {
    var q := Step(p, WriteLock(t, copyOk));
    if |p.stream| < CAPACITY {
      assert t in q.threads && AttendsReaders(q.threads[t]) && AttendsWriters(q.threads[t]);
    } else {
      ReadersUntouched(p, q);
    }
  }

  lemma {:induction false} ReadSleepNoLost(p: Pipe, t: Tid, adm: Admission)
    requires NoLost(p) && Enabled(p, ReadSleep(t, adm)) && AutoResetOk(p.readEv)
    ensures NoLost(Step(p, ReadSleep(t, adm)))
  {
    var q := Step(p, ReadSleep(t, adm));
    WritersUntouched(p, q);
    if Raised(p.readEv) {
      assert t in q.threads && AttendsReaders(q.threads[t]);
    } else {
      ReadersUntouched(p, q);
    }
  }

  lemma {:induction false} WriteSleepNoLost(p: Pipe, t: Tid, adm: Admission)
    requires NoLost(p) && Enabled(p, WriteSleep(t, adm)) && AutoResetOk(p.writeEv)
    ensures NoLost(Step(p, WriteSleep(t, adm)))
  {
    var q := Step(p, WriteSleep(t, adm));
    ReadersUntouched(p, q);
    if Raised(p.writeEv) {
      assert t in q.threads && AttendsWriters(q.threads[t]);
    } else {
      WritersUntouched(p, q);
    }
  }

  lemma {:induction false} NotifyReadersNoLost(p: Pipe, a: Action)
    requires NoLost(p) && Enabled(p, a) && ReadersWoken(p, SignalReaders(p))
    requires a.DropNotify? || a.WriteNotifyReaders? || a.ReadNotifyReaders?
    ensures NoLost(Step(p, a))
  {
    var m, q := SignalReaders(p), Step(p, a);
    if a.ReadNotifyReaders? && p.stream == [] {
      assert q.stream == [];
    } else {
      assert forall u :: u in m.threads && u != a.t ==> u in q.threads && q.threads[u] == m.threads[u];
      ReadersSignalled(p, m, q, a.t);
    }
    WritersUntouched(p, q);
  }

  lemma {:induction false} NotifyWritersNoLost(p: Pipe, a: Action)
    requires NoLost(p) && Enabled(p, a) && WritersWoken(p, SignalWriters(p))
    requires a.ReadNotifyWriters? || a.WriteNotifyWriters?
    ensures NoLost(Step(p, a))
  {
    var m, q := SignalWriters(p), Step(p, a);
    if a.WriteNotifyWriters? && |p.stream| >= CAPACITY {
      assert |q.stream| >= CAPACITY;
    } else {
      assert forall u :: u in m.threads && u != a.t ==> u in q.threads && q.threads[u] == m.threads[u];
      WritersSignalled(p, m, q, a.t);
    }
    ReadersUntouched(p, q);
  }

  /** Every step but a failing copy-in keeps the wakeups. */
  lemma {:induction false} StepKeepsInv(p: Pipe, a: Action)
    requires Inv(p) && Enabled(p, a) && !CopyInFails(p, a)
    ensures Inv(Step(p, a))
  {
    StepKeepsSane(p, a);
    match a {
      case ReadLock(t, ok) => ReadLockNoLost(p, t, ok);
      case WriteLock(t, ok) => WriteLockNoLost(p, t, ok);
      case ReadSleep(t, adm) => ReadSleepNoLost(p, t, adm);
      case WriteSleep(t, adm) => WriteSleepNoLost(p, t, adm);
      case DropNotify(_) => SignalReadersWorks(p); NotifyReadersNoLost(p, a);
      case ReadNotifyReaders(_) => SignalReadersWorks(p); NotifyReadersNoLost(p, a);
      case WriteNotifyReaders(_) => SignalReadersWorks(p); NotifyReadersNoLost(p, a);
      case ReadNotifyWriters(_) => SignalWritersWorks(p); NotifyWritersNoLost(p, a);
      case WriteNotifyWriters(_) => SignalWritersWorks(p); NotifyWritersNoLost(p, a);
      case _ => QuietStep(p, a);
    }
  }
}
