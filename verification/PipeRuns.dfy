/** What the pipe guarantees over whole runs, for any number of readers and writers
    (kernel/src/pipe.rs). */
module PipeRuns {
  import opened Basics
  import opened Semaphore
  import opened Pipe

  /** The actions can happen in this order from `p`. */
  ghost predicate Possible(p: Pipe, acts: seq<Action>)
    decreases acts
  {
    acts != [] ==> Enabled(p, acts[0]) && Possible(Step(p, acts[0]), acts[1..])
  }

  ghost function Run(p: Pipe, acts: seq<Action>): Pipe
    requires Possible(p, acts)
    decreases acts
  {
    if acts == [] then p else Run(Step(p, acts[0]), acts[1..])
  }

  /** No write in the run fails to copy its data in. */
  ghost predicate CopiesIn(p: Pipe, acts: seq<Action>)
    requires Possible(p, acts)
    decreases acts
  {
    acts != [] ==> !CopyInFails(p, acts[0]) && CopiesIn(Step(p, acts[0]), acts[1..])
  }

  lemma {:induction false} RunKeepsInv(p: Pipe, acts: seq<Action>)
    requires Inv(p) && Possible(p, acts) && CopiesIn(p, acts)
    ensures Inv(Run(p, acts))
    decreases acts
  {
    if acts != [] {
      StepKeepsInv(p, acts[0]);
      RunKeepsInv(Step(p, acts[0]), acts[1..]);
    }
  }

  /** No lost wakeup: whenever there is data, a waiting reader is about to be woken or to
      find the event raised; whenever there is room, the same holds for writers. */
  lemma {:induction false} NoLostWakeup(acts: seq<Action>)
    requires Possible(EMPTY, acts) && CopiesIn(EMPTY, acts)
    ensures NoLostRead(Run(EMPTY, acts)) && NoLostWrite(Run(EMPTY, acts))
  {
    RunKeepsInv(EMPTY, acts);
  }

  lemma {:induction false} AsleepMeansBlocked(p: Pipe, t: Tid)
    requires Inv(p) && t in p.threads
    requires AllAsleep(p)
    ensures p.threads[t].ReadParked? ==> p.stream == []
    ensures p.threads[t].WriteParked? ==> |p.stream| == CAPACITY
  {
    assert t in p.readEv.blocked || t in p.writeEv.blocked;
    assert WaitsToRead(p.threads[t]) || WaitsToWrite(p.threads[t]);
  }

  /** Hence no deadlock: when every thread inside the pipe is asleep, readers sleep only on
      an empty pipe and writers only on a full one, so they never all sleep together. */
  lemma {:induction false} NeverAllAsleep(acts: seq<Action>, r: Tid, w: Tid)
    requires Possible(EMPTY, acts) && CopiesIn(EMPTY, acts)
    requires AllAsleep(Run(EMPTY, acts))
    ensures var p := Run(EMPTY, acts);
            && (r in p.threads && p.threads[r].ReadParked? ==> p.stream == [])
            && (w in p.threads && p.threads[w].WriteParked? ==> |p.stream| == CAPACITY)
            && !(r in p.threads && w in p.threads && p.threads[r].ReadParked? && p.threads[w].WriteParked?)
  {
    RunKeepsInv(EMPTY, acts);
    var p := Run(EMPTY, acts);
    if r in p.threads { AsleepMeansBlocked(p, r); }
    if w in p.threads { AsleepMeansBlocked(p, w); }
  }

  lemma {:induction false} RunKeepsSane(p: Pipe, acts: seq<Action>)
    requires Sane(p) && Possible(p, acts)
    ensures Sane(Run(p, acts))
    decreases acts
  {
    if acts != [] {
      StepKeepsSane(p, acts[0]);
      RunKeepsSane(Step(p, acts[0]), acts[1..]);
    }
  }

  /** Conservation: the bytes handed out, followed by the bytes still buffered, are exactly
      the bytes accepted, in the order of acceptance; the buffer stays within its capacity
      and the writer count is the number of live write ends. */
  lemma {:induction false} BytesConserved(acts: seq<Action>)
    requires Possible(EMPTY, acts)
    ensures var p := Run(EMPTY, acts);
            p.accepted == p.delivered + p.stream && |p.stream| <= 512 && p.writerCount == |p.ends|
  {
    RunKeepsSane(EMPTY, acts);
  }

  /** The value a call returns to its caller in this step, if it returns one. */
  function Returns(p: Pipe, a: Action): Option<nat>
    requires Enabled(p, a)
  {
    match a
    case CallRead(_, want) => if want == 0 then Some(0) else None
    case CallWrite(_, data) => if data == [] then Some(0) else None
    case ReadLock(t, _) =>
      if |p.stream| > 0 then Some(Give(p, p.threads[t].want))
      else if p.writerCount == 0 then Some(0) else None
    case WriteLock(t, copyOk) =>
      if |p.stream| != CAPACITY && copyOk then Some(Room(p, |p.threads[t].data|)) else None
    case _ => None
  }

  /** An empty call returns 0 at once and leaves the pipe alone; any other is inside afterwards. */
  lemma {:induction false} EmptyCalls(p: Pipe, t: Tid, want: nat, data: seq<Byte>)
    requires Enabled(p, CallRead(t, want)) && Enabled(p, CallWrite(t, data))
    ensures if want == 0 then Returns(p, CallRead(t, want)) == Some(0) && Step(p, CallRead(t, want)) == p
            else Returns(p, CallRead(t, want)) == None && t in Step(p, CallRead(t, want)).threads
    ensures if data == [] then Returns(p, CallWrite(t, data)) == Some(0) && Step(p, CallWrite(t, data)) == p
            else Returns(p, CallWrite(t, data)) == None && t in Step(p, CallWrite(t, data)).threads
  {
  }

  /** A read hands out the oldest bytes, and stops only at the end of the request or of the
      data. When the copy-out fails it returns the same count, and the bytes stay. */
  lemma {:induction false} ReadIsMaximal(p: Pipe, t: Tid, copyOk: bool)
    requires Enabled(p, ReadLock(t, copyOk)) && p.stream != []
    ensures var q, r := Step(p, ReadLock(t, copyOk)), Returns(p, ReadLock(t, copyOk));
            && r.Some? && r.value <= p.threads[t].want && (r.value == p.threads[t].want || r.value == |p.stream|)
            && q.delivered + q.stream == p.delivered + p.stream
            && |q.delivered| == |p.delivered| + if copyOk then r.value else 0
  {
    var n := Give(p, p.threads[t].want);
    assert p.delivered + p.stream[..n] + p.stream[n..] == p.delivered + p.stream;
  }

  /** A write appends a prefix of its data, and stops only at the end of the data or when the
      pipe is full. */
  lemma {:induction false} WriteIsMaximal(p: Pipe, t: Tid)
    requires Enabled(p, WriteLock(t, true)) && |p.stream| < CAPACITY
    ensures var q, r := Step(p, WriteLock(t, true)), Returns(p, WriteLock(t, true));
            && r.Some? && r.value <= |p.threads[t].data| && q.stream == p.stream + p.threads[t].data[..r.value]
            && (r.value == |p.threads[t].data| || |q.stream| == 512)
  {
  }

  // ----- What a call was asked to do is what it does

  datatype Call = AskedRead(want: nat) | AskedWrite(data: seq<Byte>)

  /** The last call of each thread, read off the actions alone. */
  function Calls(asked: map<Tid, Call>, acts: seq<Action>): map<Tid, Call>
    decreases acts
  {
    if acts == [] then asked else Calls(Called(asked, acts[0]), acts[1..])
  }

  function Called(asked: map<Tid, Call>, a: Action): map<Tid, Call> {
    match a
    case CallRead(t, want) => asked[t := AskedRead(want)]
    case CallWrite(t, data) => asked[t := AskedWrite(data)]
    case _ => asked
  }

  /** A thread that has not moved its bytes yet still has its whole request before it. */
  predicate Carries(pc: Pc, c: Call) {
    && (pc.ReadTop? || pc.ReadWait? || pc.ReadParked? ==> c == AskedRead(pc.want))
    && (pc.WriteTop? || pc.WriteWait? || pc.WriteParked? ==> c == AskedWrite(pc.data))
  }

  ghost predicate AllCarry(p: Pipe, asked: map<Tid, Call>) {
    forall t :: t in p.threads ==>
      if p.threads[t].DropOwesRead? then true else t in asked && Carries(p.threads[t], asked[t])
  }

  lemma {:induction false} SignalsCarry(p: Pipe, asked: map<Tid, Call>)
    requires AllCarry(p, asked)
    ensures AllCarry(SignalReaders(p), asked) && AllCarry(SignalWriters(p), asked)
  {
  }

  lemma {:induction false} NotifyCarries(p: Pipe, a: Action, asked: map<Tid, Call>)
    requires Enabled(p, a) && AllCarry(p, asked)
    requires a.DropNotify? || a.ReadNotifyWriters? || a.ReadNotifyReaders? || a.WriteNotifyReaders? || a.WriteNotifyWriters?
    ensures AllCarry(Step(p, a), asked)
  {
    SignalsCarry(p, asked);
  }

  lemma {:induction false} ReaderCarries(p: Pipe, a: Action, asked: map<Tid, Call>)
    requires Enabled(p, a) && AllCarry(p, asked)
    requires a.CallRead? || a.ReadLock? || a.ReadSleep? || a.ReadInterrupted? || a.DropEnd? || a.OpenEnd?
    ensures AllCarry(Step(p, a), Called(asked, a))
  {
  }

  lemma {:induction false} WriterCarries(p: Pipe, a: Action, asked: map<Tid, Call>)
    requires Enabled(p, a) && AllCarry(p, asked)
    requires a.CallWrite? || a.WriteLock? || a.WriteSleep? || a.WriteInterrupted?
    ensures AllCarry(Step(p, a), Called(asked, a))
  {
  }

  lemma {:induction false} StepCarries(p: Pipe, a: Action, asked: map<Tid, Call>)
    requires Enabled(p, a) && AllCarry(p, asked)
    ensures AllCarry(Step(p, a), Called(asked, a))
  {
    if a.CallWrite? || a.WriteLock? || a.WriteSleep? || a.WriteInterrupted? {
      WriterCarries(p, a, asked);
    } else if a.CallRead? || a.ReadLock? || a.ReadSleep? || a.ReadInterrupted? || a.DropEnd? || a.OpenEnd? {
      ReaderCarries(p, a, asked);
    } else {
      NotifyCarries(p, a, asked);
    }
  }

  lemma {:induction false} RunCarries(p: Pipe, acts: seq<Action>, asked: map<Tid, Call>)
    requires Possible(p, acts) && AllCarry(p, asked)
    ensures AllCarry(Run(p, acts), Calls(asked, acts))
    decreases acts
  {
    if acts != [] {
      StepCarries(p, acts[0], asked);
      RunCarries(Step(p, acts[0]), acts[1..], Called(asked, acts[0]));
    }
  }

  /** However often a write had to wait, it writes from the start of the data of its call: it
      appends and reports as many bytes as there are or as fit, whichever is less. */
  lemma {:induction false} WriteDoesItsCall(acts: seq<Action>, t: Tid)
    requires Possible(EMPTY, acts) && Enabled(Run(EMPTY, acts), WriteLock(t, true)) && |Run(EMPTY, acts).stream| < CAPACITY
    ensures t in Calls(map[], acts) && Calls(map[], acts)[t].AskedWrite?
    ensures var p, d := Run(EMPTY, acts), Calls(map[], acts)[t].data;
            var r := Min(|d|, 512 - |p.stream|);
            var q := Step(p, WriteLock(t, true));
            && Returns(p, WriteLock(t, true)) == Some(r)
            && q.stream == p.stream + d[..r] && q.accepted == p.accepted + d[..r] && q.delivered == p.delivered
  {
    RunCarries(EMPTY, acts, map[]);
  }

  /** The same for a read: the oldest bytes, as many as were asked for or are there. */
  lemma {:induction false} ReadDoesItsCall(acts: seq<Action>, t: Tid)
    requires Possible(EMPTY, acts) && Enabled(Run(EMPTY, acts), ReadLock(t, true)) && Run(EMPTY, acts).stream != []
    ensures t in Calls(map[], acts) && Calls(map[], acts)[t].AskedRead?
    ensures var p := Run(EMPTY, acts);
            var r := Min(Calls(map[], acts)[t].want, |p.stream|);
            var q := Step(p, ReadLock(t, true));
            && Returns(p, ReadLock(t, true)) == Some(r)
            && q.delivered == p.delivered + p.stream[..r] && q.stream == p.stream[r..] && q.accepted == p.accepted
  {
    RunCarries(EMPTY, acts, map[]);
  }

  /** The steps with which a call ends: end of file, a failed copy-in, a refused or interrupted
      sleep, or the last of its announcements. */
  ghost predicate Ends(p: Pipe, a: Action, t: Tid) {
    match a
    case ReadLock(u, _) => u == t && p.stream == [] && p.ends == {}
    case WriteLock(u, copyOk) => u == t && !copyOk && |p.stream| < 512
    case ReadSleep(u, adm) => u == t && adm != Accept && !Raised(p.readEv)
    case WriteSleep(u, adm) => u == t && adm != Accept && !Raised(p.writeEv)
    case ReadInterrupted(u) => u == t
    case WriteInterrupted(u) => u == t
    case ReadNotifyReaders(u) => u == t
    case WriteNotifyWriters(u) => u == t
    case DropNotify(u) => u == t
    case _ => false
  }

  /** A call ends with such a step and no other; in particular an empty pipe with a write end, and
      a full pipe, make it wait. */
  lemma {:induction false} CallEndsIff(p: Pipe, a: Action, t: Tid)
    requires Sane(p) && Enabled(p, a) && t in p.threads
    ensures t !in Step(p, a).threads <==> Ends(p, a, t)
  {
    if a.ReadLock? { assert p.writerCount == 0 <==> p.ends == {}; }
  }

  lemma {:induction false} RunEndsIff(acts: seq<Action>, a: Action, t: Tid)
    requires Possible(EMPTY, acts) && Enabled(Run(EMPTY, acts), a) && t in Run(EMPTY, acts).threads
    ensures t !in Step(Run(EMPTY, acts), a).threads <==> Ends(Run(EMPTY, acts), a, t)
  {
    RunKeepsSane(EMPTY, acts);
    CallEndsIff(Run(EMPTY, acts), a, t);
  }

  /** The bytes the reads of a run claim to have handed out. */
  ghost function Claimed(p: Pipe, acts: seq<Action>): nat
    requires Possible(p, acts)
    decreases acts
  {
    if acts == [] then 0
    else (if acts[0].ReadLock? && p.stream != [] then Give(p, p.threads[acts[0].t].want) else 0) + Claimed(Step(p, acts[0]), acts[1..])
  }

  /** No read in the run fails to copy its data out. */
  ghost predicate CopiesOut(p: Pipe, acts: seq<Action>)
    requires Possible(p, acts)
    decreases acts
  {
    acts != [] ==>
      && (acts[0].ReadLock? && p.stream != [] ==> acts[0].copyOk)
      && CopiesOut(Step(p, acts[0]), acts[1..])
  }

  /** A failed copy-out still returns a count: the counts add up to the bytes delivered exactly
      when every copy-out succeeds, and otherwise claim more. */
  lemma {:induction false} ClaimsAreHonestIff(p: Pipe, acts: seq<Action>)
    requires Sane(p) && Possible(p, acts)
    ensures |Run(p, acts).delivered| <= |p.delivered| + Claimed(p, acts)
    ensures |Run(p, acts).delivered| == |p.delivered| + Claimed(p, acts) <==> CopiesOut(p, acts)
    decreases acts
  {
    if acts != [] {
      var a, q := acts[0], Step(p, acts[0]);
      StepKeepsSane(p, a);
      ClaimsAreHonestIff(q, acts[1..]);
      DeliveredBy(p, a);
    }
  }

  lemma {:induction false} DeliveredBy(p: Pipe, a: Action)
    requires Sane(p) && Enabled(p, a)
    ensures |Step(p, a).delivered| ==
            |p.delivered| + if a.ReadLock? && p.stream != [] && a.copyOk then Give(p, p.threads[a.t].want) else 0
    ensures a.ReadLock? && p.stream != [] ==> Give(p, p.threads[a.t].want) > 0
  {
  }

  /** End of file is honest: a read of at least one byte yields 0 exactly when the pipe is
      empty and no write end is left. */
  lemma {:induction false} ZeroMeansEof(acts: seq<Action>, t: Tid, copyOk: bool)
    requires Possible(EMPTY, acts)
    requires Enabled(Run(EMPTY, acts), ReadLock(t, copyOk))
    ensures var p := Run(EMPTY, acts);
            Returns(p, ReadLock(t, copyOk)) == Some(0) <==> p.stream == [] && p.ends == {}
  {
    RunKeepsSane(EMPTY, acts);
  }

  /** `r` is the only thread that ever reads. */
  ghost predicate OnlyReader(acts: seq<Action>, r: Tid) {
    forall i | 0 <= i < |acts| && acts[i].CallRead? :: acts[i].t == r
  }

  predicate Reading(pc: Pc) {
    pc.ReadTop? || pc.ReadWait? || pc.ReadParked? || pc.ReadOwesBoth? || pc.ReadOwesRead?
  }

  /** With one reader, the loss of the last writer is always announced or still to be
      announced to it. */
  ghost predicate EofAnnounced(p: Pipe, r: Tid) {
    && (forall t :: t in p.threads && Reading(p.threads[t]) ==> t == r)
    && (r in p.threads && WaitsToRead(p.threads[r]) && p.writerCount == 0 ==>
          Raised(p.readEv) || exists t :: t in p.threads && p.threads[t].DropOwesRead?)
  }

  /** A step of thread `t` that does not end the last writer, lower the event or put the
      reader to sleep keeps the announcement. */
  lemma {:induction false} EofFrame(p: Pipe, q: Pipe, r: Tid, t: Tid)
    requires EofAnnounced(p, r)
    requires q.writerCount == 0 ==> p.writerCount == 0
    requires Raised(p.readEv) ==> Raised(q.readEv)
    requires forall u :: u in q.threads && u != t ==> u in p.threads && q.threads[u] == p.threads[u]
    requires forall u :: u in p.threads && u != t ==> u in q.threads
    requires t in p.threads ==> !p.threads[t].DropOwesRead?
    requires t in q.threads && Reading(q.threads[t]) ==> t == r
    requires t in q.threads && WaitsToRead(q.threads[t]) ==>
               q.writerCount > 0 || (t in p.threads && WaitsToRead(p.threads[t]))
    ensures EofAnnounced(q, r)
  {
    if r in q.threads && WaitsToRead(q.threads[r]) && q.writerCount == 0 && !Raised(q.readEv) {
      var u :| u in p.threads && p.threads[u].DropOwesRead?;
      assert u in q.threads && q.threads[u].DropOwesRead?;
    }
  }

  lemma {:induction false} ReadStepKeepsEof(p: Pipe, a: Action, r: Tid)
    requires Sane(p) && EofAnnounced(p, r) && Enabled(p, a)
    requires a.CallRead? || a.ReadLock? || a.ReadSleep? || a.ReadInterrupted?
    requires a.CallRead? ==> a.t == r
    ensures EofAnnounced(Step(p, a), r)
  {
    var q := Step(p, a);
    if a.ReadSleep? && Raised(p.readEv) {
      assert !WaitsToRead(q.threads[a.t]);
    } else {
      EofFrame(p, q, r, a.t);
    }
  }

  lemma {:induction false} WriteStepKeepsEof(p: Pipe, a: Action, r: Tid)
    requires Sane(p) && EofAnnounced(p, r) && Enabled(p, a)
    requires a.CallWrite? || a.WriteLock? || a.WriteSleep? || a.WriteInterrupted?
    ensures EofAnnounced(Step(p, a), r)
  {
    EofFrame(p, Step(p, a), r, a.t);
  }

  lemma {:induction false} EndStepKeepsEof(p: Pipe, a: Action, r: Tid)
    requires Sane(p) && EofAnnounced(p, r) && Enabled(p, a) && (a.OpenEnd? || a.DropEnd?)
    ensures EofAnnounced(Step(p, a), r)
  {
    var q := Step(p, a);
    if a.DropEnd? && p.writerCount == 1 {
      assert a.t in q.threads && q.threads[a.t].DropOwesRead?;
    }
    assert forall u :: u in p.threads ==> u in q.threads && q.threads[u] == p.threads[u];
  }

  lemma {:induction false} NotifyReadersKeepsEof(p: Pipe, a: Action, r: Tid)
    requires Sane(p) && EofAnnounced(p, r) && Enabled(p, a)
    requires a.DropNotify? || a.WriteNotifyReaders? || a.ReadNotifyReaders?
    ensures EofAnnounced(Step(p, a), r)
  {
    EofReadersSignalled(p, r);
    var m, q := SignalReaders(p), Step(p, a);
    if a.ReadNotifyReaders? && p.stream == [] {
      EofFrame(p, q, r, a.t);
    } else {
      assert forall u :: u in q.threads && u != a.t ==> u in m.threads && q.threads[u] == m.threads[u];
    }
  }

  lemma {:induction false} EofWritersSignalled(p: Pipe, r: Tid)
    requires Sane(p) && EofAnnounced(p, r)
    ensures var m := SignalWriters(p);
            && EofAnnounced(m, r) && m.threads.Keys == p.threads.Keys && m.writerCount == p.writerCount
            && m.readEv == p.readEv
            && (forall t :: t in p.threads && !p.threads[t].WriteParked? ==> m.threads[t] == p.threads[t])
  {
    SignalWritersWorks(p);
  }

  lemma {:induction false} NotifyWritersKeepsEof(p: Pipe, a: Action, r: Tid)
    requires Sane(p) && EofAnnounced(p, r) && Enabled(p, a) && (a.ReadNotifyWriters? || a.WriteNotifyWriters?)
    ensures EofAnnounced(Step(p, a), r)
  {
    EofWritersSignalled(p, r);
    var n := if a.WriteNotifyWriters? && |p.stream| >= CAPACITY then p else SignalWriters(p);
    EofFrame(n, Step(p, a), r, a.t);
  }

  lemma {:induction false} StepKeepsEof(p: Pipe, a: Action, r: Tid)
    requires Sane(p) && EofAnnounced(p, r) && Enabled(p, a)
    requires a.CallRead? ==> a.t == r
    ensures EofAnnounced(Step(p, a), r)
  {
    match a {
      case OpenEnd(_) => EndStepKeepsEof(p, a, r);
      case DropEnd(_, _) => EndStepKeepsEof(p, a, r);
      case DropNotify(_) => NotifyReadersKeepsEof(p, a, r);
      case WriteNotifyReaders(_) => NotifyReadersKeepsEof(p, a, r);
      case ReadNotifyReaders(_) => NotifyReadersKeepsEof(p, a, r);
      case ReadNotifyWriters(_) => NotifyWritersKeepsEof(p, a, r);
      case WriteNotifyWriters(_) => NotifyWritersKeepsEof(p, a, r);
      case CallRead(_, _) => ReadStepKeepsEof(p, a, r);
      case ReadLock(_, _) => ReadStepKeepsEof(p, a, r);
      case ReadSleep(_, _) => ReadStepKeepsEof(p, a, r);
      case ReadInterrupted(_) => ReadStepKeepsEof(p, a, r);
      case _ => WriteStepKeepsEof(p, a, r);
    }
  }

  lemma {:induction false} EofReadersSignalled(p: Pipe, r: Tid)
    requires Sane(p) && (forall t :: t in p.threads && Reading(p.threads[t]) ==> t == r)
    ensures var m := SignalReaders(p);
            && m.threads.Keys == p.threads.Keys
            && (forall t :: t in p.threads && t != r ==> m.threads[t] == p.threads[t])
            && (r in p.threads ==> m.threads[r] == p.threads[r] || m.threads[r].ReadTop?)
            && (r in p.threads && WaitsToRead(m.threads[r]) ==> Raised(m.readEv))
  {
    SignalReadersWorks(p);
  }

  lemma {:induction false} RunKeepsEof(p: Pipe, acts: seq<Action>, r: Tid)
    requires Sane(p) && EofAnnounced(p, r) && Possible(p, acts) && OnlyReader(acts, r)
    ensures EofAnnounced(Run(p, acts), r)
    decreases acts
  {
    if acts != [] {
      StepKeepsSane(p, acts[0]);
      StepKeepsEof(p, acts[0], r);
      assert OnlyReader(acts[1..], r);
      RunKeepsEof(Step(p, acts[0]), acts[1..], r);
    }
  }

  /** A sole reader is never left asleep on a pipe without writers: the announcement is
      still on its way. */
  lemma {:induction false} SoleReaderSeesEof(acts: seq<Action>, r: Tid)
    requires Possible(EMPTY, acts) && OnlyReader(acts, r)
    ensures var p := Run(EMPTY, acts);
            p.ends == {} && r in p.threads && p.threads[r].ReadParked? ==>
              exists t :: t in p.threads && p.threads[t].DropOwesRead?
  {
    RunKeepsSane(EMPTY, acts);
    RunKeepsEof(EMPTY, acts, r);
    var p := Run(EMPTY, acts);
    if r in p.threads && p.threads[r].ReadParked? { assert r in p.readEv.blocked; }
  }

  /** Some run leads from `p` to `q`. */
  ghost predicate Reaches(p: Pipe, q: Pipe) {
    exists acts :: Possible(p, acts) && Run(p, acts) == q
  }

  lemma {:induction false} RunConcat(p: Pipe, xs: seq<Action>, ys: seq<Action>)
    requires Possible(p, xs) && Possible(Run(p, xs), ys)
    ensures Possible(p, xs + ys) && Run(p, xs + ys) == Run(Run(p, xs), ys)
    decreases xs
  {
    if xs == [] {
      assert xs + ys == ys;
    } else {
      RunConcat(Step(p, xs[0]), xs[1..], ys);
      assert (xs + ys)[1..] == xs[1..] + ys;
    }
  }

  lemma {:induction false} ReachesOn(p: Pipe, q: Pipe, r: Pipe)
    requires Reaches(p, q) && Reaches(q, r)
    ensures Reaches(p, r)
  {
    var xs :| Possible(p, xs) && Run(p, xs) == q;
    var ys :| Possible(q, ys) && Run(q, ys) == r;
    RunConcat(p, xs, ys);
    assert Possible(p, xs + ys) && Run(p, xs + ys) == r;
  }

  lemma {:induction false} OneStep(p: Pipe, a: Action)
    requires Enabled(p, a)
    ensures Reaches(p, Step(p, a))
  {
    assert [a][1..] == [];
    assert Run(Step(p, a), []) == Step(p, a);
    assert Possible(p, [a]) && Run(p, [a]) == Step(p, a);
  }

  lemma {:induction false} ThreeSteps(p: Pipe, a: Action, b: Action, c: Action)
    requires Enabled(p, a) && Enabled(Step(p, a), b) && Enabled(Step(Step(p, a), b), c)
    ensures Reaches(p, Step(Step(Step(p, a), b), c))
  {
    var q := Step(p, a);
    var r := Step(q, b);
    OneStep(p, a);
    OneStep(q, b);
    OneStep(r, c);
    ReachesOn(p, q, r);
    ReachesOn(p, r, Step(r, c));
  }
}
