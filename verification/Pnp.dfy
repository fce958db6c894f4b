/** The plug-and-play request queue and its fence (kernel/src/io/pnp.rs): posters append to
    a shared queue and signal an auto-reset event; one worker drains the queue; a fence is a
    request whose handling releases its poster.

    Each action is one critical section or one event operation. Requests a handler posts
    from the worker itself are posts like any other. */
module Pnp {
  import opened Basics
  import opened Semaphore

  type FenceId = nat

  datatype Request = Work(id: nat) | Fence(f: FenceId)

  datatype PosterPc =
    | OwesSignal(fence: Option<FenceId>)
    | FenceWait(f: FenceId)
    | FenceParked(f: FenceId)
    | FenceReleased(f: FenceId)

  datatype WorkerPc = AtWait | AsleepOnSignal | AtPop | Handling(req: Request)

  const WORKER: Tid := 0

  datatype Pnp = Pnp(
    queue: seq<Request>,
    signal: Sync,
    worker: WorkerPc,
    posters: map<Tid, PosterPc>,
    fences: map<FenceId, Sync>,
    posted: seq<Request>,
    handled: seq<Request>)

  datatype Action =
    | Post(t: Tid, id: nat)
    | CallFence(t: Tid, f: FenceId)
    | PostNotify(t: Tid)
    | FenceSleep(t: Tid)
    | FenceReturn(t: Tid)
    | WorkerSleep
    | WorkerPop
    | WorkerDone

  const START := Pnp([], Sync(Event(false, true), []), AtWait, map[], map[], [], [])

  predicate Enabled(p: Pnp, a: Action) {
    match a
    case Post(t, _) => t !in p.posters && t != WORKER
    case CallFence(t, f) => t !in p.posters && t != WORKER && f !in p.fences
    case PostNotify(t) => t in p.posters && p.posters[t].OwesSignal?
    case FenceSleep(t) => t in p.posters && p.posters[t].FenceWait? && p.posters[t].f in p.fences
    case FenceReturn(t) => t in p.posters && p.posters[t].FenceReleased?
    case WorkerSleep => p.worker == AtWait
    case WorkerPop => p.worker == AtPop
    case WorkerDone => p.worker.Handling? && (p.worker.req.Fence? ==> p.worker.req.f in p.fences)
  }

  function Enqueue(p: Pnp, t: Tid, req: Request, fence: Option<FenceId>): Pnp {
    p.(queue := p.queue + [req], posted := p.posted + [req], posters := p.posters[t := OwesSignal(fence)])
  }

  function ReleaseFence(p: Pnp, f: FenceId): Pnp
    requires f in p.fences
  {
    var (ev, woken) := Signal(p.fences[f], {});
    p.(fences := p.fences[f := ev],
       posters := map t | t in p.posters :: if t in woken then FenceReleased(f) else p.posters[t])
  }

  function Step(p: Pnp, a: Action): Pnp
    requires Enabled(p, a)
  {
    match a
    case Post(t, id) => Enqueue(p, t, Work(id), None)
    case CallFence(t, f) =>
      Enqueue(p.(fences := p.fences[f := Sync(Event(false, false), [])]), t, Fence(f), Some(f))
    case PostNotify(t) =>
      var (ev, woken) := Signal(p.signal, {});
      var q := p.(signal := ev, worker := if WORKER in woken then AtPop else p.worker);
      if p.posters[t].fence.Some? then q.(posters := p.posters[t := FenceWait(p.posters[t].fence.value)])
      else q.(posters := p.posters - {t})
    case FenceSleep(t) =>
      var f := p.posters[t].f;
      var (ev, o) := Wait(p.fences[f], t, false, Accept);
      p.(fences := p.fences[f := ev], posters := p.posters[t := if o == Ok then FenceReleased(f) else FenceParked(f)])
    case FenceReturn(t) => p.(posters := p.posters - {t})
    case WorkerSleep =>
      var (ev, o) := Wait(p.signal, WORKER, false, Accept);
      p.(signal := ev, worker := if o == Ok then AtPop else AsleepOnSignal)
    case WorkerPop =>
      if p.queue == [] then p.(worker := AtWait)
      else p.(queue := p.queue[1..], worker := Handling(p.queue[0]))
    case WorkerDone =>
      var q := p.(handled := p.handled + [p.worker.req], worker := AtPop);
      if p.worker.req.Fence? then ReleaseFence(q, p.worker.req.f) else q
  }

  function InHand(p: Pnp): seq<Request> {
    if p.worker.Handling? then [p.worker.req] else []
  }

  /** Requests are handled once and in order: what was posted is what was handled, then the
      one in hand, then the queue. */
  ghost predicate Ordered(p: Pnp) {
    p.posted == p.handled + InHand(p) + p.queue
  }

  /** The worker event, and no lost wakeup for the worker. */
  ghost predicate WorkerOk(p: Pnp) {
    && p.signal.state.Event? && p.signal.state.autoReset && Consistent(p.signal)
    && (p.signal.blocked == if p.worker == AsleepOnSignal then [WORKER] else [])
    && (p.queue != [] && (p.worker == AtWait || p.worker == AsleepOnSignal) ==>
          p.signal.state.signalled || exists t :: t in p.posters && p.posters[t].OwesSignal?)
  }

  /** A manual-reset event, raised exactly when the fence has been handled, with at most
      posters parked on this fence on its list. */
  ghost predicate FenceOk(p: Pnp, f: FenceId)
    requires f in p.fences
  {
    var ev := p.fences[f];
    && ev.state.Event? && !ev.state.autoReset && Consistent(ev)
    && Fence(f) in p.posted
    && (ev.state.signalled <==> Fence(f) in p.handled)
    && (forall t :: t in ev.blocked ==> t in p.posters && p.posters[t] == FenceParked(f))
  }

  predicate PosterOk(fences: map<FenceId, Sync>, t: Tid, pc: PosterPc) {
    match pc
    case OwesSignal(fence) => fence.Some? ==> fence.value in fences
    case FenceWait(f) => f in fences
    case FenceParked(f) => f in fences && t in fences[f].blocked
    case FenceReleased(f) => f in fences && fences[f].state.Event? && fences[f].state.signalled
  }

  ghost predicate FencesOk(p: Pnp) {
    && (forall f :: f in p.fences ==> FenceOk(p, f))
    && (forall t :: t in p.posters ==> PosterOk(p.fences, t, p.posters[t]))
    && (forall i | 0 <= i < |p.posted| && p.posted[i].Fence? :: p.posted[i].f in p.fences)
    && (forall i, j | 0 <= i < j < |p.posted| && p.posted[i].Fence? :: p.posted[i] != p.posted[j])
  }

  ghost predicate Inv(p: Pnp) {
    Ordered(p) && WorkerOk(p) && FencesOk(p)
  }

  lemma {:induction false} EnqueueKeepsOrdered(p: Pnp, a: Action)
    requires Ordered(p) && Enabled(p, a) && (a.Post? || a.CallFence?)
    ensures Ordered(Step(p, a))
  {
    var q, req := Step(p, a), if a.Post? then Work(a.id) else Fence(a.f);
    assert q.posted == p.posted + [req] && q.queue == p.queue + [req] && q.handled == p.handled;
    assert p.handled + InHand(p) + (p.queue + [req]) == (p.handled + InHand(p) + p.queue) + [req];
  }

  lemma {:induction false} PopKeepsOrdered(p: Pnp)
    requires Ordered(p) && Enabled(p, WorkerPop)
    ensures Ordered(Step(p, WorkerPop))
  {
    if p.queue != [] {
      assert p.handled + InHand(p) + p.queue == p.handled + [p.queue[0]] + p.queue[1..];
    }
  }

  lemma {:induction false} DoneKeepsOrdered(p: Pnp)
    requires Ordered(p) && Enabled(p, WorkerDone)
    ensures Ordered(Step(p, WorkerDone))
  {
    var q := Step(p, WorkerDone);
    assert q.handled == p.handled + [p.worker.req] && q.queue == p.queue && q.posted == p.posted && q.worker == AtPop;
    assert (p.handled + [p.worker.req]) + [] + p.queue == p.handled + InHand(p) + p.queue;
  }

  lemma {:induction false} StepKeepsOrdered(p: Pnp, a: Action)
    requires Ordered(p) && WorkerOk(p) && Enabled(p, a)
    ensures Ordered(Step(p, a))
  {
    match a {
      case Post(_, _) => EnqueueKeepsOrdered(p, a);
      case CallFence(_, _) => EnqueueKeepsOrdered(p, a);
      case WorkerPop => PopKeepsOrdered(p);
      case WorkerDone => DoneKeepsOrdered(p);
      case _ => OthersKeepHistory(p, a);
    }
  }

  lemma {:induction false} OthersKeepHistory(p: Pnp, a: Action)
    requires WorkerOk(p) && Enabled(p, a) && (a.PostNotify? || a.FenceSleep? || a.FenceReturn? || a.WorkerSleep?)
    ensures var q := Step(p, a);
            q.posted == p.posted && q.handled == p.handled && q.queue == p.queue && InHand(q) == InHand(p)
  {
  }

  lemma {:induction false} StepKeepsWorker(p: Pnp, a: Action)
    requires WorkerOk(p) && Enabled(p, a)
    ensures WorkerOk(Step(p, a))
  {
    var q := Step(p, a);
    match a {
      case Post(t, id) => assert q.posters[t].OwesSignal?;
      case CallFence(t, f) => assert q.posters[t].OwesSignal?;
      case PostNotify(t) =>
      case FenceSleep(t) => OwersStay(p, q, t);
      case FenceReturn(t) => OwersStay(p, q, t);
      case WorkerSleep =>
      case WorkerPop =>
      case WorkerDone =>
    }
  }

  lemma {:induction false} OwersStay(p: Pnp, q: Pnp, t: Tid)
    requires t in p.posters && !p.posters[t].OwesSignal?
    requires forall u :: u in p.posters && u != t ==> u in q.posters && q.posters[u] == p.posters[u]
    ensures (exists u :: u in p.posters && p.posters[u].OwesSignal?) ==>
            (exists u :: u in q.posters && q.posters[u].OwesSignal?)
  {
    if u :| u in p.posters && p.posters[u].OwesSignal? {
      assert u in q.posters && q.posters[u].OwesSignal?;
    }
  }

  lemma {:induction false} PostKeepsFences(p: Pnp, t: Tid, id: nat)
    requires FencesOk(p) && Ordered(p) && Enabled(p, Post(t, id))
    ensures FencesOk(Step(p, Post(t, id)))
  {
    var q := Step(p, Post(t, id));
    forall f | f in q.fences ensures FenceOk(q, f) { assert FenceOk(p, f); }
  }

  lemma {:induction false} HandledWasPosted(p: Pnp)
    requires Ordered(p)
    ensures forall r :: r in p.handled ==> r in p.posted
  {
    assert forall i | 0 <= i < |p.handled| :: p.posted[i] == p.handled[i];
  }

  lemma {:induction false} CallFenceKeepsFences(p: Pnp, t: Tid, f: FenceId)
    requires FencesOk(p) && Ordered(p) && Enabled(p, CallFence(t, f))
    ensures FencesOk(Step(p, CallFence(t, f)))
  {
    var q := Step(p, CallFence(t, f));
    assert q.posted[|p.posted|] == Fence(f);
    HandledWasPosted(p);
    forall g | g in q.fences ensures FenceOk(q, g) {
      assert g != f ==> FenceOk(p, g);
    }
    forall u | u in q.posters ensures PosterOk(q.fences, u, q.posters[u]) {
      assert u != t ==> PosterOk(p.fences, u, p.posters[u]);
    }
  }

  lemma {:induction false} NotifyKeepsFences(p: Pnp, t: Tid)
    requires FencesOk(p) && Enabled(p, PostNotify(t))
    ensures FencesOk(Step(p, PostNotify(t)))
  {
    var q := Step(p, PostNotify(t));
    forall f | f in q.fences ensures FenceOk(q, f) { assert FenceOk(p, f); }
    forall u | u in q.posters ensures PosterOk(q.fences, u, q.posters[u]) {
      assert PosterOk(p.fences, u, p.posters[u]);
    }
  }

  lemma {:induction false} SleepKeepsFences(p: Pnp, t: Tid)
    requires FencesOk(p) && Enabled(p, FenceSleep(t))
    ensures FencesOk(Step(p, FenceSleep(t)))
  {
    var g := p.posters[t].f;
    var q := Step(p, FenceSleep(t));
    assert FenceOk(p, g);
    WaitKeepsConsistent(p.fences[g], t, false, Accept);
    forall f | f in q.fences ensures FenceOk(q, f) { assert FenceOk(p, f); }
    forall u | u in q.posters ensures PosterOk(q.fences, u, q.posters[u]) {
      assert PosterOk(p.fences, u, p.posters[u]);
    }
  }

  lemma {:induction false} ReturnKeepsFences(p: Pnp, t: Tid)
    requires FencesOk(p) && Enabled(p, FenceReturn(t))
    ensures FencesOk(Step(p, FenceReturn(t)))
  {
    var q := Step(p, FenceReturn(t));
    forall f | f in q.fences ensures FenceOk(q, f) { assert FenceOk(p, f); }
  }

  lemma {:induction false} SignalWakesAll(s: Sync)
    requires s.state.Event? && !s.state.autoReset && Consistent(s)
    ensures Signal(s, {}) == (Sync(Event(true, false), []), s.blocked)
  {
    WakeableStops(s.blocked, {});
    assert Wakeable(s.blocked, {}) == |s.blocked|;
    assert s.blocked[..|s.blocked|] == s.blocked && s.blocked[|s.blocked|..] == [];
    assert s.state == Event(s.state.signalled, false);
  }

  lemma {:induction false} DoneKeepsFences(p: Pnp)
    requires FencesOk(p) && Enabled(p, WorkerDone)
    ensures FencesOk(Step(p, WorkerDone))
  {
    var q := Step(p, WorkerDone);
    if p.worker.req.Fence? {
      var g := p.worker.req.f;
      assert FenceOk(p, g);
      SignalWakesAll(p.fences[g]);
      assert q.handled[|p.handled|] == Fence(g);
      forall f | f in q.fences ensures FenceOk(q, f) { assert FenceOk(p, f); }
      forall u | u in q.posters ensures PosterOk(q.fences, u, q.posters[u]) {
        assert PosterOk(p.fences, u, p.posters[u]);
      }
    } else {
      forall f | f in q.fences ensures FenceOk(q, f) { assert FenceOk(p, f); }
    }
  }

  lemma {:induction false} WorkerKeepsFences(p: Pnp, a: Action)
    requires FencesOk(p) && Enabled(p, a) && (a.WorkerSleep? || a.WorkerPop?)
    ensures FencesOk(Step(p, a))
  {
    var q := Step(p, a);
    forall f | f in q.fences ensures FenceOk(q, f) { assert FenceOk(p, f); }
  }

  lemma {:induction false} StepKeepsInv(p: Pnp, a: Action)
    requires Inv(p) && Enabled(p, a)
    ensures Inv(Step(p, a))
  {
    StepKeepsOrdered(p, a);
    StepKeepsWorker(p, a);
    match a {
      case Post(t, id) => PostKeepsFences(p, t, id);
      case CallFence(t, f) => CallFenceKeepsFences(p, t, f);
      case PostNotify(t) => NotifyKeepsFences(p, t);
      case FenceSleep(t) => SleepKeepsFences(p, t);
      case FenceReturn(t) => ReturnKeepsFences(p, t);
      case WorkerDone => DoneKeepsFences(p);
      case _ => WorkerKeepsFences(p, a);
    }
  }

  ghost predicate Possible(p: Pnp, acts: seq<Action>)
    decreases acts
  {
    acts != [] ==> Enabled(p, acts[0]) && Possible(Step(p, acts[0]), acts[1..])
  }

  ghost function Run(p: Pnp, acts: seq<Action>): Pnp
    requires Possible(p, acts)
    decreases acts
  {
    if acts == [] then p else Run(Step(p, acts[0]), acts[1..])
  }

  lemma {:induction false} RunKeepsInv(p: Pnp, acts: seq<Action>)
    requires Inv(p) && Possible(p, acts)
    ensures Inv(Run(p, acts))
    decreases acts
  {
    if acts != [] {
      StepKeepsInv(p, acts[0]);
      RunKeepsInv(Step(p, acts[0]), acts[1..]);
    }
  }

  /** Handled once each, in the order posted. */
  lemma {:induction false} HandledInOrder(acts: seq<Action>)
    requires Possible(START, acts)
    ensures var p := Run(START, acts); p.handled <= p.posted && p.posted == p.handled + InHand(p) + p.queue
  {
    RunKeepsInv(START, acts);
  }

  /** The worker sleeps on a non-empty queue only while some poster still owes its signal. */
  lemma {:induction false} WorkerNotStranded(acts: seq<Action>)
    requires Possible(START, acts)
    ensures var p := Run(START, acts);
            p.worker == AsleepOnSignal && p.queue != [] ==> exists t :: t in p.posters && p.posters[t].OwesSignal?
  {
    RunKeepsInv(START, acts);
  }

  /** A fence that has released its caller stands behind a fully handled prefix: every
      request posted before it, and the fence itself, has been handled. */
  lemma {:induction false} FenceReturnsAfterPredecessors(acts: seq<Action>, t: Tid, i: nat)
    requires Possible(START, acts)
    requires var p := Run(START, acts);
             && t in p.posters && p.posters[t].FenceReleased?
             && i < |p.posted| && p.posted[i] == Fence(p.posters[t].f)
    ensures var p := Run(START, acts); p.posted[..i + 1] <= p.handled
  {
    RunKeepsInv(START, acts);
    ReleasedMeansHandled(Run(START, acts), t, i);
  }

  lemma {:induction false} ReleasedMeansHandled(p: Pnp, t: Tid, i: nat)
    requires Inv(p) && t in p.posters && p.posters[t].FenceReleased?
    requires i < |p.posted| && p.posted[i] == Fence(p.posters[t].f)
    ensures p.posted[..i + 1] <= p.handled
  {
    var f := p.posters[t].f;
    assert PosterOk(p.fences, t, p.posters[t]) && FenceOk(p, f);
    var k :| 0 <= k < |p.handled| && p.handled[k] == Fence(f);
    assert p.posted[k] == p.handled[k];
    assert k == i;
  }

  /** Fence callers are not stranded: once the worker is asleep and no poster owes a signal,
      everything posted has been handled and no fence caller is parked. */
  lemma {:induction false} FenceNeverStuck(acts: seq<Action>, t: Tid)
    requires Possible(START, acts)
    requires Run(START, acts).worker == AsleepOnSignal
    requires !exists u :: u in Run(START, acts).posters && Run(START, acts).posters[u].OwesSignal?
    ensures var p := Run(START, acts);
            p.handled == p.posted && !(t in p.posters && p.posters[t].FenceParked?)
  {
    RunKeepsInv(START, acts);
    var p := Run(START, acts);
    assert p.posted == p.handled;
    ParkedMeansUnhandled(p, t);
  }

  lemma {:induction false} ParkedMeansUnhandled(p: Pnp, t: Tid)
    requires Inv(p)
    ensures t in p.posters && p.posters[t].FenceParked? ==>
              Fence(p.posters[t].f) in p.posted && Fence(p.posters[t].f) !in p.handled
  {
    if t in p.posters && p.posters[t].FenceParked? {
      assert PosterOk(p.fences, t, p.posters[t]) && FenceOk(p, p.posters[t].f);
    }
  }

  // ----- What was asked for is what is queued, and a fence holds its caller

  /** The requests of the actions, in order, read off the actions alone. */
  function Asked(acts: seq<Action>): seq<Request> {
    if acts == [] then []
    else (match acts[0] case Post(_, id) => [Work(id)] case CallFence(_, f) => [Fence(f)] case _ => []) + Asked(acts[1..])
  }

  lemma {:induction false} StepPosts(p: Pnp, a: Action)
    requires Enabled(p, a)
    ensures Step(p, a).posted == p.posted + Asked([a])
  {
    assert [a][1..] == [] && Asked([]) == [];
    assert p.posted + [] == p.posted;
  }

  lemma {:induction false} RunPosts(p: Pnp, acts: seq<Action>)
    requires Possible(p, acts)
    ensures Run(p, acts).posted == p.posted + Asked(acts)
    decreases acts
  {
    if acts == [] {
      assert p.posted + [] == p.posted;
    } else {
      StepPosts(p, acts[0]);
      RunPosts(Step(p, acts[0]), acts[1..]);
      AskedFirst(acts);
      assert p.posted + Asked([acts[0]]) + Asked(acts[1..]) == p.posted + (Asked([acts[0]]) + Asked(acts[1..]));
    }
  }

  lemma {:induction false} AskedFirst(acts: seq<Action>)
    requires acts != []
    ensures Asked(acts) == Asked([acts[0]]) + Asked(acts[1..])
  {
    assert [acts[0]][1..] == [] && Asked([]) == [];
  }

  /** Over every run the requests asked for are handled once each and in order: those handled,
      the one in hand and those queued are the requests of the actions. */
  lemma {:induction false} EveryRequestOnce(acts: seq<Action>)
    requires Possible(START, acts)
    ensures var p := Run(START, acts); Asked(acts) == p.handled + InHand(p) + p.queue
  {
    RunPosts(START, acts);
    HandledInOrder(acts);
    assert [] + Asked(acts) == Asked(acts);
  }

  /** The thread is inside its call of fence `f`. */
  predicate Inside(pc: PosterPc, f: FenceId) {
    pc == OwesSignal(Some(f)) || pc == FenceWait(f) || pc == FenceParked(f) || pc == FenceReleased(f)
  }

  /** Whose fence is whose, read off the actions alone. */
  function Callers(whose: map<FenceId, Tid>, acts: seq<Action>): map<FenceId, Tid>
    decreases acts
  {
    if acts == [] then whose else Callers(CallerOf(whose, acts[0]), acts[1..])
  }

  function CallerOf(whose: map<FenceId, Tid>, a: Action): map<FenceId, Tid> {
    if a.CallFence? then whose[a.f := a.t] else whose
  }

  /** The caller of a fence that has not been handled is still inside. */
  ghost predicate Held(p: Pnp, whose: map<FenceId, Tid>) {
    forall f :: f in whose ==>
      f in p.fences && (Fence(f) in p.handled || (whose[f] in p.posters && Inside(p.posters[whose[f]], f)))
  }

  lemma {:induction false} StepHolds(p: Pnp, a: Action, whose: map<FenceId, Tid>)
    requires Inv(p) && Enabled(p, a) && Held(p, whose)
    ensures Held(Step(p, a), CallerOf(whose, a))
  {
    var q := Step(p, a);
    forall f | f in CallerOf(whose, a)
      ensures f in q.fences &&
              (Fence(f) in q.handled || (CallerOf(whose, a)[f] in q.posters && Inside(q.posters[CallerOf(whose, a)[f]], f)))
    {
      if !(a.CallFence? && a.f == f) { FenceHolds(p, a, f, whose[f]); }
    }
  }

  lemma {:induction false} FenceHolds(p: Pnp, a: Action, f: FenceId, t: Tid)
    requires Inv(p) && Enabled(p, a) && f in p.fences && !(a.CallFence? && a.f == f)
    requires Fence(f) in p.handled || (t in p.posters && Inside(p.posters[t], f))
    ensures var q := Step(p, a); f in q.fences && (Fence(f) in q.handled || (t in q.posters && Inside(q.posters[t], f)))
  {
    if a.WorkerDone? {
      DoneHolds(p, f, t);
    } else if a == FenceReturn(t) && p.posters[t] == FenceReleased(f) {
      assert PosterOk(p.fences, t, p.posters[t]) && FenceOk(p, f);
    }
  }

  lemma {:induction false} DoneHolds(p: Pnp, f: FenceId, t: Tid)
    requires Inv(p) && Enabled(p, WorkerDone) && f in p.fences
    requires Fence(f) in p.handled || (t in p.posters && Inside(p.posters[t], f))
    ensures var q := Step(p, WorkerDone); f in q.fences && (Fence(f) in q.handled || (t in q.posters && Inside(q.posters[t], f)))
  {
    var q := Step(p, WorkerDone);
    if Fence(f) in p.handled {
      assert Fence(f) in q.handled;
    } else if p.worker.req.Fence? && p.worker.req.f != f {
      var g := p.worker.req.f;
      assert FenceOk(p, g);
    }
  }

  lemma {:induction false} RunHolds(p: Pnp, acts: seq<Action>, whose: map<FenceId, Tid>)
    requires Inv(p) && Possible(p, acts) && Held(p, whose)
    ensures Held(Run(p, acts), Callers(whose, acts))
    decreases acts
  {
    if acts != [] {
      StepKeepsInv(p, acts[0]);
      StepHolds(p, acts[0], whose);
      RunHolds(Step(p, acts[0]), acts[1..], CallerOf(whose, acts[0]));
    }
  }

  /** Over every run: a thread that called a fence and is no longer inside that call has seen the
      fence, and everything asked for before it, handled. */
  lemma {:induction false} FenceHoldsItsCaller(acts: seq<Action>, f: FenceId, i: nat)
    requires Possible(START, acts) && f in Callers(map[], acts) && i < |Asked(acts)| && Asked(acts)[i] == Fence(f)
    requires var p, t := Run(START, acts), Callers(map[], acts)[f]; !(t in p.posters && Inside(p.posters[t], f))
    ensures Asked(acts)[..i + 1] <= Run(START, acts).handled
  {
    RunKeepsInv(START, acts);
    RunHolds(START, acts, map[]);
    RunPosts(START, acts);
    assert [] + Asked(acts) == Asked(acts);
    HandledUpTo(Run(START, acts), f, i);
  }

  lemma {:induction false} HandledUpTo(p: Pnp, f: FenceId, i: nat)
    requires Inv(p) && Fence(f) in p.handled && i < |p.posted| && p.posted[i] == Fence(f)
    ensures p.posted[..i + 1] <= p.handled
  {
    var k :| 0 <= k < |p.handled| && p.handled[k] == Fence(f);
    assert p.posted[k] == p.handled[k];
    assert k == i;
  }
}
