/** The condition variable of the userspace C library (userspace/libc/pthread.c), built on a
    kernel counting semaphore and a waiter count guarded by a lock.

    Each action is one atomic step of one thread. A section under `waiters_lock` is one step,
    except that `signal` posts the semaphore inside it: there the post is a step of its own
    and the lock stays taken. The caller's mutex plays no part in the accounting. */
module CondVar {
  import opened Basics
  import opened Semaphore

  const MAX_PERMITS: int := 0x7FFFFFFF

  datatype Pc =
    | Entering(timed: bool)     // called wait or timedwait, not yet counted
    | Registered(timed: bool)   // counted, about to wait on the semaphore
    | Asleep(timed: bool)       // parked on the semaphore
    | Expired                   // timedwait gave up, still counted
    | OwesPost                  // inside signal: count lowered, semaphore not yet posted
    | OwesPosts(n: nat)         // inside broadcast: count zeroed, n posts to go

  datatype Cond = Cond(
    waiters: int,
    sem: Sync,
    lock: Option<Tid>,
    threads: map<Tid, Pc>,
    stray: nat)                 // expiries that found the count already at zero

  datatype Action =
    | CallWait(t: Tid, timed: bool)
    | Register(t: Tid)
    | Sleep(t: Tid, adm: Admission)
    | Interrupted(t: Tid)
    | GiveUp(t: Tid)
    | Unregister(t: Tid)
    | SignalBegin(t: Tid)
    | SignalPost(t: Tid)
    | BroadcastBegin(t: Tid)
    | BroadcastPost(t: Tid)

  const START := Cond(0, Sync(Counting(MAX_PERMITS, 0), []), None, map[], 0)

  /** A machine has fewer threads than a semaphore has permits. */
  predicate RoomForThread(p: Cond) {
    |p.threads| < MAX_PERMITS
  }

  predicate Enabled(p: Cond, a: Action) {
    match a
    case CallWait(t, _) => t !in p.threads && RoomForThread(p)
    case Register(t) => t in p.threads && p.threads[t].Entering? && p.lock == None
    case Sleep(t, adm) => t in p.threads && p.threads[t].Registered? && adm != RefuseTerminated
    case Interrupted(t) => t in p.threads && p.threads[t].Asleep?
    case GiveUp(t) => t in p.threads && (p.threads[t].Asleep? || p.threads[t].Registered?) && p.threads[t].timed
    case Unregister(t) => t in p.threads && p.threads[t].Expired? && p.lock == None
    case SignalBegin(t) => t !in p.threads && p.lock == None && RoomForThread(p)
    case SignalPost(t) => t in p.threads && p.threads[t].OwesPost?
    case BroadcastBegin(t) => t !in p.threads && p.lock == None && RoomForThread(p)
    case BroadcastPost(t) => t in p.threads && p.threads[t].OwesPosts?
  }

  /** One post: the semaphore hands its permit to the oldest sleeper, which returns. */
  function Post(p: Cond): Cond {
    var (s, woken) := Signal(p.sem, {});
    p.(sem := s, threads := p.threads - (set t | t in woken))
  }

  function Step(p: Cond, a: Action): Cond
    requires Enabled(p, a)
  {
    match a
    case CallWait(t, timed) => p.(threads := p.threads[t := Entering(timed)])
    case Register(t) => p.(waiters := p.waiters + 1, threads := p.threads[t := Registered(p.threads[t].timed)])
    case Sleep(t, adm) =>
      var (s, o) := Wait(p.sem, t, false, adm);
      if o == Ok then p.(sem := s, threads := p.threads - {t})
      else if o == Parked then p.(sem := s, threads := p.threads[t := Asleep(p.threads[t].timed)])
      else p
    case Interrupted(t) => p.(sem := Leave(p.sem, t), threads := p.threads[t := Registered(p.threads[t].timed)])
    case GiveUp(t) => p.(sem := Leave(p.sem, t), threads := p.threads[t := Expired])
    case Unregister(t) =>
      if p.waiters > 0 then p.(waiters := p.waiters - 1, threads := p.threads - {t})
      else p.(threads := p.threads - {t}, stray := p.stray + 1)
    case SignalBegin(t) =>
      if p.waiters > 0 then p.(waiters := p.waiters - 1, lock := Some(t), threads := p.threads[t := OwesPost]) else p
    case SignalPost(t) =>
      var q := Post(p);
      q.(lock := None, threads := q.threads - {t})
    case BroadcastBegin(t) =>
      if p.waiters <= 0 then p.(waiters := 0)
      else p.(waiters := 0, threads := p.threads[t := OwesPosts(p.waiters)])
    case BroadcastPost(t) =>
      var n := p.threads[t].n;
      if n == 0 then p.(threads := p.threads - {t})
      else var q := Post(p); q.(threads := q.threads[t := OwesPosts(n - 1)])
  }

  /** What a thread adds to the balance: posts it still owes, less its own demand for one. */
  function Credit(pc: Pc): int {
    match pc
    case Entering(_) => 0
    case Registered(_) => -1
    case Asleep(_) => -1
    case Expired => -1
    case OwesPost => 1
    case OwesPosts(n) => n
  }

  ghost function Total(m: map<Tid, Pc>): int
    decreases |m|
  {
    if m == map[] then 0
    else
      var t :| t in m;
      Credit(m[t]) + Total(m - {t})
  }

  lemma {:induction false} TotalRemove(m: map<Tid, Pc>, t: Tid)
    requires t in m
    ensures Total(m) == Credit(m[t]) + Total(m - {t})
    decreases |m|
  {
    var u :| u in m && Total(m) == Credit(m[u]) + Total(m - {u});
    if u != t {
      TotalRemove(m - {u}, t);
      TotalRemove(m - {t}, u);
      assert m - {u} - {t} == m - {t} - {u};
    }
  }

  lemma {:induction false} TotalUpdate(m: map<Tid, Pc>, t: Tid, pc: Pc)
    ensures Total(m[t := pc]) == Total(m) + Credit(pc) - if t in m then Credit(m[t]) else 0
  {
    TotalRemove(m[t := pc], t);
    assert m[t := pc] - {t} == m - {t};
    if t in m { TotalRemove(m, t); } else { assert m - {t} == m; }
  }

  lemma {:induction false} TotalAtLeast(m: map<Tid, Pc>)
    ensures Total(m) >= -|m|
    decreases |m|
  {
    if m != map[] {
      var u :| u in m;
      TotalRemove(m, u);
      TotalAtLeast(m - {u});
      assert m.Keys == (m - {u}).Keys + {u};
    }
  }

  lemma {:induction false} TotalOfDemands(m: map<Tid, Pc>)
    requires forall t :: t in m ==> Credit(m[t]) <= 0
    ensures Total(m) <= 0
    decreases |m|
  {
    if m != map[] {
      var u :| u in m;
      TotalRemove(m, u);
      TotalOfDemands(m - {u});
    }
  }

  function Permits(s: Sync): int {
    if s.state.Counting? && s.state.counter > 0 then s.state.counter else 0
  }

  /** Registrations not yet matched by a post, plus permits on the semaphore, plus posts
      still owed, less the threads still counted and not released. */
  ghost function Balance(p: Cond): int {
    p.waiters + Permits(p.sem) + Total(p.threads)
  }

  ghost predicate Sane(p: Cond) {
    && Consistent(p.sem) && p.sem.state.Counting? && p.sem.state.max == MAX_PERMITS
    && p.waiters >= 0
    && |p.threads| <= MAX_PERMITS
    && (forall t :: t in p.sem.blocked <==> t in p.threads && p.threads[t].Asleep?)
    && (forall t :: t in p.threads ==> (p.threads[t].OwesPost? <==> p.lock == Some(t)))
    && (p.lock.Some? ==> p.lock.value in p.threads)
  }

  ghost predicate Inv(p: Cond) {
    Sane(p) && 0 <= Balance(p) <= p.stray
  }

  // ----- Each action keeps the invariant

  lemma {:induction false} CallStep(p: Cond, t: Tid, timed: bool)
    requires Inv(p) && Enabled(p, CallWait(t, timed))
    ensures Inv(Step(p, CallWait(t, timed)))
  {
    TotalUpdate(p.threads, t, Entering(timed));
    assert p.threads[t := Entering(timed)].Keys == p.threads.Keys + {t};
  }

  lemma {:induction false} RegisterStep(p: Cond, t: Tid)
    requires Inv(p) && Enabled(p, Register(t))
    ensures Inv(Step(p, Register(t)))
  {
    TotalUpdate(p.threads, t, Registered(p.threads[t].timed));
    assert Step(p, Register(t)).threads.Keys == p.threads.Keys;
  }

  lemma {:induction false} SleepStep(p: Cond, t: Tid, adm: Admission)
    requires Inv(p) && Enabled(p, Sleep(t, adm))
    ensures Inv(Step(p, Sleep(t, adm)))
  {
    WaitKeepsConsistent(p.sem, t, false, adm);
    TotalUpdate(p.threads, t, Asleep(p.threads[t].timed));
    TotalRemove(p.threads, t);
    RemoveShrinks(p.threads, t);
    assert p.threads[t := Asleep(p.threads[t].timed)].Keys == p.threads.Keys;
  }

  lemma {:induction false} RemoveShrinks(m: map<Tid, Pc>, t: Tid)
    requires t in m
    ensures |m - {t}| == |m| - 1
  {
    assert m.Keys == (m - {t}).Keys + {t};
  }

  lemma {:induction false} LeaveKeepsPermits(p: Cond, t: Tid)
    requires Sane(p)
    ensures Permits(Leave(p.sem, t)) == Permits(p.sem)
  {
    WithoutFacts(p.sem.blocked, t);
  }

  lemma {:induction false} BackStep(p: Cond, a: Action)
    requires Inv(p) && Enabled(p, a) && (a.Interrupted? || a.GiveUp?)
    ensures Inv(Step(p, a))
  {
    var t := a.t;
    var pc := if a.GiveUp? then Expired else Registered(p.threads[t].timed);
    LeaveKeepsConsistent(p.sem, t);
    WithoutFacts(p.sem.blocked, t);
    LeaveKeepsPermits(p, t);
    TotalUpdate(p.threads, t, pc);
    assert p.threads[t := pc].Keys == p.threads.Keys;
  }

  lemma {:induction false} UnregisterStep(p: Cond, t: Tid)
    requires Inv(p) && Enabled(p, Unregister(t))
    ensures Inv(Step(p, Unregister(t)))
  {
    TotalRemove(p.threads, t);
    RemoveShrinks(p.threads, t);
  }

  lemma {:induction false} SignalBeginStep(p: Cond, t: Tid)
    requires Inv(p) && Enabled(p, SignalBegin(t))
    ensures Inv(Step(p, SignalBegin(t)))
  {
    TotalUpdate(p.threads, t, OwesPost);
    assert p.threads[t := OwesPost].Keys == p.threads.Keys + {t};
  }

  lemma {:induction false} BroadcastBeginStep(p: Cond, t: Tid)
    requires Inv(p) && Enabled(p, BroadcastBegin(t))
    ensures Inv(Step(p, BroadcastBegin(t)))
  {
    TotalUpdate(p.threads, t, OwesPosts(p.waiters));
    assert p.threads[t := OwesPosts(p.waiters)].Keys == p.threads.Keys + {t};
  }

  /** A post adds one to the balance, by a permit or by releasing a sleeper, unless the
      semaphore is already full. */
  lemma {:induction false} PostWorks(p: Cond)
    requires Sane(p)
    ensures var q := Post(p);
            && Sane(q) && q.waiters == p.waiters && q.lock == p.lock && q.stray == p.stray
            && (Permits(p.sem) == MAX_PERMITS ==> q == p)
            && (Permits(p.sem) < MAX_PERMITS ==> Balance(q) == Balance(p) + 1)
            && (forall t :: t in p.threads && !p.threads[t].Asleep? ==> t in q.threads && q.threads[t] == p.threads[t])
  {
    SignalKeepsConsistentIff(p.sem, {});
    if p.sem.blocked != [] { PostReleases(p); } else { PostBanks(p); }
  }

  lemma {:induction false} PostReleases(p: Cond)
    requires Sane(p) && p.sem.blocked != []
    ensures var h, q := p.sem.blocked[0], Post(p);
            && h in p.threads && p.threads[h].Asleep? && q == p.(sem := q.sem, threads := p.threads - {h})
            && Sane(q) && Balance(q) == Balance(p) + 1
  {
    SignalKeepsConsistentIff(p.sem, {});
    var h := p.sem.blocked[0];
    assert h in p.sem.blocked;
    var q := Post(p);
    assert q.threads == p.threads - {h} by { assert (set t | t in [h]) == {h}; }
    assert Sane(q) by {
      RemoveShrinks(p.threads, h);
      assert p.sem.blocked == [h] + p.sem.blocked[1..];
    }
    TotalRemove(p.threads, h);
  }

  lemma {:induction false} PostBanks(p: Cond)
    requires Sane(p) && p.sem.blocked == []
    ensures Post(p) == p.(sem := Sync(Counting(MAX_PERMITS, Min(MAX_PERMITS, p.sem.state.counter + 1)), []))
  {
    assert p.threads - (set t | t in []) == p.threads;
  }

  lemma {:induction false} BalanceWhenFull(p: Cond)
    requires Sane(p) && Permits(p.sem) == MAX_PERMITS
    ensures Balance(p) >= 0
  {
    TotalAtLeast(p.threads);
  }

  /** A poster that is not asleep leaves. */
  lemma {:induction false} PosterLeaves(m: Cond, t: Tid, lock: Option<Tid>)
    requires Sane(m) && t in m.threads && (m.threads[t].OwesPost? || m.threads[t].OwesPosts?)
    requires lock == if m.lock == Some(t) then None else m.lock
    ensures var q := m.(threads := m.threads - {t}, lock := lock);
            Sane(q) && Balance(q) == Balance(m) - Credit(m.threads[t])
  {
    TotalRemove(m.threads, t);
    RemoveShrinks(m.threads, t);
  }

  lemma {:induction false} PosterContinues(m: Cond, t: Tid, n: nat)
    requires Sane(m) && t in m.threads && m.threads[t].OwesPosts?
    ensures var q := m.(threads := m.threads[t := OwesPosts(n)]);
            Sane(q) && Balance(q) == Balance(m) - m.threads[t].n + n
  {
    TotalUpdate(m.threads, t, OwesPosts(n));
    assert m.threads[t := OwesPosts(n)].Keys == m.threads.Keys;
  }

  lemma {:induction false} SignalPostStep(p: Cond, t: Tid)
    requires Inv(p) && Enabled(p, SignalPost(t))
    ensures Inv(Step(p, SignalPost(t)))
  {
    PostWorks(p);
    PosterLeaves(Post(p), t, None);
    if Permits(p.sem) == MAX_PERMITS { BalanceWhenFull(Step(p, SignalPost(t))); }
  }

  lemma {:induction false} BroadcastMore(p: Cond, t: Tid)
    requires Inv(p) && Enabled(p, BroadcastPost(t)) && p.threads[t].n > 0
    ensures Inv(Step(p, BroadcastPost(t)))
  {
    PostWorks(p);
    PosterContinues(Post(p), t, p.threads[t].n - 1);
    if Permits(p.sem) == MAX_PERMITS { BalanceWhenFull(Step(p, BroadcastPost(t))); }
  }

  lemma {:induction false} BroadcastPostStep(p: Cond, t: Tid)
    requires Inv(p) && Enabled(p, BroadcastPost(t))
    ensures Inv(Step(p, BroadcastPost(t)))
  {
    if p.threads[t].n == 0 { PosterLeaves(p, t, p.lock); } else { BroadcastMore(p, t); }
  }

  lemma {:induction false} StepKeepsInv(p: Cond, a: Action)
    requires Inv(p) && Enabled(p, a)
    ensures Inv(Step(p, a))
  {
    match a {
      case CallWait(t, timed) => CallStep(p, t, timed);
      case Register(t) => RegisterStep(p, t);
      case Sleep(t, adm) => SleepStep(p, t, adm);
      case Interrupted(_) => BackStep(p, a);
      case GiveUp(_) => BackStep(p, a);
      case Unregister(t) => UnregisterStep(p, t);
      case SignalBegin(t) => SignalBeginStep(p, t);
      case SignalPost(t) => SignalPostStep(p, t);
      case BroadcastBegin(t) => BroadcastBeginStep(p, t);
      case BroadcastPost(t) => BroadcastPostStep(p, t);
    }
  }

  ghost predicate Possible(p: Cond, acts: seq<Action>)
    decreases acts
  {
    acts != [] ==> Enabled(p, acts[0]) && Possible(Step(p, acts[0]), acts[1..])
  }

  ghost function Run(p: Cond, acts: seq<Action>): Cond
    requires Possible(p, acts)
    decreases acts
  {
    if acts == [] then p else Run(Step(p, acts[0]), acts[1..])
  }

  lemma {:induction false} RunKeepsInv(p: Cond, acts: seq<Action>)
    requires Inv(p) && Possible(p, acts)
    ensures Inv(Run(p, acts))
    decreases acts
  {
    if acts != [] {
      StepKeepsInv(p, acts[0]);
      RunKeepsInv(Step(p, acts[0]), acts[1..]);
    }
  }

  lemma {:induction false} StartInv()
    ensures Inv(START) && NobodyExpired(START)
  {
    assert Total(START.threads) == 0;
  }

  ghost predicate NobodyExpired(p: Cond) {
    p.stray == 0 && forall t :: t in p.threads ==> !p.threads[t].Expired?
  }

  lemma {:induction false} WithoutExpiry(p: Cond, acts: seq<Action>)
    requires Possible(p, acts) && NobodyExpired(p)
    requires NeverGivesUp(acts)
    ensures NobodyExpired(Run(p, acts))
    decreases acts
  {
    if acts != [] {
      assert !acts[0].GiveUp?;
      assert NeverGivesUp(acts[1..]);
      WithoutExpiry(Step(p, acts[0]), acts[1..]);
    }
  }

  ghost predicate NeverGivesUp(acts: seq<Action>) {
    forall i | 0 <= i < |acts| :: !acts[i].GiveUp?
  }

  /** The expiries of a run that find nobody counted any more. */
  function LateExpiries(p: Cond, acts: seq<Action>): nat
    requires Possible(p, acts)
    decreases acts
  {
    if acts == [] then 0
    else (if acts[0].Unregister? && p.waiters <= 0 then 1 else 0) + LateExpiries(Step(p, acts[0]), acts[1..])
  }

  lemma {:induction false} StrayAreLate(p: Cond, acts: seq<Action>)
    requires Possible(p, acts)
    ensures Run(p, acts).stray == p.stray + LateExpiries(p, acts)
    decreases acts
  {
    if acts != [] {
      StrayStep(p, acts[0]);
      StrayAreLate(Step(p, acts[0]), acts[1..]);
    }
  }

  lemma {:induction false} StrayStep(p: Cond, a: Action)
    requires Enabled(p, a)
    ensures Step(p, a).stray == p.stray + if a.Unregister? && p.waiters <= 0 then 1 else 0
  {
  }

  /** The account at the end of a run: its surplus is at most the number of late expiries, and
      there is none if no timed wait expires. */
  ghost predicate Accounted(p: Cond, acts: seq<Action>)
    requires Possible(p, acts)
  {
    && 0 <= Balance(Run(p, acts)) <= p.stray + LateExpiries(p, acts)
    && (NeverGivesUp(acts) ==> Balance(Run(p, acts)) == 0)
  }

  lemma {:induction false} AccountBalancesFrom(p: Cond, acts: seq<Action>)
    requires Inv(p) && NobodyExpired(p) && Possible(p, acts)
    ensures Accounted(p, acts)
  {
    StrayAreLate(p, acts);
    RunKeepsInv(p, acts);
    if NeverGivesUp(acts) { WithoutExpiry(p, acts); }
  }

  /** The account over every run: counted-but-unmatched waiters, permits and owed posts
      together always cover the threads still counted and not released. The surplus is at
      most the number of late expiries, so without any expiry the account is exact. */
  lemma {:induction false} AccountBalances(acts: seq<Action>)
    requires Possible(START, acts)
    ensures Accounted(START, acts)
  {
    StartInv();
    AccountBalancesFrom(START, acts);
  }

  /** Nobody owes a post. */
  ghost predicate NoPostOwed(p: Cond) {
    forall t :: t in p.threads ==> Credit(p.threads[t]) <= 0
  }

  lemma {:induction false} SleeperIsCovered(p: Cond, t: Tid)
    requires Inv(p) && NoPostOwed(p) && t in p.threads
    ensures p.threads[t].Asleep? ==> p.waiters > 0
    ensures p.threads[t].Registered? && p.waiters == 0 ==> Permits(p.sem) > 0
  {
    TotalRemove(p.threads, t);
    TotalOfDemands(p.threads - {t});
    if p.threads[t].Asleep? { assert t in p.sem.blocked; }
  }

  /** No sleeper is forgotten: once the waiter count is zero and nobody still owes a post,
      no thread is asleep on the condition variable, and a counted thread that has yet to
      wait finds a permit. */
  lemma {:induction false} NoSleeperForgotten(acts: seq<Action>, t: Tid)
    requires Possible(START, acts)
    requires Run(START, acts).waiters == 0 && NoPostOwed(Run(START, acts)) && t in Run(START, acts).threads
    ensures var p := Run(START, acts);
            !p.threads[t].Asleep? && (p.threads[t].Registered? ==> Permits(p.sem) > 0)
  {
    StartInv();
    RunKeepsInv(START, acts);
    SleeperIsCovered(Run(START, acts), t);
  }

  // ----- What a signal and a broadcast deliver

  /** The semaphore is sound; all that a post depends on. */
  predicate SemOk(s: Sync) {
    Consistent(s) && s.state.Counting? && s.state.max == MAX_PERMITS
  }

  /** The `k` threads that have slept longest. */
  function Sleepers(b: seq<Tid>, k: nat): set<Tid>
    requires k <= |b|
  {
    set i | 0 <= i < k :: b[i]
  }

  /** Of `n` posts, `k` released the longest sleepers and the others left permits. */
  ghost predicate Delivered(p: Cond, r: Cond, k: nat, n: nat) {
    && k <= |p.sem.blocked| && k <= n
    && r.threads == p.threads - Sleepers(p.sem.blocked, k) && r.sem.blocked == p.sem.blocked[k..]
    && Permits(r.sem) == Min(MAX_PERMITS, Permits(p.sem) + n - k)
  }

  lemma {:induction false} PostDelivers(p: Cond)
    requires SemOk(p.sem)
    ensures SemOk(Post(p).sem) && Delivered(p, Post(p), Min(1, |p.sem.blocked|), 1)
    ensures Post(p) == p.(sem := Post(p).sem, threads := Post(p).threads)
  {
    SignalKeepsConsistentIff(p.sem, {});
    if p.sem.blocked != [] {
      assert Sleepers(p.sem.blocked, 1) == {p.sem.blocked[0]};
      assert (set t | t in [p.sem.blocked[0]]) == {p.sem.blocked[0]};
    } else {
      assert Sleepers(p.sem.blocked, 0) == {};
    }
  }

  lemma {:induction false} DeliveredAside(p: Cond, r: Cond, k: nat, n: nat, t: Tid)
    requires Delivered(p, r, k, n)
    ensures Delivered(Gone(p, t), Gone(r, t), k, n)
  {
    assert Gone(r, t).threads == Gone(p, t).threads - Sleepers(p.sem.blocked, k);
  }

  function Gone(p: Cond, t: Tid): Cond {
    p.(threads := p.threads - {t})
  }

  /** A signal on a positive count: one off the count, then one post. */
  lemma {:induction false} SignalFrom(p: Cond, t: Tid)
    requires SemOk(p.sem) && p.waiters > 0 && p.lock == None && Enabled(p, SignalBegin(t))
    ensures var q := Step(p, SignalBegin(t));
            && Enabled(q, SignalPost(t))
            && var r := Step(q, SignalPost(t));
               r.waiters == p.waiters - 1 && r.lock == None && Delivered(p, r, Min(1, |p.sem.blocked|), 1)
  {
    SignalSteps(p, t);
    OwedPostDelivers(p, t);
  }

  /** The state a signal that finds somebody counted leaves before its post. */
  function Signalling(p: Cond, t: Tid): Cond {
    p.(waiters := p.waiters - 1, lock := Some(t), threads := p.threads[t := OwesPost])
  }

  lemma {:induction false} SignalSteps(p: Cond, t: Tid)
    requires p.waiters > 0 && Enabled(p, SignalBegin(t))
    ensures Step(p, SignalBegin(t)) == Signalling(p, t) && Enabled(Signalling(p, t), SignalPost(t))
    ensures Step(Signalling(p, t), SignalPost(t)) == Gone(Post(Signalling(p, t)), t).(lock := None)
  {
  }

  lemma {:induction false} OwedPostDelivers(p: Cond, t: Tid)
    requires SemOk(p.sem) && t !in p.threads
    ensures var r := Gone(Post(Signalling(p, t)), t).(lock := None);
            r.waiters == p.waiters - 1 && Delivered(p, r, Min(1, |p.sem.blocked|), 1)
  {
    var q := Signalling(p, t);
    PostDelivers(q);
    DeliveredAside(q, Post(q), Min(1, |p.sem.blocked|), 1, t);
    assert Gone(q, t).threads == p.threads;
  }

  lemma {:induction false} FactsFrom(p: Cond, acts: seq<Action>)
    requires Inv(p) && Possible(p, acts)
    ensures SemOk(Run(p, acts).sem) && Run(p, acts).waiters >= 0
    ensures NoPostOwed(Run(p, acts)) ==> |Run(p, acts).sem.blocked| <= Run(p, acts).waiters
  {
    RunKeepsInv(p, acts);
    SleepersAreCounted(Run(p, acts));
  }

  lemma {:induction false} ReachableFacts(acts: seq<Action>)
    requires Possible(START, acts)
    ensures SemOk(Run(START, acts).sem) && Run(START, acts).waiters >= 0
    ensures NoPostOwed(Run(START, acts)) ==> |Run(START, acts).sem.blocked| <= Run(START, acts).waiters
  {
    StartInv();
    FactsFrom(START, acts);
  }

  /** In every reachable state: a signal with nobody counted does nothing; otherwise it takes one
      off the count, and its post releases the thread that has slept longest and no other, or
      leaves a permit if nobody sleeps yet. */
  lemma {:induction false} SignalDelivers(acts: seq<Action>, t: Tid)
    requires Possible(START, acts) && Enabled(Run(START, acts), SignalBegin(t))
    ensures var p := Run(START, acts);
            var q := Step(p, SignalBegin(t));
            if p.waiters <= 0 then q == p
            else
              && Enabled(q, SignalPost(t))
              && var r := Step(q, SignalPost(t));
                 r.waiters == p.waiters - 1 && r.lock == None && Delivered(p, r, Min(1, |p.sem.blocked|), 1)
  {
    ReachableFacts(acts);
    if Run(START, acts).waiters > 0 { SignalFrom(Run(START, acts), t); }
  }

  function Posts(t: Tid, n: nat): seq<Action> {
    if n == 0 then [] else [BroadcastPost(t)] + Posts(t, n - 1)
  }

  lemma {:induction false} OnePost(p: Cond, t: Tid, n: nat)
    requires SemOk(p.sem) && t in p.threads && p.threads[t] == OwesPosts(n) && n > 0
    ensures var q := Step(p, BroadcastPost(t));
            && SemOk(q.sem) && t in q.threads && q.threads[t] == OwesPosts(n - 1) && q.waiters == p.waiters && q.lock == p.lock
            && Delivered(Gone(p, t), Gone(q, t), Min(1, |p.sem.blocked|), 1)
  {
    PostDelivers(p);
    DeliveredAside(p, Post(p), Min(1, |p.sem.blocked|), 1, t);
    assert Gone(Step(p, BroadcastPost(t)), t).threads == Gone(Post(p), t).threads;
  }

  lemma {:induction false} SleepersThen(b: seq<Tid>, j: nat, k: nat)
    requires j + k <= |b|
    ensures Sleepers(b, j + k) == Sleepers(b, j) + Sleepers(b[j..], k)
  {
    forall x | x in Sleepers(b, j + k) ensures x in Sleepers(b, j) + Sleepers(b[j..], k) {
      var i :| 0 <= i < j + k && x == b[i];
      if i >= j { assert x == b[j..][i - j]; }
    }
    forall x | x in Sleepers(b[j..], k) ensures x in Sleepers(b, j + k) {
      var i :| 0 <= i < k && x == b[j..][i];
      assert x == b[i + j];
    }
  }

  lemma {:induction false} DeliveredThen(p: Cond, q: Cond, r: Cond, k: nat, n: nat)
    requires Delivered(p, q, Min(1, |p.sem.blocked|), 1) && Delivered(q, r, k, n) && k == Min(n, |q.sem.blocked|)
    ensures Delivered(p, r, Min(n + 1, |p.sem.blocked|), n + 1)
  {
    var j := Min(1, |p.sem.blocked|);
    assert p.sem.blocked[j..][k..] == p.sem.blocked[j + k..];
    SleepersThen(p.sem.blocked, j, k);
  }

  /** The thread that owed `n` posts has made them and is gone. */
  ghost predicate Posted(p: Cond, t: Tid, n: nat, r: Cond) {
    Delivered(Gone(p, t), r, Min(n, |p.sem.blocked|), n) && r.waiters == p.waiters && r.lock == p.lock
  }

  ghost predicate PostsEnd(p: Cond, t: Tid, n: nat) {
    Possible(p, Posts(t, n + 1)) && Posted(p, t, n, Run(p, Posts(t, n + 1)))
  }

  lemma {:induction false} AllPosts(p: Cond, t: Tid, n: nat)
    requires SemOk(p.sem) && t in p.threads && p.threads[t] == OwesPosts(n)
    ensures PostsEnd(p, t, n)
    decreases n
  {
    FirstPost(p, t, n);
    if n == 0 {
      NoPostLeft(p, t);
    } else {
      OnePost(p, t, n);
      AllPosts(Step(p, BroadcastPost(t)), t, n - 1);
      PostedThen(p, t, n, Run(p, Posts(t, n + 1)));
    }
  }

  lemma {:induction false} PostedThen(p: Cond, t: Tid, n: nat, r: Cond)
    requires SemOk(p.sem) && t in p.threads && p.threads[t] == OwesPosts(n) && n > 0
    requires Posted(Step(p, BroadcastPost(t)), t, n - 1, r)
    ensures Posted(p, t, n, r)
  {
    var q := Step(p, BroadcastPost(t));
    OnePost(p, t, n);
    DeliveredThen(Gone(p, t), Gone(q, t), r, Min(n - 1, |q.sem.blocked|), n - 1);
  }

  lemma {:induction false} NoPostLeft(p: Cond, t: Tid)
    requires SemOk(p.sem) && t in p.threads && p.threads[t] == OwesPosts(0)
    ensures Possible(Step(p, BroadcastPost(t)), Posts(t, 0))
    ensures Run(Step(p, BroadcastPost(t)), Posts(t, 0)) == Gone(p, t)
    ensures Delivered(Gone(p, t), Gone(p, t), 0, 0)
  {
    assert Sleepers(p.sem.blocked, 0) == {} && Gone(p, t).threads - {} == Gone(p, t).threads;
  }

  lemma {:induction false} FirstPost(p: Cond, t: Tid, n: nat)
    requires t in p.threads && p.threads[t] == OwesPosts(n)
    ensures Enabled(p, BroadcastPost(t))
    ensures Possible(Step(p, BroadcastPost(t)), Posts(t, n)) ==>
              Possible(p, Posts(t, n + 1)) && Run(p, Posts(t, n + 1)) == Run(Step(p, BroadcastPost(t)), Posts(t, n))
  {
    assert Posts(t, n + 1)[0] == BroadcastPost(t) && Posts(t, n + 1)[1..] == Posts(t, n);
  }

  lemma {:induction false} PostsFor(p: Cond, q: Cond, t: Tid, n: nat)
    requires SemOk(p.sem) && t !in p.threads && q == p.(waiters := 0, threads := p.threads[t := OwesPosts(n)])
    ensures Possible(q, Posts(t, n + 1))
    ensures Run(q, Posts(t, n + 1)).waiters == 0 && Delivered(p, Run(q, Posts(t, n + 1)), Min(n, |p.sem.blocked|), n)
  {
    AllPosts(q, t, n);
    assert Posted(q, t, n, Run(q, Posts(t, n + 1)));
    assert Gone(q, t).threads == p.threads;
    assert Gone(q, t) == p.(waiters := 0);
  }

  lemma {:induction false} BroadcastFrom(p: Cond, t: Tid, n: nat)
    requires SemOk(p.sem) && p.waiters == n > 0 && Enabled(p, BroadcastBegin(t))
    ensures var q := Step(p, BroadcastBegin(t));
            && Possible(q, Posts(t, n + 1))
            && Run(q, Posts(t, n + 1)).waiters == 0 && Delivered(p, Run(q, Posts(t, n + 1)), Min(n, |p.sem.blocked|), n)
  {
    PostsFor(p, Step(p, BroadcastBegin(t)), t, n);
  }

  /** In every reachable state: a broadcast empties the count and posts once for each thread that
      was counted; if no other post is on its way, every sleeper returns. */
  lemma {:induction false} BroadcastDelivers(acts: seq<Action>, t: Tid, n: nat)
    requires Possible(START, acts) && Enabled(Run(START, acts), BroadcastBegin(t)) && Run(START, acts).waiters == n
    ensures var p := Run(START, acts);
            var q := Step(p, BroadcastBegin(t));
            if n == 0 then q == p
            else
              && Possible(q, Posts(t, n + 1))
              && Run(q, Posts(t, n + 1)).waiters == 0 && Delivered(p, Run(q, Posts(t, n + 1)), Min(n, |p.sem.blocked|), n)
              && (NoPostOwed(p) ==> Run(q, Posts(t, n + 1)).sem.blocked == [])
  {
    ReachableFacts(acts);
    if n > 0 { BroadcastFrom(Run(START, acts), t, n); }
  }

  /** With no post on its way, the count covers all sleepers. */
  lemma {:induction false} SleepersAreCounted(p: Cond)
    requires Inv(p)
    ensures NoPostOwed(p) ==> |p.sem.blocked| <= p.waiters
  {
    if NoPostOwed(p) && p.sem.blocked != [] { TotalOfSleepers(p.threads, p.sem.blocked); }
  }

  lemma {:induction false} TotalOfSleepers(m: map<Tid, Pc>, b: seq<Tid>)
    requires Distinct(b) && (forall t :: t in m ==> Credit(m[t]) <= 0) && forall t :: t in b ==> t in m && m[t].Asleep?
    ensures Total(m) <= -|b|
    decreases |b|
  {
    if b == [] {
      TotalOfDemands(m);
    } else {
      assert b[0] in b;
      TotalRemove(m, b[0]);
      assert forall t :: t in b[1..] ==> t in b && t != b[0];
      TotalOfSleepers(m - {b[0]}, b[1..]);
    }
  }
}
