/** Bounded following of a chain of steps, against following without a bound. */
module Following {

  datatype Hop<+R> = Stop(result: R) | Next(full: string)

  /** Follow `hop` from `p` for at most `fuel` expansions, or give up. */
  function Follow<R>(hop: string -> Hop<R>, p: string, fuel: nat, giveUp: R): R
    decreases fuel
  {
    match hop(p)
    case Stop(r) => if fuel == 0 then giveUp else r
    case Next(q) => if fuel == 0 then giveUp else Follow(hop, q, fuel - 1, giveUp)
  }

  /** `n` expansions lead from `p` to `q`, with no bound on `n`. */
  ghost predicate Expands<R>(hop: string -> Hop<R>, p: string, n: nat, q: string)
    decreases n
  {
    if n == 0 then p == q else hop(p).Next? && Expands(hop, hop(p).full, n - 1, q)
  }

  /** Unbounded following stops after `n` expansions, at `q`, with result `r`. */
  ghost predicate StopsAt<R>(hop: string -> Hop<R>, p: string, n: nat, q: string, r: R) {
    Expands(hop, p, n, q) && hop(q) == Stop(r)
  }

  ghost predicate CanExpand<R>(hop: string -> Hop<R>, p: string, n: nat) {
    exists q :: Expands(hop, p, n, q)
  }

  ghost predicate StopsWithin<R>(hop: string -> Hop<R>, p: string, fuel: nat, r: R) {
    exists n: nat, q :: n < fuel && StopsAt(hop, p, n, q, r)
  }

  lemma {:induction false} FollowOnce<R>(hop: string -> Hop<R>, p: string, fuel: nat, giveUp: R)
    ensures Follow(hop, p, fuel + 1, giveUp) ==
            match hop(p)
            case Stop(r) => r
            case Next(q) => Follow(hop, q, fuel, giveUp)
  {
  }

  /** Bounded following gives up after `fuel` expansions and otherwise stops where unbounded
      following stops. */
  lemma {:induction false} FollowMeaning<R>(hop: string -> Hop<R>, p: string, fuel: nat, giveUp: R)
    ensures (CanExpand(hop, p, fuel) && Follow(hop, p, fuel, giveUp) == giveUp) ||
            StopsWithin(hop, p, fuel, Follow(hop, p, fuel, giveUp))
    decreases fuel
  {
    var r := Follow(hop, p, fuel, giveUp);
    if fuel == 0 {
      assert Expands(hop, p, 0, p);
    } else if hop(p).Next? {
      FollowMeaning(hop, hop(p).full, fuel - 1, giveUp);
      if CanExpand(hop, hop(p).full, fuel - 1) && r == giveUp {
        var q :| Expands(hop, hop(p).full, fuel - 1, q);
        assert Expands(hop, p, fuel, q);
      } else {
        var n: nat, q :| n < fuel - 1 && StopsAt(hop, hop(p).full, n, q, r);
        assert StopsAt(hop, p, n + 1, q, r);
      }
    } else {
      assert StopsAt(hop, p, 0, p, r);
    }
  }

  /** Following is deterministic: a path that stops cannot also expand further. */
  lemma {:induction false} StopIsFinal<R>(hop: string -> Hop<R>, p: string, n: nat, q: string, r: R, k: nat, q': string)
    requires StopsAt(hop, p, n, q, r) && Expands(hop, p, k, q')
    ensures k <= n
    decreases n
  {
    if n > 0 && k > 0 { StopIsFinal(hop, hop(p).full, n - 1, q, r, k - 1, q'); }
  }

  lemma {:induction false} FollowReachesStop<R>(hop: string -> Hop<R>, p: string, n: nat, q: string, r: R, fuel: nat, giveUp: R)
    requires StopsAt(hop, p, n, q, r) && n < fuel
    ensures Follow(hop, p, fuel, giveUp) == r
    decreases n
  {
    if n > 0 { FollowReachesStop(hop, hop(p).full, n - 1, q, r, fuel - 1, giveUp); }
  }

  /** If no step itself answers `giveUp`, that answer means exactly that the bound was hit. */
  lemma {:induction false} GiveUpIffTooLong<R>(hop: string -> Hop<R>, p: string, fuel: nat, giveUp: R)
    requires forall x :: hop(x) != Stop(giveUp)
    ensures Follow(hop, p, fuel, giveUp) == giveUp <==> CanExpand(hop, p, fuel)
  {
    FollowMeaning(hop, p, fuel, giveUp);
    var r := Follow(hop, p, fuel, giveUp);
    if StopsWithin(hop, p, fuel, r) {
      var n: nat, q :| n < fuel && StopsAt(hop, p, n, q, r);
      forall q' ensures !Expands(hop, p, fuel, q') {
        if Expands(hop, p, fuel, q') { StopIsFinal(hop, p, n, q, r, fuel, q'); }
      }
    }
  }
}
