/** Whole runs of a backoff budget, and of many budgets that share one pair of counters. */
module ContentionRuns {
  import opened Machine
  import opened Contention

  /** `Ask` is a `next_delay` call, `Check` an `expired` call. */
  datatype Call = Ask(now: nat, random: nat) | Check(now: nat)

  datatype Grant = Grant(at: nat, sleep: nat)

  /** The budget a fresh one becomes by a sequence of calls. */
  ghost function After(p: Policy, calls: seq<Call>): (b: Budget)
    requires Constructible(p)
    ensures Sound(p, b)
  {
    if calls == [] then assert Power(p.multiplier, 0) == 1; Fresh(p)
    else Stepped(p, After(p, calls[..|calls| - 1]), calls[|calls| - 1])
  }

  lemma AfterNext(p: Policy, calls: seq<Call>, i: nat)
    requires Constructible(p) && i < |calls|
    ensures After(p, calls[..i + 1]) == Stepped(p, After(p, calls[..i]), calls[i])
  {
    assert calls[..i + 1][..i] == calls[..i];
  }

  ghost function Stepped(p: Policy, b: Budget, call: Call): (next: Budget)
    requires Sound(p, b)
    ensures Sound(p, next)
  {
    match call
    case Ask(now, random) => Asked(p, b, now, random)
    case Check(now) => Checked(p, b, now)
  }

  /** The sleeps granted on the way, in order. */
  ghost function Grants(p: Policy, calls: seq<Call>): seq<Grant>
    requires Constructible(p)
  {
    if calls == [] then []
    else
      var front, call := calls[..|calls| - 1], calls[|calls| - 1];
      Grants(p, front) + Granted(p, After(p, front), call)
  }

  ghost function Granted(p: Policy, b: Budget, call: Call): seq<Grant>
    requires Sound(p, b)
  {
    if call.Ask? && Granting(p, b, call.now, call.random) then
      SleepBounds(p, b, call.random); [Grant(call.now, Sleep(p, b, call.random))]
    else []
  }

  /** The call found the budget used up. */
  ghost predicate Refused(p: Policy, b: Budget, call: Call)
    requires Sound(p, b)
  {
    match call
    case Ask(now, random) => !Granting(p, b, now, random)
    case Check(now) => Expired(p, b, now)
  }

  // ---------------------------------------------------------------- every grant

  /** The `k`-th sleep: at least a millisecond, at most the `k`-th cap, and over before the deadline. */
  predicate GrantFits(p: Policy, k: nat, g: Grant, started: Option<nat>) {
    && MILLISECOND <= g.sleep <= Cap(p, k)
    && (p.jitter.NoJitter? ==> g.sleep == Cap(p, k))
    && started.Some? && g.at + g.sleep < started.value + p.maxElapsed
  }

  lemma NewGrantFits(p: Policy, b: Budget, call: Call)
    requires Sound(p, b) && Granted(p, b, call) != []
    ensures |Granted(p, b, call)| == 1 && GrantFits(p, b.retries, Granted(p, b, call)[0], Stepped(p, b, call).started)
  {
    SleepBounds(p, b, call.random);
  }

  /** Every sleep of every run fits, and there are no more of them than retries allowed. */
  lemma {:induction false} EveryGrant(p: Policy, calls: seq<Call>, k: nat)
    requires Constructible(p) && k < |Grants(p, calls)|
    ensures |Grants(p, calls)| == After(p, calls).retries <= p.maxRetries
    ensures GrantFits(p, k, Grants(p, calls)[k], After(p, calls).started)
  {
    var front, call := calls[..|calls| - 1], calls[|calls| - 1];
    GrantCount(p, calls);
    GrantCount(p, front);
    if k < |Grants(p, front)| {
      EveryGrant(p, front, k);
      SleepFits(p, After(p, front), call);
    } else {
      NewGrantFits(p, After(p, front), call);
    }
  }

  lemma {:induction false} GrantCount(p: Policy, calls: seq<Call>)
    requires Constructible(p)
    ensures |Grants(p, calls)| == After(p, calls).retries
  {
    if calls != [] {
      GrantCount(p, calls[..|calls| - 1]);
    }
  }

  // ---------------------------------------------------------------- callers that sleep as told

  /** The earliest time the next call may come when the clock never goes back and sleeps are slept. */
  ghost function Horizon(p: Policy, calls: seq<Call>): nat
    requires Constructible(p)
  {
    if calls == [] then 0
    else
      var front, call := calls[..|calls| - 1], calls[|calls| - 1];
      var granted := Granted(p, After(p, front), call);
      if granted == [] then call.now else call.now + granted[0].sleep
  }

  ghost predicate Patient(p: Policy, calls: seq<Call>)
    requires Constructible(p)
  {
    calls != [] ==>
      var front := calls[..|calls| - 1];
      Patient(p, front) && calls[|calls| - 1].now >= Horizon(p, front)
  }

  function TotalSleep(grants: seq<Grant>): nat {
    if grants == [] then 0 else TotalSleep(grants[..|grants| - 1]) + grants[|grants| - 1].sleep
  }

  lemma TotalGrows(grants: seq<Grant>, granted: seq<Grant>)
    requires |granted| <= 1
    ensures TotalSleep(grants + granted) == TotalSleep(grants) + if granted == [] then 0 else granted[0].sleep
  {
    if granted == [] {
      assert grants + granted == grants;
    } else {
      assert (grants + granted)[..|grants|] == grants;
    }
  }

  lemma SleepFits(p: Policy, b: Budget, call: Call)
    requires Sound(p, b)
    ensures |Granted(p, b, call)| <= 1
    ensures Granted(p, b, call) != [] ==>
              call.now + Granted(p, b, call)[0].sleep < Start(b, call.now) + p.maxElapsed
    ensures b.started.Some? ==> Stepped(p, b, call).started == b.started
    ensures Stepped(p, b, call).started == if call.Ask? then Some(Start(b, call.now)) else b.started
  {
  }

  /** The sleeps so far end before the horizon, and before the limit. */
  predicate Accounted(p: Policy, started: Option<nat>, total: nat, horizon: nat) {
    && (total == 0 || total < p.maxElapsed)
    && (started.Some? ==> started.value + total <= horizon)
    && (started.None? ==> total == 0)
  }

  lemma AccountStep(p: Policy, b: Budget, call: Call, total: nat, horizon: nat)
    requires Sound(p, b) && Accounted(p, b.started, total, horizon) && horizon <= call.now
    ensures |Granted(p, b, call)| <= 1
    ensures var sleep := if Granted(p, b, call) == [] then 0 else Granted(p, b, call)[0].sleep;
            Accounted(p, Stepped(p, b, call).started, total + sleep, call.now + sleep)
  {
    SleepFits(p, b, call);
  }

  /** However the calls fall, all sleeps of one budget together stay below the elapsed limit. */
  lemma {:induction false} SleepsFitTheDeadline(p: Policy, calls: seq<Call>)
    requires Constructible(p) && Patient(p, calls)
    ensures Accounted(p, After(p, calls).started, TotalSleep(Grants(p, calls)), Horizon(p, calls))
  {
    if calls != [] {
      var front, call := calls[..|calls| - 1], calls[|calls| - 1];
      SleepsFitTheDeadline(p, front);
      AccountStep(p, After(p, front), call, TotalSleep(Grants(p, front)), Horizon(p, front));
      TotalGrows(Grants(p, front), Granted(p, After(p, front), call));
    }
  }

  // ---------------------------------------------------------------- running out

  ghost predicate RefusedAt(p: Policy, calls: seq<Call>, i: nat)
    requires Constructible(p) && i < |calls|
  {
    Refused(p, After(p, calls[..i]), calls[i])
  }

  lemma {:induction false} RefusalExhausts(p: Policy, calls: seq<Call>, i: nat)
    requires Constructible(p) && i < |calls| && RefusedAt(p, calls, i)
    ensures After(p, calls).exhausted
  {
    var n := |calls| - 1;
    if i < n {
      assert calls[..n][..i] == calls[..i];
      RefusalExhausts(p, calls[..n], i);
    }
  }

  lemma {:induction false} FindRefusal(p: Policy, calls: seq<Call>) returns (i: nat)
    requires Constructible(p) && After(p, calls).exhausted
    ensures i < |calls| && RefusedAt(p, calls, i)
  {
    var n := |calls| - 1;
    if After(p, calls[..n]).exhausted {
      i := FindRefusal(p, calls[..n]);
      assert calls[..n][..i] == calls[..i];
    } else {
      i := n;
    }
  }

  /** The exhaustion flag remembers whether any call of the run was refused. */
  lemma ExhaustedIffRefused(p: Policy, calls: seq<Call>)
    requires Constructible(p)
    ensures After(p, calls).exhausted <==> exists i | 0 <= i < |calls| :: RefusedAt(p, calls, i)
  {
    if After(p, calls).exhausted {
      var i := FindRefusal(p, calls);
    } else if exists i | 0 <= i < |calls| :: RefusedAt(p, calls, i) {
      var i :| 0 <= i < |calls| && RefusedAt(p, calls, i);
      RefusalExhausts(p, calls, i);
    }
  }

  predicate Ordered(calls: seq<Call>) {
    forall i, j | 0 <= i < j < |calls| :: calls[i].now <= calls[j].now
  }

  /** Once set, the start of the first contention is kept. */
  lemma {:induction false} StartStays(p: Policy, calls: seq<Call>, i: nat)
    requires Constructible(p) && i <= |calls| && After(p, calls[..i]).started.Some?
    ensures After(p, calls).started == After(p, calls[..i]).started
  {
    if i < |calls| {
      var front := calls[..|calls| - 1];
      assert front[..i] == calls[..i];
      StartStays(p, front, i);
    } else {
      assert calls[..i] == calls;
    }
  }

  /** With a clock that never goes back, expiry is permanent and no sleep is granted any more. */
  lemma ExpiryIsFinal(p: Policy, calls: seq<Call>, i: nat, j: nat)
    requires Constructible(p) && Ordered(calls) && i < j < |calls|
    requires Expired(p, After(p, calls[..i]), calls[i].now)
    ensures Expired(p, After(p, calls[..j]), calls[j].now) && RefusedAt(p, calls, j)
  {
    assert calls[..j][..i] == calls[..i];
    StartStays(p, calls[..j], i);
  }

  /** When the first request of a run was made, if there was one. */
  function FirstAsk(calls: seq<Call>): Option<nat> {
    if calls == [] then None
    else
      var earlier := FirstAsk(calls[..|calls| - 1]);
      if earlier.None? && calls[|calls| - 1].Ask? then Some(calls[|calls| - 1].now) else earlier
  }

  /** The elapsed limit counts from the first request. */
  lemma {:induction false} StartIsFirstAsk(p: Policy, calls: seq<Call>)
    requires Constructible(p)
    ensures After(p, calls).started == FirstAsk(calls)
  {
    if calls != [] {
      StartIsFirstAsk(p, calls[..|calls| - 1]);
    }
  }

  /**
   Without jitter a request is refused exactly if all retries have been granted or its sleep would
   end at or after the deadline, which the first request fixes.
   */
  lemma RefusedExactlyAtLimits(p: Policy, calls: seq<Call>, now: nat, random: nat)
    requires Constructible(p) && p.jitter.NoJitter?
    requires FirstAsk(calls).Some? ==> FirstAsk(calls).value <= now
    ensures var granted, start := |Grants(p, calls)|, if FirstAsk(calls).Some? then FirstAsk(calls).value else now;
            Refused(p, After(p, calls), Ask(now, random))
            <==> granted >= p.maxRetries || now + Cap(p, granted) >= start + p.maxElapsed
  {
    StartIsFirstAsk(p, calls);
    GrantCount(p, calls);
  }

  // ---------------------------------------------------------------- refusals that last

  /** The shortest sleep the next request can be granted. */
  function LeastSleep(p: Policy, b: Budget): nat {
    if p.jitter.NoJitter? then b.nextDelay else MILLISECOND
  }

  /** Nothing can be granted any more: no retry is left, or even the shortest sleep would reach the limit. */
  predicate Spent(p: Policy, b: Budget, now: nat) {
    b.started.Some? && (b.retries >= p.maxRetries || LeastSleep(p, b) >= Remaining(p, b, now))
  }

  lemma SpentStays(p: Policy, b: Budget, now: nat, call: Call)
    requires Sound(p, b) && Spent(p, b, now) && now <= call.now
    ensures call.Ask? ==> Refused(p, b, call)
    ensures var next := Stepped(p, b, call);
            Spent(p, next, call.now) && next.retries == b.retries && next.started == b.started
  {
    if call.Ask? && b.retries < p.maxRetries {
      SleepBounds(p, b, call.random);
    }
  }

  lemma UnspentGrants(p: Policy, b: Budget, now: nat)
    requires Sound(p, b) && b.started.Some? && !Spent(p, b, now)
    ensures !Refused(p, b, Ask(now, 0))
  {
    SleepBounds(p, b, 0);
  }

  /** The budget after further calls. */
  ghost function Onward(p: Policy, b: Budget, more: seq<Call>): (next: Budget)
    requires Sound(p, b)
    ensures Sound(p, next)
  {
    if more == [] then b else Stepped(p, Onward(p, b, more[..|more| - 1]), more[|more| - 1])
  }

  lemma {:induction false} AfterMore(p: Policy, calls: seq<Call>, more: seq<Call>)
    requires Constructible(p)
    ensures After(p, calls + more) == Onward(p, After(p, calls), more)
  {
    if more == [] {
      assert calls + more == calls;
    } else {
      var n := |more| - 1;
      AfterMore(p, calls, more[..n]);
      SplitMore(calls, more);
      AfterLast(p, calls + more);
    }
  }

  lemma SplitMore(calls: seq<Call>, more: seq<Call>)
    requires more != []
    ensures var all, n := calls + more, |more| - 1;
            && all != [] && all[..|all| - 1] == calls + more[..n] && all[|all| - 1] == more[n]
  {
  }

  lemma AfterLast(p: Policy, calls: seq<Call>)
    requires Constructible(p) && calls != []
    ensures After(p, calls) == Stepped(p, After(p, calls[..|calls| - 1]), calls[|calls| - 1])
  {
  }

  /** Calls in order of time, none of them before `now`. */
  predicate From(now: nat, more: seq<Call>) {
    Ordered(more) && forall i | 0 <= i < |more| :: now <= more[i].now
  }

  function Latest(now: nat, more: seq<Call>): nat {
    if more == [] then now else more[|more| - 1].now
  }

  lemma {:induction false} SpentOnward(p: Policy, b: Budget, now: nat, more: seq<Call>)
    requires Sound(p, b) && Spent(p, b, now) && From(now, more)
    ensures Spent(p, Onward(p, b, more), Latest(now, more)) && Onward(p, b, more).retries == b.retries
  {
    if more != [] {
      var n := |more| - 1;
      SpentOnward(p, b, now, more[..n]);
      SpentStays(p, Onward(p, b, more[..n]), Latest(now, more[..n]), more[n]);
    }
  }

  /** Whatever is called from `now` on, every request is refused. */
  ghost predicate NeverGrants(p: Policy, b: Budget, now: nat)
    requires Sound(p, b)
  {
    forall more, later, random | From(now, more) && Latest(now, more) <= later ::
      Refused(p, Onward(p, b, more), Ask(later, random))
  }

  /** A started budget has given its last grant exactly when it is spent. */
  lemma NeverGrantsIffSpent(p: Policy, b: Budget, now: nat)
    requires Sound(p, b) && b.started.Some?
    ensures NeverGrants(p, b, now) <==> Spent(p, b, now)
  {
    if Spent(p, b, now) {
      forall more, later: nat, random: nat | From(now, more) && Latest(now, more) <= later
        ensures Refused(p, Onward(p, b, more), Ask(later, random))
      {
        SpentOnward(p, b, now, more);
        SpentStays(p, Onward(p, b, more), Latest(now, more), Ask(later, random));
      }
    } else {
      UnspentGrants(p, b, now);
      assert From(now, []) && Latest(now, []) == now && Onward(p, b, []) == b;
      assert !Refused(p, Onward(p, b, []), Ask(now, 0));
    }
  }

  /**
   With jitter a refusal can be followed by a grant, because the sleep is drawn anew. It is
   permanent exactly when the retries are used up, there is no jitter, or at most one millisecond
   is left.
   */
  lemma JitteredRefusal(p: Policy, b: Budget, now: nat, random: nat)
    requires Sound(p, b) && Refused(p, b, Ask(now, random))
    ensures var next := Asked(p, b, now, random);
            NeverGrants(p, next, now)
            <==> next.retries == p.maxRetries || p.jitter.NoJitter? || Remaining(p, next, now) <= MILLISECOND
  {
    NeverGrantsIffSpent(p, Asked(p, b, now, random), now);
  }

  /** The same refusal seen from the run: every request in every continuation in order is refused. */
  ghost predicate AlwaysRefused(p: Policy, calls: seq<Call>)
    requires Constructible(p)
  {
    forall more, later, random | Ordered(calls + more + [Ask(later, random)]) ::
      Refused(p, After(p, calls + more), Ask(later, random))
  }

  lemma InOrder(calls: seq<Call>, more: seq<Call>, later: nat, random: nat)
    requires calls != [] && Ordered(calls)
    ensures Ordered(calls + more + [Ask(later, random)])
            <==> From(calls[|calls| - 1].now, more) && Latest(calls[|calls| - 1].now, more) <= later
  {
    var now, all := calls[|calls| - 1].now, calls + more + [Ask(later, random)];
    if Ordered(all) {
      forall i, j | 0 <= i < j < |more| ensures more[i].now <= more[j].now {
        assert more[i] == all[|calls| + i] && more[j] == all[|calls| + j];
      }
      forall i | 0 <= i < |more| ensures now <= more[i].now {
        assert more[i] == all[|calls| + i] && calls[|calls| - 1] == all[|calls| - 1];
      }
      assert all[|calls| + |more|].now == later;
      assert Latest(now, more) == all[|calls| + |more| - 1].now;
    }
  }

  lemma NeverGrantsIsAlwaysRefused(p: Policy, calls: seq<Call>)
    requires Constructible(p) && calls != [] && Ordered(calls)
    ensures AlwaysRefused(p, calls) <==> NeverGrants(p, After(p, calls), calls[|calls| - 1].now)
  {
    var b, now := After(p, calls), calls[|calls| - 1].now;
    if NeverGrants(p, b, now) {
      forall more, later: nat, random: nat | Ordered(calls + more + [Ask(later, random)])
        ensures Refused(p, After(p, calls + more), Ask(later, random))
      {
        InOrder(calls, more, later, random);
        AfterMore(p, calls, more);
      }
    }
    if AlwaysRefused(p, calls) {
      forall more, later: nat, random: nat | From(now, more) && Latest(now, more) <= later
        ensures Refused(p, Onward(p, b, more), Ask(later, random))
      {
        InOrder(calls, more, later, random);
        AfterMore(p, calls, more);
      }
    }
  }

  /**
   A run that ends in a refused request: all requests of all its continuations are refused exactly
   if every retry has been granted, there is no jitter, or the deadline is at most a millisecond off.
   */
  lemma RefusedForever(p: Policy, calls: seq<Call>)
    requires Constructible(p) && calls != [] && Ordered(calls) && calls[|calls| - 1].Ask?
    requires RefusedAt(p, calls, |calls| - 1)
    ensures FirstAsk(calls).Some?
    ensures AlwaysRefused(p, calls)
            <==> || |Grants(p, calls)| == p.maxRetries || p.jitter.NoJitter?
                 || FirstAsk(calls).value + p.maxElapsed <= calls[|calls| - 1].now + MILLISECOND
  {
    var n := |calls| - 1;
    var now := calls[n].now;
    NeverGrantsIsAlwaysRefused(p, calls);
    AfterNext(p, calls, n);
    assert calls[..n + 1] == calls;
    JitteredRefusal(p, After(p, calls[..n]), now, calls[n].random);
    StartIsFirstAsk(p, calls);
    FirstAskIsEarly(calls);
    GrantCount(p, calls);
  }

  lemma {:induction false} FirstAskIsEarly(calls: seq<Call>)
    requires calls != [] && Ordered(calls)
    ensures FirstAsk(calls).Some? ==> FirstAsk(calls).value <= calls[|calls| - 1].now
  {
    var n := |calls| - 1;
    if n > 0 {
      FirstAskIsEarly(calls[..n]);
    }
  }

  /** Without jitter the first refusal is the last answer: from then on every request is refused. */
  lemma RefusalIsFinal(p: Policy, calls: seq<Call>, i: nat, j: nat)
    requires Constructible(p) && Ordered(calls) && p.jitter.NoJitter?
    requires i < j < |calls| && calls[i].Ask? && RefusedAt(p, calls, i)
    ensures calls[j].Ask? ==> RefusedAt(p, calls, j)
    ensures After(p, calls[..j]).retries == After(p, calls[..i]).retries
  {
    var b, more := After(p, calls[..i + 1]), calls[i + 1..j];
    Between(p, calls, i, j);
    SliceInOrder(calls, i, j);
    RefusalSpends(p, After(p, calls[..i]), calls[i]);
    SpentOnward(p, b, calls[i].now, more);
    SpentStays(p, Onward(p, b, more), Latest(calls[i].now, more), calls[j]);
  }

  lemma RefusalSpends(p: Policy, b: Budget, call: Call)
    requires Sound(p, b) && p.jitter.NoJitter? && call.Ask? && Refused(p, b, call)
    ensures Spent(p, Stepped(p, b, call), call.now) && Stepped(p, b, call).retries == b.retries
  {
  }

  /** The calls between two calls of a run, as a continuation of the first. */
  lemma Between(p: Policy, calls: seq<Call>, i: nat, j: nat)
    requires Constructible(p) && i < j < |calls|
    ensures After(p, calls[..i + 1]) == Stepped(p, After(p, calls[..i]), calls[i])
    ensures After(p, calls[..j]) == Onward(p, After(p, calls[..i + 1]), calls[i + 1..j])
  {
    AfterNext(p, calls, i);
    Rejoin(calls, i + 1, j);
    AfterMore(p, calls[..i + 1], calls[i + 1..j]);
  }

  lemma Rejoin(calls: seq<Call>, k: nat, j: nat)
    requires k <= j <= |calls|
    ensures calls[..k] + calls[k..j] == calls[..j]
  {
  }

  lemma SliceInOrder(calls: seq<Call>, i: nat, j: nat)
    requires Ordered(calls) && i < j < |calls|
    ensures From(calls[i].now, calls[i + 1..j]) && Latest(calls[i].now, calls[i + 1..j]) <= calls[j].now
  {
  }

  /** A run in which a jittered request is refused and the next one, at the same time, is granted. */
  lemma JitterCanRecover()
    ensures var p := Policy(2 * MILLISECOND, 2 * MILLISECOND, 1, FullJitter, 5, 2 * MILLISECOND);
            && Constructible(p)
            && Refused(p, After(p, []), Ask(0, 1))
            && !Refused(p, After(p, [Ask(0, 1)]), Ask(0, 0))
  {
    var p := Policy(2 * MILLISECOND, 2 * MILLISECOND, 1, FullJitter, 5, 2 * MILLISECOND);
    var b := After(p, []);
    assert b == Fresh(p);
    assert [Ask(0, 1)][..0] == [];
    assert After(p, [Ask(0, 1)]) == Stepped(p, b, Ask(0, 1));
  }

  // ---------------------------------------------------------------- many budgets, one pair of counters

  /** Call number `call` goes to budget number `who`. */
  datatype Event = Event(who: nat, call: Call)

  datatype System = System(budgets: seq<Budget>, scheduled: nat, exhausted: nat)

  ghost predicate SystemSound(policies: seq<Policy>, s: System) {
    |s.budgets| == |policies| && forall i | 0 <= i < |policies| :: Sound(policies[i], s.budgets[i])
  }

  predicate Addressed(policies: seq<Policy>, events: seq<Event>) {
    && (forall p | p in policies :: Constructible(p))
    && forall e | e in events :: e.who < |policies|
  }

  /** What the budget's methods do to their own fields and to the counters. */
  ghost function Fired(policies: seq<Policy>, s: System, e: Event): (next: System)
    requires SystemSound(policies, s) && e.who < |policies|
    ensures SystemSound(policies, next)
  {
    var p, b := policies[e.who], s.budgets[e.who];
    var next := Stepped(p, b, e.call);
    System(s.budgets[e.who := next],
           if Granted(p, b, e.call) != [] then Min(U64_MAX, s.scheduled + 1) else s.scheduled,
           if next.exhausted && !b.exhausted then Min(U64_MAX, s.exhausted + 1) else s.exhausted)
  }

  ghost function Ran(policies: seq<Policy>, events: seq<Event>): (s: System)
    requires Addressed(policies, events)
    ensures SystemSound(policies, s)
  {
    if events == [] then
      assert forall p: Policy :: Power(p.multiplier, 0) == 1;
      System(seq(|policies|, i requires 0 <= i < |policies| => Fresh(policies[i])), 0, 0)
    else Fired(policies, Ran(policies, events[..|events| - 1]), events[|events| - 1])
  }

  function Retries(budgets: seq<Budget>): nat {
    if budgets == [] then 0 else Retries(budgets[1..]) + budgets[0].retries
  }

  function Exhaustions(budgets: seq<Budget>): nat {
    if budgets == [] then 0 else Exhaustions(budgets[1..]) + (if budgets[0].exhausted then 1 else 0)
  }

  lemma {:induction false} Replaced(budgets: seq<Budget>, i: nat, b: Budget)
    requires i < |budgets|
    ensures Retries(budgets[i := b]) == Retries(budgets) - budgets[i].retries + b.retries
    ensures Exhaustions(budgets[i := b])
            == Exhaustions(budgets) - (if budgets[i].exhausted then 1 else 0) + (if b.exhausted then 1 else 0)
  {
    if i == 0 {
      assert budgets[0 := b][1..] == budgets[1..];
    } else {
      Replaced(budgets[1..], i - 1, b);
      assert budgets[i := b][1..] == budgets[1..][i - 1 := b];
    }
  }

  lemma {:induction false} NothingYet(budgets: seq<Budget>)
    requires forall b | b in budgets :: b.retries == 0 && !b.exhausted
    ensures Retries(budgets) == 0 && Exhaustions(budgets) == 0
  {
    if budgets != [] {
      NothingYet(budgets[1..]);
    }
  }

  /** The calls of an interleaving that went to one budget, in order. */
  function CallsTo(events: seq<Event>, who: nat): seq<Call> {
    if events == [] then []
    else
      var e := events[|events| - 1];
      CallsTo(events[..|events| - 1], who) + if e.who == who then [e.call] else []
  }

  /** No budget is affected by the calls the others receive. */
  lemma {:induction false} BudgetsAreIndependent(policies: seq<Policy>, events: seq<Event>, i: nat)
    requires Addressed(policies, events) && i < |policies|
    ensures Ran(policies, events).budgets[i] == After(policies[i], CallsTo(events, i))
  {
    if events != [] {
      var front, e := events[..|events| - 1], events[|events| - 1];
      BudgetsAreIndependent(policies, front, i);
      if i == e.who {
        var calls := CallsTo(front, i) + [e.call];
        assert calls[..|calls| - 1] == CallsTo(front, i);
      } else {
        assert CallsTo(front, i) + [] == CallsTo(front, i);
      }
    }
  }

  /** One event moves a counter exactly when it moves the total the counter stands for. */
  lemma CountersFollow(policies: seq<Policy>, s: System, e: Event)
    requires SystemSound(policies, s) && e.who < |policies|
    requires s.scheduled == Min(U64_MAX, Retries(s.budgets)) && s.exhausted == Min(U64_MAX, Exhaustions(s.budgets))
    ensures var next := Fired(policies, s, e);
            && next.scheduled == Min(U64_MAX, Retries(next.budgets))
            && next.exhausted == Min(U64_MAX, Exhaustions(next.budgets))
  {
    Replaced(s.budgets, e.who, Stepped(policies[e.who], s.budgets[e.who], e.call));
  }

  /**
   Under every interleaving the counters are the number of retries granted and of budgets that ran
   out, stopped at the largest counter value.
   */
  lemma {:induction false} CountersAreExact(policies: seq<Policy>, events: seq<Event>)
    requires Addressed(policies, events)
    ensures Ran(policies, events).scheduled == Min(U64_MAX, Retries(Ran(policies, events).budgets))
    ensures Ran(policies, events).exhausted == Min(U64_MAX, Exhaustions(Ran(policies, events).budgets))
  {
    if events == [] {
      NothingYet(Ran(policies, []).budgets);
    } else {
      var front := events[..|events| - 1];
      CountersAreExact(policies, front);
      CountersFollow(policies, Ran(policies, front), events[|events| - 1]);
    }
  }
}
