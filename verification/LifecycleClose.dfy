/** What `Database.close` achieves, and why no interleaving of the calls gets stuck. */
module LifecycleClose {
  import opened Lifecycle
  import opened LifecycleSafety

  // ---------------------------------------------------------------- dead listeners stay dead

  lemma AliveBefore(s: State, e: Event, l: Listener)
    requires Known(s) && Enabled(s, e) && l in s.shared.slots && Alive(Next(s, e), l)
    ensures Alive(s, l)
  {
    var after := Next(s, e);
    assert e.Call? ==> after.threads[|s.threads|] == e.pc;
    if l in after.shared.handles && l !in s.shared.handles {
      assert Refers(s.threads[e.thread], l);
    } else if l !in s.shared.handles {
      var t :| 0 <= t < |after.threads| && Refers(after.threads[t], l);
      if e.Move? && t == e.thread {
        RefersStep(s, s.threads[t], e.ok, l);
      } else if t < |s.threads| {
        assert Refers(s.threads[t], l);
      }
    }
  }

  // ---------------------------------------------------------------- no listener escapes the close

  predicate Joining(pc: Pc, l: Listener) {
    (pc.ServeBound? || pc.ServeListing?) && pc.listener == l
  }

  predicate Registered(shared: Shared, l: Listener) {
    if l.kind == Plain then l in shared.plain else l in shared.managed
  }

  /** Before the close, a live listener is registered unless its start is still under way. */
  ghost predicate Listed(s: State) {
    s.shared.open ==> forall l | l in s.shared.slots && Alive(s, l) && !Registered(s.shared, l) ::
      exists t | 0 <= t < |s.threads| :: Joining(s.threads[t], l)
  }

  /** From then on, the owner still has to close every live listener that holds a server. */
  predicate InHand(shared: Shared, pc: Pc, l: Listener) {
    match pc
    case DatabaseTaken => Registered(shared, l)
    case PlainHeld => Registered(shared, l)
    case PlainTaken(plain) => if l.kind == Plain then l in plain else l in shared.managed
    case ManagedHeld(plain) => if l.kind == Plain then l in plain else l in shared.managed
    case SlotWanted(pending, _, _) => l in pending
    case SlotHeld(first, pending, _, _) => l == first || l in pending
    case Closing(first, pending, _, _) => l == first || l in pending
    case _ => false
  }

  /** Thread `t` tries to close the managed listener, and the close fails. */
  predicate Fails(s: State, e: Event, t: nat, l: Listener) {
    && e == Move(t, false) && t < |s.threads|
    && s.threads[t].Closing? && s.threads[t].first == l && l.kind == Managed
  }

  /** Live registrations are dropped by the owner only, and the end of a start registers the listener. */
  lemma RegistryStep(s: State, pc: Pc, ok: bool, l: Listener)
    requires Alive(s, l)
    ensures Registered(s.shared, l) && !pc.PlainHeld? && !pc.ManagedHeld? ==> Registered(SharedAfter(s, pc, ok), l)
    ensures Joining(pc, l) ==> Joining(PcAfter(s, pc, ok), l) || Registered(SharedAfter(s, pc, ok), l)
  {
  }

  lemma ListedStep(s: State, e: Event, l: Listener)
    requires Known(s) && KnownThreads(s) && Owned(s) && Listed(s) && Enabled(s, e) && Next(s, e).shared.open
    requires l in Next(s, e).shared.slots && Alive(Next(s, e), l) && !Registered(Next(s, e).shared, l)
    ensures exists t | 0 <= t < |Next(s, e).threads| :: Joining(Next(s, e).threads[t], l)
  {
    var after := Next(s, e);
    if e.Move? {
      var pc := s.threads[e.thread];
      OwnerStep(s, pc, e.ok);
      SlotStep(s, pc, e.ok, l);
      assert pc.Closing? ==> Refers(pc, pc.first);
      if l in s.shared.slots {
        AliveBefore(s, e, l);
        RegistryStep(s, pc, e.ok, l);
        var t :| 0 <= t < |s.threads| && Joining(s.threads[t], l);
        assert Joining(after.threads[t], l);
      } else {
        assert Joining(after.threads[e.thread], l);
      }
    } else {
      AliveBefore(s, e, l);
      var t :| 0 <= t < |s.threads| && Joining(s.threads[t], l);
      assert Joining(after.threads[t], l);
    }
  }

  lemma ListedNext(s: State, e: Event)
    requires Known(s) && KnownThreads(s) && Owned(s) && Listed(s) && Enabled(s, e)
    ensures Listed(Next(s, e))
  {
    var after := Next(s, e);
    if after.shared.open {
      forall l | l in after.shared.slots && Alive(after, l) && !Registered(after.shared, l)
        ensures exists t | 0 <= t < |after.threads| :: Joining(after.threads[t], l)
      {
        ListedStep(s, e, l);
      }
    }
  }

  /** The owner's own step drops a listener from its hands only after emptying the slot or a failure. */
  lemma InHandStep(s: State, pc: Pc, ok: bool, l: Listener)
    requires Owner(pc) && Alive(s, l) && HoldsServer(SharedAfter(s, pc, ok), l) && InHand(s.shared, pc, l)
    requires pc.Closing? ==> (HoldsServer(s.shared, pc.first) <==> pc.first.kind == Managed)
    ensures || InHand(SharedAfter(s, pc, ok), PcAfter(s, pc, ok), l)
            || (pc.Closing? && pc.first == l && l.kind == Managed && !ok)
  {
  }

  /** Other threads' steps leave the registries alone once the database is taken. */
  lemma InHandFrame(s: State, pc: Pc, ok: bool, owner: Pc, l: Listener)
    requires Alive(s, l) && InHand(s.shared, owner, l) && !Owner(pc) && !pc.ServeListing?
    ensures InHand(SharedAfter(s, pc, ok), owner, l)
  {
  }

  /** Under an owner, a live listener with a server was one before the step. */
  lemma HeldBefore(s: State, e: Event, t: nat, l: Listener)
    requires Known(s) && KnownThreads(s) && Owned(s) && Enabled(s, e)
    requires t < |Next(s, e).threads| && Owner(Next(s, e).threads[t])
    requires HoldsServer(Next(s, e).shared, l) && Alive(Next(s, e), l)
    ensures HoldsServer(s.shared, l) && Alive(s, l)
  {
    if e.Move? {
      var pc := s.threads[e.thread];
      OwnerStep(s, pc, e.ok);
      SlotStep(s, pc, e.ok, l);
      assert pc.Closing? ==> Refers(pc, pc.first);
    }
    AliveBefore(s, e, l);
  }

  lemma CollectedStep(s: State, e: Event, t: nat, l: Listener)
    requires Exclusive(s) && Known(s) && KnownThreads(s) && Owned(s) && Closers(s) && Listed(s) && Enabled(s, e)
    requires t < |Next(s, e).threads| && Owner(Next(s, e).threads[t])
    requires HoldsServer(Next(s, e).shared, l) && Alive(Next(s, e), l)
    requires t < |s.threads| && Owner(s.threads[t]) ==> InHand(s.shared, s.threads[t], l)
    ensures InHand(Next(s, e).shared, Next(s, e).threads[t], l) || Fails(s, e, t, l)
  {
    HeldBefore(s, e, t, l);
    if e.Move? {
      var pc := s.threads[e.thread];
      OwnerStep(s, pc, e.ok);
      if !Owner(s.threads[t]) {
        TakenFinds(s, e.thread, l);
      } else if t == e.thread {
        InHandStep(s, pc, e.ok, l);
      } else {
        InHandFrame(s, pc, e.ok, s.threads[t], l);
      }
    } else {
      assert t < |s.threads|;
    }
  }

  /** When the database is taken no start is under way, so every live listener is registered. */
  lemma TakenFinds(s: State, m: nat, l: Listener)
    requires Exclusive(s) && Listed(s) && m < |s.threads| && s.threads[m].DatabaseHolds? && s.shared.open
    requires l in s.shared.slots && Alive(s, l)
    ensures Registered(s.shared, l)
  {
    if !Registered(s.shared, l) {
      var t :| 0 <= t < |s.threads| && Joining(s.threads[t], l);
      assert Holds(s.threads[m], DatabaseLock) && Holds(s.threads[t], DatabaseLock);
    }
  }

  // ---------------------------------------------------------------- a start keeps its listener to itself

  /** While a start is under way its listener holds the server, and nobody else knows of it. */
  ghost predicate Private(s: State) {
    && (forall t | 0 <= t < |s.threads| && Serving(s.threads[t]) ::
          HoldsServer(s.shared, s.threads[t].listener) && s.threads[t].listener !in s.shared.handles)
    && forall t, u | 0 <= t < |s.threads| && 0 <= u < |s.threads| && t != u && Serving(s.threads[t]) ::
         !Refers(s.threads[u], s.threads[t].listener)
  }

  /** The listener of a start is new when it is bound, and stays in its slot until it is handed out. */
  lemma ServingStep(s: State, pc: Pc, ok: bool)
    requires Known(s) && Serving(PcAfter(s, pc, ok))
    requires Serving(pc) ==> HoldsServer(s.shared, pc.listener) && pc.listener !in s.shared.handles
    ensures var l, after := PcAfter(s, pc, ok).listener, SharedAfter(s, pc, ok);
            HoldsServer(after, l) && l !in after.handles && (l in s.shared.slots ==> Serving(pc) && pc.listener == l)
  {
  }

  /** The steps of others do not touch a listener they do not refer to. */
  lemma OtherStep(s: State, pc: Pc, ok: bool, l: Listener)
    requires Known(s) && HoldsServer(s.shared, l) && l !in s.shared.handles && !Refers(pc, l)
    requires !pc.PlainHeld? && !pc.ManagedHeld?
    ensures HoldsServer(SharedAfter(s, pc, ok), l) && l !in SharedAfter(s, pc, ok).handles
    ensures !Refers(PcAfter(s, pc, ok), l)
  {
    SlotStep(s, pc, ok, l);
    if Refers(PcAfter(s, pc, ok), l) {
      RefersStep(s, pc, ok, l);
    }
  }

  lemma PrivateNext(s: State, e: Event)
    requires Known(s) && KnownThreads(s) && Owned(s) && Private(s) && Enabled(s, e)
    ensures Private(Next(s, e))
  {
    var after := Next(s, e);
    if e.Move? {
      var m := e.thread;
      var pc := s.threads[m];
      forall t | 0 <= t < |s.threads| && t != m && Serving(s.threads[t])
        ensures HoldsServer(after.shared, s.threads[t].listener) && s.threads[t].listener !in after.shared.handles
        ensures !Refers(after.threads[m], s.threads[t].listener)
      {
        OtherStep(s, pc, e.ok, s.threads[t].listener);
      }
      if Serving(after.threads[m]) {
        ServingStep(s, pc, e.ok);
      }
    } else if e.Call? {
      assert after.threads[|s.threads|] == e.pc;
    }
  }

  // ---------------------------------------------------------------- every interleaving

  ghost predicate Invariant(s: State) {
    Exclusive(s) && Known(s) && KnownThreads(s) && Owned(s) && Closers(s) && Counted(s) && Listed(s) && Private(s)
  }

  lemma InvariantNext(s: State, e: Event)
    requires Invariant(s) && Enabled(s, e)
    ensures Invariant(Next(s, e))
  {
    ExclusiveNext(s, e);
    KnownNext(s, e);
    OwnedNext(s, e);
    ClosersNext(s, e);
    CountedNext(s, e);
    ListedNext(s, e);
    PrivateNext(s, e);
  }

  lemma {:induction false} InvariantAt(states: seq<State>, events: seq<Event>, i: nat)
    requires Run(states, events) && i <= |events|
    ensures Invariant(states[i])
  {
    if i > 0 {
      InvariantAt(states, events, i - 1);
      InvariantNext(states[i - 1], events[i - 1]);
    }
  }

  /** Of all close calls at most one takes the database, and no call ends before it was taken. */
  lemma OneCloseTakesTheDatabase(states: seq<State>, events: seq<Event>, i: nat, t: nat)
    requires Run(states, events) && i <= |events| && t < |states[i].threads|
    ensures states[i].shared.databaseTaken <= 1
    ensures states[i].threads[t] == Finished(AlreadyClosed) || Owner(states[i].threads[t]) ==>
              states[i].shared.databaseTaken == 1
    ensures Owner(states[i].threads[t]) ==>
              forall u | 0 <= u < |states[i].threads| && u != t :: !Owner(states[i].threads[u])
  {
    InvariantAt(states, events, i);
  }

  /** A server is taken out of its slot at most once, and by then nobody else is closing it. */
  lemma EveryServerIsTakenOnce(states: seq<State>, events: seq<Event>, i: nat, l: Listener)
    requires Run(states, events) && i <= |events| && l in states[i].shared.slots
    ensures l in states[i].shared.taken && states[i].shared.taken[l] <= 1
    ensures states[i].shared.taken[l] == 0 <==> HoldsServer(states[i].shared, l)
    ensures var threads := states[i].threads;
            forall t, u | 0 <= t < u < |threads| && threads[t].Closing? && threads[u].Closing? ::
              !(threads[t].first == l && threads[u].first == l)
  {
    InvariantAt(states, events, i);
  }

  /** A closed database, from one point to a later one: no start, and registries that only lose entries. */
  predicate Winding(before: Shared, after: Shared) {
    && !after.open && after.started == before.started
    && (forall l | l in after.plain :: l in before.plain)
    && (forall l | l in after.managed :: l in before.managed)
  }

  lemma WindingChains(a: Shared, b: Shared, c: Shared)
    requires Winding(a, b) && Winding(b, c)
    ensures Winding(a, c)
  {
  }

  /** Once the database is taken no listener is started or registered any more. */
  lemma {:induction false} NothingStartsAfterClose(states: seq<State>, events: seq<Event>, i: nat, j: nat)
    requires Run(states, events) && i <= j <= |events| && !states[i].shared.open
    ensures Winding(states[i].shared, states[j].shared)
  {
    if i < j {
      NothingStartsAfterClose(states, events, i, j - 1);
      WindingStep(states, events, j - 1);
      WindingChains(states[i].shared, states[j - 1].shared, states[j].shared);
    }
  }

  lemma WindingStep(states: seq<State>, events: seq<Event>, j: nat)
    requires Run(states, events) && j < |events| && !states[j].shared.open
    ensures Winding(states[j].shared, states[j + 1].shared)
  {
    InvariantAt(states, events, j);
    ClosedStays(states[j], events[j]);
  }

  lemma ClosedStays(s: State, e: Event)
    requires Owned(s) && Enabled(s, e) && !s.shared.open
    ensures Winding(s.shared, Next(s, e).shared)
  {
    if e.Move? {
      OwnerStep(s, s.threads[e.thread], e.ok);
      assert !s.threads[e.thread].ServeListing?;
    }
  }

  /** Before step `i`, thread `t` tried to close the managed listener and failed. */
  predicate CloseFailed(states: seq<State>, events: seq<Event>, i: nat, t: nat, l: Listener)
    requires i <= |events| < |states|
  {
    exists k | 0 <= k < i :: Fails(states[k], events[k], t, l)
  }

  lemma CloseFailedNext(states: seq<State>, events: seq<Event>, i: nat, t: nat, l: Listener)
    requires i < |events| < |states|
    ensures CloseFailed(states, events, i + 1, t, l)
            <==> CloseFailed(states, events, i, t, l) || Fails(states[i], events[i], t, l)
  {
  }

  /** The owner is `t`, and the live listener still holds its server. */
  ghost predicate Outstanding(s: State, t: nat, l: Listener) {
    t < |s.threads| && Owner(s.threads[t]) && HoldsServer(s.shared, l) && Alive(s, l)
  }

  lemma CollectedStepAt(states: seq<State>, events: seq<Event>, i: nat, t: nat, l: Listener)
    requires Run(states, events) && i < |events| && Outstanding(states[i + 1], t, l)
    requires Outstanding(states[i], t, l) ==> InHand(states[i].shared, states[i].threads[t], l)
    ensures InHand(states[i + 1].shared, states[i + 1].threads[t], l) || Fails(states[i], events[i], t, l)
  {
    InvariantAt(states, events, i);
    HeldBefore(states[i], events[i], t, l);
    CollectedStep(states[i], events[i], t, l);
  }

  /** The owner keeps every live listener with a server in its hands until its own close of it has failed. */
  lemma {:induction false} CollectedAt(states: seq<State>, events: seq<Event>, i: nat, t: nat, l: Listener)
    requires Run(states, events) && i <= |events| && Outstanding(states[i], t, l)
    ensures InHand(states[i].shared, states[i].threads[t], l) || CloseFailed(states, events, i, t, l)
  {
    if i > 0 {
      CloseFailedNext(states, events, i - 1, t, l);
      if CloseFailed(states, events, i - 1, t, l) {
        return;
      }
      if Outstanding(states[i - 1], t, l) {
        CollectedAt(states, events, i - 1, t, l);
      }
      CollectedStepAt(states, events, i - 1, t, l);
    }
  }

  /** The call has noted a failure that it will report. */
  predicate FailureNoted(pc: Pc) {
    match pc
    case SlotWanted(_, failed, _) => failed
    case SlotHeld(_, _, failed, _) => failed
    case Closing(_, _, failed, _) => failed
    case Finished(outcome) => outcome == ListenerClosed(true) || outcome == DatabaseClosed(true)
    case _ => false
  }

  lemma {:induction false} FailureIsReported(
      states: seq<State>, events: seq<Event>, k: nat, i: nat, t: nat, l: Listener)
    requires Run(states, events) && k < i <= |events| && Fails(states[k], events[k], t, l)
    ensures t < |states[i].threads| && FailureNoted(states[i].threads[t])
  {
    if k < i - 1 {
      FailureIsReported(states, events, k, i - 1, t, l);
    }
    assert Enabled(states[i - 1], events[i - 1]);
  }

  /**
   When `Database.close` has ended, a live handle holds a server only if it is a managed listener
   whose close, by this very call, failed; and then the call reports a failure.
   */
  lemma CloseIsComplete(states: seq<State>, events: seq<Event>, i: nat, t: nat, failed: bool, l: Listener)
    requires Run(states, events) && i <= |events| && t < |states[i].threads|
    requires states[i].threads[t] == Finished(DatabaseClosed(failed))
    requires Alive(states[i], l) && HoldsServer(states[i].shared, l)
    ensures failed && l.kind == Managed && CloseFailed(states, events, i, t, l)
  {
    CollectedAt(states, events, i, t, l);
    var k :| 0 <= k < i && Fails(states[k], events[k], t, l);
    FailureIsReported(states, events, k, i, t, l);
  }

  /** When a start hands out its listener, the listener is registered and its server is in the slot. */
  lemma ServeDelivers(states: seq<State>, events: seq<Event>, i: nat)
    requires Run(states, events) && i < |events| && events[i].Move? && states[i].threads[events[i].thread].ServeListed?
    ensures var l := states[i].threads[events[i].thread].listener;
            && states[i + 1].shared.open && l in states[i + 1].shared.handles
            && Registered(states[i + 1].shared, l) && HoldsServer(states[i + 1].shared, l)
  {
    InvariantAt(states, events, i);
    ListedIsRegistered(states[i], events[i].thread);
  }

  lemma ListedIsRegistered(s: State, t: nat)
    requires KnownThreads(s) && Owned(s) && Listed(s) && Private(s) && t < |s.threads| && s.threads[t].ServeListed?
    ensures Registered(s.shared, s.threads[t].listener)
  {
    var l := s.threads[t].listener;
    assert Serving(s.threads[t]) && Refers(s.threads[t], l);
    assert forall u | 0 <= u < |s.threads| :: Joining(s.threads[u], l) ==> Refers(s.threads[u], l);
  }

  /** A registration leaves no dead entry behind in its registry. */
  lemma RegistrationPrunes(s: State, e: Event, l: Listener)
    requires Enabled(s, e) && e.Move? && s.threads[e.thread].ServeListing?
    requires l.kind == s.threads[e.thread].listener.kind
    requires Registered(Next(s, e).shared, l)
    ensures Alive(Next(s, e), l)
  {
    var after := Next(s, e);
    assert Refers(after.threads[e.thread], s.threads[e.thread].listener);
    if l != s.threads[e.thread].listener && l !in s.shared.handles {
      var t :| 0 <= t < |s.threads| && Refers(s.threads[t], l);
      assert Refers(after.threads[t], l);
    }
  }

  // ---------------------------------------------------------------- the order of closing

  predicate AllPlain(ids: seq<Listener>) {
    forall i | 0 <= i < |ids| :: ids[i].kind == Plain
  }

  predicate ManagedFirst(ids: seq<Listener>) {
    forall i, j | 0 <= i < j < |ids| && ids[i].kind == Plain :: ids[j].kind == Plain
  }

  predicate Sorted(pc: Pc) {
    match pc
    case PlainTaken(plain) => AllPlain(plain)
    case ManagedHeld(plain) => AllPlain(plain)
    case SlotWanted(pending, _, _) => ManagedFirst(pending)
    case SlotHeld(first, pending, _, _) => ManagedFirst(pending) && (first.kind == Plain ==> AllPlain(pending))
    case Closing(first, pending, _, _) => ManagedFirst(pending) && (first.kind == Plain ==> AllPlain(pending))
    case _ => true
  }

  predicate RegistriesSorted(shared: Shared) {
    && (forall l | l in shared.plain :: l.kind == Plain)
    && (forall l | l in shared.managed :: l.kind == Managed)
  }

  predicate Ordered(s: State) {
    RegistriesSorted(s.shared) && forall t | 0 <= t < |s.threads| :: Sorted(s.threads[t])
  }

  lemma ManagedThenPlain(managed: seq<Listener>, plain: seq<Listener>)
    requires AllPlain(plain) && forall l | l in managed :: l.kind == Managed
    ensures ManagedFirst(managed + plain)
  {
  }

  lemma SortedStep(s: State, pc: Pc, ok: bool)
    requires RegistriesSorted(s.shared) && Sorted(pc)
    ensures Sorted(PcAfter(s, pc, ok)) && RegistriesSorted(SharedAfter(s, pc, ok))
  {
    if pc.ManagedHeld? {
      ManagedThenPlain(Upgraded(s, s.shared.managed), pc.plain);
    } else if pc.PlainHeld? {
      forall i | 0 <= i < |Upgraded(s, s.shared.plain)| ensures Upgraded(s, s.shared.plain)[i].kind == Plain {
        assert Upgraded(s, s.shared.plain)[i] in Upgraded(s, s.shared.plain);
      }
    }
  }

  lemma {:induction false} OrderedAt(states: seq<State>, events: seq<Event>, i: nat)
    requires Run(states, events) && i <= |events|
    ensures Ordered(states[i])
  {
    if i > 0 {
      OrderedAt(states, events, i - 1);
      var s, e := states[i - 1], events[i - 1];
      if e.Move? {
        SortedStep(s, s.threads[e.thread], e.ok);
      }
    }
  }

  /** `Database.close` turns to a plain listener only when no managed one is left to close. */
  lemma ManagedCloseFirst(states: seq<State>, events: seq<Event>, i: nat, t: nat, l: Listener)
    requires Run(states, events) && i <= |events| && t < |states[i].threads| && states[i].threads[t].Closing?
    requires states[i].threads[t].first.kind == Plain && l in states[i].threads[t].pending
    ensures l.kind == Plain
  {
    OrderedAt(states, events, i);
    assert Sorted(states[i].threads[t]);
  }

  // ---------------------------------------------------------------- no deadlock, and an end

  /** The one order in which all calls acquire locks. */
  function Rank(lock: Lock): nat {
    match lock
    case DatabaseLock => 0
    case RegistryLock(kind) => if kind == Plain then 1 else 2
    case SlotLock(_) => 3
  }

  lemma LockOrder(pc: Pc, held: Lock)
    requires Wanted(pc).Some? && Holds(pc, held)
    ensures Rank(held) < Rank(Wanted(pc).value)
  {
  }

  /** While a call is unfinished, some call can make a step. */
  lemma {:induction false} NoDeadlock(s: State, t: nat) returns (u: nat)
    requires t < |s.threads| && !s.threads[t].Finished?
    ensures CanMove(s, u)
    decreases if Wanted(s.threads[t]).Some? then 4 - Rank(Wanted(s.threads[t]).value) else 0
  {
    if CanMove(s, t) {
      u := t;
    } else {
      var holder :| 0 <= holder < |s.threads| && Holds(s.threads[holder], Wanted(s.threads[t]).value);
      if CanMove(s, holder) {
        u := holder;
      } else {
        LockOrder(s.threads[holder], Wanted(s.threads[t]).value);
        u := NoDeadlock(s, holder);
      }
    }
  }

  function Stage(pc: Pc): nat {
    match pc
    case ServeWants(_) => 5
    case ServeHolds(_) => 4
    case ServeBound(_) => 3
    case ServeListing(_) => 2
    case ServeListed(_) => 1
    case DatabaseWants => 7
    case DatabaseHolds => 6
    case DatabaseTaken => 5
    case PlainHeld => 4
    case PlainTaken(_) => 3
    case ManagedHeld(_) => 2
    case SlotWanted(_, _, _) => 1
    case SlotHeld(_, _, _, _) => 1
    case Closing(_, _, _, _) => 1
    case Finished(_) => 0
  }

  function Left(pc: Pc): nat {
    match pc
    case SlotWanted(pending, _, _) => 3 * |pending|
    case SlotHeld(_, pending, _, _) => 3 * |pending| + 2
    case Closing(_, pending, _, _) => 3 * |pending| + 1
    case _ => 0
  }

  function Stages(threads: seq<Pc>): nat {
    if threads == [] then 0 else Stages(threads[1..]) + Stage(threads[0])
  }

  function Lefts(threads: seq<Pc>): nat {
    if threads == [] then 0 else Lefts(threads[1..]) + Left(threads[0])
  }

  lemma {:induction false} Reached(threads: seq<Pc>, t: nat, pc: Pc)
    requires t < |threads|
    ensures Stages(threads[t := pc]) == Stages(threads) - Stage(threads[t]) + Stage(pc)
    ensures Lefts(threads[t := pc]) == Lefts(threads) - Left(threads[t]) + Left(pc)
  {
    if t == 0 {
      assert threads[0 := pc][1..] == threads[1..];
    } else {
      Reached(threads[1..], t - 1, pc);
      assert threads[t := pc][1..] == threads[1..][t - 1 := pc];
    }
  }

  lemma StageStep(s: State, pc: Pc, ok: bool)
    requires !pc.Finished?
    ensures || Stage(PcAfter(s, pc, ok)) < Stage(pc)
            || (Stage(PcAfter(s, pc, ok)) == Stage(pc) && Left(PcAfter(s, pc, ok)) < Left(pc))
  {
  }

  /** Every step brings all calls together closer to their end, so without new calls they all finish. */
  lemma StepsRunOut(s: State, t: nat, ok: bool)
    requires CanMove(s, t)
    ensures var after := Next(s, Move(t, ok)).threads;
            || Stages(after) < Stages(s.threads)
            || (Stages(after) == Stages(s.threads) && Lefts(after) < Lefts(s.threads))
  {
    StageStep(s, s.threads[t], ok);
    Reached(s.threads, t, PcAfter(s, s.threads[t], ok));
  }

  /** What the foreign bind and close calls answer, by state and thread. */
  type Oracle = (State, nat) -> bool

  /** The moves are possible one after the other and leave every call finished. */
  ghost predicate Finishes(s: State, moves: seq<nat>, oracle: Oracle)
    decreases |moves|
  {
    if moves == [] then forall t | 0 <= t < |s.threads| :: s.threads[t].Finished?
    else CanMove(s, moves[0]) && Finishes(Next(s, Move(moves[0], oracle(s, moves[0]))), moves[1..], oracle)
  }

  /** From every state the calls under way can be finished, whatever the foreign calls answer. */
  lemma {:induction false} CallsFinish(s: State, oracle: Oracle) returns (moves: seq<nat>)
    ensures Finishes(s, moves, oracle)
    decreases Stages(s.threads), Lefts(s.threads)
  {
    if t :| 0 <= t < |s.threads| && !s.threads[t].Finished? {
      var u := NoDeadlock(s, t);
      StepsRunOut(s, u, oracle(s, u));
      var rest := CallsFinish(Next(s, Move(u, oracle(s, u))), oracle);
      moves := [u] + rest;
      assert moves[1..] == rest;
    } else {
      moves := [];
    }
  }
}
