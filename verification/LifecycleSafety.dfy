/** What every interleaving of listener starts and closes keeps. */
module LifecycleSafety {
  import opened Machine
  import opened Lifecycle

  // ---------------------------------------------------------------- mutual exclusion

  ghost predicate Exclusive(s: State) {
    forall t, u, lock | 0 <= t < |s.threads| && 0 <= u < |s.threads| && t != u && Holds(s.threads[t], lock) ::
      !Holds(s.threads[u], lock)
  }

  /** A moving thread gains at most the lock it wanted. */
  lemma GainsOnlyWanted(s: State, pc: Pc, ok: bool, lock: Lock)
    requires Holds(PcAfter(s, pc, ok), lock)
    ensures Holds(pc, lock) || Wanted(pc) == Some(lock)
  {
  }

  lemma ExclusiveNext(s: State, e: Event)
    requires Exclusive(s) && Enabled(s, e)
    ensures Exclusive(Next(s, e))
  {
    if e.Move? {
      var after := Next(s, e);
      forall t, u, lock | 0 <= t < |s.threads| && 0 <= u < |s.threads| && t != u && Holds(after.threads[t], lock)
        ensures !Holds(after.threads[u], lock)
      {
        var m := e.thread;
        if Holds(after.threads[m], lock) {
          GainsOnlyWanted(s, s.threads[m], e.ok, lock);
        }
      }
    }
  }

  // ---------------------------------------------------------------- the database has one owner

  predicate Serving(pc: Pc) {
    pc.ServeBound? || pc.ServeListing? || pc.ServeListed?
  }

  /** The close call that took the database. */
  predicate Owner(pc: Pc) {
    match pc
    case DatabaseTaken => true
    case PlainHeld => true
    case PlainTaken(_) => true
    case ManagedHeld(_) => true
    case SlotWanted(_, _, owner) => owner
    case SlotHeld(_, _, _, owner) => owner
    case Closing(_, _, _, owner) => owner
    case Finished(outcome) => outcome.DatabaseClosed?
    case _ => false
  }

  predicate Owned(s: State) {
    && s.shared.databaseTaken == (if s.shared.open then 0 else 1)
    && (forall t | 0 <= t < |s.threads| && Serving(s.threads[t]) :: s.shared.open)
    && (forall t | 0 <= t < |s.threads| && (Owner(s.threads[t]) || s.threads[t] == Finished(AlreadyClosed)) ::
          !s.shared.open)
    && (!s.shared.open ==> exists t | 0 <= t < |s.threads| :: Owner(s.threads[t]))
    && forall t, u | 0 <= t < |s.threads| && 0 <= u < |s.threads| && Owner(s.threads[t]) && Owner(s.threads[u]) ::
         t == u
  }

  lemma OwnerStep(s: State, pc: Pc, ok: bool)
    ensures Owner(pc) ==> Owner(PcAfter(s, pc, ok))
    ensures Owner(PcAfter(s, pc, ok)) ==> Owner(pc) || (pc.DatabaseHolds? && s.shared.open)
    ensures Serving(PcAfter(s, pc, ok)) ==> s.shared.open || Serving(pc)
    ensures PcAfter(s, pc, ok) == Finished(AlreadyClosed) ==> !s.shared.open || pc == Finished(AlreadyClosed)
    ensures SharedAfter(s, pc, ok).open <==> s.shared.open && !pc.DatabaseHolds?
    ensures SharedAfter(s, pc, ok).databaseTaken == s.shared.databaseTaken
                                                   + if s.shared.open && pc.DatabaseHolds? then 1 else 0
  {
  }

  lemma OwnedNext(s: State, e: Event)
    requires Exclusive(s) && Owned(s) && Enabled(s, e)
    ensures Owned(Next(s, e))
  {
    var after := Next(s, e);
    if e.Move? {
      var m := e.thread;
      OwnerStep(s, s.threads[m], e.ok);
      forall t | 0 <= t < |s.threads| && t != m && s.threads[m].DatabaseHolds? ensures !Serving(s.threads[t]) {
        assert Holds(s.threads[m], DatabaseLock);
        assert !Holds(s.threads[t], DatabaseLock);
      }
      if !s.shared.open {
        var t :| 0 <= t < |s.threads| && Owner(s.threads[t]);
        assert Owner(after.threads[t]);
      } else if !after.shared.open {
        assert Owner(after.threads[m]);
      }
    } else if !s.shared.open {
      var t :| 0 <= t < |s.threads| && Owner(s.threads[t]);
      assert Owner(after.threads[t]);
    }
  }

  // ---------------------------------------------------------------- slots and those who empty them

  predicate Known(s: State) {
    && (forall l | l in s.shared.slots :: l.number < s.shared.started)
    && (forall l | l in s.shared.handles :: l in s.shared.slots)
    && (forall l | l in s.shared.plain :: l in s.shared.slots)
    && (forall l | l in s.shared.managed :: l in s.shared.slots)
  }

  ghost predicate KnownThreads(s: State) {
    forall t, l | 0 <= t < |s.threads| && Refers(s.threads[t], l) :: l in s.shared.slots
  }

  /** A reference a step creates was one already, or the listener is new or alive in a registry. */
  lemma RefersStep(s: State, pc: Pc, ok: bool, l: Listener)
    requires Refers(PcAfter(s, pc, ok), l)
    ensures || Refers(pc, l) || (pc.ServeHolds? && s.shared.open && ok && l == Listener(pc.kind, s.shared.started))
            || (pc.PlainHeld? && l in s.shared.plain && Alive(s, l))
            || (pc.ManagedHeld? && l in s.shared.managed && Alive(s, l))
  {
  }

  /** Slots are added for new listeners only, and emptied only, by a thread that has the server. */
  lemma SlotStep(s: State, pc: Pc, ok: bool, l: Listener)
    ensures l in s.shared.slots ==> l in SharedAfter(s, pc, ok).slots
    ensures HoldsServer(SharedAfter(s, pc, ok), l) ==>
              HoldsServer(s.shared, l) || (pc.ServeHolds? && l.number == s.shared.started)
    ensures l in SharedAfter(s, pc, ok).slots && l !in s.shared.slots ==>
              || (pc.ServeHolds? && s.shared.open && ok && l == Listener(pc.kind, s.shared.started))
              || (pc.Closing? && pc.first == l)
    ensures HoldsServer(s.shared, l) && !HoldsServer(SharedAfter(s, pc, ok), l) ==>
              || (pc.SlotHeld? && pc.first == l && l.kind == Plain)
              || (pc.Closing? && pc.first == l && l.kind == Managed && ok)
    ensures SharedAfter(s, pc, ok).started == s.shared.started + if pc.ServeHolds? && s.shared.open && ok then 1 else 0
  {
  }

  lemma KnownNext(s: State, e: Event)
    requires Known(s) && KnownThreads(s) && Enabled(s, e)
    ensures Known(Next(s, e)) && KnownThreads(Next(s, e))
  {
    var after := Next(s, e);
    if e.Move? {
      var pc := s.threads[e.thread];
      forall l ensures l in s.shared.slots ==> l in after.shared.slots {
        SlotStep(s, pc, e.ok, l);
      }
      forall l | l in after.shared.slots ensures l.number < after.shared.started {
        SlotStep(s, pc, e.ok, l);
        assert pc.Closing? ==> Refers(pc, pc.first);
      }
      forall t, l | 0 <= t < |s.threads| && Refers(after.threads[t], l) ensures l in after.shared.slots {
        if t == e.thread {
          RefersStep(s, pc, e.ok, l);
        }
      }
      assert pc.ServeListing? || pc.ServeListed? ==> Refers(pc, pc.listener);
    } else if e.Call? {
      forall t, l | 0 <= t < |after.threads| && Refers(after.threads[t], l) ensures l in after.shared.slots {
        if t == |s.threads| {
          assert after.threads[t] == e.pc;
        }
      }
    }
  }

  /** A server being closed has left its slot exactly if it is plain, and has a single closer. */
  ghost predicate Closers(s: State) {
    && (forall t | 0 <= t < |s.threads| && s.threads[t].Closing? ::
          HoldsServer(s.shared, s.threads[t].first) <==> s.threads[t].first.kind == Managed)
    && forall t, u | 0 <= t < |s.threads| && 0 <= u < |s.threads| && s.threads[t].Closing? && s.threads[u].Closing?
                     && s.threads[t].first == s.threads[u].first :: t == u
  }

  lemma ClosersNext(s: State, e: Event)
    requires Exclusive(s) && Known(s) && KnownThreads(s) && Closers(s) && Enabled(s, e)
    ensures Closers(Next(s, e))
  {
    if e.Move? {
      var m, after := e.thread, Next(s, e);
      var pc := s.threads[m];
      forall t | 0 <= t < |s.threads| && t != m && s.threads[t].Closing?
        ensures HoldsServer(after.shared, s.threads[t].first) <==> HoldsServer(s.shared, s.threads[t].first)
        ensures after.threads[m].Closing? ==> after.threads[m].first != s.threads[t].first
      {
        var l := s.threads[t].first;
        assert Refers(s.threads[t], l);
        SlotStep(s, pc, e.ok, l);
        assert Holds(s.threads[t], SlotLock(l)) <==> l.kind == Managed;
        assert pc.SlotHeld? && pc.first == l ==> Holds(pc, SlotLock(l));
      }
    }
  }

  ghost predicate SlotsCounted(shared: Shared) {
    && shared.taken.Keys == shared.slots.Keys
    && forall l | l in shared.slots :: shared.taken[l] == if shared.slots[l] then 0 else 1
  }

  lemma TakeCounted(shared: Shared, l: Listener)
    requires SlotsCounted(shared) && HoldsServer(shared, l)
    ensures SlotsCounted(Take(shared, l))
  {
  }

  lemma CountedStep(s: State, pc: Pc, ok: bool)
    requires SlotsCounted(s.shared)
    requires pc.Closing? ==> (HoldsServer(s.shared, pc.first) <==> pc.first.kind == Managed)
    ensures SlotsCounted(SharedAfter(s, pc, ok))
  {
    if (pc.SlotHeld? || pc.Closing?) && HoldsServer(s.shared, pc.first) {
      TakeCounted(s.shared, pc.first);
    }
  }

  /** Every slot is emptied once, the count says so. */
  ghost predicate Counted(s: State) {
    SlotsCounted(s.shared)
  }

  lemma CountedNext(s: State, e: Event)
    requires Counted(s) && Closers(s) && Enabled(s, e)
    ensures Counted(Next(s, e))
  {
    if e.Move? {
      CountedStep(s, s.threads[e.thread], e.ok);
    }
  }
}
