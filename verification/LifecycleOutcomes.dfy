/** What the lifecycle's calls report: every outcome has its cause in the run, and every cause its outcome. */
module LifecycleOutcomes {
  import opened Lifecycle
  import opened LifecycleSafety
  import opened LifecycleClose

  /**
   Thread `t` makes a foreign close call that fails: on a listener's server, plain or managed, or, at the
   end of `Database.close`, on the engine itself.
   */
  predicate CloseFails(s: State, e: Event, t: nat) {
    && e == Move(t, false) && t < |s.threads|
    && (s.threads[t].Closing? || (s.threads[t].SlotWanted? && s.threads[t].pending == [] && s.threads[t].owner))
  }

  predicate Noted(s: State, t: nat) {
    t < |s.threads| && FailureNoted(s.threads[t])
  }

  lemma NotedStep(s: State, e: Event, t: nat)
    requires Enabled(s, e)
    ensures Noted(Next(s, e), t) <==> Noted(s, t) || CloseFails(s, e, t)
  {
  }

  /** A call has noted a failure, or ends with one, exactly if a close it made has failed. */
  lemma {:induction false} FailureHasCause(states: seq<State>, events: seq<Event>, i: nat, t: nat)
    requires Run(states, events) && i <= |events|
    ensures Noted(states[i], t) <==> exists k | 0 <= k < i :: CloseFails(states[k], events[k], t)
  {
    if i > 0 {
      FailureHasCause(states, events, i - 1, t);
      NotedStep(states[i - 1], events[i - 1], t);
    }
  }

  // ---------------------------------------------------------------- starts and repeated closes

  /** The start finds the database taken, or its bind fails. */
  predicate Refuses(s: State, e: Event, t: nat) {
    && e.Move? && e.thread == t && t < |s.threads|
    && s.threads[t].ServeHolds? && !(s.shared.open && e.ok)
  }

  predicate FindsClosed(s: State, e: Event, t: nat) {
    && e.Move? && e.thread == t && t < |s.threads|
    && s.threads[t].DatabaseHolds? && !s.shared.open
  }

  predicate Ended(s: State, t: nat, outcome: Outcome) {
    t < |s.threads| && s.threads[t] == Finished(outcome)
  }

  lemma EndedStep(s: State, e: Event, t: nat)
    requires Enabled(s, e)
    ensures Ended(Next(s, e), t, Refused) <==> Ended(s, t, Refused) || Refuses(s, e, t)
    ensures Ended(Next(s, e), t, AlreadyClosed) <==> Ended(s, t, AlreadyClosed) || FindsClosed(s, e, t)
  {
  }

  /**
   A start is refused exactly if it found the database taken or its bind failed, and a close reports an
   already closed database exactly if it found the database taken.
   */
  lemma {:induction false} RefusalHasCause(states: seq<State>, events: seq<Event>, i: nat, t: nat)
    requires Run(states, events) && i <= |events|
    ensures Ended(states[i], t, Refused) <==> exists k | 0 <= k < i :: Refuses(states[k], events[k], t)
    ensures Ended(states[i], t, AlreadyClosed) <==> exists k | 0 <= k < i :: FindsClosed(states[k], events[k], t)
  {
    if i > 0 {
      RefusalHasCause(states, events, i - 1, t);
      EndedStep(states[i - 1], events[i - 1], t);
    }
  }

  // ---------------------------------------------------------------- closing one handle

  /** A call that closes `l` alone, and what it has achieved so far. */
  predicate ClosingOne(shared: Shared, pc: Pc, l: Listener) {
    && l in shared.slots
    && match pc
       case SlotWanted(pending, failed, owner) =>
         !owner && (if pending == [] then Settled(shared, l, failed) else pending == [l] && !failed)
       case SlotHeld(first, pending, failed, owner) => !owner && first == l && pending == [] && !failed
       case Closing(first, pending, failed, owner) =>
         !owner && first == l && pending == [] && !failed && (HoldsServer(shared, l) ==> l.kind == Managed)
       case Finished(ListenerClosed(failed)) => Settled(shared, l, failed)
       case _ => false
  }

  /** The slot is empty, or the close of the managed listener failed. */
  predicate Settled(shared: Shared, l: Listener, failed: bool) {
    HoldsServer(shared, l) ==> failed && l.kind == Managed
  }

  lemma ClosingOneStep(s: State, pc: Pc, ok: bool, l: Listener)
    requires ClosingOne(s.shared, pc, l)
    requires pc.Closing? ==> (HoldsServer(s.shared, pc.first) <==> pc.first.kind == Managed)
    ensures ClosingOne(SharedAfter(s, pc, ok), PcAfter(s, pc, ok), l)
  {
    SlotStep(s, pc, ok, l);
  }

  lemma ClosingOneFrame(s: State, pc: Pc, ok: bool, other: Pc, l: Listener)
    requires Known(s) && ClosingOne(s.shared, other, l)
    ensures ClosingOne(SharedAfter(s, pc, ok), other, l)
  {
    SlotStep(s, pc, ok, l);
  }

  lemma {:induction false} ClosingOneAt(
      states: seq<State>, events: seq<Event>, k: nat, i: nat, t: nat, l: Listener)
    requires Run(states, events) && k <= i <= |events| && t < |states[k].threads|
    requires states[k].threads[t] == SlotWanted([l], false, false)
    ensures t < |states[i].threads| && ClosingOne(states[i].shared, states[i].threads[t], l)
  {
    if k == i {
      InvariantAt(states, events, i);
      assert Refers(states[i].threads[t], l);
    } else {
      ClosingOneAt(states, events, k, i - 1, t, l);
      InvariantAt(states, events, i - 1);
      ClosingOneNext(states[i - 1], events[i - 1], t, l);
    }
  }

  lemma ClosingOneNext(s: State, e: Event, t: nat, l: Listener)
    requires Known(s) && Closers(s) && Enabled(s, e) && t < |s.threads| && ClosingOne(s.shared, s.threads[t], l)
    ensures t < |Next(s, e).threads| && ClosingOne(Next(s, e).shared, Next(s, e).threads[t], l)
  {
    if e.Move? {
      if e.thread == t {
        ClosingOneStep(s, s.threads[t], e.ok, l);
      } else {
        ClosingOneFrame(s, s.threads[e.thread], e.ok, s.threads[t], l);
      }
    }
  }

  /**
   When a handle's own `close` has ended, the handle holds a server only if it is managed and the call
   reports a failure.
   */
  lemma HandleCloseIsComplete(
      states: seq<State>, events: seq<Event>, k: nat, i: nat, t: nat, l: Listener, failed: bool)
    requires Run(states, events) && k <= i <= |events| && t < |states[k].threads|
    requires states[k].threads[t] == SlotWanted([l], false, false) && Ended(states[i], t, ListenerClosed(failed))
    ensures HoldsServer(states[i].shared, l) ==> failed && l.kind == Managed
  {
    ClosingOneAt(states, events, k, i, t, l);
  }
}
