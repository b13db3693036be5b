/** A run in which `Database.close` fails on a managed listener, whose handle keeps its server. */
module LifecycleExample {
  import opened Lifecycle

  const LISTENER: Listener := Listener(Managed, 0)

  lemma Extend(states: seq<State>, events: seq<Event>, e: Event) returns (more: seq<State>, all: seq<Event>)
    requires Run(states, events) && Enabled(states[|events|], e)
    ensures Run(more, all) && |all| == |events| + 1 && more[|all|] == Next(states[|events|], e)
  {
    more, all := states + [Next(states[|events|], e)], events + [e];
    forall i | 0 <= i < |all| ensures Enabled(more[i], all[i]) && more[i + 1] == Next(more[i], all[i]) {
      assert i < |events| ==> Enabled(states[i], events[i]);
    }
  }

  /** The run so far ends in the given state. */
  ghost predicate Ends(states: seq<State>, events: seq<Event>, s: State) {
    Run(states, events) && states[|events|] == s
  }

  function Opened(managed: seq<Listener>, handles: set<Listener>): Shared {
    Shared(true, 0, 1, map[LISTENER := true], map[LISTENER := 0], [], managed, handles)
  }

  function Taken(managed: seq<Listener>): Shared {
    Opened(managed, {LISTENER}).(open := false, databaseTaken := 1)
  }

  lemma Bind() returns (states: seq<State>, events: seq<Event>)
    ensures Ends(states, events, State(Opened([], {}), [ServeBound(LISTENER)]))
  {
    states, events := [INITIAL], [];
    states, events := Extend(states, events, Call(ServeWants(Managed)));
    states, events := Extend(states, events, Move(0, true));
    states, events := Extend(states, events, Move(0, true));
  }

  lemma Serve() returns (states: seq<State>, events: seq<Event>)
    ensures Ends(states, events, State(Opened([LISTENER], {LISTENER}), [Finished(Served)]))
  {
    states, events := Bind();
    states, events := Extend(states, events, Move(0, true));
    states, events := Extend(states, events, Move(0, true));
    states, events := Extend(states, events, Move(0, true));
  }

  lemma TakeDatabase() returns (states: seq<State>, events: seq<Event>)
    ensures Ends(states, events, State(Taken([LISTENER]), [Finished(Served), DatabaseTaken]))
  {
    states, events := Serve();
    states, events := Extend(states, events, Call(DatabaseWants));
    states, events := Extend(states, events, Move(1, true));
    states, events := Extend(states, events, Move(1, true));
  }

  lemma CollectPlain() returns (states: seq<State>, events: seq<Event>)
    ensures Ends(states, events, State(Taken([LISTENER]), [Finished(Served), ManagedHeld([])]))
  {
    states, events := TakeDatabase();
    states, events := Extend(states, events, Move(1, true));
    states, events := Extend(states, events, Move(1, true));
    states, events := Extend(states, events, Move(1, true));
  }

  lemma CollectManaged() returns (states: seq<State>, events: seq<Event>)
    ensures Ends(states, events, State(Taken([]), [Finished(Served), SlotWanted([LISTENER], false, true)]))
  {
    states, events := CollectPlain();
    var s := states[|events|];
    assert Alive(s, LISTENER);
    assert [LISTENER][..0] == [];
    assert Upgraded(s, [LISTENER]) == [LISTENER];
    assert Upgraded(s, [LISTENER]) + [] == [LISTENER];
    states, events := Extend(states, events, Move(1, true));
  }

  lemma BeginClose() returns (states: seq<State>, events: seq<Event>)
    ensures Ends(states, events, State(Taken([]), [Finished(Served), Closing(LISTENER, [], false, true)]))
  {
    states, events := CollectManaged();
    assert [LISTENER][1..] == [];
    states, events := Extend(states, events, Move(1, true));
    states, events := Extend(states, events, Move(1, true));
  }

  /**
   The listener's close fails: `Database.close` ends with a failure while the handle is alive and
   holds its server, and the server has never been taken.
   */
  lemma FailedClose() returns (states: seq<State>, events: seq<Event>)
    ensures Run(states, events)
    ensures var last := states[|events|];
            && last.threads == [Finished(Served), Finished(DatabaseClosed(true))]
            && Alive(last, LISTENER) && HoldsServer(last.shared, LISTENER)
            && last.shared.taken == map[LISTENER := 0]
  {
    states, events := BeginClose();
    states, events := Extend(states, events, Move(1, false));
    states, events := Extend(states, events, Move(1, true));
  }
}
