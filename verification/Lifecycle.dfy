/**
 Listeners and the database they are attached to: concurrent `serve`, managed-listener start,
 listener `close` and `Database.close`, as atomic steps of any number of threads.

 Mutexes are not stored: a thread's program point says which locks it holds, and a thread can
 acquire a lock only while no other thread holds it.
 */
module Lifecycle {
  import opened Machine

  /** `Plain` listeners are closed outside their slot lock, `Managed` ones while it is held. */
  datatype Kind = Plain | Managed

  /** A listener object of the host language; numbers tell listeners apart. */
  datatype Listener = Listener(kind: Kind, number: nat)

  datatype Lock = DatabaseLock | RegistryLock(kind: Kind) | SlotLock(listener: Listener)

  datatype Outcome =
    | Refused
    | Served
    | ListenerClosed(failed: bool)
    | DatabaseClosed(failed: bool)
    | AlreadyClosed

  /** Where a thread stands, with the locks it holds and the strong references it has. */
  datatype Pc =
    // serve and managed start
    | ServeWants(kind: Kind)
    | ServeHolds(kind: Kind)
    | ServeBound(listener: Listener)
    | ServeListing(listener: Listener)
    | ServeListed(listener: Listener)
    // Database.close up to the release of its locks
    | DatabaseWants
    | DatabaseHolds
    | DatabaseTaken
    | PlainHeld
    | PlainTaken(plain: seq<Listener>)
    | ManagedHeld(plain: seq<Listener>)
    // closing listeners one after the other, for Database.close (`owner`) or for one handle
    | SlotWanted(pending: seq<Listener>, failed: bool, owner: bool)
    | SlotHeld(first: Listener, pending: seq<Listener>, failed: bool, owner: bool)
    | Closing(first: Listener, pending: seq<Listener>, failed: bool, owner: bool)
    | Finished(outcome: Outcome)

  /**
   `slots` says of every listener ever started whether its handle still holds the server, `taken`
   how often a server was taken out of its slot, `databaseTaken` how often the database was. The
   registries hold weak references; `handles` are the listeners the host language keeps alive.
   */
  datatype Shared = Shared(open: bool, databaseTaken: nat, started: nat,
                           slots: map<Listener, bool>, taken: map<Listener, nat>,
                           plain: seq<Listener>, managed: seq<Listener>, handles: set<Listener>)

  datatype State = State(shared: Shared, threads: seq<Pc>)

  // ---------------------------------------------------------------- locks and references

  predicate Holds(pc: Pc, lock: Lock) {
    match lock
    case DatabaseLock =>
      || pc.ServeHolds? || pc.ServeBound? || pc.ServeListing? || pc.ServeListed?
      || pc.DatabaseHolds? || pc.DatabaseTaken? || pc.PlainHeld? || pc.PlainTaken? || pc.ManagedHeld?
    case RegistryLock(kind) =>
      || (pc.ServeListing? && pc.listener.kind == kind)
      || (kind == Plain && (pc.PlainHeld? || pc.PlainTaken? || pc.ManagedHeld?))
      || (kind == Managed && pc.ManagedHeld?)
    case SlotLock(listener) =>
      || (pc.SlotHeld? && pc.first == listener)
      || (pc.Closing? && pc.first == listener && listener.kind == Managed)
  }

  /** The lock a thread has to acquire in its next step. */
  function Wanted(pc: Pc): Option<Lock> {
    match pc
    case ServeWants(_) => Some(DatabaseLock)
    case ServeBound(listener) => Some(RegistryLock(listener.kind))
    case DatabaseWants => Some(DatabaseLock)
    case DatabaseTaken => Some(RegistryLock(Plain))
    case PlainTaken(_) => Some(RegistryLock(Managed))
    case SlotWanted(pending, _, _) => if pending != [] then Some(SlotLock(pending[0])) else None
    case _ => None
  }

  predicate Free(s: State, lock: Lock) {
    forall t | 0 <= t < |s.threads| :: !Holds(s.threads[t], lock)
  }

  /** The thread keeps the listener alive by a strong reference of its own. */
  predicate Refers(pc: Pc, listener: Listener) {
    match pc
    case ServeBound(bound) => bound == listener
    case ServeListing(bound) => bound == listener
    case ServeListed(bound) => bound == listener
    case PlainTaken(plain) => listener in plain
    case ManagedHeld(plain) => listener in plain
    case SlotWanted(pending, _, _) => listener in pending
    case SlotHeld(first, pending, _, _) => first == listener || listener in pending
    case Closing(first, pending, _, _) => first == listener || listener in pending
    case _ => false
  }

  predicate Alive(s: State, listener: Listener) {
    listener in s.shared.handles || exists t | 0 <= t < |s.threads| :: Refers(s.threads[t], listener)
  }

  /** `retain` and `filter_map(Weak::upgrade)`: the registered listeners that are still alive. */
  function Upgraded(s: State, registry: seq<Listener>): (live: seq<Listener>)
    ensures forall listener :: listener in live <==> listener in registry && Alive(s, listener)
  {
    if registry == [] then []
    else
      var last := registry[|registry| - 1];
      Upgraded(s, registry[..|registry| - 1]) + if Alive(s, last) then [last] else []
  }

  // ---------------------------------------------------------------- steps

  /**
   Where thread `t` goes next; `ok` is the outcome of the foreign call, if the step makes one: the bind of
   a start, the close of a listener's server, or the engine's own close at the end of `Database.close`.
   */
  function PcAfter(s: State, pc: Pc, ok: bool): Pc {
    match pc
    case ServeWants(kind) => ServeHolds(kind)
    case ServeHolds(kind) =>
      if s.shared.open && ok then ServeBound(Listener(kind, s.shared.started)) else Finished(Refused)
    case ServeBound(listener) => ServeListing(listener)
    case ServeListing(listener) => ServeListed(listener)
    case ServeListed(_) => Finished(Served)
    case DatabaseWants => DatabaseHolds
    case DatabaseHolds => if s.shared.open then DatabaseTaken else Finished(AlreadyClosed)
    case DatabaseTaken => PlainHeld
    case PlainHeld => PlainTaken(Upgraded(s, s.shared.plain))
    case PlainTaken(plain) => ManagedHeld(plain)
    case ManagedHeld(plain) => SlotWanted(Upgraded(s, s.shared.managed) + plain, false, true)
    case SlotWanted(pending, failed, owner) =>
      if pending != [] then SlotHeld(pending[0], pending[1..], failed, owner)
      else Finished(if owner then DatabaseClosed(failed || !ok) else ListenerClosed(failed))
    case SlotHeld(first, pending, failed, owner) =>
      if HoldsServer(s.shared, first) then Closing(first, pending, failed, owner)
      else SlotWanted(pending, failed, owner)
    case Closing(_, pending, failed, owner) => SlotWanted(pending, failed || !ok, owner)
    case Finished(outcome) => Finished(outcome)
  }

  predicate HoldsServer(shared: Shared, listener: Listener) {
    listener in shared.slots && shared.slots[listener]
  }

  /** The slot is emptied. */
  function Take(shared: Shared, listener: Listener): Shared {
    shared.(slots := shared.slots[listener := false],
            taken := shared.taken[listener := 1 + if listener in shared.taken then shared.taken[listener] else 0])
  }

  /** What the step does to the database slot, the registries, the listener slots and the handles. */
  function SharedAfter(s: State, pc: Pc, ok: bool): Shared {
    var shared := s.shared;
    match pc
    case ServeHolds(kind) =>
      if !shared.open || !ok then shared
      else
        var added := Listener(kind, shared.started);
        shared.(started := shared.started + 1, slots := shared.slots[added := true], taken := shared.taken[added := 0])
    case ServeListing(listener) =>
      if listener.kind == Plain then shared.(plain := Upgraded(s, shared.plain) + [listener])
      else shared.(managed := Upgraded(s, shared.managed) + [listener])
    case ServeListed(listener) => shared.(handles := shared.handles + {listener})
    case DatabaseHolds =>
      if shared.open then shared.(open := false, databaseTaken := shared.databaseTaken + 1) else shared
    case PlainHeld => shared.(plain := [])
    case ManagedHeld(_) => shared.(managed := [])
    case SlotHeld(first, _, _, _) =>
      if HoldsServer(shared, first) && first.kind == Plain then Take(shared, first) else shared
    case Closing(first, _, _, _) => if first.kind == Managed && ok then Take(shared, first) else shared
    case _ => shared
  }

  /** A call is made, the host language drops a listener object, or a thread makes a step. */
  datatype Event = Call(pc: Pc) | Drop(listener: Listener) | Move(thread: nat, ok: bool)

  predicate Enabled(s: State, e: Event) {
    match e
    case Call(pc) =>
      || pc.ServeWants? || pc.DatabaseWants?
      || (pc.SlotWanted? && |pc.pending| == 1 && pc.pending[0] in s.shared.handles && !pc.failed && !pc.owner)
    case Drop(listener) => listener in s.shared.handles
    case Move(t, _) => CanMove(s, t)
  }

  predicate CanMove(s: State, t: nat) {
    && t < |s.threads| && !s.threads[t].Finished?
    && (Wanted(s.threads[t]).Some? ==> Free(s, Wanted(s.threads[t]).value))
  }

  function Next(s: State, e: Event): State
    requires Enabled(s, e)
  {
    match e
    case Call(pc) => s.(threads := s.threads + [pc])
    case Drop(listener) => s.(shared := s.shared.(handles := s.shared.handles - {listener}))
    case Move(t, ok) =>
      State(SharedAfter(s, s.threads[t], ok), s.threads[t := PcAfter(s, s.threads[t], ok)])
  }

  const INITIAL: State := State(Shared(true, 0, 0, map[], map[], [], [], {}), [])

  /** The states one interleaving goes through. */
  ghost predicate Run(states: seq<State>, events: seq<Event>) {
    && |states| == |events| + 1 && states[0] == INITIAL
    && forall i | 0 <= i < |events| :: Enabled(states[i], events[i]) && states[i + 1] == Next(states[i], events[i])
  }
}
