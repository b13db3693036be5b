/** The catalog's schema generation: publishers advance it by compare-and-swap, readers load it. */
module SchemaGeneration {
  import opened Machine

  datatype PublishError = InvalidTransition | NotAt(observed: u64)

  /** The compare-and-swap either installs the target or leaves the value alone. */
  function Published(current: u64, expected: u64, target: u64): u64 {
    if expected + 1 == target && current == expected then target else current
  }

  class Catalog {
    var schemaGeneration: u64

    constructor (generation: u64)
      ensures schemaGeneration == generation
    {
      schemaGeneration := generation;
    }

    method CompareExchange(expected: u64, target: u64) returns (observed: Result<u64, u64>)
      modifies this
      ensures observed == if old(schemaGeneration) == expected then Ok(expected) else Err(old(schemaGeneration))
      ensures schemaGeneration == if old(schemaGeneration) == expected then target else old(schemaGeneration)
    {
      if schemaGeneration == expected {
        schemaGeneration := target;
        return Ok(expected);
      }
      return Err(schemaGeneration);
    }

    /** Succeeds exactly when the step is by one and the target is current on return. */
    method Publish(expected: u64, target: u64) returns (r: Result<(), PublishError>)
      modifies this
      ensures schemaGeneration == Published(old(schemaGeneration), expected, target)
      ensures r.Ok? <==> expected + 1 == target && schemaGeneration == target
      ensures old(schemaGeneration) == expected && expected + 1 == target ==> r.Ok? && schemaGeneration == target
      ensures r.Err? ==> schemaGeneration == old(schemaGeneration)
      ensures r.Err? ==> r.error == if expected + 1 == target then NotAt(schemaGeneration) else InvalidTransition
    {
      var successor := if expected == U64_MAX then None else Some(expected + 1);
      if successor != Some(target) {
        return Err(InvalidTransition);
      }
      var exchanged := CompareExchange(expected, target);
      match exchanged {
        case Ok(_) => return Ok(());
        case Err(observed) =>
          if observed == target {
            return Ok(());
          }
          return Err(NotAt(observed));
      }
    }
  }

  // ---------------------------------------------------------------- every interleaving

  /** Each publication touches the generation in one atomic operation, as each load does. */
  datatype Event = Publishing(expected: u64, target: u64) | Loading

  /** The generation after a history of events from a first value. */
  function Generation(first: u64, events: seq<Event>): u64 {
    if events == [] then first
    else
      var before := Generation(first, events[..|events| - 1]);
      match events[|events| - 1]
      case Publishing(expected, target) => Published(before, expected, target)
      case Loading => before
  }

  lemma GenerationNext(first: u64, events: seq<Event>, i: nat)
    requires i < |events|
    ensures Generation(first, events[..i + 1])
            == (match events[i]
                case Publishing(expected, target) => Published(Generation(first, events[..i]), expected, target)
                case Loading => Generation(first, events[..i]))
  {
    assert events[..i + 1][..i] == events[..i];
  }

  /** The `i`-th event installed generation `g`. */
  predicate Installs(first: u64, events: seq<Event>, i: nat, g: int)
    requires i < |events|
  {
    Generation(first, events[..i]) < g <= Generation(first, events[..i + 1])
  }

  /** Steps are by zero or one, and a step by one is one publication's own transition. */
  lemma StepsByOne(first: u64, events: seq<Event>, i: nat)
    requires i < |events|
    ensures Generation(first, events[..i]) <= Generation(first, events[..i + 1]) <= Generation(first, events[..i]) + 1
    ensures forall g: int | Installs(first, events, i, g) ::
              events[i].Publishing? && events[i].target == g && events[i].expected == g - 1
  {
    GenerationNext(first, events, i);
  }

  /** The generation moves exactly at a publication from the current generation to its successor. */
  lemma MovesExactly(first: u64, events: seq<Event>, i: nat)
    requires i < |events|
    ensures var before, after := Generation(first, events[..i]), Generation(first, events[..i + 1]);
            && (after == before + 1
                <==> events[i].Publishing? && events[i].expected == before && events[i].target == before + 1)
            && (after == before || after == before + 1)
  {
    GenerationNext(first, events, i);
  }

  /** What any reader sees only grows. */
  lemma {:induction false} LoadsNeverDecrease(first: u64, events: seq<Event>, i: nat, j: nat)
    requires i <= j <= |events|
    ensures Generation(first, events[..i]) <= Generation(first, events[..j])
  {
    if i < j {
      LoadsNeverDecrease(first, events, i, j - 1);
      StepsByOne(first, events, j - 1);
    }
  }

  /** Every generation reached was installed by exactly one publication. */
  lemma {:induction false} InstalledOnce(first: u64, events: seq<Event>, g: int) returns (i: nat)
    requires first < g <= Generation(first, events)
    ensures i < |events| && Installs(first, events, i, g)
    ensures forall k | 0 <= k < |events| && Installs(first, events, k, g) :: k == i
  {
    i := FindInstall(first, events, g);
    forall k | 0 <= k < |events| && Installs(first, events, k, g) ensures k == i {
      if k < i {
        LoadsNeverDecrease(first, events, k + 1, i);
      } else if i < k {
        LoadsNeverDecrease(first, events, i + 1, k);
      }
    }
  }

  lemma {:induction false} FindInstall(first: u64, events: seq<Event>, g: int) returns (i: nat)
    requires first < g <= Generation(first, events)
    ensures i < |events| && Installs(first, events, i, g)
  {
    var n := |events| - 1;
    var front := events[..n];
    if g <= Generation(first, front) {
      i := FindInstall(first, front, g);
      assert front[..i] == events[..i] && front[..i + 1] == events[..i + 1];
    } else {
      i := n;
      assert events[..n + 1] == events;
    }
  }

  /** The final generation counts the installing publications, so it never wraps around. */
  function Installations(first: u64, events: seq<Event>): nat {
    if events == [] then 0
    else
      var n := |events| - 1;
      Installations(first, events[..n])
      + if Generation(first, events[..n]) < Generation(first, events) then 1 else 0
  }

  lemma {:induction false} GenerationCounts(first: u64, events: seq<Event>)
    ensures Generation(first, events) == first + Installations(first, events) <= U64_MAX
  {
    if events != [] {
      var n := |events| - 1;
      GenerationCounts(first, events[..n]);
      GenerationNext(first, events, n);
      assert events[..n + 1] == events;
    }
  }
}
