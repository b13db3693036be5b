/**
 Bounded backoff for controlled locks: the validated policy and the budget of one request, which
 hands out sleeps until its retries or its time are used up.

 Durations and instants are counted in nanoseconds from a fixed origin.
 */
module Contention {
  import opened Machine

  const MILLISECOND: nat := 1_000_000
  const SECOND: nat := 1_000_000_000
  const MAX_RETRY_TIME: nat := 24 * 60 * 60 * SECOND
  const MAX_RETRIES: nat := 1_000_000
  const DURATION_MAX: nat := U64_MAX * SECOND + 999_999_999

  datatype Jitter = NoJitter | FullJitter

  datatype Policy = Policy(initialDelay: nat, maxDelay: nat, multiplier: nat, jitter: Jitter,
                           maxRetries: nat, maxElapsed: nat)

  datatype PolicyError = InvalidArgument

  predicate BadDelay(delay: nat) {
    delay < MILLISECOND || delay > MAX_RETRY_TIME || delay % SECOND % MILLISECOND != 0
  }

  /** Between 1 and 86 400 000 milliseconds, and nothing smaller than a millisecond in it. */
  predicate WholeMillis(delay: nat) {
    delay % MILLISECOND == 0 && 1 <= delay / MILLISECOND <= 86_400_000
  }

  lemma BadDelayMeaning(delay: nat)
    ensures BadDelay(delay) <==> !WholeMillis(delay)
  {
    var seconds, rest := delay / SECOND, delay % SECOND;
    assert delay == (seconds * 1000) * MILLISECOND + rest;
    assert delay % MILLISECOND == rest % MILLISECOND;
  }

  function NewPolicy(p: Policy): (r: Result<Policy, PolicyError>)
    ensures r.Ok? ==> r.value == p
    ensures r.Ok? <==> && WholeMillis(p.initialDelay) && WholeMillis(p.maxDelay) && WholeMillis(p.maxElapsed)
                       && p.initialDelay <= p.maxDelay <= p.maxElapsed
                       && 1 <= p.multiplier <= 1024 && 1 <= p.maxRetries <= MAX_RETRIES
  {
    BadDelayMeaning(p.initialDelay); BadDelayMeaning(p.maxDelay); BadDelayMeaning(p.maxElapsed);
    if || BadDelay(p.initialDelay) || BadDelay(p.maxDelay) || BadDelay(p.maxElapsed)
       || p.initialDelay > p.maxDelay
       || p.maxDelay > p.maxElapsed
       || !(1 <= p.multiplier <= 1024)
       || !(1 <= p.maxRetries <= MAX_RETRIES)
    then Err(InvalidArgument)
    else Ok(p)
  }

  const FAIL_FAST: Policy := Policy(0, 0, 1, NoJitter, 0, 0)

  /** The policies a caller can hold: fields are private, so only the two constructors make them. */
  predicate Constructible(p: Policy) {
    NewPolicy(p).Ok? || p == FAIL_FAST
  }

  function Min(a: nat, b: nat): nat {
    if a < b then a else b
  }

  function Power(base: nat, exponent: nat): nat {
    if exponent == 0 then 1 else base * Power(base, exponent - 1)
  }

  /** The delay before jitter once `k` retries have been granted. */
  function Cap(p: Policy, k: nat): nat {
    Min(p.maxDelay, p.initialDelay * Power(p.multiplier, k))
  }

  lemma CapGrows(p: Policy, k: nat)
    requires p.multiplier >= 1
    ensures Cap(p, k + 1) == Min(p.maxDelay, Cap(p, k) * p.multiplier)
  {
    var grown := p.initialDelay * Power(p.multiplier, k);
    assert p.initialDelay * Power(p.multiplier, k + 1) == grown * p.multiplier by {
      assert Power(p.multiplier, k + 1) == p.multiplier * Power(p.multiplier, k);
      Shuffle(p.initialDelay, p.multiplier, Power(p.multiplier, k));
    }
    assert p.maxDelay <= p.maxDelay * p.multiplier;
    if p.maxDelay <= grown {
      assert p.maxDelay * p.multiplier <= grown * p.multiplier;
    }
  }

  lemma Shuffle(a: nat, b: nat, c: nat)
    ensures a * (b * c) == (a * c) * b
  {
  }

  /** Every cap is a whole number of milliseconds, at least one, and growing it cannot overflow. */
  lemma {:induction false} CapBounds(p: Policy, k: nat)
    requires Constructible(p) && p != FAIL_FAST
    ensures WholeMillis(Cap(p, k)) && p.initialDelay <= Cap(p, k) <= p.maxDelay
    ensures Cap(p, k) * p.multiplier <= DURATION_MAX
  {
    if k == 0 {
      assert Power(p.multiplier, 0) == 1;
      assert Cap(p, 0) == p.initialDelay;
    } else {
      CapBounds(p, k - 1);
      CapGrows(p, k - 1);
      GrowWithin(Cap(p, k - 1), p.multiplier, p.maxDelay);
    }
    GrowWithin(Cap(p, k), p.multiplier, p.maxDelay);
  }

  lemma GrowWithin(cap: nat, multiplier: nat, most: nat)
    requires WholeMillis(cap) && WholeMillis(most) && cap <= most && 1 <= multiplier <= 1024
    ensures WholeMillis(Min(most, cap * multiplier)) && cap <= Min(most, cap * multiplier)
    ensures cap * multiplier <= DURATION_MAX
  {
    var millis := cap / MILLISECOND;
    var grown := millis * multiplier;
    ProductForm(millis, multiplier);
    ProductBound(millis, multiplier);
    Undivide(grown);
    MillisScale(cap, multiplier, millis, grown, most);
  }

  lemma MillisScale(cap: nat, multiplier: nat, millis: nat, grown: nat, most: nat)
    requires WholeMillis(cap) && WholeMillis(most) && cap <= most && cap * multiplier == grown * MILLISECOND
    requires millis == cap / MILLISECOND && millis <= grown <= millis * 1024
    ensures WholeMillis(Min(most, cap * multiplier)) && cap <= Min(most, cap * multiplier)
    ensures cap * multiplier <= DURATION_MAX
  {
    var product := cap * multiplier;
    assert cap == millis * MILLISECOND;
    assert product <= 86_400_000 * 1024 * MILLISECOND;
    if product <= most {
      Undivide(grown);
    }
  }

  lemma ProductForm(millis: nat, multiplier: nat)
    ensures (millis * MILLISECOND) * multiplier == (millis * multiplier) * MILLISECOND
  {
  }

  lemma ProductBound(millis: nat, multiplier: nat)
    requires 1 <= multiplier <= 1024
    ensures millis <= millis * multiplier <= millis * 1024
  {
  }

  lemma Undivide(n: nat)
    ensures (n * MILLISECOND) % MILLISECOND == 0 && (n * MILLISECOND) / MILLISECOND == n
  {
  }

  // ---------------------------------------------------------------- one budget, as a value

  datatype Budget = Budget(started: Option<nat>, nextDelay: nat, retries: nat, exhausted: bool)

  function Fresh(p: Policy): Budget {
    Budget(None, p.initialDelay, 0, false)
  }

  function Start(b: Budget, now: nat): nat {
    match b.started
    case None => now
    case Some(at) => at
  }

  /** `Instant::duration_since` and `Duration::saturating_sub` both stop at zero. */
  function Remaining(p: Policy, b: Budget, now: nat): nat {
    SaturatingSub(p.maxElapsed, SaturatingSub(now, Start(b, now)))
  }

  function Sleep(p: Policy, b: Budget, random: nat): nat
    requires p.jitter.FullJitter? ==> b.nextDelay >= MILLISECOND
  {
    if p.jitter.NoJitter? then b.nextDelay else (1 + random % (b.nextDelay / MILLISECOND)) * MILLISECOND
  }

  /** What holds of every budget between calls. */
  predicate Sound(p: Policy, b: Budget) {
    && Constructible(p)
    && b.nextDelay == Cap(p, b.retries)
    && b.retries <= p.maxRetries
    && (b.retries > 0 || b.exhausted ==> b.started.Some?)
  }

  lemma SleepBounds(p: Policy, b: Budget, random: nat)
    requires Sound(p, b) && b.retries < p.maxRetries
    ensures p.jitter.FullJitter? ==> b.nextDelay >= MILLISECOND
    ensures MILLISECOND <= Sleep(p, b, random) <= Cap(p, b.retries)
    ensures p.jitter.FullJitter? ==> Sleep(p, b, 0) == MILLISECOND
  {
    CapBounds(p, b.retries);
  }

  /** Full jitter draws every whole millisecond up to the cap, each by exactly one residue of the random number. */
  lemma JitterDraws(p: Policy, b: Budget, random: nat, millis: nat)
    requires Sound(p, b) && b.retries < p.maxRetries && p.jitter.FullJitter?
    requires 1 <= millis <= b.nextDelay / MILLISECOND
    ensures Sleep(p, b, random) == millis * MILLISECOND <==> random % (b.nextDelay / MILLISECOND) == millis - 1
    ensures Sleep(p, b, millis - 1) == millis * MILLISECOND
  {
    var cap := b.nextDelay / MILLISECOND;
    SmallResidue(millis - 1, cap);
  }

  lemma SmallResidue(n: nat, modulus: nat)
    requires n < modulus
    ensures n % modulus == n
  {
  }

  ghost predicate Granting(p: Policy, b: Budget, now: nat, random: nat)
    requires Sound(p, b)
  {
    && b.retries < p.maxRetries
    && (SleepBounds(p, b, random); Sleep(p, b, random) < Remaining(p, b, now))
  }

  ghost function Asked(p: Policy, b: Budget, now: nat, random: nat): (next: Budget)
    requires Sound(p, b)
    ensures Sound(p, next)
  {
    var b := b.(started := Some(Start(b, now)));
    if Granting(p, b, now, random) then b.(retries := b.retries + 1, nextDelay := Cap(p, b.retries + 1))
    else b.(exhausted := true)
  }

  predicate Expired(p: Policy, b: Budget, now: nat) {
    b.started.Some? && SaturatingSub(now, b.started.value) >= p.maxElapsed
  }

  /** A budget has expired exactly if it was started and no time remains. */
  lemma ExpiredMeaning(p: Policy, b: Budget, now: nat)
    ensures Expired(p, b, now) <==> b.started.Some? && Remaining(p, b, now) == 0
    ensures Expired(p, b, now) <==> b.started.Some? && (p.maxElapsed == 0 || b.started.value + p.maxElapsed <= now)
  {
  }

  function Checked(p: Policy, b: Budget, now: nat): (next: Budget)
    ensures Sound(p, b) ==> Sound(p, next)
  {
    if Expired(p, b, now) then b.(exhausted := true) else b
  }

  // ---------------------------------------------------------------- the budget and its shared counters

  class ContentionMetrics {
    var retriesScheduled: u64
    var exhaustedBudgets: u64

    constructor ()
      ensures retriesScheduled == 0 && exhaustedBudgets == 0
    {
      retriesScheduled, exhaustedBudgets := 0, 0;
    }

    method Scheduled()
      modifies this`retriesScheduled
      ensures retriesScheduled == Min(U64_MAX, old(retriesScheduled) + 1)
    {
      retriesScheduled := if retriesScheduled == U64_MAX then U64_MAX else retriesScheduled + 1;
    }

    method Exhausted()
      modifies this`exhaustedBudgets
      ensures exhaustedBudgets == Min(U64_MAX, old(exhaustedBudgets) + 1)
    {
      exhaustedBudgets := if exhaustedBudgets == U64_MAX then U64_MAX else exhaustedBudgets + 1;
    }
  }

  class ContentionBudget {
    const policy: Policy
    const metrics: ContentionMetrics
    var started: Option<nat>
    var nextDelay: nat
    var retries: u32
    var exhaustionRecorded: bool

    ghost function State(): Budget
      reads this
    {
      Budget(started, nextDelay, retries, exhaustionRecorded)
    }

    ghost predicate Valid()
      reads this
    {
      Sound(policy, State())
    }

    constructor (policy: Policy, metrics: ContentionMetrics)
      requires Constructible(policy)
      ensures Valid() && State() == Fresh(policy)
      ensures this.policy == policy && this.metrics == metrics
    {
      this.policy := policy;
      this.metrics := metrics;
      started, nextDelay, retries, exhaustionRecorded := None, policy.initialDelay, 0, false;
    }

    method NextDelay(now: nat, random: u64) returns (delay: Option<nat>)
      requires Valid()
      modifies this, metrics
      ensures Valid() && State() == Asked(policy, old(State()), now, random)
      ensures delay.Some? <==> Granting(policy, old(State()), now, random)
      ensures delay.Some? && policy.jitter.FullJitter? ==> old(nextDelay) >= MILLISECOND
      ensures delay.Some? ==> delay.value == Sleep(policy, old(State()), random)
      ensures delay.Some? ==> MILLISECOND <= delay.value <= old(nextDelay)
      ensures delay.Some? ==> now + delay.value < started.value + policy.maxElapsed
      ensures metrics.retriesScheduled == if delay.Some? then Min(U64_MAX, old(metrics.retriesScheduled) + 1)
                                          else old(metrics.retriesScheduled)
      ensures metrics.exhaustedBudgets == if exhaustionRecorded && !old(exhaustionRecorded)
                                          then Min(U64_MAX, old(metrics.exhaustedBudgets) + 1)
                                          else old(metrics.exhaustedBudgets)
    {
      if started.None? {
        started := Some(now);
      }
      if retries >= policy.maxRetries {
        RecordExhaustion();
        return None;
      }
      SleepBounds(policy, State(), random);
      var remaining := SaturatingSub(policy.maxElapsed, SaturatingSub(now, started.value));
      var sleep: nat;
      match policy.jitter {
        case NoJitter => sleep := nextDelay;
        case FullJitter =>
          var cap := nextDelay / MILLISECOND;
          sleep := (1 + random % cap) * MILLISECOND;
      }
      if sleep >= remaining {
        RecordExhaustion();
        return None;
      }
      CapBounds(policy, retries);
      CapGrows(policy, retries);
      retries := retries + 1;
      metrics.Scheduled();
      nextDelay := Min(Min(DURATION_MAX, nextDelay * policy.multiplier), policy.maxDelay);
      return Some(sleep);
    }

    method HasExpired(now: nat) returns (expired: bool)
      requires Valid()
      modifies this`exhaustionRecorded, metrics`exhaustedBudgets
      ensures Valid() && State() == Checked(policy, old(State()), now)
      ensures expired <==> Expired(policy, old(State()), now)
      ensures metrics.exhaustedBudgets == if exhaustionRecorded && !old(exhaustionRecorded)
                                          then Min(U64_MAX, old(metrics.exhaustedBudgets) + 1)
                                          else old(metrics.exhaustedBudgets)
    {
      expired := started.Some? && SaturatingSub(now, started.value) >= policy.maxElapsed;
      if expired {
        RecordExhaustion();
      }
    }

    method RecordExhaustion()
      modifies this`exhaustionRecorded, metrics`exhaustedBudgets
      ensures exhaustionRecorded
      ensures metrics.exhaustedBudgets == if old(exhaustionRecorded) then old(metrics.exhaustedBudgets)
                                          else Min(U64_MAX, old(metrics.exhaustedBudgets) + 1)
    {
      if !exhaustionRecorded {
        exhaustionRecorded := true;
        metrics.Exhausted();
      }
    }
  }
}
