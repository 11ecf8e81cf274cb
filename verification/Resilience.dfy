/**
 * How retry and breaker nest in the HCM client (_callWithResilience of
 * src/modules/hcm/hcm.service.js and withRetry of src/common/utils/retry.util.js):
 * the retry loop is outside and every single attempt passes the breaker.
 */
module Resilience {
  import opened Prelude
  import opened CircuitBreaker

  /** What an attempt throws: the breaker's refusal, an HTTP status, or no response at all. */
  datatype Error = CircuitOpen | Http(status: int) | NoResponse

  predicate IsRetryable(e: Error) {
    match e
    case CircuitOpen => false
    case Http(status) =>
      if status == 429 || status == 408 then true else !(400 <= status < 500)
    case NoResponse => true
  }

  datatype RetryOptions = RetryOptions(maxAttempts: int, baseDelayMs: real, maxDelayMs: real)

  /** One HTTP call that would be made: how it ends, how long it takes, and the sleep that may follow it. */
  datatype Attempt = Attempt(error: Option<Error>, took: nat, random: real, lag: nat)

  function Delay(o: RetryOptions, attempt: nat, random: real): real
    requires attempt >= 1
  {
    Product(MinReal(Product(o.baseDelayMs, Power2(attempt - 1) as real), o.maxDelayMs), 0.5 + random * 0.5)
  }

  /** The delay is at least half of, and at most, a bound that starts at the base and doubles up to the maximum. */
  lemma DelayIsHalfToFull(o: RetryOptions, attempt: nat, random: real)
    requires attempt >= 1 && 0.0 <= random < 1.0 && o.baseDelayMs >= 0.0 && o.maxDelayMs >= 0.0
    ensures var bound := MinReal(Product(o.baseDelayMs, Power2(attempt - 1) as real), o.maxDelayMs);
      bound / 2.0 <= Delay(o, attempt, random) <= bound && Delay(o, attempt, 0.0) == bound / 2.0
    ensures Delay(o, 1, 0.0) == MinReal(o.baseDelayMs, o.maxDelayMs) / 2.0
  {
    var doubled := Product(o.baseDelayMs, Power2(attempt - 1) as real);
    ProductGrowsRight(o.baseDelayMs, 0.0, Power2(attempt - 1) as real);
    ProductUnits(o.baseDelayMs);
    assert Power2(0) == 1;
    var bound := MinReal(doubled, o.maxDelayMs);
    Halved(bound);
    Halved(MinReal(o.baseDelayMs, o.maxDelayMs));
    ProductUnits(bound);
    hide Power2;
    hide Product;
    ProductGrowsRight(bound, 0.5, 0.5 + random * 0.5);
    ProductGrowsRight(bound, 0.5 + random * 0.5, 1.0);
  }

  lemma Halved(x: real)
    ensures Product(x, 0.5) == x / 2.0
  {
  }

  /** A timer fires after at least a millisecond, and possibly late. */
  function Slept(o: RetryOptions, attempt: nat, a: Attempt): int
    requires attempt >= 1
  {
    var delay := Delay(o, attempt, a.random);
    (if delay < 1.0 then 1 else delay.Floor) + a.lag
  }

  /** No sleep lasts as long as the breaker's cooldown. */
  ghost predicate SleepsWithinCooldown(o: RetryOptions, cooldown: int, script: seq<Attempt>) {
    forall i | 0 <= i < |script| :: Slept(o, i + 1, script[i]) < cooldown
  }

  predicate FailsRetryably(a: Attempt) { a.error.Some? && IsRetryable(a.error.value) }

  /** No response, 408, 429, or no 4xx status at all. */
  predicate FailsTransiently(a: Attempt) {
    a.error.Some? && match a.error.value
                     case CircuitOpen => false
                     case NoResponse => true
                     case Http(status) => status == 408 || status == 429 || status < 400 || status >= 500
  }

  /** What retry.util.js retries, in statuses. */
  lemma RetriedStatuses(a: Attempt)
    ensures FailsRetryably(a) <==> FailsTransiently(a)
  {
  }

  /** Sleeps stay within the cooldown as soon as delay cap and timer lag together do. */
  lemma CappedSleepsAreShort(o: RetryOptions, cooldown: int, script: seq<Attempt>)
    requires o.maxDelayMs >= 1.0
    requires forall i | 0 <= i < |script| ::
      0.0 <= script[i].random < 1.0 && o.maxDelayMs + script[i].lag as real < cooldown as real
    ensures SleepsWithinCooldown(o, cooldown, script)
  {
    forall i | 0 <= i < |script|
      ensures Slept(o, i + 1, script[i]) < cooldown
    {
      DelayIsCapped(o, i + 1, script[i].random);
    }
  }

  lemma DelayIsCapped(o: RetryOptions, attempt: nat, random: real)
    requires attempt >= 1 && 0.0 <= random < 1.0 && 0.0 <= o.maxDelayMs
    ensures Delay(o, attempt, random) <= o.maxDelayMs
  {
    var capped := MinReal(Product(o.baseDelayMs, Power2(attempt - 1) as real), o.maxDelayMs);
    var share := 0.5 + random * 0.5;
    hide Product;
    hide Power2;
    if capped >= 0.0 {
      ProductGrowsRight(capped, share, 1.0);
      ProductUnits(capped);
    } else {
      ProductGrows(capped, 0.0, share);
      ProductUnits(share);
    }
  }

  /** null when the error was swallowed, Threw when the handler itself fails on a missing error. */
  datatype Answer = Data | Null | Threw

  /** One attempt through the breaker: refused, or dialled and booked when it ends. */
  method CallThroughBreaker(circuit: Circuit, a: Attempt, now: int)
    returns (error: Option<Error>, later: int, dispatched: bool)
    requires Inv(circuit.config, circuit.View())
    modifies circuit
    ensures Inv(circuit.config, circuit.View())
    ensures dispatched <==> !Refuses(circuit.config, old(circuit.View()), now)
    ensures !dispatched ==> error == Some(CircuitOpen) && later == now && circuit.View() == old(circuit.View())
    ensures dispatched ==> error == a.error && later == now + a.took
    ensures dispatched && a.error.None? ==> circuit.state == Closed && circuit.failureCount == 0
    ensures dispatched && a.error.Some? ==>
      && circuit.failureCount == old(circuit.failureCount) + 1
      && (old(circuit.state) == Closed && circuit.failureCount < circuit.config.threshold ==> circuit.state == Closed)
      && (old(circuit.state) != Closed || circuit.failureCount >= circuit.config.threshold ==>
            circuit.state == Open && circuit.openedAt == Some(later))
  {
    dispatched := circuit.Admit(now);
    if !dispatched { return Some(CircuitOpen), now, dispatched; }
    later := now + a.took;
    error := a.error;
    if error.None? { circuit.Succeeded(); } else { circuit.FailedAt(later); }
  }

  /**
   * One resilient call, run alone. script lists the HTTP calls it would make; failed
   * counts those that were dispatched and failed.
   *
   * From a closed breaker with f failures on its count, and with sleeps shorter than
   * the cooldown, no more than threshold - f and no more than maxAttempts of its HTTP
   * calls can fail, because the breaker's refusal is not retried. When every call would
   * fail retryably, exactly the smaller of the two is made, the answer is null, and the
   * breaker ends open exactly if the threshold was within reach.
   */
  method CallWithResilience(circuit: Circuit, o: RetryOptions, script: seq<Attempt>, start: int)
    returns (answer: Answer, failed: nat, dispatched: nat)
    requires Inv(circuit.config, circuit.View())
    requires |script| == Max(0, o.maxAttempts)
    modifies circuit
    ensures Inv(circuit.config, circuit.View())
    // from any breaker
    ensures dispatched == failed + (if answer == Data then 1 else 0) <= Max(0, o.maxAttempts)
    ensures answer == Threw <==> o.maxAttempts <= 0
    ensures Refuses(circuit.config, old(circuit.View()), start) && o.maxAttempts >= 1 ==>
      answer == Null && dispatched == 0 && circuit.View() == old(circuit.View())
    ensures answer == Data ==> circuit.state == Closed && circuit.failureCount == 0
    ensures answer != Data ==> circuit.failureCount == old(circuit.failureCount) + failed
    // from a closed one
    ensures (old(circuit.state) == Closed && circuit.config.threshold >= 1
             && SleepsWithinCooldown(o, circuit.config.cooldown, script)) ==>
      var room := circuit.config.threshold - old(circuit.failureCount);
      && failed <= Min(Max(0, o.maxAttempts), room)
      && (answer == Data <==> exists k | 0 <= k < |script| ::
            k < room && script[k].error.None? && forall i | 0 <= i < k :: FailsRetryably(script[i]))
      && (answer != Data ==> (circuit.state == Open <==> failed == room))
      && ((forall i | 0 <= i < |script| :: FailsRetryably(script[i])) && o.maxAttempts >= 1 ==>
            answer == Null && failed == Min(o.maxAttempts, room))
    // in statuses: transient failures are retried until a success within reach, any other failure ends the call
    ensures (old(circuit.state) == Closed && circuit.config.threshold >= 1
             && SleepsWithinCooldown(o, circuit.config.cooldown, script)) ==>
      forall k | 0 <= k < |script| && k < circuit.config.threshold - old(circuit.failureCount)
                 && (forall i | 0 <= i < k :: FailsTransiently(script[i])) ::
        && (script[k].error.None? ==> answer == Data && dispatched == k + 1)
        && (script[k].error.Some? && !FailsTransiently(script[k]) ==> answer == Null && dispatched == k + 1)
  {
    hide Delay;
    forall i | 0 <= i < |script| ensures FailsRetryably(script[i]) <==> FailsTransiently(script[i]) {
      RetriedStatuses(script[i]);
    }
    hide FailsTransiently;
    var now := start;
    ghost var bounded := circuit.state == Closed && circuit.config.threshold >= 1
      && SleepsWithinCooldown(o, circuit.config.cooldown, script);
    ghost var room := circuit.config.threshold - circuit.failureCount;
    failed, dispatched := 0, 0;
    var attempt := 1;
    while attempt <= o.maxAttempts
      invariant 1 <= attempt <= Max(0, o.maxAttempts) + 1 && (attempt > 1 ==> attempt <= o.maxAttempts)
      invariant Inv(circuit.config, circuit.View())
      invariant failed == dispatched == attempt - 1
      invariant circuit.failureCount == old(circuit.failureCount) + failed
      invariant attempt == 1 ==> now == start && circuit.View() == old(circuit.View())
      invariant attempt > 1 ==> !Refuses(circuit.config, old(circuit.View()), start)
      invariant bounded ==> failed <= room && circuit.state == if failed < room then Closed else Open
      invariant bounded && circuit.state == Open ==>
        circuit.openedAt.value <= now < circuit.openedAt.value + circuit.config.cooldown
      invariant forall i | 0 <= i < attempt - 1 :: FailsRetryably(script[i])
    {
      var a := script[attempt - 1];
      if bounded && circuit.state == Open { RefusesUntilCooldown(circuit.config, circuit.View(), now); }
      var thrown, dialled;
      thrown, now, dialled := CallThroughBreaker(circuit, a, now);
      if dialled { dispatched := dispatched + 1; }
      if thrown.None? { return Data, failed, dispatched; }
      if dialled { failed := failed + 1; }
      var error := thrown.value;
      if attempt == o.maxAttempts || !IsRetryable(error) {
        return Null, failed, dispatched;
      }
      now := now + Slept(o, attempt, a);
      attempt := attempt + 1;
    }
    return Threw, failed, dispatched;
  }
}
