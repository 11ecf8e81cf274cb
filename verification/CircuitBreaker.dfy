/**
 * The circuit breaker (src/common/utils/circuit-breaker.util.js) under
 * overlapping calls. A call is admitted or refused when it starts; its success or
 * failure (a timeout included) is a later, separate step, so completions of calls
 * admitted in an earlier state may arrive at any time.
 */
module CircuitBreaker {
  import opened Prelude

  datatype State = Closed | Open | HalfOpen

  datatype Config = Config(threshold: int, cooldown: int)

  datatype Breaker = Breaker(
    state: State, failureCount: nat, openedAt: Option<int>, nextAttemptAt: Option<int>, successCount: nat)

  const START := Breaker(Closed, 0, None, None, 0)

  /** The opening time as the program computes it, where a stored 0 counts as missing. */
  function OpenedSince(c: Config, b: Breaker, now: int): int {
    if b.openedAt.Some? && b.openedAt.value != 0 then b.openedAt.value
    else if b.nextAttemptAt.Some? && b.nextAttemptAt.value != 0 then b.nextAttemptAt.value - c.cooldown
    else now
  }

  function Remaining(c: Config, b: Breaker, now: int): int { c.cooldown - (now - OpenedSince(c, b, now)) }

  /** Is a call starting now turned away with CIRCUIT_OPEN? */
  predicate Refuses(c: Config, b: Breaker, now: int) { b.state == Open && Remaining(c, b, now) > 0 }

  function Begin(c: Config, b: Breaker, now: int): Breaker {
    if b.state == Open && !Refuses(c, b, now) then b.(state := HalfOpen) else b
  }

  function OnSuccess(b: Breaker): Breaker {
    if b.state == HalfOpen then Breaker(Closed, 0, None, None, b.successCount + 1)
    else b.(failureCount := 0, successCount := b.successCount + 1)
  }

  predicate Trips(c: Config, b: Breaker) { b.state == HalfOpen || b.failureCount + 1 >= c.threshold }

  function OnFailure(c: Config, b: Breaker, now: int): Breaker {
    var counted := b.(failureCount := b.failureCount + 1);
    if Trips(c, b) then counted.(state := Open, openedAt := Some(now), nextAttemptAt := Some(now + c.cooldown))
    else counted
  }

  function Reset(b: Breaker): Breaker { START.(successCount := b.successCount) }

  // ---------- runs ----------

  datatype Event = Call(at: int) | Success(at: int) | Failure(at: int) | ManualReset(at: int)

  function Apply(c: Config, b: Breaker, ev: Event): Breaker {
    match ev
    case Call(at) => Begin(c, b, at)
    case Success(at) => OnSuccess(b)
    case Failure(at) => OnFailure(c, b, at)
    case ManualReset(at) => Reset(b)
  }

  function Run(c: Config, evs: seq<Event>): Breaker {
    if evs == [] then START else Apply(c, Run(c, evs[..|evs| - 1]), evs[|evs| - 1])
  }

  ghost predicate ClockRuns(evs: seq<Event>) {
    forall i, j | 0 <= i < j < |evs| :: evs[i].at <= evs[j].at
  }

  /** Failed completions since the last success or reset. */
  function FailuresInARow(evs: seq<Event>): nat {
    if evs == [] then 0
    else
      var earlier := evs[..|evs| - 1];
      match evs[|evs| - 1]
      case Call(_) => FailuresInARow(earlier)
      case Failure(_) => FailuresInARow(earlier) + 1
      case Success(_) => 0
      case ManualReset(_) => 0
  }

  ghost predicate Inv(c: Config, b: Breaker) {
    && (b.state == Closed && c.threshold >= 1 ==> b.failureCount < c.threshold)
    && (b.state != Closed <==> b.openedAt.Some?)
    && b.nextAttemptAt == if b.openedAt.Some? then Some(b.openedAt.value + c.cooldown) else None
  }

  /**
   * Whatever calls overlap, the failure count is the length of the current run of
   * failures, a closed breaker is below its threshold (if that is at least 1), and the
   * opening time is set exactly while it is not closed.
   */
  lemma {:induction false} BreakerTracksItsHistory(c: Config, evs: seq<Event>)
    ensures Run(c, evs).failureCount == FailuresInARow(evs)
    ensures Inv(c, Run(c, evs))
  {
    if evs != [] { BreakerTracksItsHistory(c, evs[..|evs| - 1]); }
  }

  function Successes(evs: seq<Event>): nat {
    if evs == [] then 0 else Successes(evs[..|evs| - 1]) + (if evs[|evs| - 1].Success? then 1 else 0)
  }

  /** The success counter counts every successful completion, resets or not. */
  lemma {:induction false} EverySuccessCounts(c: Config, evs: seq<Event>)
    ensures Run(c, evs).successCount == Successes(evs)
  {
    if evs != [] { EverySuccessCounts(c, evs[..|evs| - 1]); }
  }

  /** A closed breaker opens on exactly the failure that completes threshold failures in a row. */
  lemma OpensAtTheThreshold(c: Config, evs: seq<Event>, at: int)
    requires Run(c, evs).state == Closed
    ensures Run(c, evs + [Failure(at)]).state
         == if FailuresInARow(evs + [Failure(at)]) >= c.threshold then Open else Closed
    ensures c.threshold >= 1 ==> FailuresInARow(evs + [Failure(at)]) <= c.threshold
  {
    BreakerTracksItsHistory(c, evs);
    assert (evs + [Failure(at)])[..|evs|] == evs;
  }

  /**
   * What a completion does outside the closed state: half-open, the first one decides;
   * open, a late success clears the count but the breaker stays open until its cooldown.
   */
  lemma CompletionsDecide(c: Config, evs: seq<Event>, at: int)
    ensures Run(c, evs).state == HalfOpen ==>
      && Run(c, evs + [Success(at)]).state == Closed
      && Run(c, evs + [Failure(at)]).state == Open && Run(c, evs + [Failure(at)]).openedAt == Some(at)
    ensures Run(c, evs).state == Open ==>
      && Run(c, evs + [Success(at)]).state == Open && Run(c, evs + [Success(at)]).failureCount == 0
      && Run(c, evs + [Success(at)]).openedAt == Run(c, evs).openedAt
  {
    assert (evs + [Success(at)])[..|evs|] == evs && (evs + [Failure(at)])[..|evs|] == evs;
  }

  /** The stored-zero case of OpenedSince makes no difference once the clock has reached the opening. */
  lemma RefusesUntilCooldown(c: Config, b: Breaker, now: int)
    requires Inv(c, b) && b.state == Open && b.openedAt.value <= now
    ensures Refuses(c, b, now) <==> now < b.openedAt.value + c.cooldown
  {
  }

  /** Is event i a failure that opens (or re-opens) the breaker? */
  predicate Opens(c: Config, evs: seq<Event>, i: nat)
    requires i < |evs|
  {
    evs[i].Failure? && Trips(c, Run(c, evs[..i]))
  }

  /** After an opening: still open since then, or the cooldown is over. */
  lemma {:induction false} OpenOrCooledDown(c: Config, evs: seq<Event>, i: nat, n: nat)
    requires ClockRuns(evs) && i < n <= |evs| && Opens(c, evs, i)
    requires forall k | i < k < n :: !evs[k].ManualReset?
    ensures var b := Run(c, evs[..n]);
      || (b.state == Open && b.openedAt.Some? && evs[i].at <= b.openedAt.value <= evs[n - 1].at)
      || evs[n - 1].at >= evs[i].at + c.cooldown
    decreases n
  {
    var before := evs[..n - 1];
    assert evs[..n][..n - 1] == before;
    BreakerTracksItsHistory(c, before);
    BreakerTracksItsHistory(c, evs[..n]);
    if n - 1 > i {
      OpenOrCooledDown(c, evs, i, n - 1);
      var b := Run(c, before);
      assert evs[n - 2].at <= evs[n - 1].at;
      if b.state == Open && evs[i].at <= b.openedAt.value <= evs[n - 2].at && evs[n - 1].Call? {
        RefusesUntilCooldown(c, b, evs[n - 1].at);
      }
    }
  }

  /** After an opening at time T no call is dispatched before T + cooldown, unless the breaker is reset by hand. */
  lemma NoDispatchDuringCooldown(c: Config, evs: seq<Event>, i: nat, j: nat)
    requires ClockRuns(evs) && i < j < |evs| && Opens(c, evs, i)
    requires evs[j].Call? && forall k | i < k < j :: !evs[k].ManualReset?
    ensures evs[j].at < evs[i].at + c.cooldown ==> Refuses(c, Run(c, evs[..j]), evs[j].at)
  {
    OpenOrCooledDown(c, evs, i, j);
    BreakerTracksItsHistory(c, evs[..j]);
    var b := Run(c, evs[..j]);
    assert evs[j - 1].at <= evs[j].at;
    if b.state == Open && b.openedAt.value <= evs[j - 1].at {
      RefusesUntilCooldown(c, b, evs[j].at);
    }
  }

  /** Half-open is not a single probe: until one of them completes, every further call is dispatched too. */
  lemma {:induction false} HalfOpenAdmitsEveryCall(c: Config, evs: seq<Event>, probes: seq<Event>)
    requires Run(c, evs).state == HalfOpen && forall i | 0 <= i < |probes| :: probes[i].Call?
    ensures Run(c, evs + probes).state == HalfOpen
    ensures forall at :: !Refuses(c, Run(c, evs + probes), at)
    decreases |probes|
  {
    if probes == [] {
      assert evs + probes == evs;
    } else {
      var n := |probes| - 1;
      HalfOpenAdmitsEveryCall(c, evs, probes[..n]);
      assert (evs + probes)[..|evs| + n] == evs + probes[..n];
    }
  }

  /** A reset by hand closes the breaker whatever went before: the next call is dispatched and counting starts anew. */
  lemma ResetCloses(c: Config, evs: seq<Event>, at: int, later: int)
    ensures var b := Run(c, evs + [ManualReset(at)]);
      && b.state == Closed && b.failureCount == 0 && b.openedAt == None && b.nextAttemptAt == None
      && b.successCount == Run(c, evs).successCount && !Refuses(c, b, later)
    ensures c.threshold >= 2 ==> Run(c, evs + [ManualReset(at)] + [Failure(later)]).state == Closed
  {
    var all := evs + [ManualReset(at)];
    assert all[..|evs|] == evs;
    assert (all + [Failure(later)])[..|all|] == all;
    OpensAtTheThreshold(c, all, later);
  }

  /** n failures at one time, of calls that were all admitted before. */
  function Failures(n: nat, at: int): seq<Event> {
    if n == 0 then [] else Failures(n - 1, at) + [Failure(at)]
  }

  lemma {:induction false} FailuresOpen(c: Config, n: nat, at: int)
    requires n <= Max(1, c.threshold)
    ensures var b := Run(c, Failures(n, at));
      && b.failureCount == n && b.state == (if n == Max(1, c.threshold) then Open else Closed)
      && (b.state == Open ==> b.openedAt == Some(at))
  {
    if n > 0 {
      FailuresOpen(c, n - 1, at);
      assert Failures(n, at)[..|Failures(n, at)| - 1] == Failures(n - 1, at);
    }
  }

  /**
   * The half-open state is reached under every configuration: after as many failures as
   * the threshold asks for, at least one, the first call once the cooldown is over gets in
   * as a probe, and so does every call that starts before it completes.
   */
  lemma HalfOpenIsReached(c: Config, at: int, probes: seq<Event>)
    requires forall i | 0 <= i < |probes| :: probes[i].Call?
    ensures var evs := Failures(Max(1, c.threshold), at) + [Call(at + Max(0, c.cooldown))];
      && Run(c, evs + probes).state == HalfOpen
      && forall later :: !Refuses(c, Run(c, evs + probes), later)
  {
    var failures := Failures(Max(1, c.threshold), at);
    var evs := failures + [Call(at + Max(0, c.cooldown))];
    FailuresOpen(c, Max(1, c.threshold), at);
    BreakerTracksItsHistory(c, failures);
    RefusesUntilCooldown(c, Run(c, failures), at + Max(0, c.cooldown));
    assert evs[..|evs| - 1] == failures;
    HalfOpenAdmitsEveryCall(c, evs, probes);
  }

  // ---------- the object ----------

  class Circuit {
    const config: Config
    var state: State
    var failureCount: nat
    var openedAt: Option<int>
    var nextAttemptAt: Option<int>
    var successCount: nat

    function View(): Breaker
      reads this
    {
      Breaker(state, failureCount, openedAt, nextAttemptAt, successCount)
    }

    constructor (config: Config)
      ensures this.config == config && View() == START
    {
      this.config := config;
      state, failureCount, openedAt, nextAttemptAt, successCount := Closed, 0, None, None, 0;
    }

    /** The head of call: refuse, or let the call through, half-opening an open breaker. */
    method Admit(now: int) returns (admitted: bool)
      modifies this
      ensures View() == Begin(config, old(View()), now)
      ensures admitted <==> !Refuses(config, old(View()), now)
    {
      if state == Open {
        var since := if openedAt.Some? && openedAt.value != 0 then openedAt.value
                     else if nextAttemptAt.Some? && nextAttemptAt.value != 0 then nextAttemptAt.value - config.cooldown
                     else now;
        var elapsed := now - since;
        var remaining := config.cooldown - elapsed;
        if remaining > 0 { return false; }
        state := HalfOpen;
      }
      return true;
    }

    method Succeeded()
      modifies this
      ensures View() == OnSuccess(old(View()))
    {
      if state == HalfOpen {
        state := Closed;
        failureCount := 0;
        openedAt, nextAttemptAt := None, None;
      } else {
        failureCount := 0;
      }
      successCount := successCount + 1;
    }

    method FailedAt(now: int)
      modifies this
      ensures View() == OnFailure(config, old(View()), now)
    {
      failureCount := failureCount + 1;
      if state == HalfOpen || failureCount >= config.threshold {
        state := Open;
        openedAt := Some(now);
        nextAttemptAt := Some(now + config.cooldown);
      }
    }

    method ResetByHand()
      modifies this
      ensures View() == Reset(old(View()))
    {
      state, failureCount, openedAt, nextAttemptAt := Closed, 0, None, None;
    }
  }
}
