/**
 * The token bucket (src/common/utils/token-bucket-limiter.util.js) over exact
 * numbers: amounts may be fractional, the clock is in milliseconds.
 */
module TokenBucket {
  import opened Prelude

  datatype Bucket = Bucket(capacity: real, ratePerSec: real, tokens: real, lastRefill: int)

  function Seconds(from: int, to: int): real { (to - from) as real / 1000.0 }

  /** Tokens that come in between two times. */
  function Gain(from: int, to: int, ratePerSec: real): real { Seconds(from, to) * ratePerSec }

  function Refill(b: Bucket, now: int): Bucket {
    b.(tokens := MinReal(b.capacity, b.tokens + Gain(b.lastRefill, now, b.ratePerSec)), lastRefill := now)
  }

  predicate Grants(b: Bucket, now: int, amount: real) { Refill(b, now).tokens >= amount }

  /**
   * When an amount is granted, in tokens and milliseconds: it fits the capacity and what is
   * there plus what has come in since the last refill. It, and nothing else, is taken.
   */
  lemma GrantedExactlyWhen(b: Bucket, now: int, amount: real)
    ensures Grants(b, now, amount)
       <==> amount <= b.capacity && amount <= b.tokens + (now - b.lastRefill) as real / 1000.0 * b.ratePerSec
    ensures var after := TryConsume(b, now, amount);
      && after.tokens == MinReal(b.capacity, b.tokens + (now - b.lastRefill) as real / 1000.0 * b.ratePerSec)
                         - (if Grants(b, now, amount) then amount else 0.0)
      && after == b.(tokens := after.tokens, lastRefill := now)
  {
  }

  function TryConsume(b: Bucket, now: int, amount: real): Bucket {
    var filled := Refill(b, now);
    if filled.tokens >= amount then filled.(tokens := filled.tokens - amount) else filled
  }

  /** tryConsume, or getAvailableTokens, which only refills. */
  datatype Event = Consume(at: int, amount: real) | Look(at: int)

  function Apply(b: Bucket, ev: Event): Bucket {
    match ev
    case Consume(at, amount) => TryConsume(b, at, amount)
    case Look(at) => Refill(b, at)
  }

  function Run(b: Bucket, evs: seq<Event>): Bucket
    decreases |evs|
  {
    if evs == [] then b else Run(Apply(b, evs[0]), evs[1..])
  }

  /** The answers of the tryConsume calls, in order. */
  function Answers(b: Bucket, evs: seq<Event>): seq<bool>
    decreases |evs|
  {
    if evs == [] then []
    else
      (match evs[0] case Consume(at, amount) => [Grants(b, at, amount)] case Look(_) => [])
      + Answers(Apply(b, evs[0]), evs[1..])
  }

  function Taken(b: Bucket, ev: Event): real {
    if ev.Consume? && Grants(b, ev.at, ev.amount) then ev.amount else 0.0
  }

  /** How much the run takes out of the bucket. */
  function Consumed(b: Bucket, evs: seq<Event>): real
    decreases |evs|
  {
    if evs == [] then 0.0
    else
      Taken(b, evs[0]) + Consumed(Apply(b, evs[0]), evs[1..])
  }

  /** Events happen at or after the last refill, in order. */
  predicate ClockRuns(from: int, evs: seq<Event>)
    decreases |evs|
  {
    evs != [] ==> from <= evs[0].at && ClockRuns(evs[0].at, evs[1..])
  }

  predicate InBounds(b: Bucket) { 0.0 <= b.tokens <= b.capacity }

  predicate NoNegativeAmounts(evs: seq<Event>) {
    forall i | 0 <= i < |evs| && evs[i].Consume? :: evs[i].amount >= 0.0
  }

  lemma GainIsNonNegative(from: int, to: int, rate: real)
    requires from <= to && rate >= 0.0
    ensures Gain(from, to, rate) >= 0.0
  {
  }

  lemma GainsAdd(a: int, b: int, c: int, rate: real)
    ensures Gain(a, b, rate) + Gain(b, c, rate) == Gain(a, c, rate)
    ensures Gain(a, a, rate) == 0.0
  {
    assert Seconds(a, b) + Seconds(b, c) == Seconds(a, c);
  }

  lemma {:induction false} StaysInBounds(b: Bucket, evs: seq<Event>)
    requires InBounds(b) && b.ratePerSec >= 0.0 && ClockRuns(b.lastRefill, evs) && NoNegativeAmounts(evs)
    ensures InBounds(Run(b, evs))
    decreases |evs|
  {
    if evs != [] {
      GainIsNonNegative(b.lastRefill, evs[0].at, b.ratePerSec);
      StaysInBounds(Apply(b, evs[0]), evs[1..]);
    }
  }

  /** One call keeps the bounds exactly when it does not hand back more than the refilled bucket lacks. */
  lemma OneCallStaysInBounds(b: Bucket, now: int, amount: real)
    requires InBounds(b) && b.ratePerSec >= 0.0 && b.lastRefill <= now
    ensures InBounds(TryConsume(b, now, amount)) <==> -amount <= b.capacity - Refill(b, now).tokens
  {
    GainIsNonNegative(b.lastRefill, now, b.ratePerSec);
  }

  /** Every call hands back no more than the bucket lacks when it is refilled for that call. */
  predicate HandsBackWhatFits(b: Bucket, evs: seq<Event>)
    decreases |evs|
  {
    evs != [] ==>
      && (evs[0].Consume? ==> -evs[0].amount <= b.capacity - Refill(b, evs[0].at).tokens)
      && HandsBackWhatFits(Apply(b, evs[0]), evs[1..])
  }

  lemma StepStaysInBounds(b: Bucket, ev: Event)
    requires InBounds(b) && b.ratePerSec >= 0.0 && b.lastRefill <= ev.at
    ensures InBounds(Apply(b, ev)) <==> (ev.Consume? ==> -ev.amount <= b.capacity - Refill(b, ev.at).tokens)
    ensures Apply(b, ev).ratePerSec == b.ratePerSec && Apply(b, ev).lastRefill == ev.at
  {
    GainIsNonNegative(b.lastRefill, ev.at, b.ratePerSec);
    if ev.Consume? { OneCallStaysInBounds(b, ev.at, ev.amount); }
    hide Gain;
  }

  lemma RunTail(b: Bucket, evs: seq<Event>, n: nat)
    requires evs != [] && 0 < n <= |evs|
    ensures Run(b, evs[..n]) == Run(Apply(b, evs[0]), evs[1..][..n - 1])
  {
    hide Apply;
    assert evs[..n][0] == evs[0] && evs[..n][1..] == evs[1..][..n - 1];
  }

  /** Over a run with any amounts every point is in bounds exactly if each call hands back no more than fits. */
  lemma {:induction false} RunStaysInBounds(b: Bucket, evs: seq<Event>)
    requires InBounds(b) && b.ratePerSec >= 0.0 && ClockRuns(b.lastRefill, evs)
    ensures HandsBackWhatFits(b, evs) <==> forall n | 0 <= n <= |evs| :: InBounds(Run(b, evs[..n]))
    decreases |evs|
  {
    hide Apply;
    hide Refill;
    hide InBounds;
    assert Run(b, evs[..0]) == b;
    if evs != [] {
      var b' := Apply(b, evs[0]);
      StepStaysInBounds(b, evs[0]);
      forall n | 0 < n <= |evs| ensures Run(b, evs[..n]) == Run(b', evs[1..][..n - 1]) { RunTail(b, evs, n); }
      assert Run(b', evs[1..][..0]) == b';
      if InBounds(b') {
        RunStaysInBounds(b', evs[1..]);
        if HandsBackWhatFits(b, evs) {
          forall n | 0 < n <= |evs| ensures InBounds(Run(b, evs[..n])) {
            assert InBounds(Run(b', evs[1..][..n - 1]));
          }
        } else {
          var m :| 0 <= m <= |evs[1..]| && !InBounds(Run(b', evs[1..][..m]));
          assert !InBounds(Run(b, evs[..m + 1]));
        }
      } else {
        assert !InBounds(Run(b, evs[..1]));
      }
    }
  }

  function EndOf(from: int, evs: seq<Event>): int { if evs == [] then from else evs[|evs| - 1].at }

  lemma StepIsPaidFor(b: Bucket, ev: Event)
    ensures Taken(b, ev) + Apply(b, ev).tokens <= b.tokens + Gain(b.lastRefill, ev.at, b.ratePerSec)
    ensures Apply(b, ev).lastRefill == ev.at && Apply(b, ev).ratePerSec == b.ratePerSec
    ensures Apply(b, ev).capacity == b.capacity
  {
    hide Gain;
  }

  /** What is consumed is at most what was there plus what came in, less what is left. */
  lemma {:induction false} ConsumptionIsPaidFor(b: Bucket, evs: seq<Event>)
    requires b.ratePerSec >= 0.0 && ClockRuns(b.lastRefill, evs)
    ensures Consumed(b, evs) + Run(b, evs).tokens
         <= b.tokens + Gain(b.lastRefill, EndOf(b.lastRefill, evs), b.ratePerSec)
    decreases |evs|
  {
    hide Gain;
    hide Apply;
    hide Taken;
    if evs == [] {
      GainsAdd(b.lastRefill, b.lastRefill, b.lastRefill, b.ratePerSec);
    } else {
      StepIsPaidFor(b, evs[0]);
      ConsumptionIsPaidFor(Apply(b, evs[0]), evs[1..]);
      GainsAdd(b.lastRefill, evs[0].at, EndOf(b.lastRefill, evs), b.ratePerSec);
    }
  }

  /**
   * Between any two points of any run, no more is consumed than the capacity plus the
   * refill of the time between them.
   */
  lemma BurstIsBounded(b: Bucket, before: seq<Event>, window: seq<Event>)
    requires InBounds(b) && b.ratePerSec >= 0.0
    requires ClockRuns(b.lastRefill, before) && NoNegativeAmounts(before)
    requires ClockRuns(Run(b, before).lastRefill, window) && NoNegativeAmounts(window)
    ensures var start := Run(b, before);
      Consumed(start, window)
      <= b.capacity + Gain(start.lastRefill, EndOf(start.lastRefill, window), b.ratePerSec)
  {
    hide Gain;
    hide Apply;
    StaysInBounds(b, before);
    RunKeepsShape(b, before);
    var start := Run(b, before);
    StaysInBounds(start, window);
    ConsumptionIsPaidFor(start, window);
  }

  lemma {:induction false} RunKeepsShape(b: Bucket, evs: seq<Event>)
    ensures Run(b, evs).capacity == b.capacity && Run(b, evs).ratePerSec == b.ratePerSec
    decreases |evs|
  {
    if evs != [] { RunKeepsShape(Apply(b, evs[0]), evs[1..]); }
  }

  // ---------- looking does not matter ----------

  /** Refilling twice is refilling once. */
  lemma RefillTwice(b: Bucket, t: int, u: int)
    requires b.ratePerSec >= 0.0 && t <= u
    ensures Refill(Refill(b, t), u) == Refill(b, u)
  {
    GainIsNonNegative(t, u, b.ratePerSec);
    GainsAdd(b.lastRefill, t, u, b.ratePerSec);
  }

  /** b is at least as recently refilled as a, and otherwise the same bucket. */
  predicate Fresher(a: Bucket, b: Bucket) {
    && a.capacity == b.capacity && a.ratePerSec == b.ratePerSec && a.lastRefill <= b.lastRefill
    && Refill(a, b.lastRefill) == Refill(b, b.lastRefill)
  }

  lemma FresherRefillsAlike(a: Bucket, b: Bucket, t: int)
    requires Fresher(a, b) && a.ratePerSec >= 0.0 && b.lastRefill <= t
    ensures Refill(a, t) == Refill(b, t)
  {
    RefillTwice(a, b.lastRefill, t);
    RefillTwice(b, b.lastRefill, t);
  }

  function WithoutLooks(evs: seq<Event>): seq<Event> {
    if evs == [] then []
    else (if evs[0].Consume? then [evs[0]] else []) + WithoutLooks(evs[1..])
  }

  lemma {:induction false} LooksKeepAnswersFrom(a: Bucket, b: Bucket, evs: seq<Event>)
    requires Fresher(a, b) && a.ratePerSec >= 0.0 && ClockRuns(b.lastRefill, evs)
    ensures Answers(b, evs) == Answers(a, WithoutLooks(evs))
    decreases |evs|
  {
    if evs != [] {
      var ev, rest := evs[0], evs[1..];
      FresherRefillsAlike(a, b, ev.at);
      match ev
      case Consume(at, amount) =>
        assert Apply(a, ev) == Apply(b, ev);
        assert WithoutLooks(evs)[0] == ev && WithoutLooks(evs)[1..] == WithoutLooks(rest);
        LooksKeepAnswersFrom(Apply(a, ev), Apply(b, ev), rest);
      case Look(at) =>
        RefillTwice(b, at, at);
        LooksKeepAnswersFrom(a, Apply(b, ev), rest);
        assert WithoutLooks(evs) == WithoutLooks(rest);
    }
  }

  /** Looking at the bucket in between, however often, changes no answer of any run. */
  lemma LooksChangeNoAnswer(b: Bucket, evs: seq<Event>)
    requires b.ratePerSec >= 0.0 && ClockRuns(b.lastRefill, evs)
    ensures Answers(b, evs) == Answers(b, WithoutLooks(evs))
  {
    LooksKeepAnswersFrom(b, b, evs);
  }

  // ---------- the limiter ----------

  class Limiter {
    const capacity: real
    const refillRatePerSec: real
    var tokens: real
    var lastRefill: int

    ghost function View(): Bucket
      reads this
    {
      Bucket(capacity, refillRatePerSec, tokens, lastRefill)
    }

    /** Zero or missing options take their defaults; the bucket starts full. */
    constructor (capacity: real, refillRatePerSec: real, now: int)
      ensures View().tokens == View().capacity != 0.0 && View().lastRefill == now
      ensures View().capacity == (if capacity == 0.0 then 10.0 else capacity)
      ensures View().ratePerSec == (if refillRatePerSec == 0.0 then 5.0 else refillRatePerSec)
    {
      this.capacity := if capacity == 0.0 then 10.0 else capacity;
      this.refillRatePerSec := if refillRatePerSec == 0.0 then 5.0 else refillRatePerSec;
      tokens := if capacity == 0.0 then 10.0 else capacity;
      lastRefill := now;
    }

    method RefillTokens(now: int)
      modifies this
      ensures View() == Refill(old(View()), now)
    {
      var elapsedSeconds := (now - lastRefill) as real / 1000.0;
      tokens := MinReal(capacity, tokens + elapsedSeconds * refillRatePerSec);
      lastRefill := now;
    }

    method Consume(now: int, amount: real) returns (granted: bool)
      modifies this
      ensures View() == TryConsume(old(View()), now, amount)
      ensures granted == Grants(old(View()), now, amount)
    {
      RefillTokens(now);
      if tokens >= amount {
        tokens := tokens - amount;
        return true;
      }
      return false;
    }
  }
}
