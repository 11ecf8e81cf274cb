/**
 * The sliding-window limiter (src/common/utils/rate-limiter.util.js). The program
 * forgets timestamps that have left the window; the theorems compare it with a
 * limiter that remembers every admission.
 */
module RateLimiter {
  import opened Prelude

  datatype Config = Config(windowMs: int, maxRequests: int)

  /** resetTimeMs is None where the program computes with a missing timestamp. */
  datatype Decision = Decision(allowed: bool, remaining: int, resetTimeMs: Option<int>, total: nat)

  function After(ts: seq<int>, cut: int): seq<int> {
    if ts == [] then []
    else After(ts[..|ts| - 1], cut) + (if ts[|ts| - 1] > cut then [ts[|ts| - 1]] else [])
  }

  function Decide(c: Config, ts: seq<int>, now: int): (seq<int>, Decision) {
    var kept := After(ts, now - c.windowMs);
    if |kept| >= c.maxRequests then
      (kept, Decision(false, 0, if kept == [] then None else Some(kept[0] + c.windowMs), |kept|))
    else
      var pushed := kept + [now];
      (pushed, Decision(true, Max(0, c.maxRequests - |pushed|), Some(pushed[0] + c.windowMs), |pushed|))
  }

  /** The limiter that forgets nothing: fewer than maxRequests admissions inside the window. */
  predicate Allows(c: Config, admitted: seq<int>, now: int) {
    |After(admitted, now - c.windowMs)| < c.maxRequests
  }

  /** Stored timestamps and all admissions of one key after checks at the given times. */
  function Run(c: Config, times: seq<int>): (seq<int>, seq<int>) {
    if times == [] then ([], [])
    else
      var (kept, admitted) := Run(c, times[..|times| - 1]);
      var now := times[|times| - 1];
      var (kept', decision) := Decide(c, kept, now);
      (kept', if decision.allowed then admitted + [now] else admitted)
  }

  ghost predicate Sorted(ts: seq<int>) {
    forall i, j | 0 <= i < j < |ts| :: ts[i] <= ts[j]
  }

  /** How many of the times lie in (lo, hi]. */
  function CountIn(ts: seq<int>, lo: int, hi: int): nat {
    if ts == [] then 0
    else CountIn(ts[..|ts| - 1], lo, hi) + (if lo < ts[|ts| - 1] <= hi then 1 else 0)
  }

  lemma {:induction false} CutTwice(ts: seq<int>, early: int, late: int)
    requires early <= late
    ensures After(After(ts, early), late) == After(ts, late)
  {
    if ts != [] {
      var n := |ts| - 1;
      CutTwice(ts[..n], early, late);
      var front := After(ts[..n], early);
      if ts[n] > early {
        assert (front + [ts[n]])[..|front|] == front;
      } else {
        assert front + [] == front;
      }
    }
  }

  lemma AfterAppend(ts: seq<int>, x: int, cut: int)
    ensures After(ts + [x], cut) == After(ts, cut) + (if x > cut then [x] else [])
  {
    assert (ts + [x])[..|ts|] == ts;
  }

  lemma SortedPrefix(times: seq<int>, now: int)
    requires Sorted(times + [now])
    ensures Sorted(times) && (times != [] ==> times[|times| - 1] <= now)
    ensures forall i | 0 <= i < |times| :: times[i] <= now
  {
    assert forall i | 0 <= i < |times| :: (times + [now])[i] == times[i];
    assert (times + [now])[|times|] == now;
  }

  lemma CheckSeesTheSame(c: Config, kept: seq<int>, admitted: seq<int>, now: int, cut: int)
    requires now - c.windowMs <= cut && After(kept, cut) == After(admitted, cut)
    ensures var (kept', decision) := Decide(c, kept, now);
      After(kept', cut) == After(if decision.allowed then admitted + [now] else admitted, cut)
  {
    CutTwice(kept, now - c.windowMs, cut);
    AfterAppend(After(kept, now - c.windowMs), now, cut);
    AfterAppend(admitted, now, cut);
    hide After;
  }

  /** Later checks cannot tell the pruned list from the full history. */
  lemma {:induction false} PrunedSeesTheSame(c: Config, times: seq<int>, cut: int)
    requires Sorted(times) && (times != [] ==> cut >= times[|times| - 1] - c.windowMs)
    ensures After(Run(c, times).0, cut) == After(Run(c, times).1, cut)
  {
    if times != [] {
      hide After;
      var n := |times| - 1;
      assert times == times[..n] + [times[n]];
      SortedPrefix(times[..n], times[n]);
      PrunedSeesTheSame(c, times[..n], cut);
      CheckSeesTheSame(c, Run(c, times[..n]).0, Run(c, times[..n]).1, times[n], cut);
    }
  }

  /** Every decision is the one a limiter with perfect memory would take. */
  lemma DecisionsMatchFullHistory(c: Config, times: seq<int>, now: int)
    requires Sorted(times + [now])
    ensures Decide(c, Run(c, times).0, now).1.allowed <==> Allows(c, Run(c, times).1, now)
  {
    hide Run;
    hide After;
    SortedPrefix(times, now);
    PrunedSeesTheSame(c, times, now - c.windowMs);
  }

  lemma {:induction false} AfterMembers(ts: seq<int>, cut: int, t: int)
    ensures t in After(ts, cut) <==> t in ts && t > cut
  {
    if ts != [] {
      var n := |ts| - 1;
      AfterMembers(ts[..n], cut, t);
      assert ts == ts[..n] + [ts[n]];
    }
  }

  /** What Decide reports, in terms of the list it prunes to. */
  lemma DecideReports(c: Config, stored: seq<int>, now: int)
    ensures var d, kept := Decide(c, stored, now).1, After(stored, now - c.windowMs);
      && (d.allowed <==> |kept| < c.maxRequests) && d.total == |kept| + (if d.allowed then 1 else 0)
      && d.remaining == (if d.allowed then c.maxRequests - d.total else 0)
      && (d.resetTimeMs.Some? <==> d.allowed || kept != [])
      && (kept != [] ==> d.resetTimeMs == Some(kept[0] + c.windowMs))
      && (kept == [] && d.allowed ==> d.resetTimeMs == Some(now + c.windowMs))
  {
    hide After;
  }

  /**
   * What a check reports, in counts of the full history: it is admitted exactly with fewer
   * than maxRequests admissions in the window, and says how many there are then and how
   * many more would fit.
   */
  lemma DecisionCountsTheWindow(c: Config, times: seq<int>, now: int)
    requires Sorted(times + [now])
    ensures var d, n := Decide(c, Run(c, times).0, now).1, CountIn(Run(c, times).1, now - c.windowMs, now);
      && (d.allowed <==> n < c.maxRequests) && d.total == n + (if d.allowed then 1 else 0)
      && d.remaining == (if d.allowed then c.maxRequests - d.total else 0)
      && (d.resetTimeMs.Some? <==> d.allowed || n > 0)
  {
    hide Run;
    hide Decide;
    hide After;
    hide CountIn;
    SortedPrefix(times, now);
    PrunedSeesTheSame(c, times, now - c.windowMs);
    AdmissionsInOrder(c, times);
    CountIsLength(Run(c, times).1, now - c.windowMs, now);
    DecideReports(c, Run(c, times).0, now);
  }

  /** The reset time it reports is when the oldest admission of the window leaves it, this one included if admitted. */
  lemma OldestSetsTheReset(c: Config, times: seq<int>, now: int)
    requires Sorted(times + [now]) && Decide(c, Run(c, times).0, now).1.resetTimeMs.Some?
    ensures var oldest, admitted := Decide(c, Run(c, times).0, now).1.resetTimeMs.value - c.windowMs, Run(c, times).1;
      && ((oldest in admitted && oldest > now - c.windowMs)
          || (oldest == now && forall t | t in admitted :: t <= now - c.windowMs))
      && forall t | t in admitted && t > now - c.windowMs :: oldest <= t
  {
    hide Run;
    hide Decide;
    hide After;
    hide CountIn;
    SortedPrefix(times, now);
    PrunedSeesTheSame(c, times, now - c.windowMs);
    AdmissionsInOrder(c, times);
    var admitted := Run(c, times).1;
    DecideReports(c, Run(c, times).0, now);
    OldestFirst(admitted, now - c.windowMs);
  }

  lemma OldestFirst(admitted: seq<int>, cut: int)
    requires Sorted(admitted)
    ensures var kept := After(admitted, cut);
      if kept == [] then forall t | t in admitted :: t <= cut
      else kept[0] in admitted && kept[0] > cut && forall t | t in admitted && t > cut :: kept[0] <= t
  {
    hide After;
    AfterOfSorted(admitted, cut);
    var kept := After(admitted, cut);
    forall t | t in admitted && t > cut ensures kept != [] && kept[0] <= t {
      AfterMembers(admitted, cut, t);
      var i :| 0 <= i < |kept| && kept[i] == t;
    }
  }

  /** Admissions are in order, and none is later than the last check. */
  lemma {:induction false} AdmissionsInOrder(c: Config, times: seq<int>)
    requires Sorted(times)
    ensures Sorted(Run(c, times).1)
    ensures forall i | 0 <= i < |Run(c, times).1| :: times != [] && Run(c, times).1[i] <= times[|times| - 1]
  {
    if times != [] {
      var n := |times| - 1;
      assert n > 0 ==> times[n - 1] <= times[n];
      AdmissionsInOrder(c, times[..n]);
    }
  }

  lemma {:induction false} CountWithin(ts: seq<int>, cut: int, lo: int, hi: int)
    requires cut <= lo
    ensures CountIn(ts, lo, hi) <= |After(ts, cut)|
  {
    if ts != [] { CountWithin(ts[..|ts| - 1], cut, lo, hi); }
  }

  lemma CountAppend(ts: seq<int>, x: int, lo: int, hi: int)
    ensures CountIn(ts + [x], lo, hi) == CountIn(ts, lo, hi) + (if lo < x <= hi then 1 else 0)
  {
    assert (ts + [x])[..|ts|] == ts;
  }

  /** What the full history allows does not overfill any window. */
  lemma AdmissionFits(c: Config, admitted: seq<int>, now: int, T: int)
    requires Allows(c, admitted, now) && CountIn(admitted, T - c.windowMs, T) <= Max(0, c.maxRequests)
    ensures CountIn(admitted + [now], T - c.windowMs, T) <= Max(0, c.maxRequests)
  {
    hide After;
    hide CountIn;
    CountAppend(admitted, now, T - c.windowMs, T);
    if now <= T { CountWithin(admitted, now - c.windowMs, T - c.windowMs, T); }
  }

  /** The last check of a run admits exactly what its decision says. */
  lemma LastAdmission(c: Config, times: seq<int>)
    requires times != []
    ensures var n := |times| - 1;
      var admitted := Run(c, times[..n]).1;
      Run(c, times).1 == if Decide(c, Run(c, times[..n]).0, times[n]).1.allowed then admitted + [times[n]] else admitted
  {
    hide After;
  }

  /** No window (T - windowMs, T], wherever it ends, contains more than maxRequests admissions. */
  lemma {:induction false} NoWindowOverflows(c: Config, times: seq<int>, T: int)
    requires Sorted(times)
    ensures CountIn(Run(c, times).1, T - c.windowMs, T) <= Max(0, c.maxRequests)
  {
    if times == [] {
    } else {
      var n := |times| - 1;
      assert times == times[..n] + [times[n]];
      SortedPrefix(times[..n], times[n]);
      LastAdmission(c, times);
      DecisionsMatchFullHistory(c, times[..n], times[n]);
      hide *;
      NoWindowOverflows(c, times[..n], T);
      var admitted := Run(c, times[..n]).1;
      if Allows(c, admitted, times[n]) { AdmissionFits(c, admitted, times[n], T); }
    }
  }

  lemma {:induction false} AfterOfSorted(ts: seq<int>, cut: int)
    requires Sorted(ts)
    ensures Sorted(After(ts, cut))
    ensures forall i | 0 <= i < |After(ts, cut)| :: After(ts, cut)[i] > cut && After(ts, cut)[i] in ts
  {
    if ts != [] { AfterOfSorted(ts[..|ts| - 1], cut); }
  }

  lemma {:induction false} CountIsLength(ts: seq<int>, lo: int, hi: int)
    requires forall i | 0 <= i < |ts| :: ts[i] <= hi
    ensures CountIn(ts, lo, hi) == |After(ts, lo)|
  {
    if ts != [] { CountIsLength(ts[..|ts| - 1], lo, hi); }
  }

  lemma {:induction false} AfterKeepsAll(ts: seq<int>, cut: int)
    requires forall i | 0 <= i < |ts| :: ts[i] > cut
    ensures After(ts, cut) == ts
  {
    if ts != [] { AfterKeepsAll(ts[..|ts| - 1], cut); }
  }

  lemma {:induction false} AfterDropsFirst(ts: seq<int>, cut: int)
    requires ts != [] && ts[0] <= cut
    ensures |After(ts, cut)| < |ts|
  {
    if |ts| > 1 { AfterDropsFirst(ts[..|ts| - 1], cut); }
  }

  /** A full window lets the next call in exactly when its oldest admission has left it. */
  lemma FullWindowReopens(visible: seq<int>, windowMs: int, later: int)
    requires Sorted(visible) && visible != []
    ensures |After(visible, later - windowMs)| < |visible| <==> later >= visible[0] + windowMs
  {
    if later < visible[0] + windowMs {
      AfterKeepsAll(visible, later - windowMs);
    } else {
      AfterDropsFirst(visible, later - windowMs);
    }
  }

  lemma FullWindowIsExactlyFull(c: Config, times: seq<int>, now: int)
    requires Sorted(times + [now]) && !Decide(c, Run(c, times).0, now).1.allowed
    ensures Sorted(times)
    ensures |After(Run(c, times).1, now - c.windowMs)| == Max(0, c.maxRequests)
    ensures After(Run(c, times).0, now - c.windowMs) == After(Run(c, times).1, now - c.windowMs)
    ensures Sorted(After(Run(c, times).1, now - c.windowMs))
  {
    hide Run;
    hide After;
    SortedPrefix(times, now);
    var admitted := Run(c, times).1;
    PrunedSeesTheSame(c, times, now - c.windowMs);
    AdmissionsInOrder(c, times);
    NoWindowOverflows(c, times, now);
    CountIsLength(admitted, now - c.windowMs, now);
    AfterOfSorted(admitted, now - c.windowMs);
  }

  /**
   * A rejection's reset time is exact: as long as nothing more is admitted, a check
   * is admitted from that moment on and at no moment before. A limit below 1 admits
   * nothing, and then no reset time is given.
   */
  lemma ResetTimeIsExact(c: Config, times: seq<int>, now: int, later: int)
    requires Sorted(times + [now]) && now <= later
    requires !Decide(c, Run(c, times).0, now).1.allowed
    ensures Decide(c, Run(c, times).0, now).1.resetTimeMs.Some? <==> c.maxRequests >= 1
    ensures Allows(c, Run(c, times).1, later)
       <==> c.maxRequests >= 1 && later >= Decide(c, Run(c, times).0, now).1.resetTimeMs.value
  {
    hide Run;
    hide After;
    hide Sorted;
    FullWindowIsExactlyFull(c, times, now);
    var admitted := Run(c, times).1;
    CutTwice(admitted, now - c.windowMs, later - c.windowMs);
    if c.maxRequests >= 1 { FullWindowReopens(After(admitted, now - c.windowMs), c.windowMs, later); }
  }

  /** Until the reset time every further check is rejected and leaves the admissions alone; the next one is admitted. */
  lemma {:induction false} RejectedUntilReset(c: Config, times: seq<int>, now: int, between: seq<int>, later: int)
    requires c.maxRequests >= 1 && Sorted(times + [now] + between + [later])
    requires !Decide(c, Run(c, times).0, now).1.allowed
    requires forall i | 0 <= i < |between| :: between[i] < Decide(c, Run(c, times).0, now).1.resetTimeMs.value
    ensures Run(c, times + [now] + between).1 == Run(c, times).1
    ensures Decide(c, Run(c, times + [now] + between).0, later).1.allowed
       <==> later >= Decide(c, Run(c, times).0, now).1.resetTimeMs.value
    decreases |between|
  {
    var all := times + [now] + between;
    var whole := all + [later];
    SortedParts(times, now, between, later);
    if between == [] {
      assert all == times + [now];
      assert all[..|times|] == times;
    } else {
      var n := |between| - 1;
      assert all[..|all| - 1] == times + [now] + between[..n];
      RejectedUntilReset(c, times, now, between[..n], between[n]);
    }
    ResetTimeIsExact(c, times, now, later);
    DecisionsMatchFullHistory(c, all, later);
  }

  lemma SortedParts(times: seq<int>, now: int, between: seq<int>, later: int)
    requires Sorted(times + [now] + between + [later])
    ensures Sorted(times + [now]) && now <= later
    ensures between != [] ==> Sorted(times + [now] + between[..|between| - 1] + [between[|between| - 1]])
  {
    var whole := times + [now] + between + [later];
    assert whole[..|times| + 1] == times + [now];
    assert whole[|times|] == now && whole[|whole| - 1] == later;
    if between != [] {
      assert times + [now] + between[..|between| - 1] + [between[|between| - 1]] == whole[..|whole| - 1];
    }
  }

  lemma RunAppend(c: Config, times: seq<int>, now: int)
    ensures Run(c, times + [now]).0 == Decide(c, Run(c, times).0, now).0
    ensures times == [] ==> Run(c, times).0 == []
  {
    assert (times + [now])[..|times|] == times;
  }

  // ---------- the limiter ----------

  class Limiter {
    const config: Config
    var hits: map<string, seq<int>>
    /** The times of all checks of a key since it was last reset. */
    ghost var checks: map<string, seq<int>>

    ghost predicate Valid()
      reads this
    {
      && checks.Keys == hits.Keys
      && forall k | k in hits :: Sorted(checks[k]) && hits[k] == Run(config, checks[k]).0
    }

    ghost function Checks(key: string): seq<int>
      reads this
    {
      if key in checks then checks[key] else []
    }

    /** Zero or missing options take their defaults. */
    constructor (windowMs: int, maxRequests: int)
      ensures Valid() && hits == map[]
      ensures config == Config(if windowMs == 0 then 60000 else windowMs, if maxRequests == 0 then 100 else maxRequests)
    {
      config := Config(if windowMs == 0 then 60000 else windowMs, if maxRequests == 0 then 100 else maxRequests);
      hits, checks := map[], map[];
    }

    method Check(key: string, now: int) returns (d: Decision)
      requires Valid() && Sorted(Checks(key) + [now])
      modifies this
      ensures Valid() && Checks(key) == old(Checks(key)) + [now]
      ensures forall k | k != key :: Checks(k) == old(Checks(k))
      ensures d == Decide(config, Run(config, old(Checks(key))).0, now).1
      ensures d.allowed <==> Allows(config, Run(config, old(Checks(key))).1, now)
    {
      hide After;
      hide Sorted;
      hide Allows;
      hide Run;
      ghost var before := Checks(key);
      DecisionsMatchFullHistory(config, before, now);
      RunAppend(config, before, now);
      var windowStart := now - config.windowMs;
      var timestamps := if key in hits then hits[key] else [];
      timestamps := After(timestamps, windowStart);
      if |timestamps| >= config.maxRequests {
        d := Decision(false, 0, if timestamps == [] then None else Some(timestamps[0] + config.windowMs), |timestamps|);
      } else {
        timestamps := timestamps + [now];
        d := Decision(true, Max(0, config.maxRequests - |timestamps|), Some(timestamps[0] + config.windowMs),
                      |timestamps|);
      }
      assert (timestamps, d) == Decide(config, Run(config, before).0, now);
      hide Decide;
      hits := hits[key := timestamps];
      checks := checks[key := before + [now]];
    }

    method Reset(key: string)
      requires Valid()
      modifies this
      ensures Valid() && Checks(key) == [] && forall k | k != key :: Checks(k) == old(Checks(k))
    {
      hits, checks := hits - {key}, checks - {key};
    }
  }
}
