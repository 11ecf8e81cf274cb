/**
 * The dead-letter queue (src/common/utils/dead-letter-queue.util.js). Its Map of
 * messages is a sequence of records in insertion order with distinct ids. A
 * redrive awaits its processor between reading the message and removing or
 * re-enqueueing it, so it is two steps, a start and a finish, with anything in
 * between; module Redrives is about overlapping ones.
 */
module DeadLetterQueue {
  import opened Prelude

  datatype Config = Config(maxRetries: int, baseBackoffMs: real, maxBackoffMs: real, maxCapacity: int)

  datatype Message = Message(
    id: string, channel: string, payload: string, attempts: nat, lastError: string,
    createdAt: int, updatedAt: int, isPoison: bool, nextRetryAt: int)

  /** What enqueue is given, with the clock and the random number it draws. */
  datatype Item = Item(id: string, channel: string, payload: string, error: string, now: int, random: real)

  datatype Dlq = Dlq(messages: seq<Message>, totalEnqueued: nat, totalRedriven: nat, totalEvicted: nat)

  const START := Dlq([], 0, 0, 0)

  function CappedDelay(c: Config, attempt: nat): real {
    MinReal(Product(c.baseBackoffMs, Power2(Min(attempt, 10)) as real), c.maxBackoffMs)
  }

  /** The delay with its jitter, at most 20 percent of it. */
  function Wait(delay: real, random: real): real { delay + Product(delay * 0.2, random) }

  function NextRetry(c: Config, attempt: nat, now: int, random: real): int {
    now + Wait(CappedDelay(c, attempt), random).Floor
  }

  /**
   * Retries back off: the wait is never negative, grows with the attempts for equal
   * jitter, and exceeds the configured maximum by the 20 percent jitter at most.
   */
  lemma BackoffGrowsUpToTheCap(c: Config, a: nat, b: nat, now: int, random: real)
    requires c.baseBackoffMs >= 0.0 && c.maxBackoffMs >= 0.0 && 0.0 <= random < 1.0 && a <= b
    ensures now <= NextRetry(c, a, now, random) <= NextRetry(c, b, now, random)
    ensures NextRetry(c, b, now, random) <= now + (1.2 * c.maxBackoffMs).Floor
  {
    hide CappedDelay;
    hide Wait;
    DelayGrows(c, a, b);
    WaitGrows(CappedDelay(c, a), CappedDelay(c, b), c.maxBackoffMs, random);
  }

  lemma DelayGrows(c: Config, a: nat, b: nat)
    requires c.baseBackoffMs >= 0.0 && c.maxBackoffMs >= 0.0 && a <= b
    ensures 0.0 <= CappedDelay(c, a) <= CappedDelay(c, b) <= c.maxBackoffMs
  {
    var m, n := Power2(Min(a, 10)), Power2(Min(b, 10));
    Power2Grows(Min(a, 10), Min(b, 10));
    hide Power2;
    hide Product;
    ProductUnits(c.baseBackoffMs);
    ProductGrowsRight(c.baseBackoffMs, 0.0, m as real);
    ProductGrowsRight(c.baseBackoffMs, m as real, n as real);
  }

  lemma WaitGrows(d: real, e: real, cap: real, random: real)
    requires 0.0 <= d <= e <= cap && 0.0 <= random < 1.0
    ensures 0.0 <= Wait(d, random) <= Wait(e, random) <= 1.2 * cap
  {
    hide Product;
    ProductUnits(d * 0.2);
    ProductGrowsRight(d * 0.2, 0.0, random);
    ProductGrows(d * 0.2, e * 0.2, random);
    WaitIsBelow(e, random);
  }

  lemma WaitIsBelow(d: real, random: real)
    requires 0.0 <= random < 1.0
    ensures d > 0.0 ==> Wait(d, random) < 1.2 * d
    ensures d <= 0.0 ==> Wait(d, random) <= d
  {
    hide Product;
    if d > 0.0 {
      ProductBelow(d * 0.2, random);
    } else {
      ProductGrows(d * 0.2, 0.0, random);
      ProductUnits(random);
    }
  }

  /** Every wait from the delay up to, but not including, 1.2 times the delay comes up. */
  lemma WaitReaches(d: real, wait: real) returns (random: real)
    requires 0.0 < d <= wait < 1.2 * d
    ensures 0.0 <= random < 1.0 && Wait(d, random) == wait
  {
    hide Product;
    random := (wait - d) / (d * 0.2);
    Quotient(d * 0.2, wait - d);
  }

  lemma WholeWait(wait: real, cap: real, now: int)
    ensures (now + wait.Floor) as real <= now as real + cap <==> wait < cap.Floor as real + 1.0
  {
    var w, whole := wait.Floor, cap.Floor;
    assert w as real <= wait < w as real + 1.0 && whole as real <= cap < whole as real + 1.0;
    WholeNumbers(w, wait, whole, cap);
    assert (now + w) as real == now as real + w as real;
  }

  lemma WholeNumbers(w: int, wait: real, whole: int, cap: real)
    requires w as real <= wait < w as real + 1.0 && whole as real <= cap < whole as real + 1.0
    ensures w as real <= cap <==> wait < whole as real + 1.0
  {
    if w <= whole { assert w as real <= whole as real; } else { assert w as real >= whole as real + 1.0; }
  }

  /**
   * The configured maximum bounds every wait exactly if it leaves room for the jitter:
   * no random number makes a retry later than maxBackoffMs if and only if 1.2 times the
   * capped delay stays within the next whole millisecond.
   */
  lemma CapIsKeptExactlyWithRoomForJitter(c: Config, attempt: nat, now: int)
    ensures (forall random | 0.0 <= random < 1.0 ::
               NextRetry(c, attempt, now, random) as real <= now as real + c.maxBackoffMs)
       <==> 1.2 * CappedDelay(c, attempt) <= c.maxBackoffMs.Floor as real + 1.0
  {
    var d, cap := CappedDelay(c, attempt), c.maxBackoffMs;
    assert d <= cap < cap.Floor as real + 1.0;
    hide CappedDelay;
    hide Wait;
    if 1.2 * d <= cap.Floor as real + 1.0 {
      forall random | 0.0 <= random < 1.0
        ensures NextRetry(c, attempt, now, random) as real <= now as real + cap
      {
        WaitIsBelow(d, random);
        WholeWait(Wait(d, random), cap, now);
      }
    } else {
      var random := WaitReaches(d, cap.Floor as real + 1.0);
      WholeWait(Wait(d, random), cap, now);
      assert NextRetry(c, attempt, now, random) as real > now as real + cap;
    }
  }

  /** With the default options the tenth retry already waits 500 ms longer than the maximum of 5000. */
  lemma DefaultCapIsExceeded(maxRetries: int, maxCapacity: int, now: int)
    ensures NextRetry(Config(maxRetries, 100.0, 5000.0, maxCapacity), 10, now, 0.5) == now + 5500
  {
    Power2Grows(6, 10);
    assert Power2(6) == 64;
    ProductGrowsRight(100.0, 64.0, Power2(10) as real);
    assert Product(100.0, 64.0) == 6400.0;
    assert CappedDelay(Config(maxRetries, 100.0, 5000.0, maxCapacity), 10) == 5000.0;
  }

  /** The position of id, or the length of the queue. */
  function Find(ms: seq<Message>, id: string): (i: nat)
    ensures i <= |ms| && (i < |ms| ==> ms[i].id == id)
    ensures forall j | 0 <= j < i :: ms[j].id != id
  {
    if ms == [] || ms[0].id == id then 0 else 1 + Find(ms[1..], id)
  }

  predicate Has(ms: seq<Message>, id: string) { Find(ms, id) < |ms| }

  /** One more failure of a stored message. */
  function Retried(c: Config, m: Message, item: Item): Message {
    m.(attempts := m.attempts + 1, lastError := item.error, updatedAt := item.now,
       isPoison := m.attempts + 1 >= c.maxRetries,
       nextRetryAt := NextRetry(c, m.attempts + 1, item.now, item.random))
  }

  /** A failure counts one attempt, reschedules from its own time, and poisons at the maximum. */
  lemma RetriedInFields(c: Config, m: Message, item: Item)
    ensures var r := Retried(c, m, item);
      && r.id == m.id && r.channel == m.channel && r.payload == m.payload && r.createdAt == m.createdAt
      && r.attempts == m.attempts + 1 && r.lastError == item.error && r.updatedAt == item.now
      && (r.isPoison <==> m.attempts + 1 >= c.maxRetries)
      && (c.baseBackoffMs >= 0.0 && c.maxBackoffMs >= 0.0 && 0.0 <= item.random < 1.0 ==> r.nextRetryAt >= item.now)
  {
    if c.baseBackoffMs >= 0.0 && c.maxBackoffMs >= 0.0 && 0.0 <= item.random < 1.0 {
      BackoffGrowsUpToTheCap(c, m.attempts + 1, m.attempts + 1, item.now, item.random);
    }
  }

  /** The delay doubles with each of the first ten attempts, from twice the base on, and no further. */
  lemma DelaysDoubleUpToTheTenth(c: Config, a: nat, now: int)
    requires c.baseBackoffMs >= 0.0 && c.maxBackoffMs >= 1024.0 * c.baseBackoffMs
    ensures NextRetry(c, 1, now, 0.0) == now + (2.0 * c.baseBackoffMs).Floor
    ensures a < 10 ==> CappedDelay(c, a + 1) == 2.0 * CappedDelay(c, a)
    ensures a >= 10 ==> NextRetry(c, a, now, 0.0) == now + (1024.0 * c.baseBackoffMs).Floor
  {
    UncappedDelay(c, 1);
    UncappedDelay(c, a);
    UncappedDelay(c, a + 1);
    assert Power2(10) == 1024 by { assert Power2(6) == 64; }
    assert Power2(1) == 2;
    Multiples(c.baseBackoffMs, Power2(Min(a, 10)) as real);
    hide Power2;
    if a < 10 { DoublePower(a); }
    hide CappedDelay;
    hide Product;
    ProductUnits(c.baseBackoffMs * 0.2);
    NoJitter(CappedDelay(c, 1));
    NoJitter(CappedDelay(c, a));
  }

  lemma DoublePower(n: nat)
    ensures Power2(n + 1) == 2 * Power2(n)
  {
  }

  lemma NoJitter(delay: real)
    ensures Wait(delay, 0.0) == delay
  {
    ProductUnits(delay * 0.2);
    hide Product;
  }

  lemma Multiples(x: real, k: real)
    ensures Product(x, 2.0 * k) == 2.0 * Product(x, k) && Product(x, 2.0) == 2.0 * x && Product(x, 1024.0) == 1024.0 * x
  {
  }

  /** Below a high enough maximum nothing is cut. */
  lemma UncappedDelay(c: Config, a: nat)
    requires c.baseBackoffMs >= 0.0 && c.maxBackoffMs >= 1024.0 * c.baseBackoffMs
    ensures CappedDelay(c, a) == Product(c.baseBackoffMs, Power2(Min(a, 10)) as real)
  {
    Power2Grows(Min(a, 10), 10);
    assert Power2(10) == 1024 by { assert Power2(6) == 64; }
    hide Power2;
    hide Product;
    ProductGrowsRight(c.baseBackoffMs, Power2(Min(a, 10)) as real, 1024.0);
    Multiples(c.baseBackoffMs, 0.0);
  }

  function Fresh(c: Config, item: Item): Message {
    Message(item.id, item.channel, item.payload, 1, item.error, item.now, item.now,
            1 >= c.maxRetries, NextRetry(c, 1, item.now, item.random))
  }

  /** A first failure is stored with one attempt, poison already if one is the maximum. */
  lemma FreshInFields(c: Config, item: Item)
    ensures var m := Fresh(c, item);
      && m.id == item.id && m.channel == item.channel && m.payload == item.payload && m.lastError == item.error
      && m.attempts == 1 && m.createdAt == item.now && m.updatedAt == item.now
      && (m.isPoison <==> c.maxRetries <= 1) && m.nextRetryAt == NextRetry(c, 1, item.now, item.random)
  {
    hide NextRetry;
  }

  function Store(c: Config, q: Dlq, item: Item): Dlq {
    var i := Find(q.messages, item.id);
    if i < |q.messages| then
      q.(messages := q.messages[i := Retried(c, q.messages[i], item)], totalEnqueued := q.totalEnqueued + 1)
    else
      var full := |q.messages| >= c.maxCapacity;
      var kept := if full && |q.messages| > 0 then q.messages[1..] else q.messages;
      q.(messages := kept + [Fresh(c, item)], totalEnqueued := q.totalEnqueued + 1,
         totalEvicted := q.totalEvicted + (if full then 1 else 0))
  }

  function Remove(ms: seq<Message>, id: string): seq<Message> {
    var i := Find(ms, id);
    if i < |ms| then ms[..i] + ms[i + 1..] else ms
  }

  function CompleteRedrive(q: Dlq, id: string): Dlq {
    q.(messages := Remove(q.messages, id), totalRedriven := q.totalRedriven + 1)
  }

  // ---------- what happens to the stored messages ----------

  /** Enqueue throws a TypeError for anything else, before touching the queue. */
  predicate Accepted(item: Item) { item.id != "" && item.channel != "" }

  /** Redriven is the tail of a successful redrive; the tail of a failed one is a Put. */
  datatype Event = Put(item: Item) | Redriven(id: string) | Delete(id: string) | Clear

  function Apply(c: Config, q: Dlq, ev: Event): Dlq {
    match ev
    case Put(item) => if Accepted(item) then Store(c, q, item) else q
    case Redriven(id) => CompleteRedrive(q, id)
    case Delete(id) => q.(messages := Remove(q.messages, id))
    case Clear => q.(messages := [])
  }

  ghost predicate Distinct(ms: seq<Message>) {
    forall i, j | 0 <= i < j < |ms| :: ms[i].id != ms[j].id
  }

  ghost predicate Named(ms: seq<Message>) {
    forall i | 0 <= i < |ms| :: ms[i].id != "" && ms[i].channel != ""
  }

  ghost predicate PoisonByAttempts(c: Config, ms: seq<Message>) {
    forall i | 0 <= i < |ms| :: ms[i].isPoison <==> ms[i].attempts >= c.maxRetries
  }

  ghost predicate Inv(c: Config, q: Dlq) {
    && Distinct(q.messages) && Named(q.messages) && PoisonByAttempts(c, q.messages)
    && (c.maxCapacity >= 1 ==> |q.messages| <= c.maxCapacity)
  }

  lemma RemoveKeeps(ms: seq<Message>, id: string)
    requires Distinct(ms)
    ensures Distinct(Remove(ms, id)) && !Has(Remove(ms, id), id)
    ensures |Remove(ms, id)| == if Has(ms, id) then |ms| - 1 else |ms|
    ensures forall m | m in Remove(ms, id) :: m in ms
    ensures forall x | x != id :: Has(Remove(ms, id), x) <==> Has(ms, x)
  {
    var i := Find(ms, id);
    if i < |ms| {
      var rest := Remove(ms, id);
      forall j | 0 <= j < |rest| ensures rest[j] in ms && rest[j].id != id {
        assert rest[j] == if j < i then ms[j] else ms[j + 1];
      }
      forall x | x != id ensures Has(rest, x) <==> Has(ms, x) {
        var k := Find(ms, x);
        if k < i { assert rest[k].id == x; } else if i < k < |ms| { assert rest[k - 1].id == x; }
      }
    }
  }

  lemma RemoveKeepsInv(c: Config, q: Dlq, id: string)
    requires Inv(c, q)
    ensures Inv(c, q.(messages := Remove(q.messages, id)))
  {
    hide Remove;
    hide Has;
    RemoveKeeps(q.messages, id);
    var rest := Remove(q.messages, id);
    forall i | 0 <= i < |rest|
      ensures rest[i].id != "" && rest[i].channel != "" && (rest[i].isPoison <==> rest[i].attempts >= c.maxRetries)
    {
      assert rest[i] in q.messages;
    }
  }

  lemma StoreKeepsInv(c: Config, q: Dlq, item: Item)
    requires Inv(c, q) && Accepted(item)
    ensures Inv(c, Store(c, q, item))
  {
    hide NextRetry;
  }

  /** Storing a new id pushes the oldest message out. */
  predicate Evicts(c: Config, q: Dlq, item: Item) {
    Accepted(item) && !Has(q.messages, item.id) && |q.messages| >= c.maxCapacity && |q.messages| > 0
  }

  lemma StoreHas(c: Config, q: Dlq, item: Item, x: string)
    requires Distinct(q.messages) && Accepted(item)
    ensures Has(Store(c, q, item).messages, x)
       <==> x == item.id || (Has(q.messages, x) && !(Evicts(c, q, item) && x == q.messages[0].id))
  {
    hide Retried;
    hide Fresh;
    IdsStay(c, q, item);
    var ms, ms' := q.messages, Store(c, q, item).messages;
    var i, k, k' := Find(ms, item.id), Find(ms, x), Find(ms', x);
    if i < |ms| {
      if k < |ms| { assert ms'[k].id == x; }
      if k' < |ms'| { assert ms[k'].id == x; }
    } else {
      var gone := if Evicts(c, q, item) then 1 else 0;
      if x == item.id { assert ms'[|ms'| - 1].id == x; }
      if gone <= k < |ms| { assert ms'[k - gone].id == x; }
      if k' < |ms'| - 1 { assert ms[k' + gone].id == x; }
    }
  }

  lemma IdsStay(c: Config, q: Dlq, item: Item)
    ensures Fresh(c, item).id == item.id
    ensures forall m :: Retried(c, m, item).id == m.id
  {
  }

  // ---------- how a redrive ends ----------

  /** How the processor ends on a message; a failure carries its error, time and random number. */
  datatype Verdict = Succeeds | Fails(error: string, at: int, random: real)

  function ItemOf(m: Message, v: Verdict): Item
    requires v.Fails?
  {
    Item(m.id, m.channel, m.payload, v.error, v.at, v.random)
  }

  /** What a redrive that captured the message does when its processor is done. */
  function Completion(m: Message, v: Verdict): Event {
    if v.Succeeds? then Redriven(m.id) else Put(ItemOf(m, v))
  }

  function ApplyAll(c: Config, q: Dlq, evs: seq<Event>): Dlq {
    if evs == [] then q else Apply(c, ApplyAll(c, q, evs[..|evs| - 1]), evs[|evs| - 1])
  }

  // ---------- redriving everything that is due ----------

  /** canRetry */
  predicate Due(m: Message, now: int) { !m.isPoison && now >= m.nextRetryAt }

  /** What one message becomes in a pass. */
  function After(c: Config, m: Message, now: int, verdict: string -> Verdict): seq<Message> {
    if !Due(m, now) then [m]
    else if verdict(m.id).Succeeds? then []
    else [Retried(c, m, ItemOf(m, verdict(m.id)))]
  }

  function RedriveAll(c: Config, ms: seq<Message>, now: int, verdict: string -> Verdict): seq<Message> {
    if ms == [] then []
    else RedriveAll(c, ms[..|ms| - 1], now, verdict) + After(c, ms[|ms| - 1], now, verdict)
  }

  /** The due messages in insertion order. */
  function DueIds(ms: seq<Message>, now: int): seq<string> {
    if ms == [] then []
    else DueIds(ms[..|ms| - 1], now) + (if Due(ms[|ms| - 1], now) then [ms[|ms| - 1].id] else [])
  }

  /** The processors are called for the messages that are not poison and whose time has come, and for no others. */
  lemma {:induction false} DueIdsExactly(ms: seq<Message>, now: int, id: string)
    ensures id in DueIds(ms, now)
       <==> exists i | 0 <= i < |ms| :: ms[i].id == id && !ms[i].isPoison && ms[i].nextRetryAt <= now
  {
    if ms != [] {
      var n := |ms| - 1;
      DueIdsExactly(ms[..n], now, id);
      if i :| 0 <= i < |ms| && ms[i].id == id && !ms[i].isPoison && ms[i].nextRetryAt <= now {
        if i < n { assert ms[..n][i] == ms[i]; }
      }
      if i :| 0 <= i < n && ms[..n][i].id == id && !ms[..n][i].isPoison && ms[..n][i].nextRetryAt <= now {
        assert ms[i] == ms[..n][i];
      }
    }
  }

  function Successes(ms: seq<Message>, now: int, verdict: string -> Verdict): nat {
    if ms == [] then 0
    else Successes(ms[..|ms| - 1], now, verdict)
         + (if Due(ms[|ms| - 1], now) && verdict(ms[|ms| - 1].id).Succeeds? then 1 else 0)
  }

  /** The pass changes ids only by dropping some. */
  lemma {:induction false} RedriveAllIds(c: Config, ms: seq<Message>, now: int, verdict: string -> Verdict)
    ensures forall m | m in RedriveAll(c, ms, now, verdict) :: exists i | 0 <= i < |ms| :: ms[i].id == m.id
    ensures |RedriveAll(c, ms, now, verdict)| + Successes(ms, now, verdict) == |ms|
  {
    if ms != [] {
      var n := |ms| - 1;
      RedriveAllIds(c, ms[..n], now, verdict);
      forall m | m in RedriveAll(c, ms, now, verdict)
        ensures exists i | 0 <= i < |ms| :: ms[i].id == m.id
      {
        if m in RedriveAll(c, ms[..n], now, verdict) {
          var i :| 0 <= i < n && ms[..n][i].id == m.id;
          assert ms[i].id == m.id;
        } else {
          assert ms[n].id == m.id;
        }
      }
    }
  }

  /** A pass over distinct messages: due ones leave or gain one attempt, all others stay as they are. */
  lemma {:induction false} EachMessageOnce(c: Config, ms: seq<Message>, now: int, verdict: string -> Verdict, i: nat)
    requires Distinct(ms) && i < |ms|
    ensures var m, rest := ms[i], RedriveAll(c, ms, now, verdict);
      var due := !m.isPoison && m.nextRetryAt <= now;
      && (!due ==> m in rest)
      && (due && verdict(m.id).Fails? ==> Retried(c, m, ItemOf(m, verdict(m.id))) in rest)
      && (due && verdict(m.id).Succeeds? <==> forall r | r in rest :: r.id != m.id)
  {
    var n := |ms| - 1;
    var m, rest := ms[i], RedriveAll(c, ms, now, verdict);
    var before, last := RedriveAll(c, ms[..n], now, verdict), After(c, ms[n], now, verdict);
    assert rest == before + last;
    AfterOne(c, ms[n], now, verdict);
    RedriveAllIds(c, ms[..n], now, verdict);
    if i < n { EachMessageOnce(c, ms[..n], now, verdict, i); }
    hide RedriveAll;
    hide After;
    hide Retried;
    assert Due(m, now) <==> !m.isPoison && m.nextRetryAt <= now;
    hide Due;
    if i < n {
      assert forall r | r in last :: r.id != m.id;
    } else {
      assert forall r | r in before :: r.id != m.id;
    }
  }

  /** The outcome for a single message is the message, its retry, or nothing. */
  lemma AfterOne(c: Config, m: Message, now: int, verdict: string -> Verdict)
    ensures var last := After(c, m, now, verdict);
      && (forall r | r in last :: r.id == m.id)
      && (!Due(m, now) ==> m in last)
      && (Due(m, now) && verdict(m.id).Fails? ==> Retried(c, m, ItemOf(m, verdict(m.id))) in last)
      && (Due(m, now) && verdict(m.id).Succeeds? <==> last == [])
      && (last != [] ==> exists r :: r in last)
  {
    var last := After(c, m, now, verdict);
    if last != [] { assert last[0] in last; }
  }

  // ---------- the queue ----------

  class Queue {
    const config: Config
    var messages: seq<Message>
    var totalEnqueued: nat
    var totalRedriven: nat
    var totalEvicted: nat

    ghost function View(): Dlq
      reads this
    {
      Dlq(messages, totalEnqueued, totalRedriven, totalEvicted)
    }

    /** Options that are zero or missing take their defaults. */
    constructor (maxRetries: int, baseBackoffMs: real, maxBackoffMs: real, maxCapacity: int)
      ensures View() == START
      ensures config.maxCapacity != 0 && config.maxRetries != 0
      ensures config.maxCapacity == (if maxCapacity == 0 then 1000 else maxCapacity)
      ensures config.maxRetries == (if maxRetries == 0 then 3 else maxRetries)
      ensures config.baseBackoffMs == (if baseBackoffMs == 0.0 then 100.0 else baseBackoffMs)
      ensures config.maxBackoffMs == (if maxBackoffMs == 0.0 then 5000.0 else maxBackoffMs)
    {
      config := Config(if maxRetries == 0 then 3 else maxRetries,
                       if baseBackoffMs == 0.0 then 100.0 else baseBackoffMs,
                       if maxBackoffMs == 0.0 then 5000.0 else maxBackoffMs,
                       if maxCapacity == 0 then 1000 else maxCapacity);
      messages, totalEnqueued, totalRedriven, totalEvicted := [], 0, 0, 0;
    }

    /** Refuses an empty id or channel with a TypeError before touching anything. */
    method Enqueue(item: Item) returns (stored: Option<Message>)
      modifies this
      ensures stored.None? <==> !Accepted(item)
      ensures stored.None? ==> View() == old(View())
      ensures stored.Some? ==>
        View() == Store(config, old(View()), item) && stored.value in messages && stored.value.id == item.id
      // in messages
      ensures stored.Some? ==> totalEnqueued == old(totalEnqueued) + 1 && totalRedriven == old(totalRedriven)
      ensures stored.Some? && Has(old(messages), item.id) ==>
        var i := Find(old(messages), item.id);
        && messages == old(messages)[i := stored.value] && totalEvicted == old(totalEvicted)
        && stored.value.attempts == old(messages)[i].attempts + 1 && stored.value.payload == old(messages)[i].payload
      ensures stored.Some? && !Has(old(messages), item.id) ==>
        var full := |old(messages)| >= config.maxCapacity;
        && messages == (if full && old(messages) != [] then old(messages)[1..] else old(messages)) + [stored.value]
        && totalEvicted == old(totalEvicted) + (if full then 1 else 0) && stored.value.attempts == 1
    {
      if item.id == "" || item.channel == "" { return None; }
      var i := Find(messages, item.id);
      var record: Message;
      if i < |messages| {
        record := messages[i];
        record := record.(attempts := record.attempts + 1, lastError := item.error, updatedAt := item.now);
        record := record.(isPoison := record.attempts >= config.maxRetries);
        record := record.(nextRetryAt := NextRetry(config, record.attempts, item.now, item.random));
        messages := messages[i := record];
        assert messages[i] == record;
      } else {
        if |messages| >= config.maxCapacity {
          if |messages| > 0 { messages := messages[1..]; }
          totalEvicted := totalEvicted + 1;
        }
        record := Fresh(config, item);
        messages := messages + [record];
        assert messages[|messages| - 1] == record;
      }
      totalEnqueued := totalEnqueued + 1;
      return Some(record);
    }

    /** What everybody else does to the queue while a processor is awaited. */
    method Await(others: seq<Event>)
      modifies this
      ensures View() == ApplyAll(config, old(View()), others)
    {
      var q := ApplyAll(config, Dlq(messages, totalEnqueued, totalRedriven, totalEvicted), others);
      messages, totalEnqueued := q.messages, q.totalEnqueued;
      totalRedriven, totalEvicted := q.totalRedriven, q.totalEvicted;
    }

    /** Others may do anything to the queue before the processor ends. An unknown id is refused without waiting. */
    method Redrive(id: string, v: Verdict, others: seq<Event>) returns (ok: bool)
      requires Has(messages, id) ==> id != "" && messages[Find(messages, id)].channel != ""
      modifies this
      ensures ok <==> Has(old(messages), id) && v.Succeeds?
      ensures !Has(old(messages), id) ==> View() == old(View())
      ensures Has(old(messages), id) ==>
        var m := old(messages)[Find(old(messages), id)];
        View() == Apply(config, ApplyAll(config, old(View()), others), Completion(m, v))
      // undisturbed: gone and counted, or stored again with one attempt more
      ensures Has(old(messages), id) && others == [] ==>
        var i := Find(old(messages), id);
        && (v.Succeeds? ==>
              && messages == old(messages)[..i] + old(messages)[i + 1..] && totalRedriven == old(totalRedriven) + 1
              && totalEnqueued == old(totalEnqueued))
        && (v.Fails? ==>
              && |messages| == |old(messages)| && totalRedriven == old(totalRedriven)
              && totalEnqueued == old(totalEnqueued) + 1
              && messages[i].attempts == old(messages)[i].attempts + 1 && messages[i].lastError == v.error
              && forall j | 0 <= j < |messages| && j != i :: messages[j] == old(messages)[j])
    {
      var i := Find(messages, id);
      if i >= |messages| { return false; }
      var record := messages[i];
      assert Accepted(Item(record.id, record.channel, "", "", 0, 0.0));
      Await(others);
      if v.Succeeds? {
        messages := Remove(messages, id);
        totalRedriven := totalRedriven + 1;
        return true;
      }
      var stored := Enqueue(ItemOf(record, v));
      return false;
    }

    /**
     * redriveEligible, when the processors leave the queue alone: a live iteration over
     * the map. The cursor stays in place when the message under it is deleted. calls
     * logs the processor's invocations.
     */
    method RedriveEligible(now: int, verdict: string -> Verdict)
      returns (succeeded: nat, failed: nat, calls: seq<string>)
      requires Distinct(messages) && Named(messages)
      modifies this
      ensures messages == RedriveAll(config, old(messages), now, verdict)
      ensures calls == DueIds(old(messages), now)
      ensures forall id :: id in calls <==>
        exists i | 0 <= i < |old(messages)| ::
          && old(messages)[i].id == id && !old(messages)[i].isPoison && old(messages)[i].nextRetryAt <= now
      ensures succeeded == Successes(old(messages), now, verdict) && succeeded + failed == |calls|
      ensures totalRedriven == old(totalRedriven) + succeeded && totalEvicted == old(totalEvicted)
      ensures totalEnqueued == old(totalEnqueued) + failed
    {
      hide RedriveAll;
      hide Midway;
      hide DueIds;
      hide Successes;
      hide Store;
      hide CompleteRedrive;
      hide Distinct;
      hide Due;
      ghost var start := messages;
      forall id
        ensures id in DueIds(start, now) <==>
          exists i | 0 <= i < |start| :: start[i].id == id && !start[i].isPoison && start[i].nextRetryAt <= now
      {
        DueIdsExactly(start, now, id);
      }
      ghost var k := 0;
      var cursor := 0;
      succeeded, failed, calls := 0, 0, [];
      PassBounds(config, start, now, verdict);
      while cursor < |messages|
        invariant 0 <= k <= |start| && cursor == |RedriveAll(config, start[..k], now, verdict)|
        invariant messages == Midway(config, start, k, now, verdict) && cursor + |start| - k == |messages|
        invariant calls == DueIds(start[..k], now) && succeeded + failed == |calls|
        invariant succeeded == Successes(start[..k], now, verdict)
        invariant totalRedriven == old(totalRedriven) + succeeded && totalEvicted == old(totalEvicted)
        invariant totalEnqueued == old(totalEnqueued) + failed
        decreases |start| - k
      {
        var m := messages[cursor];
        PassStep(config, start, k, now, verdict);
        if Due(m, now) {
          calls := calls + [m.id];
          RedriveSteps(config, Dlq(messages, totalEnqueued, totalRedriven, totalEvicted), cursor, verdict(m.id));
          var ok := Redrive(m.id, verdict(m.id), []);
          if ok {
            succeeded := succeeded + 1;
          } else {
            failed := failed + 1;
            cursor := cursor + 1;
          }
        } else {
          cursor := cursor + 1;
        }
        k := k + 1;
      }
    }
  }

  /** The map when the live iteration is about to visit the k-th of the original messages. */
  function Midway(c: Config, start: seq<Message>, k: nat, now: int, verdict: string -> Verdict): seq<Message>
    requires k <= |start|
  {
    RedriveAll(c, start[..k], now, verdict) + start[k..]
  }

  lemma PassBounds(c: Config, start: seq<Message>, now: int, verdict: string -> Verdict)
    ensures Midway(c, start, 0, now, verdict) == start && RedriveAll(c, start[..0], now, verdict) == []
    ensures DueIds(start[..0], now) == [] && Successes(start[..0], now, verdict) == 0
    ensures Midway(c, start, |start|, now, verdict) == RedriveAll(c, start, now, verdict)
    ensures start[..|start|] == start
  {
    assert start[..|start|] == start && start[..0] == [];
  }

  /** The effect of one completed redrive of the message at position i. */
  lemma RedriveSteps(c: Config, q: Dlq, i: nat, v: Verdict)
    requires i < |q.messages| && Find(q.messages, q.messages[i].id) == i
    ensures Has(q.messages, q.messages[i].id)
    ensures CompleteRedrive(q, q.messages[i].id)
         == q.(messages := q.messages[..i] + q.messages[i + 1..], totalRedriven := q.totalRedriven + 1)
    ensures v.Fails? ==>
      Store(c, q, ItemOf(q.messages[i], v))
      == q.(messages := q.messages[i := Retried(c, q.messages[i], ItemOf(q.messages[i], v))],
            totalEnqueued := q.totalEnqueued + 1)
  {
  }

  /** The message under the cursor is found under its own id. */
  lemma CursorFinds(c: Config, start: seq<Message>, k: nat, now: int, verdict: string -> Verdict)
    requires Distinct(start) && k < |start|
    ensures var before := RedriveAll(c, start[..k], now, verdict);
      && Midway(c, start, k, now, verdict)[|before|] == start[k]
      && Find(Midway(c, start, k, now, verdict), start[k].id) == |before|
  {
    var before := RedriveAll(c, start[..k], now, verdict);
    RedriveAllIds(c, start[..k], now, verdict);
    var all := Midway(c, start, k, now, verdict);
    forall j | 0 <= j < |before| ensures all[j].id != start[k].id {
      assert before[j] in before;
    }
    assert all[|before|] == start[k];
    if Find(all, start[k].id) < |before| { assert false; }
  }

  lemma PassStepLogs(c: Config, start: seq<Message>, k: nat, now: int, verdict: string -> Verdict)
    requires k < |start|
    ensures var m := start[k];
      && DueIds(start[..k + 1], now) == DueIds(start[..k], now) + (if Due(m, now) then [m.id] else [])
      && Successes(start[..k + 1], now, verdict)
         == Successes(start[..k], now, verdict) + (if Due(m, now) && verdict(m.id).Succeeds? then 1 else 0)
      && RedriveAll(c, start[..k + 1], now, verdict)
         == RedriveAll(c, start[..k], now, verdict) + After(c, m, now, verdict)
  {
    hide After;
    assert start[..k + 1][..k] == start[..k] && start[..k + 1][k] == start[k];
  }

  /** What visiting the k-th message must do to the map and the logs. */
  lemma PassStep(c: Config, start: seq<Message>, k: nat, now: int, verdict: string -> Verdict)
    requires Distinct(start) && k < |start|
    ensures var m, before, all := start[k], RedriveAll(c, start[..k], now, verdict), Midway(c, start, k, now, verdict);
      var i := |before|;
      && i < |all| && all[i] == m && Find(all, m.id) == i
      && DueIds(start[..k + 1], now) == DueIds(start[..k], now) + (if Due(m, now) then [m.id] else [])
      && Successes(start[..k + 1], now, verdict)
         == Successes(start[..k], now, verdict) + (if Due(m, now) && verdict(m.id).Succeeds? then 1 else 0)
      && |RedriveAll(c, start[..k + 1], now, verdict)| == i + (if Due(m, now) && verdict(m.id).Succeeds? then 0 else 1)
      && Midway(c, start, k + 1, now, verdict)
         == if !Due(m, now) then all
            else if verdict(m.id).Succeeds? then all[..i] + all[i + 1..]
            else all[i := Retried(c, m, ItemOf(m, verdict(m.id)))]
  {
    hide Retried;
    hide Find;
    hide DueIds;
    hide Successes;
    hide RedriveAll;
    hide Due;
    hide Distinct;
    CursorFinds(c, start, k, now, verdict);
    PassStepLogs(c, start, k, now, verdict);
    var before := RedriveAll(c, start[..k], now, verdict);
    assert start[k..] == [start[k]] + start[k + 1..];
  }
}
