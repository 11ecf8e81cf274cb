/**
 * Redrives of the dead-letter queue that overlap with each other and with
 * everything else (redrive, src/common/utils/dead-letter-queue.util.js). A start
 * captures a stored message, a finish removes or re-enqueues what is stored under
 * its id by then. The theorems say when the counters the queue reports can be
 * trusted.
 */
module Redrives {
  import opened Prelude
  import opened DeadLetterQueue

  /** A started redrive: the message it captured and which insertion of its id that was. */
  datatype Flight = Flight(message: Message, birth: nat, open: bool)

  /**
   * How messages came and went. A successful redrive finds the message it captured
   * (redriven), one that was inserted under the same id since (stolen) or none (missed).
   */
  datatype Tally = Tally(inserted: nat, redriven: nat, stolen: nat, missed: nat, deleted: nat, cleared: nat)

  /** The queue with its redrives; births numbers the insertions by id. */
  datatype System = System(q: Dlq, births: map<string, nat>, flights: seq<Flight>, t: Tally)

  const IDLE := System(START, map[], [], Tally(0, 0, 0, 0, 0, 0))

  /** Redrives are numbered in the order of their starts. */
  datatype Step = Arrive(item: Item) | Start(id: string) | Finish(k: nat, verdict: Verdict) | Discard(id: string) | Wipe

  predicate Open(s: System, k: nat) { k < |s.flights| && s.flights[k].open }

  predicate InFlight(s: System, id: string) {
    exists k | 0 <= k < |s.flights| :: s.flights[k].open && s.flights[k].message.id == id
  }

  function BirthOf(s: System, id: string): nat { if id in s.births then s.births[id] else 0 }

  /** The tally after an event; birth is the insertion a completing redrive captured. */
  function Count(s: System, ev: Event, birth: nat): Tally {
    var ms, t := s.q.messages, s.t;
    match ev
    case Put(item) => if Accepted(item) && !Has(ms, item.id) then t.(inserted := t.inserted + 1) else t
    case Redriven(id) =>
      if !Has(ms, id) then t.(missed := t.missed + 1)
      else if BirthOf(s, id) == birth then t.(redriven := t.redriven + 1)
      else t.(stolen := t.stolen + 1)
    case Delete(id) => if Has(ms, id) then t.(deleted := t.deleted + 1) else t
    case Clear => t.(cleared := t.cleared + |ms|)
  }

  function Effect(c: Config, s: System, ev: Event, birth: nat): System {
    var births := if ev.Put? && Accepted(ev.item) && !Has(s.q.messages, ev.item.id)
                  then s.births[ev.item.id := s.t.inserted] else s.births;
    System(Apply(c, s.q, ev), births, s.flights, Count(s, ev, birth))
  }

  function Launch(s: System, id: string): System
    requires Has(s.q.messages, id)
  {
    s.(flights := s.flights + [Flight(s.q.messages[Find(s.q.messages, id)], BirthOf(s, id), true)])
  }

  function Land(s: System, k: nat): System
    requires k < |s.flights|
  {
    s.(flights := s.flights[k := s.flights[k].(open := false)])
  }

  /** A redrive of an unknown id returns false at once; a redrive ends once. */
  function Do(c: Config, s: System, step: Step): System {
    match step
    case Arrive(item) => Effect(c, s, Put(item), 0)
    case Start(id) => if Has(s.q.messages, id) then Launch(s, id) else s
    case Finish(k, v) =>
      if Open(s, k) then Land(Effect(c, s, Completion(s.flights[k].message, v), s.flights[k].birth), k) else s
    case Discard(id) => Effect(c, s, Delete(id), 0)
    case Wipe => Effect(c, s, Clear, 0)
  }

  function Run(c: Config, s: System, steps: seq<Step>): System {
    if steps == [] then s else Do(c, Run(c, s, steps[..|steps| - 1]), steps[|steps| - 1])
  }

  lemma RunStep(c: Config, s: System, steps: seq<Step>, step: Step)
    ensures Run(c, s, steps + [step]) == Do(c, Run(c, s, steps), step)
  {
    assert (steps + [step])[..|steps|] == steps;
  }

  // ---------- the books ----------

  /** Messages that came in and are accounted for otherwise than by being stored. */
  function Gone(s: System): nat {
    s.t.redriven + s.t.stolen + s.q.totalEvicted + s.t.deleted + s.t.cleared
  }

  ghost predicate Booked(c: Config, s: System) {
    && Inv(c, s.q)
    && (c.maxCapacity >= 1 ==> s.t.inserted == |s.q.messages| + Gone(s))
    && s.q.totalRedriven == s.t.redriven + s.t.stolen + s.t.missed
    && (forall id | Has(s.q.messages, id) :: id in s.births)
    && (forall id | id in s.births :: s.births[id] < s.t.inserted)
    && (forall k | 0 <= k < |s.flights| :: s.flights[k].message.id != "" && s.flights[k].message.channel != "")
  }

  lemma StoreCounts(c: Config, q: Dlq, item: Item)
    ensures Store(c, q, item).totalRedriven == q.totalRedriven
    ensures c.maxCapacity >= 1 ==>
      |Store(c, q, item).messages| + Store(c, q, item).totalEvicted
      == |q.messages| + q.totalEvicted + (if Has(q.messages, item.id) then 0 else 1)
  {
    hide NextRetry;
  }

  lemma EffectIsBooked(c: Config, s: System, ev: Event, birth: nat)
    requires Booked(c, s)
    ensures Booked(c, Effect(c, s, ev, birth))
  {
    hide Remove;
    hide Store;
    hide Has;
    hide Inv;
    match ev
    case Put(item) =>
      if Accepted(item) { PutIsBooked(c, s, item, birth); }
    case Redriven(id) => RemovalIsBooked(c, s, id);
    case Delete(id) => RemovalIsBooked(c, s, id);
    case Clear => ClearIsBooked(c, s);
  }

  lemma PutIsBooked(c: Config, s: System, item: Item, birth: nat)
    requires Booked(c, s) && Accepted(item)
    ensures Booked(c, Effect(c, s, Put(item), birth))
  {
    hide Store;
    hide Has;
    StoreKeepsInv(c, s.q, item);
    StoreCounts(c, s.q, item);
    forall id | Has(Store(c, s.q, item).messages, id)
      ensures id == item.id || Has(s.q.messages, id)
    {
      StoreHas(c, s.q, item, id);
    }
    hide Inv;
  }

  lemma RemovalIsBooked(c: Config, s: System, id: string)
    requires Booked(c, s)
    ensures var ms := Remove(s.q.messages, id);
      && Inv(c, s.q.(messages := ms)) && Inv(c, CompleteRedrive(s.q, id)) && (forall x | Has(ms, x) :: x in s.births)
      && |ms| == |s.q.messages| - (if Has(s.q.messages, id) then 1 else 0)
  {
    hide Remove;
    hide Has;
    RemoveKeepsInv(c, s.q, id);
    RemoveKeeps(s.q.messages, id);
  }

  lemma ClearIsBooked(c: Config, s: System)
    requires Booked(c, s)
    ensures Inv(c, s.q.(messages := [])) && forall x :: !Has([], x)
  {
  }

  lemma StepIsBooked(c: Config, s: System, step: Step)
    requires Booked(c, s)
    ensures Booked(c, Do(c, s, step))
  {
    hide Has;
    hide Inv;
    hide Apply;
    hide Count;
    match step
    case Arrive(item) => EffectIsBooked(c, s, Put(item), 0);
    case Start(id) => if Has(s.q.messages, id) { LaunchIsBooked(c, s, id); }
    case Finish(k, v) =>
      if Open(s, k) { EffectIsBooked(c, s, Completion(s.flights[k].message, v), s.flights[k].birth); }
    case Discard(id) => EffectIsBooked(c, s, Delete(id), 0);
    case Wipe => EffectIsBooked(c, s, Clear, 0);
  }

  lemma LaunchIsBooked(c: Config, s: System, id: string)
    requires Booked(c, s) && Has(s.q.messages, id)
    ensures Booked(c, Launch(s, id))
  {
    var m := s.q.messages[Find(s.q.messages, id)];
    assert m.id != "" && m.channel != "";
    hide Inv;
  }

  lemma IdleIsBooked(c: Config)
    ensures Booked(c, IDLE)
  {
    hide Find;
    assert IDLE.q.messages == [] && IDLE.flights == [];
  }

  lemma {:induction false} RunIsBooked(c: Config, steps: seq<Step>)
    ensures Booked(c, Run(c, IDLE, steps))
  {
    hide Booked;
    hide Do;
    if steps == [] {
      IdleIsBooked(c);
    } else {
      RunIsBooked(c, steps[..|steps| - 1]);
      StepIsBooked(c, Run(c, IDLE, steps[..|steps| - 1]), steps[|steps| - 1]);
    }
  }

  /**
   * Over any run ids stay distinct, a message is poison exactly when its attempts have
   * reached the maximum and, with a capacity of at least 1, the queue stays within it and
   * every message ever inserted is stored, removed by a redrive, evicted, deleted or
   * cleared.
   */
  lemma NothingIsLost(c: Config, steps: seq<Step>)
    ensures var s := Run(c, IDLE, steps);
      && Inv(c, s.q)
      && (c.maxCapacity >= 1 ==>
            s.t.inserted == |s.q.messages| + s.t.redriven + s.t.stolen + s.q.totalEvicted + s.t.deleted + s.t.cleared)
      && s.q.totalRedriven == s.t.redriven + s.t.stolen + s.t.missed
  {
    RunIsBooked(c, steps);
  }

  /** Capacity and books hold from the first message on exactly if the capacity is at least 1. */
  lemma CapacityMustBePositive(c: Config, item: Item)
    requires Accepted(item)
    ensures var s := Run(c, IDLE, [Arrive(item)]);
      && (|s.q.messages| <= c.maxCapacity <==> c.maxCapacity >= 1)
      && (s.t.inserted == |s.q.messages| + s.q.totalEvicted <==> c.maxCapacity >= 1)
  {
    hide NextRetry;
    assert [Arrive(item)][..0] == [];
  }

  // ---------- when the redrive counter can be trusted ----------

  /** The reported counters add up: every message that came in is stored, redriven, evicted, deleted or cleared. */
  predicate Balanced(s: System) {
    s.t.inserted == |s.q.messages| + s.q.totalRedriven + s.q.totalEvicted + s.t.deleted + s.t.cleared
  }

  /** No message is redriven again, deleted, cleared or evicted while a redrive of it is under way. */
  predicate Allowed(c: Config, s: System, step: Step) {
    match step
    case Arrive(item) => Evicts(c, s.q, item) ==> !InFlight(s, s.q.messages[0].id)
    case Start(id) => Has(s.q.messages, id) ==> !InFlight(s, id)
    case Finish(_, _) => true
    case Discard(id) => !InFlight(s, id)
    case Wipe => forall k | 0 <= k < |s.flights| :: !s.flights[k].open
  }

  predicate Disciplined(c: Config, steps: seq<Step>) {
    steps != [] ==>
      var n := |steps| - 1;
      Disciplined(c, steps[..n]) && Allowed(c, Run(c, IDLE, steps[..n]), steps[n])
  }

  /** Open redrives are of different messages, each still the one that was captured; none was missed or stolen. */
  ghost predicate Tidy(s: System) {
    && s.t.missed == 0 && s.t.stolen == 0
    && (forall k | 0 <= k < |s.flights| && s.flights[k].open ::
          Has(s.q.messages, s.flights[k].message.id) && BirthOf(s, s.flights[k].message.id) == s.flights[k].birth)
    && (forall j, k | 0 <= j < k < |s.flights| && s.flights[j].open && s.flights[k].open ::
          s.flights[j].message.id != s.flights[k].message.id)
  }

  lemma ArriveKeepsTidy(c: Config, s: System, item: Item, birth: nat)
    requires Booked(c, s) && Tidy(s)
    requires Evicts(c, s.q, item) ==> !InFlight(s, s.q.messages[0].id)
    ensures Tidy(Effect(c, s, Put(item), birth))
  {
    hide Store;
    hide Has;
    hide Evicts;
    if Accepted(item) {
      forall k | 0 <= k < |s.flights| && s.flights[k].open
        ensures Has(Store(c, s.q, item).messages, s.flights[k].message.id)
      {
        StoreHas(c, s.q, item, s.flights[k].message.id);
      }
    }
  }

  lemma FinishKeepsTidy(c: Config, s: System, k: nat, v: Verdict)
    requires Booked(c, s) && Tidy(s) && Open(s, k)
    ensures Tidy(Do(c, s, Finish(k, v)))
  {
    hide Has;
    hide Remove;
    var m := s.flights[k].message;
    if v.Succeeds? {
      RemoveKeeps(s.q.messages, m.id);
    } else {
      assert !Evicts(c, s.q, ItemOf(m, v));
      ArriveKeepsTidy(c, s, ItemOf(m, v), s.flights[k].birth);
      hide Effect;
    }
  }

  lemma DiscardKeepsTidy(c: Config, s: System, id: string)
    requires Booked(c, s) && Tidy(s) && !InFlight(s, id)
    ensures Tidy(Effect(c, s, Delete(id), 0))
  {
    hide Has;
    hide Remove;
    RemoveKeeps(s.q.messages, id);
  }

  lemma LaunchKeepsTidy(c: Config, s: System, id: string)
    requires Booked(c, s) && Tidy(s) && Has(s.q.messages, id) && !InFlight(s, id)
    ensures Tidy(Launch(s, id))
  {
    assert s.q.messages[Find(s.q.messages, id)].id == id;
    hide Has;
    var s' := Launch(s, id);
    forall j | 0 <= j < |s.flights| && s'.flights[j].open
      ensures s'.flights[j].message.id != id
    {
      assert s'.flights[j] == s.flights[j];
    }
  }

  lemma AllowedKeepsTidy(c: Config, s: System, step: Step)
    requires Booked(c, s) && Tidy(s) && Allowed(c, s, step)
    ensures Tidy(Do(c, s, step))
  {
    hide Has;
    hide Evicts;
    match step
    case Arrive(item) => ArriveKeepsTidy(c, s, item, 0);
    case Start(id) => if Has(s.q.messages, id) { LaunchKeepsTidy(c, s, id); }
    case Finish(k, v) => if Open(s, k) { FinishKeepsTidy(c, s, k, v); }
    case Discard(id) => DiscardKeepsTidy(c, s, id);
    case Wipe =>
  }

  lemma {:induction false} DisciplineKeepsTidy(c: Config, steps: seq<Step>)
    requires Disciplined(c, steps)
    ensures Tidy(Run(c, IDLE, steps))
  {
    if steps != [] {
      var n := |steps| - 1;
      hide Do;
      hide Allowed;
      hide Tidy;
      hide Booked;
      DisciplineKeepsTidy(c, steps[..n]);
      RunIsBooked(c, steps[..n]);
      AllowedKeepsTidy(c, Run(c, IDLE, steps[..n]), steps[n]);
    }
  }

  /**
   * As long as no message is redriven again, deleted, cleared or evicted while a redrive
   * of it is under way, every successful redrive removes the message its processor saw
   * and the reported counters add up.
   */
  lemma DisciplineBalancesTheBooks(c: Config, steps: seq<Step>)
    requires Disciplined(c, steps)
    ensures var s := Run(c, IDLE, steps);
      && Tidy(s) && s.q.totalRedriven == s.t.redriven
      && (c.maxCapacity >= 1 ==> Balanced(s))
  {
    DisciplineKeepsTidy(c, steps);
    RunIsBooked(c, steps);
    hide Run;
    hide Inv;
  }

  /** The processors of the redrives ks succeed, one after the other. */
  function Landings(ks: seq<nat>): seq<Step> {
    if ks == [] then [] else Landings(ks[..|ks| - 1]) + [Finish(ks[|ks| - 1], Succeeds)]
  }

  lemma FinishIsAllowed(c: Config, s: System, step: Step)
    ensures step.Finish? ==> Allowed(c, s, step)
  {
  }

  lemma {:induction false} LandingsAreDisciplined(c: Config, steps: seq<Step>, ks: seq<nat>)
    requires Disciplined(c, steps)
    ensures Disciplined(c, steps + Landings(ks))
  {
    hide Run;
    hide Allowed;
    if ks == [] {
      assert steps + Landings(ks) == steps;
    } else {
      var n := |ks| - 1;
      var all := steps + Landings(ks);
      LandingsAreDisciplined(c, steps, ks[..n]);
      assert all[..|all| - 1] == steps + Landings(ks[..n]);
      FinishIsAllowed(c, Run(c, IDLE, all[..|all| - 1]), all[|all| - 1]);
    }
  }

  lemma {:induction false} PrefixIsDisciplined(c: Config, steps: seq<Step>, n: nat)
    requires Disciplined(c, steps) && n <= |steps|
    ensures Disciplined(c, steps[..n])
  {
    if n == |steps| {
      assert steps[..n] == steps;
    } else {
      var shorter := steps[..|steps| - 1];
      PrefixIsDisciplined(c, shorter, n);
      assert shorter[..n] == steps[..n];
    }
  }

  lemma {:induction false} FirstViolation(c: Config, steps: seq<Step>) returns (n: nat)
    requires !Disciplined(c, steps)
    ensures n < |steps| && Disciplined(c, steps[..n]) && !Allowed(c, Run(c, IDLE, steps[..n]), steps[n])
  {
    n := |steps| - 1;
    var shorter := steps[..n];
    if !Disciplined(c, shorter) {
      n := FirstViolation(c, shorter);
      assert shorter[..n] == steps[..n] && shorter[n] == steps[n];
    }
  }

  lemma MissedUnbalances(c: Config, s: System)
    requires Booked(c, s) && c.maxCapacity >= 1
    ensures Balanced(s) <==> s.t.missed == 0
  {
  }

  lemma FinishMisses(c: Config, s: System, k: nat)
    requires Open(s, k) && !Has(s.q.messages, s.flights[k].message.id)
    ensures Do(c, s, Finish(k, Succeeds)).t.missed == s.t.missed + 1
  {
  }

  /** After a step against the discipline, one or two redrives under way can succeed so that one of them is missed. */
  lemma ViolationMisses(c: Config, s: System, step: Step) returns (ks: seq<nat>)
    requires Booked(c, s) && Tidy(s) && !Allowed(c, s, step)
    ensures Run(c, Do(c, s, step), Landings(ks)).t.missed > 0
  {
    hide Has;
    hide Do;
    hide Booked;
    match step
    case Arrive(item) =>
      var k :| 0 <= k < |s.flights| && s.flights[k].open && s.flights[k].message.id == s.q.messages[0].id;
      EvictedIsGone(c, s, item, k);
      ks := OneMiss(c, Do(c, s, step), k);
    case Start(id) =>
      var k :| 0 <= k < |s.flights| && s.flights[k].open && s.flights[k].message.id == id;
      ks := SecondMiss(c, s, id, k);
    case Discard(id) =>
      var k :| 0 <= k < |s.flights| && s.flights[k].open && s.flights[k].message.id == id;
      DiscardedIsGone(c, s, k);
      ks := OneMiss(c, Do(c, s, step), k);
    case Wipe =>
      var k :| 0 <= k < |s.flights| && s.flights[k].open;
      WipedIsGone(c, s, k);
      ks := OneMiss(c, Do(c, s, step), k);
  }

  lemma EvictedIsGone(c: Config, s: System, item: Item, k: nat)
    requires Booked(c, s) && Open(s, k) && Evicts(c, s.q, item) && s.flights[k].message.id == s.q.messages[0].id
    ensures var s' := Do(c, s, Arrive(item)); Open(s', k) && !Has(s'.q.messages, s'.flights[k].message.id)
  {
    hide Store;
    StoreHas(c, s.q, item, s.q.messages[0].id);
  }

  lemma DiscardedIsGone(c: Config, s: System, k: nat)
    requires Booked(c, s) && Open(s, k)
    ensures var s' := Do(c, s, Discard(s.flights[k].message.id));
      Open(s', k) && !Has(s'.q.messages, s'.flights[k].message.id)
  {
    hide Remove;
    RemoveKeeps(s.q.messages, s.flights[k].message.id);
  }

  lemma WipedIsGone(c: Config, s: System, k: nat)
    requires Open(s, k)
    ensures var s' := Do(c, s, Wipe); Open(s', k) && !Has(s'.q.messages, s'.flights[k].message.id)
  {
  }

  lemma OneMiss(c: Config, s: System, k: nat) returns (ks: seq<nat>)
    requires Open(s, k) && !Has(s.q.messages, s.flights[k].message.id)
    ensures Run(c, s, Landings(ks)).t.missed > 0
  {
    ks := [k];
    assert ks[..0] == [];
    RunStep(c, s, [], Finish(k, Succeeds));
    assert Landings(ks) == [] + [Finish(k, Succeeds)];
    FinishMisses(c, s, k);
  }

  lemma SecondMiss(c: Config, s: System, id: string, k: nat) returns (ks: seq<nat>)
    requires Booked(c, s) && Has(s.q.messages, id) && Open(s, k) && s.flights[k].message.id == id
    ensures Run(c, Do(c, s, Start(id)), Landings(ks)).t.missed > 0
  {
    var n := |s.flights|;
    ks := [n, k];
    var s1 := Launch(s, id);
    FirstOfTwo(c, s, id, k);
    hide Do;
    hide Has;
    assert ks[..1] == [n] && ks[..1][..0] == [];
    assert Landings([n]) == [] + [Finish(n, Succeeds)];
    RunStep(c, s1, [], Finish(n, Succeeds));
    RunStep(c, s1, Landings([n]), Finish(k, Succeeds));
    FinishMisses(c, Do(c, s1, Finish(n, Succeeds)), k);
  }

  lemma FirstOfTwo(c: Config, s: System, id: string, k: nat)
    requires Booked(c, s) && Has(s.q.messages, id) && Open(s, k) && s.flights[k].message.id == id
    ensures var n, s1 := |s.flights|, Launch(s, id);
      var s2 := Do(c, s1, Finish(n, Succeeds));
      && Do(c, s, Start(id)) == s1 && Open(s2, k) && s2.flights[k].message.id == id && !Has(s2.q.messages, id)
  {
    hide Remove;
    assert s.q.messages[Find(s.q.messages, id)].id == id;
    RemoveKeeps(s.q.messages, id);
  }

  lemma {:induction false} RunConcat(c: Config, s: System, a: seq<Step>, b: seq<Step>)
    ensures Run(c, s, a + b) == Run(c, Run(c, s, a), b)
  {
    if b == [] {
      assert a + b == a;
    } else {
      var n := |b| - 1;
      RunConcat(c, s, a, b[..n]);
      assert (a + b)[..|a + b| - 1] == a + b[..n];
    }
  }

  /**
   * The discipline is exactly what the redrive counter needs: a run keeps it if and only
   * if the reported counters add up at every point of the run, and go on to do so however
   * the redrives under way at that point succeed.
   */
  lemma RedriveCounterBalancesExactlyUnderDiscipline(c: Config, steps: seq<Step>)
    requires c.maxCapacity >= 1
    ensures Disciplined(c, steps)
       <==> forall n: nat, ks: seq<nat> | n <= |steps| :: Balanced(Run(c, IDLE, steps[..n] + Landings(ks)))
  {
    hide Balanced;
    hide Allowed;
    hide Do;
    hide Run;
    hide Landings;
    hide Disciplined;
    hide Booked;
    hide Tidy;
    if Disciplined(c, steps) {
      forall n: nat, ks: seq<nat> | n <= |steps|
        ensures Balanced(Run(c, IDLE, steps[..n] + Landings(ks)))
      {
        PrefixIsDisciplined(c, steps, n);
        LandingsAreDisciplined(c, steps[..n], ks);
        DisciplineBalancesTheBooks(c, steps[..n] + Landings(ks));
      }
    } else {
      var n := FirstViolation(c, steps);
      var s := Run(c, IDLE, steps[..n]);
      RunIsBooked(c, steps[..n]);
      DisciplineBalancesTheBooks(c, steps[..n]);
      var ks := ViolationMisses(c, s, steps[n]);
      assert steps[..n + 1] == steps[..n] + [steps[n]];
      RunStep(c, IDLE, steps[..n], steps[n]);
      RunConcat(c, IDLE, steps[..n + 1], Landings(ks));
      RunIsBooked(c, steps[..n + 1] + Landings(ks));
      MissedUnbalances(c, Run(c, IDLE, steps[..n + 1] + Landings(ks)));
    }
  }

  /** Two overlapping redrives of a stored message that both succeed raise the counter by two but remove one message. */
  lemma OverlappingRedrivesCountTwice(c: Config, steps: seq<Step>, id: string)
    requires Has(Run(c, IDLE, steps).q.messages, id)
    ensures var s := Run(c, IDLE, steps);
      var n := |s.flights|;
      var s' := Run(c, s, [Start(id), Start(id), Finish(n, Succeeds), Finish(n + 1, Succeeds)]);
      && |s'.q.messages| == |s.q.messages| - 1 && s'.t.missed == s.t.missed + 1
      && s'.q.totalRedriven == s.q.totalRedriven + 2
  {
    hide Remove;
    hide Find;
    var s := Run(c, IDLE, steps);
    var n := |s.flights|;
    RunIsBooked(c, steps);
    var s2 := Launch(Launch(s, id), id);
    assert s2.flights[n].message.id == id == s2.flights[n + 1].message.id;
    RemoveKeeps(s.q.messages, id);
    var s3 := Do(c, s2, Finish(n, Succeeds));
    RemoveKeeps(s3.q.messages, id);
    FourSteps(c, s, Start(id), Start(id), Finish(n, Succeeds), Finish(n + 1, Succeeds));
  }

  lemma FourSteps(c: Config, s: System, a: Step, b: Step, d: Step, e: Step)
    ensures Run(c, s, [a, b, d, e]) == Do(c, Do(c, Do(c, Do(c, s, a), b), d), e)
  {
    hide Do;
    RunStep(c, s, [a, b, d], e);
    RunStep(c, s, [a, b], d);
    RunStep(c, s, [a], b);
    RunStep(c, s, [], a);
    assert [a, b, d] + [e] == [a, b, d, e] && [a, b] + [d] == [a, b, d] && [a] + [b] == [a, b] && [] + [a] == [a];
  }

  /**
   * A message deleted and enqueued anew while a redrive of it is under way is lost: the
   * redrive's success removes the new message, which no processor has seen, counts it as
   * redriven, and leaves the books exactly as balanced as they were.
   */
  lemma NewMessageIsStolen(c: Config, steps: seq<Step>, item: Item)
    requires Has(Run(c, IDLE, steps).q.messages, item.id) && Accepted(item)
    ensures var s := Run(c, IDLE, steps);
      var s' := Run(c, s, [Start(item.id), Discard(item.id), Arrive(item), Finish(|s.flights|, Succeeds)]);
      && !Has(s'.q.messages, item.id)
      && s'.t.stolen == s.t.stolen + 1 && s'.t.redriven == s.t.redriven && s'.t.missed == s.t.missed
      && s'.q.totalRedriven == s.q.totalRedriven + 1
      && (c.maxCapacity >= 1 ==> (Balanced(s') <==> Balanced(s)))
  {
    hide Remove;
    hide Find;
    hide Store;
    hide Balanced;
    var s := Run(c, IDLE, steps);
    var id, n := item.id, |s.flights|;
    RunIsBooked(c, steps);
    var s1 := Do(c, s, Start(id));
    assert s1.flights[n].message.id == id;
    StepIsBooked(c, s, Start(id));
    RemoveKeeps(s1.q.messages, id);
    var s2 := Do(c, s1, Discard(id));
    StepIsBooked(c, s1, Discard(id));
    StoreHas(c, s2.q, item, id);
    StoreCounts(c, s2.q, item);
    var s3 := Do(c, s2, Arrive(item));
    StepIsBooked(c, s2, Arrive(item));
    assert BirthOf(s3, id) != s3.flights[n].birth;
    RemoveKeeps(s3.q.messages, id);
    var s4 := Do(c, s3, Finish(n, Succeeds));
    StepIsBooked(c, s3, Finish(n, Succeeds));
    FourSteps(c, s, Start(id), Discard(id), Arrive(item), Finish(n, Succeeds));
    if c.maxCapacity >= 1 {
      MissedUnbalances(c, s);
      MissedUnbalances(c, s4);
    }
  }

  // ---------- one redrive among others ----------

  lemma {:induction false} ApplyAllConcat(c: Config, q: Dlq, a: seq<Event>, b: seq<Event>)
    ensures ApplyAll(c, q, a + b) == ApplyAll(c, ApplyAll(c, q, a), b)
  {
    if b == [] {
      assert a + b == a;
    } else {
      var n := |b| - 1;
      ApplyAllConcat(c, q, a, b[..n]);
      assert (a + b)[..|a + b| - 1] == a + b[..n];
    }
  }

  /** What a step does to the stored messages, if anything. */
  function EventsOf(s: System, step: Step): seq<Event> {
    match step
    case Arrive(item) => [Put(item)]
    case Start(_) => []
    case Finish(k, v) => if Open(s, k) then [Completion(s.flights[k].message, v)] else []
    case Discard(id) => [Delete(id)]
    case Wipe => [Clear]
  }

  function EventsOfAll(c: Config, s: System, steps: seq<Step>): seq<Event> {
    if steps == [] then []
    else
      var n := |steps| - 1;
      EventsOfAll(c, s, steps[..n]) + EventsOf(Run(c, s, steps[..n]), steps[n])
  }

  lemma StepOnQueue(c: Config, s: System, step: Step)
    ensures Do(c, s, step).q == ApplyAll(c, s.q, EventsOf(s, step))
  {
    var evs := EventsOf(s, step);
    if evs != [] { assert evs[..0] == []; }
    hide Apply;
  }

  lemma {:induction false} RunOnQueue(c: Config, s: System, steps: seq<Step>)
    ensures Run(c, s, steps).q == ApplyAll(c, s.q, EventsOfAll(c, s, steps))
  {
    if steps != [] {
      hide Do;
      var n := |steps| - 1;
      RunOnQueue(c, s, steps[..n]);
      StepOnQueue(c, Run(c, s, steps[..n]), steps[n]);
      ApplyAllConcat(c, s.q, EventsOfAll(c, s, steps[..n]), EventsOf(Run(c, s, steps[..n]), steps[n]));
    }
  }

  lemma {:induction false} FlightStaysOpen(c: Config, s: System, steps: seq<Step>, k: nat)
    requires Open(s, k) && forall i | 0 <= i < |steps| :: !(steps[i].Finish? && steps[i].k == k)
    ensures Open(Run(c, s, steps), k) && Run(c, s, steps).flights[k] == s.flights[k]
  {
    hide Do;
    if steps != [] {
      var n := |steps| - 1;
      assert forall i | 0 <= i < n :: steps[..n][i] == steps[i];
      FlightStaysOpen(c, s, steps[..n], k);
      StepLeavesFlight(c, Run(c, s, steps[..n]), steps[n], k);
    }
  }

  lemma StepLeavesFlight(c: Config, s: System, step: Step, k: nat)
    requires Open(s, k) && !(step.Finish? && step.k == k)
    ensures Open(Do(c, s, step), k) && Do(c, s, step).flights[k] == s.flights[k]
  {
    hide Apply;
    hide Count;
  }

  /**
   * A redrive that runs from its start to its finish with any other steps in between,
   * further redrives included, changes the queue as the method Redrive says.
   */
  lemma RedriveIsStartAndFinish(c: Config, s: System, id: string, others: seq<Step>, v: Verdict)
    requires Has(s.q.messages, id)
    requires forall i | 0 <= i < |others| :: !(others[i].Finish? && others[i].k == |s.flights|)
    ensures Run(c, s, [Start(id)] + others + [Finish(|s.flights|, v)]).q
         == Apply(c, ApplyAll(c, s.q, EventsOfAll(c, Launch(s, id), others)),
                  Completion(s.q.messages[Find(s.q.messages, id)], v))
  {
    var k, s1 := |s.flights|, Launch(s, id);
    assert [Start(id)] == [] + [Start(id)];
    RunStep(c, s, [], Start(id));
    RunConcat(c, s, [Start(id)], others);
    RunStep(c, s, [Start(id)] + others, Finish(k, v));
    FlightStaysOpen(c, s1, others, k);
    RunOnQueue(c, s1, others);
    hide Apply;
    hide Completion;
  }
}
