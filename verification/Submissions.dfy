/**
 * All calls of createRequest at once (src/modules/timeoff/timeoff.service.js). Any
 * number of calls, with any keys and payloads, interleave between their awaits with
 * each other and with every other writer; the lane locks are those of CreateLock and
 * each resumption of a call is Services.Resume, which createRequest is proved to
 * follow. Calls are numbered as their tickets in the lock.
 */
module Submissions {
  import opened Prelude
  import opened Canonical
  import opened Ledger
  import opened LedgerInvariants
  import opened LedgerRuns
  import opened Services
  import CreateLock

  datatype Config = Config(digest: Json -> string, ttlMs: int)

  /** A call that has joined its lane. */
  datatype Call = Call(dto: Dto, key: string, stage: Stage, committed: bool)

  /** A call that was answered before it joined a lane. */
  datatype Early = Early(dto: Dto, key: string, answer: Result<Body, Error>)

  datatype System = System(db: Db, locks: CreateLock.Locks, calls: seq<Call>, early: seq<Early>)

  function Begin(db: Db): System { System(db, CreateLock.START, [], []) }

  function SubmissionOf(c: Config, dto: Dto, key: string): Submission {
    SubmissionFrom(c.digest, c.ttlMs, dto, key)
  }

  /** A call arrives, gets into its lane, resumes inside it, and leaves it; Write is anybody else's step. */
  datatype Step =
    | Submit(dto: Dto, key: string, today: int, now: int)
    | Enter(i: nat)
    | Continue(i: nat, now: int, fault: Fault)
    | Leave(i: nat)
    | Write(ev: Event)

  predicate Commits(st: Stage, next: Stage) { st.Trying? && next.Done? && next.answer.Ok? }

  predicate Inside(s: System, i: nat) { i < |s.calls| && CreateLock.MayLeave(s.locks, i) }

  function Join(s: System, dto: Dto, key: string): System {
    s.(locks := CreateLock.Apply(s.locks, CreateLock.Arrival(LockKey(dto))),
       calls := s.calls + [Call(dto, key, Joined, false)])
  }

  /** Call i has resumed, left the database as db, and goes on with next. */
  function Settle(s: System, i: nat, db: Db, next: Stage): System
    requires i < |s.calls|
  {
    var call := s.calls[i];
    s.(db := db,
       calls := s.calls[i := call.(stage := next, committed := call.committed || Commits(call.stage, next))])
  }

  function Resumption(c: Config, s: System, i: nat, now: int, fault: Fault): (Db, Stage)
    requires i < |s.calls|
  {
    var call := s.calls[i];
    Resume(s.db, call.stage, SubmissionOf(c, call.dto, call.key), now, fault)
  }

  /** A step that is not enabled does not happen. */
  function Do(c: Config, s: System, step: Step): System {
    match step
    case Submit(dto, key, today, now) =>
      var answer := EarlyAnswer(c.digest, s.db, dto, key, today, now);
      if answer.Some? then s.(early := s.early + [Early(dto, key, answer.value)]) else Join(s, dto, key)
    case Enter(i) => s.(locks := CreateLock.Apply(s.locks, CreateLock.Entry(i)))
    case Continue(i, now, fault) =>
      if Inside(s, i) then
        var (db, next) := Resumption(c, s, i, now, fault);
        Settle(s, i, db, next)
      else s
    case Leave(i) =>
      if Inside(s, i) && s.calls[i].stage.Done? then s.(locks := CreateLock.Apply(s.locks, CreateLock.Exit(i))) else s
    case Write(ev) => if ev.Create? then s else s.(db := Apply(s.db, ev))
  }

  function Play(c: Config, s: System, steps: seq<Step>): System {
    if steps == [] then s else Do(c, Play(c, s, steps[..|steps| - 1]), steps[|steps| - 1])
  }

  // ---------- locks and keys, over any run ----------

  /** Calls and tickets fit: who waits has not checked again yet, who has left is answered. */
  ghost predicate LocksFit(s: System) {
    && CreateLock.Inv(s.locks) && |s.calls| == |s.locks.tickets|
    && forall i | 0 <= i < |s.calls| ::
         && s.locks.tickets[i].lane == LockKey(s.calls[i].dto)
         && (s.locks.tickets[i].phase == CreateLock.Waiting ==> s.calls[i].stage == Joined)
         && (s.locks.tickets[i].phase == CreateLock.Left ==> s.calls[i].stage.Done?)
  }

  /** What a committed call was answered is what is stored under its key, and no two committed calls share a key. */
  ghost predicate KeysFit(s: System) {
    && OnePerKey(s.db)
    && (forall i | 0 <= i < |s.calls| && s.calls[i].committed ::
          s.calls[i].key in s.db.records && s.calls[i].stage == Done(Ok(s.db.records[s.calls[i].key].body)))
    && (forall i, j | 0 <= i < j < |s.calls| && s.calls[i].committed && s.calls[j].committed ::
          s.calls[i].key != s.calls[j].key)
  }

  lemma JoinKeepsLocks(s: System, dto: Dto, key: string)
    requires LocksFit(s)
    ensures LocksFit(Join(s, dto, key))
  {
    CreateLock.StepKeepsInv(s.locks, CreateLock.Arrival(LockKey(dto)));
    hide CreateLock.Inv;
  }

  lemma TicketsAfter(l: CreateLock.Locks, i: nat)
    ensures CreateLock.Apply(l, CreateLock.Entry(i)).tickets
         == if CreateLock.MayEnter(l, i) then l.tickets[i := l.tickets[i].(phase := CreateLock.Inside)] else l.tickets
    ensures CreateLock.Apply(l, CreateLock.Exit(i)).tickets
         == if CreateLock.MayLeave(l, i) then l.tickets[i := l.tickets[i].(phase := CreateLock.Left)] else l.tickets
  {
  }

  lemma PhaseFits(s: System, locks: CreateLock.Locks, i: nat, p: CreateLock.Phase)
    requires LocksFit(s) && CreateLock.Inv(locks) && i < |s.calls|
    requires locks.tickets == s.locks.tickets[i := s.locks.tickets[i].(phase := p)]
    requires p == CreateLock.Inside || (p == CreateLock.Left && s.calls[i].stage.Done?)
    ensures LocksFit(s.(locks := locks))
  {
    hide CreateLock.Inv;
  }

  lemma TailsFit(s: System, locks: CreateLock.Locks)
    requires LocksFit(s) && CreateLock.Inv(locks) && locks.tickets == s.locks.tickets
    ensures LocksFit(s.(locks := locks))
  {
    hide CreateLock.Inv;
  }

  lemma EnterKeepsLocks(s: System, i: nat)
    requires LocksFit(s)
    ensures LocksFit(s.(locks := CreateLock.Apply(s.locks, CreateLock.Entry(i))))
  {
    var locks := CreateLock.Apply(s.locks, CreateLock.Entry(i));
    CreateLock.StepKeepsInv(s.locks, CreateLock.Entry(i));
    TicketsAfter(s.locks, i);
    hide CreateLock.Inv;
    hide CreateLock.Apply;
    hide CreateLock.Resolved;
    if CreateLock.MayEnter(s.locks, i) { PhaseFits(s, locks, i, CreateLock.Inside); } else { TailsFit(s, locks); }
  }

  lemma LeaveKeepsLocks(s: System, i: nat)
    requires LocksFit(s) && i < |s.calls| && s.calls[i].stage.Done?
    ensures LocksFit(s.(locks := CreateLock.Apply(s.locks, CreateLock.Exit(i))))
  {
    var locks := CreateLock.Apply(s.locks, CreateLock.Exit(i));
    CreateLock.StepKeepsInv(s.locks, CreateLock.Exit(i));
    TicketsAfter(s.locks, i);
    hide CreateLock.Inv;
    hide CreateLock.Apply;
    if CreateLock.MayLeave(s.locks, i) { PhaseFits(s, locks, i, CreateLock.Left); } else { TailsFit(s, locks); }
  }

  lemma SettleKeepsLocks(s: System, i: nat, db: Db, next: Stage)
    requires LocksFit(s) && Inside(s, i)
    ensures LocksFit(Settle(s, i, db, next))
  {
    hide CreateLock.Inv;
  }

  lemma TablesBearNoLocks(s: System, db: Db, early: seq<Early>)
    requires LocksFit(s)
    ensures LocksFit(s.(db := db)) && LocksFit(s.(early := early))
  {
    hide CreateLock.Inv;
  }

  lemma DoKeepsLocks(c: Config, s: System, step: Step)
    requires LocksFit(s)
    ensures LocksFit(Do(c, s, step))
  {
    hide LocksFit;
    hide EarlyAnswer;
    hide Join;
    hide Settle;
    hide Resumption;
    match step
    case Submit(dto, key, today, now) =>
      JoinKeepsLocks(s, dto, key);
      var answer := EarlyAnswer(c.digest, s.db, dto, key, today, now);
      if answer.Some? { TablesBearNoLocks(s, s.db, s.early + [Early(dto, key, answer.value)]); }
    case Enter(i) => EnterKeepsLocks(s, i);
    case Continue(i, now, fault) =>
      if Inside(s, i) {
        var (db, next) := Resumption(c, s, i, now, fault);
        SettleKeepsLocks(s, i, db, next);
      }
    case Leave(i) => if i < |s.calls| && s.calls[i].stage.Done? { LeaveKeepsLocks(s, i); }
    case Write(ev) => TablesBearNoLocks(s, Apply(s.db, ev), s.early);
  }

  /** A resumption is no step of the database, or the creation of the call's request. */
  lemma ResumeIsAStep(db: Db, st: Stage, sub: Submission, now: int, fault: Fault)
    ensures var (db', next) := Resume(db, st, sub, now, fault);
      if Commits(st, next) then
        && db' == Apply(db, Create(sub.ask, sub.key, sub.hash, now + sub.ttlMs))
        && CreateTx(db, sub.ask, sub.key, sub.hash, now + sub.ttlMs) == Ok(db')
        && next.answer == Ok(Body(|db.requests|, NewRequest(sub.ask, sub.key)))
      else db' == db
    ensures st.Done? ==> Resume(db, st, sub, now, fault) == (db, st)
  {
    hide CreateTx;
  }

  lemma CommitAddsRecord(db: Db, ask: Ask, key: string, hash: string, expiresAt: int)
    requires CreateTx(db, ask, key, hash, expiresAt).Ok?
    ensures key !in db.records
    ensures CreateTx(db, ask, key, hash, expiresAt).value.records
         == db.records[key := Record(ask.employee, hash, Body(|db.requests|, NewRequest(ask, key)), expiresAt)]
  {
  }

  /** What a resumption of call i makes of the records. */
  ghost predicate Settles(c: Config, s: System, i: nat, db: Db, next: Stage)
    requires i < |s.calls|
  {
    var call := s.calls[i];
    && (call.stage.Done? ==> next == call.stage && db == s.db)
    && if Commits(call.stage, next) then
         && call.key !in s.db.records && next.answer.value.request == NewRequest(AskOf(call.dto), call.key)
         && (exists expiresAt ::
               db.records == s.db.records[call.key :=
                 Record(call.dto.employee, RequestHash(c.digest, call.dto), next.answer.value, expiresAt)])
       else db == s.db
  }

  lemma ResumptionSettles(c: Config, s: System, i: nat, now: int, fault: Fault)
    requires i < |s.calls|
    ensures var (db, next) := Resumption(c, s, i, now, fault);
      Settles(c, s, i, db, next) && (OnePerKey(s.db) ==> OnePerKey(db))
  {
    var call := s.calls[i];
    var sub := SubmissionOf(c, call.dto, call.key);
    var (db, next) := Resumption(c, s, i, now, fault);
    ResumeIsAStep(s.db, call.stage, sub, now, fault);
    hide Resume;
    hide OnePerKey;
    hide Apply;
    hide CreateTx;
    hide RequestHash;
    if OnePerKey(s.db) { StepKeepsKeys(s.db, Create(sub.ask, sub.key, sub.hash, now + sub.ttlMs)); }
    if Commits(call.stage, next) {
      CommitAddsRecord(s.db, sub.ask, sub.key, sub.hash, now + sub.ttlMs);
      AskNamesEmployee(call.dto);
    }
  }

  lemma AskNamesEmployee(dto: Dto)
    ensures AskOf(dto).employee == dto.employee
  {
  }

  lemma SettleKeepsKeys(c: Config, s: System, i: nat, db: Db, next: Stage)
    requires KeysFit(s) && i < |s.calls| && Settles(c, s, i, db, next) && OnePerKey(db)
    ensures KeysFit(Settle(s, i, db, next))
  {
    hide OnePerKey;
    hide AskOf;
    hide RequestHash;
  }

  lemma WriteKeepsKeys(s: System, ev: Event)
    requires KeysFit(s)
    ensures KeysFit(s.(db := Apply(s.db, ev)))
  {
    StepKeepsKeys(s.db, ev);
    StepExtends(s.db, ev);
    hide OnePerKey;
    hide Apply;
  }

  lemma OthersBearNoKeys(s: System, dto: Dto, key: string, locks: CreateLock.Locks, early: seq<Early>)
    requires KeysFit(s)
    ensures KeysFit(Join(s, dto, key)) && KeysFit(s.(locks := locks)) && KeysFit(s.(early := early))
  {
    hide OnePerKey;
    hide CreateLock.Apply;
  }

  lemma DoKeepsKeys(c: Config, s: System, step: Step)
    requires KeysFit(s)
    ensures KeysFit(Do(c, s, step))
  {
    assert OnePerKey(s.db);
    hide KeysFit;
    hide OnePerKey;
    hide EarlyAnswer;
    hide Join;
    hide Settle;
    hide Resumption;
    hide Settles;
    hide CreateLock.Apply;
    match step
    case Submit(dto, key, today, now) =>
      var answer := EarlyAnswer(c.digest, s.db, dto, key, today, now);
      OthersBearNoKeys(s, dto, key, s.locks,
                       if answer.Some? then s.early + [Early(dto, key, answer.value)] else s.early);
    case Enter(i) => LocksBearNoKeys(s, CreateLock.Apply(s.locks, CreateLock.Entry(i)));
    case Continue(i, now, fault) =>
      if Inside(s, i) {
        var (db, next) := Resumption(c, s, i, now, fault);
        ResumptionSettles(c, s, i, now, fault);
        SettleKeepsKeys(c, s, i, db, next);
      }
    case Leave(i) => LocksBearNoKeys(s, CreateLock.Apply(s.locks, CreateLock.Exit(i)));
    case Write(ev) => if !ev.Create? { WriteKeepsKeys(s, ev); }
  }

  lemma LocksBearNoKeys(s: System, locks: CreateLock.Locks)
    requires KeysFit(s)
    ensures KeysFit(s.(locks := locks))
  {
    hide OnePerKey;
  }

  lemma {:induction false} RunFits(c: Config, db: Db, steps: seq<Step>)
    requires OnePerKey(db)
    ensures LocksFit(Play(c, Begin(db), steps)) && KeysFit(Play(c, Begin(db), steps))
  {
    hide Do;
    hide LocksFit;
    hide KeysFit;
    if steps == [] {
      BeginFits(db);
    } else {
      var n := |steps| - 1;
      RunFits(c, db, steps[..n]);
      DoKeepsLocks(c, Play(c, Begin(db), steps[..n]), steps[n]);
      DoKeepsKeys(c, Play(c, Begin(db), steps[..n]), steps[n]);
    }
  }

  lemma BeginFits(db: Db)
    requires OnePerKey(db)
    ensures LocksFit(Begin(db)) && KeysFit(Begin(db))
  {
    CreateLock.StartIsValid();
  }

  /** Whatever interleaves and whatever the store does, of all calls with a key at most one commits. */
  lemma OneCommitPerKey(c: Config, db: Db, steps: seq<Step>, i: nat, j: nat)
    requires OnePerKey(db)
    requires var s := Play(c, Begin(db), steps);
      && i < |s.calls| && j < |s.calls| && s.calls[i].key == s.calls[j].key
      && s.calls[i].committed && s.calls[j].committed
    ensures i == j
  {
    RunFits(c, db, steps);
  }

  // ---------- duplicates of one submission ----------

  /** The record of the key, if there is one, has not expired. */
  predicate Fresh(db: Db, key: string, now: int) { key in db.records ==> Live(db.records, key, now) }

  /** Every submission under the key carries the same payload, and no check under it comes after the record's expiry. */
  predicate Duplicating(s: System, step: Step, key: string, dto: Dto) {
    match step
    case Submit(d, k, _, now) => k == key ==> d == dto && Fresh(s.db, key, now)
    case Continue(i, now, _) =>
      i < |s.calls| && s.calls[i].key == key && s.calls[i].stage == Joined ==> Fresh(s.db, key, now)
    case _ => true
  }

  predicate AllDuplicating(c: Config, db: Db, steps: seq<Step>, key: string, dto: Dto) {
    steps != [] ==>
      var n := |steps| - 1;
      && AllDuplicating(c, db, steps[..n], key, dto)
      && Duplicating(Play(c, Begin(db), steps[..n]), steps[n], key, dto)
  }

  /**
   * Call w has won: it committed, every call with the key that came before it was answered
   * by an error, and every one that came after it has not checked again yet or has been
   * given the winner's answer.
   */
  ghost predicate Won(s: System, key: string, w: nat) {
    && w < |s.calls| && s.calls[w].key == key && s.calls[w].committed && key in s.db.records
    && s.calls[w].stage == Done(Ok(s.db.records[key].body))
    && (forall i | 0 <= i < w && s.calls[i].key == key :: s.calls[i].stage.Done? && s.calls[i].stage.answer.Err?)
    && (forall i | w < i < |s.calls| && s.calls[i].key == key ::
          s.calls[i].stage == Joined || s.calls[i].stage == Done(Ok(s.db.records[key].body)))
  }

  ghost predicate SamePayload(s: System, key: string, dto: Dto) {
    forall i | 0 <= i < |s.calls| && s.calls[i].key == key :: s.calls[i].dto == dto
  }

  /** Nobody has been given an answer by a call inside a lane. */
  ghost predicate NobodyServed(s: System, key: string) {
    forall i | 0 <= i < |s.calls| && s.calls[i].key == key && s.calls[i].stage.Done? :: s.calls[i].stage.answer.Err?
  }

  /** An answer given before a lane was joined is the stored one, or a refusal of the input. */
  ghost predicate EarlyAgree(s: System, key: string) {
    forall i | 0 <= i < |s.early| && s.early[i].key == key ::
      match s.early[i].answer
      case Ok(body) => key in s.db.records && body == s.db.records[key].body
      case Err(e) => e in {MissingKey, InvalidDateRange}
  }

  /** The record stored under the key is that of the payload. */
  predicate Stores(c: Config, s: System, key: string, dto: Dto) {
    && key in s.db.records && s.db.records[key].hash == RequestHash(c.digest, dto)
    && s.db.records[key].body.request == NewRequest(AskOf(dto), key)
  }

  /** Nobody has committed under the key, or exactly one call has and its answer is everybody's from then on. */
  ghost predicate OneAnswer(c: Config, s: System, key: string, dto: Dto) {
    && SamePayload(s, key, dto) && EarlyAgree(s, key)
    && if key in s.db.records then Stores(c, s, key, dto) && exists w :: Won(s, key, w)
       else NobodyServed(s, key)
  }

  /** Everybody else with the key is ahead and gone, or behind and still waiting. */
  lemma AloneInside(s: System, i: nat, j: nat)
    requires LocksFit(s) && Inside(s, i) && j < |s.calls| && j != i && s.calls[j].dto == s.calls[i].dto
    ensures j < i ==> s.calls[j].stage.Done?
    ensures i < j ==> s.calls[j].stage == Joined
  {
    assert CreateLock.SameLane(s.locks, i, j) && CreateLock.SameLane(s.locks, j, i);
  }

  lemma UnusedKey(db: Db, key: string)
    requires OnePerKey(db) && key !in db.records
    ensures !KeyUsed(db.requests, key)
  {
  }

  lemma CheckServes(db: Db, sub: Submission, now: int, fault: Fault)
    requires sub.key in db.records && Fresh(db, sub.key, now) && db.records[sub.key].hash == sub.hash
    ensures Resume(db, Joined, sub, now, fault) == (db, Done(Ok(db.records[sub.key].body)))
  {
  }

  /** Before anybody has committed under the key, a call that does not commit is not answered either, or by an error. */
  lemma NothingToServe(db: Db, st: Stage, sub: Submission, now: int, fault: Fault)
    requires OnePerKey(db) && sub.key !in db.records && (st.Done? ==> st.answer.Err?)
    ensures var next := Resume(db, st, sub, now, fault).1;
      !Commits(st, next) && next.Done? ==> next.answer.Err?
  {
    UnusedKey(db, sub.key);
  }

  lemma SettleOther(c: Config, s: System, i: nat, db: Db, next: Stage, key: string, dto: Dto)
    requires OneAnswer(c, s, key, dto) && i < |s.calls| && s.calls[i].key != key && Settles(c, s, i, db, next)
    ensures OneAnswer(c, Settle(s, i, db, next), key, dto)
  {
    hide RequestHash;
    hide AskOf;
    var s' := Settle(s, i, db, next);
    assert key in s.db.records <==> key in db.records;
    if key in s.db.records {
      assert db.records[key] == s.db.records[key];
      var w :| Won(s, key, w);
      assert Won(s', key, w);
    }
  }

  lemma SettleLate(c: Config, s: System, i: nat, next: Stage, key: string, dto: Dto)
    requires OneAnswer(c, s, key, dto) && i < |s.calls| && s.calls[i].key == key && key in s.db.records
    requires next == if s.calls[i].stage == Joined then Done(Ok(s.db.records[key].body)) else s.calls[i].stage
    ensures OneAnswer(c, Settle(s, i, s.db, next), key, dto)
  {
    hide RequestHash;
    hide AskOf;
    var s' := Settle(s, i, s.db, next);
    var w :| Won(s, key, w);
    assert Won(s', key, w);
  }

  /** The calls with i's key, before i commits: answered by errors ahead of it, not checked again yet behind it. */
  ghost predicate FirstToCommit(s: System, i: nat)
    requires i < |s.calls|
  {
    && (forall j | 0 <= j < i && s.calls[j].key == s.calls[i].key ::
          s.calls[j].stage.Done? && s.calls[j].stage.answer.Err?)
    && (forall j | i < j < |s.calls| && s.calls[j].key == s.calls[i].key :: s.calls[j].stage == Joined)
  }

  lemma InsideIsFirst(s: System, i: nat, key: string, dto: Dto)
    requires LocksFit(s) && Inside(s, i) && s.calls[i].key == key
    requires SamePayload(s, key, dto) && NobodyServed(s, key)
    ensures FirstToCommit(s, i)
  {
    forall j | 0 <= j < |s.calls| && j != i && s.calls[j].key == key
      ensures j < i ==> s.calls[j].stage.Done?
      ensures i < j ==> s.calls[j].stage == Joined
    {
      AloneInside(s, i, j);
    }
    hide LocksFit;
  }

  lemma SettleWinner(c: Config, s: System, i: nat, db: Db, next: Stage, key: string, dto: Dto)
    requires OneAnswer(c, s, key, dto) && i < |s.calls| && s.calls[i].key == key && FirstToCommit(s, i)
    requires key !in s.db.records && Settles(c, s, i, db, next) && Commits(s.calls[i].stage, next)
    ensures OneAnswer(c, Settle(s, i, db, next), key, dto)
  {
    hide RequestHash;
    hide AskOf;
    var s' := Settle(s, i, db, next);
    assert Won(s', key, i);
    hide Won;
    hide FirstToCommit;
  }

  lemma SettleUnserved(c: Config, s: System, i: nat, next: Stage, key: string, dto: Dto)
    requires OneAnswer(c, s, key, dto) && i < |s.calls| && s.calls[i].key == key && key !in s.db.records
    requires next.Done? ==> next.answer.Err?
    ensures OneAnswer(c, Settle(s, i, s.db, next), key, dto)
  {
  }

  lemma LateStage(s: System, i: nat, key: string)
    requires i < |s.calls| && s.calls[i].key == key && exists w :: Won(s, key, w)
    ensures s.calls[i].stage == Joined || s.calls[i].stage.Done?
  {
    var w :| Won(s, key, w);
  }

  lemma ContinueKeepsAnswer(c: Config, s: System, i: nat, now: int, fault: Fault, key: string, dto: Dto)
    requires LocksFit(s) && KeysFit(s) && OneAnswer(c, s, key, dto) && Inside(s, i)
    requires s.calls[i].key == key && s.calls[i].stage == Joined ==> Fresh(s.db, key, now)
    ensures var (db, next) := Resumption(c, s, i, now, fault); OneAnswer(c, Settle(s, i, db, next), key, dto)
  {
    var call := s.calls[i];
    var sub := SubmissionOf(c, call.dto, call.key);
    var (db, next) := Resumption(c, s, i, now, fault);
    ResumptionSettles(c, s, i, now, fault);
    assert OnePerKey(s.db) && (call.key == key ==> call.dto == dto);
    hide LocksFit;
    hide KeysFit;
    hide OnePerKey;
    hide Resume;
    hide RequestHash;
    hide AskOf;
    hide Settle;
    if call.key != key {
      SettleOther(c, s, i, db, next, key, dto);
    } else if key in s.db.records {
      LateStage(s, i, key);
      if call.stage == Joined { CheckServes(s.db, sub, now, fault); }
      SettleLate(c, s, i, next, key, dto);
    } else if Commits(call.stage, next) {
      InsideIsFirst(s, i, key, dto);
      SettleWinner(c, s, i, db, next, key, dto);
    } else {
      NothingToServe(s.db, call.stage, sub, now, fault);
      SettleUnserved(c, s, i, next, key, dto);
    }
  }

  lemma JoinKeepsAnswer(c: Config, s: System, d: Dto, k: string, key: string, dto: Dto)
    requires OneAnswer(c, s, key, dto) && (k == key ==> d == dto)
    ensures OneAnswer(c, Join(s, d, k), key, dto)
  {
    hide CreateLock.Apply;
    hide RequestHash;
    hide AskOf;
    var s' := Join(s, d, k);
    if key in s.db.records {
      var w :| Won(s, key, w);
      assert Won(s', key, w);
    }
  }

  lemma EarlyKeepsAnswer(c: Config, s: System, e: Early, key: string, dto: Dto)
    requires OneAnswer(c, s, key, dto)
    requires e.key == key ==> if e.answer.Ok? then key in s.db.records && e.answer.value == s.db.records[key].body
                              else e.answer.error in {MissingKey, InvalidDateRange}
    ensures OneAnswer(c, s.(early := s.early + [e]), key, dto)
  {
    hide RequestHash;
    hide AskOf;
    if key in s.db.records {
      var w :| Won(s, key, w);
      assert Won(s.(early := s.early + [e]), key, w);
    }
  }

  /** An early answer under the key is read from its live record, or refuses the input. */
  lemma OutsideServes(c: Config, db: Db, dto: Dto, key: string, today: int, now: int)
    requires Fresh(db, key, now) && (key in db.records ==> db.records[key].hash == RequestHash(c.digest, dto))
    ensures var answer := EarlyAnswer(c.digest, db, dto, key, today, now);
      answer.Some? ==>
        if answer.value.Ok? then key in db.records && answer.value.value == db.records[key].body
        else answer.value.error in {MissingKey, InvalidDateRange}
  {
  }

  lemma SubmitKeepsAnswer(c: Config, s: System, d: Dto, k: string, today: int, now: int, key: string, dto: Dto)
    requires OneAnswer(c, s, key, dto) && (k == key ==> d == dto && Fresh(s.db, key, now))
    ensures OneAnswer(c, Do(c, s, Submit(d, k, today, now)), key, dto)
  {
    if k == key { OutsideServes(c, s.db, d, k, today, now); }
    var answer := EarlyAnswer(c.digest, s.db, d, k, today, now);
    JoinKeepsAnswer(c, s, d, k, key, dto);
    hide OneAnswer;
    hide EarlyAnswer;
    hide Join;
    if answer.Some? { EarlyKeepsAnswer(c, s, Early(d, k, answer.value), key, dto); }
  }

  lemma WriteKeepsAnswer(c: Config, s: System, ev: Event, key: string, dto: Dto)
    requires OneAnswer(c, s, key, dto) && !ev.Create?
    ensures OneAnswer(c, s.(db := Apply(s.db, ev)), key, dto)
  {
    RecordsStay(s.db, ev);
    hide Apply;
    hide RequestHash;
    hide AskOf;
    if key in s.db.records {
      var w :| Won(s, key, w);
      assert Won(s.(db := Apply(s.db, ev)), key, w);
    }
  }

  lemma RecordsStay(db: Db, ev: Event)
    requires !ev.Create?
    ensures Apply(db, ev).records == db.records
  {
  }

  lemma LocksBearNoAnswer(c: Config, s: System, locks: CreateLock.Locks, key: string, dto: Dto)
    requires OneAnswer(c, s, key, dto)
    ensures OneAnswer(c, s.(locks := locks), key, dto)
  {
    hide RequestHash;
    hide AskOf;
    if key in s.db.records {
      var w :| Won(s, key, w);
      assert Won(s.(locks := locks), key, w);
    }
  }

  lemma DoKeepsAnswer(c: Config, s: System, step: Step, key: string, dto: Dto)
    requires LocksFit(s) && KeysFit(s) && OneAnswer(c, s, key, dto) && Duplicating(s, step, key, dto)
    ensures OneAnswer(c, Do(c, s, step), key, dto)
  {
    hide LocksFit;
    hide KeysFit;
    hide OneAnswer;
    hide Settle;
    hide Resumption;
    hide Fresh;
    hide CreateLock.Apply;
    hide EarlyAnswer;
    hide Join;
    match step
    case Submit(d, k, today, now) => SubmitKeepsAnswer(c, s, d, k, today, now, key, dto);
    case Enter(i) => LocksBearNoAnswer(c, s, CreateLock.Apply(s.locks, CreateLock.Entry(i)), key, dto);
    case Continue(i, now, fault) => if Inside(s, i) { ContinueKeepsAnswer(c, s, i, now, fault, key, dto); }
    case Leave(i) => LocksBearNoAnswer(c, s, CreateLock.Apply(s.locks, CreateLock.Exit(i)), key, dto);
    case Write(ev) => if !ev.Create? { WriteKeepsAnswer(c, s, ev, key, dto); }
  }

  lemma BeginHasNoAnswer(c: Config, db: Db, key: string, dto: Dto)
    requires key !in db.records
    ensures OneAnswer(c, Begin(db), key, dto)
  {
  }

  /**
   * Overlapping submissions of one payload under one key, among any other calls and
   * writers and with any failures of the store: as long as nobody comes after the record's
   * expiry, nothing is answered but errors until one of them commits. Then exactly one has
   * committed; of the others, those ahead of it in the lane had left with an error, and
   * every one behind it, and every one that comes later, gets the winner's answer.
   */
  lemma {:induction false} DuplicatesGetOneAnswer(c: Config, db: Db, steps: seq<Step>, key: string, dto: Dto)
    requires OnePerKey(db) && key !in db.records && AllDuplicating(c, db, steps, key, dto)
    ensures OneAnswer(c, Play(c, Begin(db), steps), key, dto)
  {
    hide Do;
    hide Duplicating;
    hide OneAnswer;
    hide OnePerKey;
    if steps == [] {
      BeginHasNoAnswer(c, db, key, dto);
    } else {
      var n := |steps| - 1;
      DuplicatesGetOneAnswer(c, db, steps[..n], key, dto);
      RunFits(c, db, steps[..n]);
      DoKeepsAnswer(c, Play(c, Begin(db), steps[..n]), steps[n], key, dto);
    }
  }

  // ---------- nobody is left without an answer ----------

  /** A call that has not left can be followed by some step of its lane; where no step is possible, all are answered. */
  lemma RestMeansAnswered(c: Config, db: Db, steps: seq<Step>, i: nat)
    requires OnePerKey(db)
    requires var s := Play(c, Begin(db), steps);
      && i < |s.calls|
      && forall j: nat | j < |s.calls| && LockKey(s.calls[j].dto) == LockKey(s.calls[i].dto) ::
           !CreateLock.MayEnter(s.locks, j) && !Inside(s, j)
    ensures Play(c, Begin(db), steps).calls[i].stage.Done?
  {
    RunFits(c, db, steps);
    var s := Play(c, Begin(db), steps);
    if s.locks.tickets[i].phase == CreateLock.Waiting {
      CreateLock.EntersWithoutWorkAhead(s.locks, i);
      var j := CreateLock.SomebodyMoves(s.locks, i);
      assert false;
    }
  }

  // ---------- one call among the others ----------

  /** What a step of another call or writer does to the database. */
  function EventsOf(c: Config, s: System, step: Step): seq<Event> {
    match step
    case Continue(i, now, fault) =>
      if Inside(s, i) && Commits(s.calls[i].stage, Resumption(c, s, i, now, fault).1) then
        var sub := SubmissionOf(c, s.calls[i].dto, s.calls[i].key);
        [Create(sub.ask, sub.key, sub.hash, now + c.ttlMs)]
      else []
    case Write(ev) => if ev.Create? then [] else [ev]
    case _ => []
  }

  /** The awaits of call i so far, each with what others committed during it, and what they have committed since. */
  function Awaits(c: Config, s: System, steps: seq<Step>, i: nat): (seq<Pause>, seq<Event>) {
    if steps == [] then ([], [])
    else
      var n := |steps| - 1;
      var (pauses, since) := Awaits(c, s, steps[..n], i);
      var met := Play(c, s, steps[..n]);
      var step := steps[n];
      if step.Continue? && step.i == i && Inside(met, i) then (pauses + [Pause(since, step.now, step.fault)], [])
      else (pauses, since + EventsOf(c, met, step))
  }

  lemma ContinueOnDb(c: Config, s: System, i: nat, now: int, fault: Fault)
    requires Inside(s, i)
    ensures Resumption(c, s, i, now, fault).0 == Run(s.db, EventsOf(c, s, Continue(i, now, fault)))
  {
    var call := s.calls[i];
    ResumeIsAStep(s.db, call.stage, SubmissionOf(c, call.dto, call.key), now, fault);
    hide Resume;
    hide Apply;
    hide CreateTx;
    hide RequestHash;
  }

  lemma StepOnDb(c: Config, s: System, step: Step)
    ensures Do(c, s, step).db == Run(s.db, EventsOf(c, s, step))
  {
    hide Resumption;
    hide Apply;
    hide EarlyAnswer;
    hide CreateLock.Apply;
    match step
    case Submit(dto, key, today, now) =>
    case Enter(i) =>
    case Continue(i, now, fault) => if Inside(s, i) { ContinueOnDb(c, s, i, now, fault); }
    case Leave(i) =>
    case Write(ev) =>
  }

  lemma OthersLeaveCall(c: Config, s: System, step: Step, i: nat)
    requires i < |s.calls|
    ensures i < |Do(c, s, step).calls|
    ensures Do(c, s, step).calls[i].dto == s.calls[i].dto && Do(c, s, step).calls[i].key == s.calls[i].key
    ensures !(step.Continue? && step.i == i) ==> Do(c, s, step).calls[i] == s.calls[i]
  {
    hide Resume;
    hide Apply;
    hide EarlyAnswer;
    hide CreateLock.Apply;
  }

  /**
   * Each call of the protocol runs the course createRequest is proved to follow: after any
   * steps its stage, and the database up to what others have committed since its last
   * resumption, are those of Services.Follow over its awaits.
   */
  lemma {:induction false} CallFollowsItsCourse(c: Config, s: System, steps: seq<Step>, i: nat)
    requires i < |s.calls|
    ensures var after, (pauses, since) := Play(c, s, steps), Awaits(c, s, steps, i);
      var sub := SubmissionOf(c, s.calls[i].dto, s.calls[i].key);
      var (db, stage) := Follow(s.db, s.calls[i].stage, sub, pauses);
      && i < |after.calls| && after.calls[i].dto == s.calls[i].dto && after.calls[i].key == s.calls[i].key
      && after.calls[i].stage == stage && after.db == Run(db, since)
  {
    if steps != [] {
      var n := |steps| - 1;
      var step, met := steps[n], Play(c, s, steps[..n]);
      var (pauses, since) := Awaits(c, s, steps[..n], i);
      CallFollowsItsCourse(c, s, steps[..n], i);
      OthersLeaveCall(c, met, step, i);
      StepOnDb(c, met, step);
      if step.Continue? && step.i == i && Inside(met, i) {
        FollowAppend(s.db, s.calls[i].stage, SubmissionOf(c, s.calls[i].dto, s.calls[i].key), pauses,
                     Pause(since, step.now, step.fault));
      } else {
        var sub := SubmissionOf(c, s.calls[i].dto, s.calls[i].key);
        RunConcat(Follow(s.db, s.calls[i].stage, sub, pauses).0, since, EventsOf(c, met, step));
      }
      hide Resume;
      hide Apply;
      hide EventsOf;
      hide SubmissionOf;
    }
  }
}
