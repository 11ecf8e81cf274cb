/**
 * Parallel duplicates that have the database to themselves: which answer it is that
 * they all get. HCM's replies, noted in sync columns, are the only other writes.
 */
module ParallelSubmissions {
  import opened Prelude
  import opened Ledger
  import opened LedgerInvariants
  import opened Services
  import opened Submissions
  import CreateLock

  /** db differs from base in sync columns only. */
  ghost predicate OnlySynced(base: Db, db: Db) {
    && db.balances == base.balances && db.records == base.records && |db.requests| == |base.requests|
    && forall i | 0 <= i < |db.requests| ::
         var r := db.requests[i];
         r == base.requests[i].(sync := r.sync, hcmValidated := r.hcmValidated, attempts := r.attempts)
  }

  /** A duplicate arrives with accepted dates, or one goes on without a store fault, or HCM's answers are noted. */
  predicate Parallel(step: Step, key: string, dto: Dto) {
    match step
    case Submit(d, k, today, _) => d == dto && k == key && DatesAccepted(dto, today)
    case Continue(_, _, fault) => fault == NoFault
    case Write(ev) => ev.Sync?
    case _ => true
  }

  /** Sync columns decide nothing about a creation. */
  lemma SyncDecidesNothing(base: Db, db: Db, ask: Ask, key: string, hash: string, e: int, f: int)
    requires OnlySynced(base, db)
    ensures var before, now := CreateTx(base, ask, key, hash, e), CreateTx(db, ask, key, hash, f);
      (before.Ok? <==> now.Ok?) && (before.Err? ==> now == Err(before.error))
  {
    ConflictsAlike(base, db, ask);
    KeysAlike(base, db, key);
    hide Conflicts;
    hide KeyUsed;
    hide OnlySynced;
    assert db.balances == base.balances && db.records == base.records by { SyncedTables(base, db); }
  }

  lemma SyncedTables(base: Db, db: Db)
    requires OnlySynced(base, db)
    ensures db.balances == base.balances && db.records == base.records && |db.requests| == |base.requests|
  {
  }

  lemma ConflictsAlike(base: Db, db: Db, ask: Ask)
    requires OnlySynced(base, db)
    ensures Conflicts(base.requests, ask.employee, ask.location, ask.first, ask.last)
       <==> Conflicts(db.requests, ask.employee, ask.location, ask.first, ask.last)
  {
  }

  lemma KeysAlike(base: Db, db: Db, key: string)
    requires OnlySynced(base, db)
    ensures KeyUsed(base.requests, key) <==> KeyUsed(db.requests, key)
  {
  }

  lemma SyncStaysSynced(base: Db, db: Db, ev: Event)
    requires OnlySynced(base, db) && ev.Sync?
    ensures OnlySynced(base, Apply(db, ev))
  {
    hide WriteOf;
  }

  function First(base: Db, key: string, dto: Dto): Body { Body(|base.requests|, NewRequest(AskOf(dto), key)) }

  /** The transaction all duplicates have in mind, on the database they started from. */
  function Decisive(c: Config, base: Db, key: string, dto: Dto): Result<Db, Error> {
    CreateTx(base, AskOf(dto), key, RequestHash(c.digest, dto), 0)
  }

  /** Every answer so far is the one that the transaction on the first database gives. */
  ghost predicate Alike(c: Config, base: Db, s: System, key: string, dto: Dto) {
    var tx, first := Decisive(c, base, key, dto), First(base, key, dto);
    && (forall i | 0 <= i < |s.calls| :: s.calls[i].key == key && s.calls[i].dto == dto)
    && if key in s.db.records then
         && tx.Ok? && s.db.records[key].hash == RequestHash(c.digest, dto) && s.db.records[key].body == first
         && (forall i | 0 <= i < |s.calls| :: s.calls[i].stage == Joined || s.calls[i].stage == Done(Ok(first)))
         && (forall i | 0 <= i < |s.early| :: s.early[i].answer == Ok(first))
       else
         && OnlySynced(base, s.db) && s.early == []
         && (forall i | 0 <= i < |s.calls| ::
               || s.calls[i].stage == Joined || s.calls[i].stage.Trying?
               || (tx.Err? && s.calls[i].stage == Done(Err(tx.error))))
  }

  lemma TryAlike(c: Config, base: Db, db: Db, n: nat, key: string, dto: Dto, now: int)
    requires OnlySynced(base, db) && OnePerKey(db) && key !in db.records
    ensures var tx, sub := Decisive(c, base, key, dto), SubmissionOf(c, dto, key);
      Resume(db, Trying(n), sub, now, NoFault).1 == Done(if tx.Ok? then Ok(First(base, key, dto)) else Err(tx.error))
  {
    var sub := SubmissionOf(c, dto, key);
    SyncDecidesNothing(base, db, sub.ask, key, sub.hash, 0, now + c.ttlMs);
    OnlyFaultsContend(db, sub.ask, key, sub.hash, now + c.ttlMs);
    UnusedKey(db, key);
    UnusedKeyIsNoViolation(db, sub.ask, key, sub.hash, now + c.ttlMs);
    hide CreateTx;
    hide RequestHash;
    hide AskOf;
    hide OnePerKey;
  }

  lemma UnusedKeyIsNoViolation(db: Db, ask: Ask, key: string, hash: string, expiresAt: int)
    requires key !in db.records && !KeyUsed(db.requests, key)
    ensures CreateTx(db, ask, key, hash, expiresAt) != Err(ConstraintViolation)
  {
  }

  lemma SettleAlike(c: Config, base: Db, s: System, i: nat, db: Db, next: Stage, key: string, dto: Dto)
    requires Alike(c, base, s, key, dto) && i < |s.calls| && Settles(c, s, i, db, next) && FirstToCommit(s, i)
    requires key !in s.db.records && s.calls[i].stage.Trying?
    requires var tx := Decisive(c, base, key, dto);
      next == Done(if tx.Ok? then Ok(First(base, key, dto)) else Err(tx.error))
    ensures Alike(c, base, Settle(s, i, db, next), key, dto)
  {
    hide CreateTx;
    hide RequestHash;
    hide AskOf;
    hide OnlySynced;
  }

  lemma ServeAlike(c: Config, base: Db, s: System, i: nat, key: string, dto: Dto, next: Stage)
    requires Alike(c, base, s, key, dto) && i < |s.calls|
    requires key in s.db.records ==> next == Done(Ok(First(base, key, dto)))
    requires key !in s.db.records ==> next.Trying? || next == s.calls[i].stage
    ensures Alike(c, base, Settle(s, i, s.db, next), key, dto)
  {
    hide CreateTx;
    hide RequestHash;
    hide AskOf;
    hide OnlySynced;
  }

  lemma CheckGoesOn(db: Db, sub: Submission, now: int, fault: Fault)
    requires sub.key !in db.records
    ensures Resume(db, Joined, sub, now, fault) == (db, Trying(1))
  {
  }

  lemma DoneStays(db: Db, st: Stage, sub: Submission, now: int)
    requires st.Done?
    ensures Resume(db, st, sub, now, NoFault) == (db, st)
  {
  }

  lemma StagesOf(c: Config, base: Db, s: System, i: nat, key: string, dto: Dto)
    requires Alike(c, base, s, key, dto) && i < |s.calls|
    ensures s.calls[i].key == key && s.calls[i].dto == dto
    ensures s.calls[i].stage == Joined || s.calls[i].stage.Trying? || s.calls[i].stage.Done?
    ensures key in s.db.records ==>
      && s.db.records[key].hash == RequestHash(c.digest, dto) && s.db.records[key].body == First(base, key, dto)
      && !s.calls[i].stage.Trying? && (s.calls[i].stage.Done? ==> s.calls[i].stage == Done(Ok(First(base, key, dto))))
    ensures key !in s.db.records ==> OnlySynced(base, s.db)
  {
  }

  lemma ContinueAlike(c: Config, base: Db, s: System, i: nat, now: int, key: string, dto: Dto)
    requires LocksFit(s) && OnePerKey(s.db) && Alike(c, base, s, key, dto) && Inside(s, i)
    requires s.calls[i].stage == Joined ==> Fresh(s.db, key, now)
    ensures var (db, next) := Resumption(c, s, i, now, NoFault); Alike(c, base, Settle(s, i, db, next), key, dto)
  {
    var stage, sub := s.calls[i].stage, SubmissionOf(c, dto, key);
    var (db, next) := Resumption(c, s, i, now, NoFault);
    ResumptionSettles(c, s, i, now, NoFault);
    assert SamePayload(s, key, dto) && (key !in s.db.records ==> NobodyServed(s, key));
    StagesOf(c, base, s, i, key, dto);
    hide Alike;
    hide LocksFit;
    hide SamePayload;
    hide NobodyServed;
    hide FirstToCommit;
    hide Settles;
    hide OnlySynced;
    hide OnePerKey;
    hide Resume;
    hide RequestHash;
    hide AskOf;
    hide CreateTx;
    hide Settle;
    if stage.Done? {
      DoneStays(s.db, stage, sub, now);
      ServeAlike(c, base, s, i, key, dto, next);
    } else if stage == Joined {
      if key in s.db.records { CheckServes(s.db, sub, now, NoFault); } else { CheckGoesOn(s.db, sub, now, NoFault); }
      ServeAlike(c, base, s, i, key, dto, next);
    } else {
      InsideIsFirst(s, i, key, dto);
      TryAlike(c, base, s.db, stage.n, key, dto, now);
      SettleAlike(c, base, s, i, db, next, key, dto);
    }
  }

  lemma SubmitAlike(c: Config, base: Db, s: System, today: int, now: int, key: string, dto: Dto)
    requires Alike(c, base, s, key, dto) && key != "" && DatesAccepted(dto, today) && Fresh(s.db, key, now)
    ensures Alike(c, base, Do(c, s, Submit(dto, key, today, now)), key, dto)
  {
    hide CreateTx;
    hide RequestHash;
    hide AskOf;
    hide OnlySynced;
    hide DatesAccepted;
    hide CreateLock.Apply;
  }

  lemma WriteAlike(c: Config, base: Db, s: System, ev: Event, key: string, dto: Dto)
    requires Alike(c, base, s, key, dto) && ev.Sync?
    ensures Alike(c, base, s.(db := Apply(s.db, ev)), key, dto)
  {
    RecordsStay(s.db, ev);
    if key !in s.db.records { SyncStaysSynced(base, s.db, ev); }
    hide Apply;
    hide CreateTx;
    hide RequestHash;
    hide AskOf;
    hide OnlySynced;
  }

  lemma LocksAlike(c: Config, base: Db, s: System, locks: CreateLock.Locks, key: string, dto: Dto)
    requires Alike(c, base, s, key, dto)
    ensures Alike(c, base, s.(locks := locks), key, dto)
  {
    hide CreateTx;
    hide RequestHash;
    hide AskOf;
    hide OnlySynced;
  }

  lemma DoAlike(c: Config, base: Db, s: System, step: Step, key: string, dto: Dto)
    requires LocksFit(s) && KeysFit(s) && Alike(c, base, s, key, dto) && key != ""
    requires Parallel(step, key, dto) && Duplicating(s, step, key, dto)
    ensures Alike(c, base, Do(c, s, step), key, dto)
  {
    assert OnePerKey(s.db) && forall i | 0 <= i < |s.calls| :: s.calls[i].key == key;
    hide LocksFit;
    hide KeysFit;
    hide OnePerKey;
    hide Alike;
    hide Settle;
    hide Resumption;
    hide Fresh;
    hide DatesAccepted;
    hide EarlyAnswer;
    hide Join;
    hide CreateLock.Apply;
    match step
    case Submit(_, _, today, now) => SubmitAlike(c, base, s, today, now, key, dto);
    case Enter(i) => LocksAlike(c, base, s, CreateLock.Apply(s.locks, CreateLock.Entry(i)), key, dto);
    case Continue(i, now, _) => if Inside(s, i) { ContinueAlike(c, base, s, i, now, key, dto); }
    case Leave(i) => LocksAlike(c, base, s, CreateLock.Apply(s.locks, CreateLock.Exit(i)), key, dto);
    case Write(ev) => WriteAlike(c, base, s, ev, key, dto);
  }

  lemma {:induction false} RunAlike(c: Config, base: Db, steps: seq<Step>, key: string, dto: Dto)
    requires OnePerKey(base) && key !in base.records && key != ""
    requires AllDuplicating(c, base, steps, key, dto) && forall k | 0 <= k < |steps| :: Parallel(steps[k], key, dto)
    ensures Alike(c, base, Play(c, Begin(base), steps), key, dto)
  {
    hide Do;
    hide Duplicating;
    hide Parallel;
    hide OnePerKey;
    if steps == [] {
      assert OnlySynced(base, base);
      hide OnlySynced;
    } else {
      hide Alike;
      var n := |steps| - 1;
      assert forall k | 0 <= k < n :: steps[..n][k] == steps[k];
      RunAlike(c, base, steps[..n], key, dto);
      RunFits(c, base, steps[..n]);
      DoAlike(c, base, Play(c, Begin(base), steps[..n]), steps[n], key, dto);
    }
  }

  /**
   * Any number of parallel submissions of one payload under one fresh key, with nobody
   * else creating, deciding or adjusting anything, no store fault and the record live: all
   * that are answered get one and the same answer, the created request if the transaction
   * is possible on the database they found, and its refusal otherwise.
   */
  lemma ParallelDuplicatesAgree(c: Config, base: Db, steps: seq<Step>, key: string, dto: Dto)
    requires OnePerKey(base) && key !in base.records && key != ""
    requires AllDuplicating(c, base, steps, key, dto) && forall k | 0 <= k < |steps| :: Parallel(steps[k], key, dto)
    ensures var s := Play(c, Begin(base), steps);
      var tx := CreateTx(base, AskOf(dto), key, RequestHash(c.digest, dto), 0);
      var answer := if tx.Ok? then Ok(Body(|base.requests|, NewRequest(AskOf(dto), key))) else Err(tx.error);
      && (forall i | 0 <= i < |s.calls| && s.calls[i].stage.Done? :: s.calls[i].stage.answer == answer)
      && (forall i | 0 <= i < |s.early| :: s.early[i].answer == answer)
  {
    RunAlike(c, base, steps, key, dto);
    hide CreateTx;
    hide RequestHash;
    hide AskOf;
    hide OnlySynced;
    hide Play;
  }
}
