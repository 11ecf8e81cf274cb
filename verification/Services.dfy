/**
 * The services that write the ledger, with the database as a mutable object.
 * Every method is proved against the transaction of module Ledger it performs.
 */
module Services {
  import opened Prelude
  import opened Ledger
  import opened LedgerInvariants
  import opened LedgerRuns
  import opened Dates
  import opened Canonical
  import CreateLock

  class Database {
    var balances: map<Row, Balance>
    var requests: seq<Request>
    var records: map<string, Record>

    ghost function View(): Db
      reads this
    {
      Db(balances, requests, records)
    }

    constructor ()
      ensures View() == EMPTY
    {
      balances, requests, records := map[], [], map[];
    }

    /** What other callers and jobs commit while this one waits. */
    method Await(others: seq<Event>)
      modifies this
      ensures View() == Run(old(View()), others)
    {
      var after := Run(Db(balances, requests, records), others);
      balances, requests, records := after.balances, after.requests, after.records;
    }
  }

  class BalanceService {
    const db: Database

    constructor (db: Database)
      ensures this.db == db
    {
      this.db := db;
    }

    method AtomicDeduct(k: Row, days: int) returns (r: Result<(), Error>)
      modifies db
      ensures db.requests == old(db.requests) && db.records == old(db.records)
      ensures r.Ok? ==> Ledger.AtomicDeduct(old(db.balances), k, days) == Ok(db.balances)
      ensures r.Err? ==> Ledger.AtomicDeduct(old(db.balances), k, days) == Err(r.error) && db.View() == old(db.View())
      // in amounts
      ensures r.Ok? <==> k in old(db.balances) && old(db.balances)[k].available >= days as real
      ensures r == Err(BalanceNotFound) <==> k !in old(db.balances)
      ensures r.Err? ==> r.error in {BalanceNotFound, InsufficientBalance}
      ensures r.Ok? ==>
        var b := old(db.balances)[k];
        db.balances == old(db.balances)[k :=
          b.(available := b.available - days as real, pending := b.pending + days as real)]
    {
      if k !in db.balances { return Err(BalanceNotFound); }
      var balance := db.balances[k];
      if balance.available < days as real { return Err(InsufficientBalance); }
      balance := balance.(available := balance.available - days as real);
      balance := balance.(pending := balance.pending + days as real);
      db.balances := db.balances[k := balance];
      return Ok(());
    }

    method ReleaseFromPending(k: Row, days: int) returns (r: Result<(), Error>)
      modifies db
      ensures db.requests == old(db.requests) && db.records == old(db.records)
      ensures r.Ok? ==> Ledger.ReleaseFromPending(old(db.balances), k, days) == Ok(db.balances)
      ensures r.Err? ==>
        Ledger.ReleaseFromPending(old(db.balances), k, days) == Err(r.error) && db.View() == old(db.View())
      // in amounts
      ensures r.Ok? <==> k in old(db.balances) && old(db.balances)[k].pending >= days as real
      ensures r == Err(BalanceNotFound) <==> k !in old(db.balances)
      ensures r.Err? ==> r.error in {BalanceNotFound, BalanceConflict}
      ensures r.Ok? ==>
        var b := old(db.balances)[k];
        db.balances == old(db.balances)[k :=
          b.(pending := b.pending - days as real, available := b.available + days as real)]
    {
      if k !in db.balances { return Err(BalanceNotFound); }
      var balance := db.balances[k];
      if balance.pending < days as real { return Err(BalanceConflict); }
      balance := balance.(pending := balance.pending - days as real);
      balance := balance.(available := balance.available + days as real);
      db.balances := db.balances[k := balance];
      return Ok(());
    }

    method FinalizeUsed(k: Row, days: int) returns (r: Result<(), Error>)
      modifies db
      ensures db.requests == old(db.requests) && db.records == old(db.records)
      ensures r.Ok? ==> Ledger.FinalizeUsed(old(db.balances), k, days) == Ok(db.balances)
      ensures r.Err? ==> Ledger.FinalizeUsed(old(db.balances), k, days) == Err(r.error) && db.View() == old(db.View())
      // in amounts
      ensures r.Ok? <==> k in old(db.balances) && old(db.balances)[k].pending >= days as real
      ensures r == Err(BalanceNotFound) <==> k !in old(db.balances)
      ensures r.Err? ==> r.error in {BalanceNotFound, BalanceConflict}
      ensures r.Ok? ==>
        var b := old(db.balances)[k];
        db.balances == old(db.balances)[k :=
          b.(pending := b.pending - days as real, used := b.used + days as real)]
    {
      if k !in db.balances { return Err(BalanceNotFound); }
      var balance := db.balances[k];
      if balance.pending < days as real { return Err(BalanceConflict); }
      balance := balance.(pending := balance.pending - days as real);
      balance := balance.(used := balance.used + days as real);
      db.balances := db.balances[k := balance];
      return Ok(());
    }

    method UpsertBalance(k: Row, total: real)
      modifies db
      ensures db.View() == Apply(old(db.View()), Seed(k, total))
      ensures k in old(db.balances) ==> db.View() == old(db.View())
      ensures k !in old(db.balances) ==>
        db.balances == old(db.balances)[k := Balance(total, total, 0.0, 0.0, total, None, false, None)]
    {
      if k in db.balances { return; }
      db.balances := db.balances[k := NewBalance(total, None)];
    }

    method ApplyHcmRealTimeUpdate(k: Row, hcmTotal: real, version: Option<string>)
      modifies db
      ensures db.View() == Apply(old(db.View()), RealTime(k, hcmTotal, version))
      ensures k !in old(db.balances) ==> db.View() == old(db.View())
      ensures k in old(db.balances) ==>
        var b, b' := old(db.balances)[k], db.balances[k];
        var drift := hcmTotal - (b.available + b.pending + b.used);
        && b'.total == (if drift > 0.001 then hcmTotal else b.total)
        && b'.available == (if drift > 0.001 then b.available + drift else b.available)
        && b'.pending == b.pending && b'.used == b.used && b'.hcmTotal == hcmTotal && b'.hcmVersion == version
        && b'.discrepancy == (if drift < -0.001 then Some(-drift) else None)
        && b'.hasDiscrepancy == b'.discrepancy.Some?
        && db.balances == old(db.balances)[k := b']
    {
      if k !in db.balances { return; }
      var balance := db.balances[k];
      var drift := hcmTotal - (balance.used + balance.pending + balance.available);
      var hasDiscrepancy, discrepancyAmount := false, None;
      if drift > 0.001 {
        balance := balance.(available := balance.available + drift);
        balance := balance.(total := hcmTotal);
      } else if drift < -0.001 {
        hasDiscrepancy := true;
        discrepancyAmount := Some(Abs(drift));
      }
      balance := balance.(hcmTotal := hcmTotal, hcmVersion := version);
      balance := balance.(hasDiscrepancy := hasDiscrepancy, discrepancy := discrepancyAmount);
      db.balances := db.balances[k := balance];
    }
  }

  /** How the store may fail a transaction: contention on either end, or anything else at commit. */
  datatype Fault = NoFault | BusyAtBegin | BusyAtCommit | BrokenAtCommit

  lemma OnlyFaultsContend(db: Db, ask: Ask, key: string, hash: string, expiresAt: int)
    ensures CreateTx(db, ask, key, hash, expiresAt).Err? ==>
      CreateTx(db, ask, key, hash, expiresAt).error
      in {Overlapping, BalanceNotFound, InsufficientBalance, ConstraintViolation}
  {
  }

  function Attempt(db: Db, ask: Ask, key: string, hash: string, expiresAt: int, fault: Fault): Result<Db, Error> {
    if fault == BusyAtBegin then Err(Contention)
    else
      var tx := CreateTx(db, ask, key, hash, expiresAt);
      if tx.Err? then tx
      else if fault == BusyAtCommit then Err(Contention)
      else if fault == BrokenAtCommit then Err(Unexpected)
      else tx
  }

  /**
   * A store that fails at commit turns a commit, and only a commit, into contention or an
   * unexpected error; one busy at the begin is contention at once.
   */
  lemma AttemptEnds(db: Db, ask: Ask, key: string, hash: string, expiresAt: int, fault: Fault)
    ensures var tx, r := CreateTx(db, ask, key, hash, expiresAt), Attempt(db, ask, key, hash, expiresAt, fault);
      && (r.Ok? <==> tx.Ok? && fault == NoFault)
      && (r == Err(Contention) <==> fault == BusyAtBegin || (tx.Ok? && fault == BusyAtCommit))
      && (r == Err(Unexpected) <==> tx.Ok? && fault == BrokenAtCommit)
      && (tx.Err? && fault != BusyAtBegin ==> r == tx)
  {
    OnlyFaultsContend(db, ask, key, hash, expiresAt);
    hide CreateTx;
  }

  /** An await of createRequest: what others commit meanwhile, the clock after it, and the store's mood. */
  datatype Pause = Pause(others: seq<Event>, now: int, fault: Fault)

  /** The state a call meets after its first n awaits, if it wrote nothing itself. */
  function Met(db: Db, pauses: seq<Pause>, n: nat): Db
    requires n <= |pauses|
  {
    if n == 0 then db else Run(Met(db, pauses, n - 1), pauses[n - 1].others)
  }

  lemma {:induction false} MetExtends(db: Db, pauses: seq<Pause>, n: nat)
    requires n <= |pauses|
    ensures Extends(db, Met(db, pauses, n))
  {
    if n == 0 {
      RunExtends(db, []);
    } else {
      MetExtends(db, pauses, n - 1);
      RunExtends(Met(db, pauses, n - 1), pauses[n - 1].others);
      ExtendsTransitive(db, Met(db, pauses, n - 1), Met(db, pauses, n));
    }
  }

  /** Every step others commit keeps requests and records in correspondence. */
  lemma {:induction false} MetKeepsKeys(db: Db, pauses: seq<Pause>, n: nat)
    requires n <= |pauses| && OnePerKey(db)
    ensures OnePerKey(Met(db, pauses, n))
  {
    hide OnePerKey;
    if n > 0 {
      MetKeepsKeys(db, pauses, n - 1);
      RunKeepsKeys(Met(db, pauses, n - 1), pauses[n - 1].others);
    }
  }

  /** The validated body of POST /time-off/requests. */
  datatype Dto = Dto(
    employee: string, location: string, leave: LeaveType, startDate: DateText, endDate: DateText,
    notes: Option<string>)

  function AskOf(dto: Dto): Ask {
    var start, end := DateOf(dto.startDate), DateOf(dto.endDate);
    Ask(dto.employee, dto.location, dto.leave, UtcDay(start), UtcDay(end), CalculateDaysRequested(start, end))
  }

  /** The start is checked by its Date.UTC value, the order of the two by their values as ISO texts. */
  predicate DatesAccepted(dto: Dto, today: int) {
    IsNotInPast(DateOf(dto.startDate), today) && IsoDay(DateOf(dto.endDate)) >= IsoDay(DateOf(dto.startDate))
  }

  lemma TextsAreWritten(s: DateText)
    ensures IsWritten(DateOf(s))
  {
    TextSaysDate(s);
  }

  /** The date checks leave an ordered range of days of the calendar whose length is the inclusive day count. */
  lemma AcceptedAskIsShaped(dto: Dto, today: int)
    requires today >= UtcDay(Date(2000, 1, 1)) && DatesAccepted(dto, today)
    ensures AskShaped(AskOf(dto))
    ensures UtcDay(Date(2000, 1, 1)) <= AskOf(dto).first && AskOf(dto).last <= UtcDay(Date(9999, 12, 31))
  {
    var start, end := DateOf(dto.startDate), DateOf(dto.endDate);
    TextsAreWritten(dto.startDate);
    TextsAreWritten(dto.endDate);
    NotInPastByDays(start, today);
    LastDay(end);
    hide UtcDay;
    hide IsoDay;
    hide CalculateDaysRequested;
    hide IsNotInPast;
    hide DateOf;
    AcceptedDatesAreUnmoved(start, end, today);
    MillisecondsAndDays(start, end);
  }

  /** What the dto says, day by day and row by row, is what a committed creation stored and reserved. */
  ghost predicate Fulfils(met: Db, dto: Dto, key: string, hash: string, expiresAt: int, body: Body, after: Db) {
    var r, k := body.request, Row(dto.employee, dto.location, dto.leave);
    && r.key == key && r.employee == dto.employee && r.location == dto.location && r.leave == dto.leave
    && r.first == UtcDay(DateOf(dto.startDate)) && r.last == UtcDay(DateOf(dto.endDate))
    && r.days == Max(r.last - r.first + 1, 1)
    && r.status == Pending && !r.hcmValidated && r.sync == SyncPending && r.attempts == 0
    && body.id == |met.requests| && after.requests == met.requests + [r]
    && k in met.balances && met.balances[k].available >= r.days as real
    && after.balances == met.balances[k := met.balances[k].(
         available := met.balances[k].available - r.days as real,
         pending := met.balances[k].pending + r.days as real)]
    && key !in met.records
    && after.records == met.records[key := Record(dto.employee, hash, body, expiresAt)]
  }

  lemma CreationFulfils(met: Db, dto: Dto, key: string, hash: string, expiresAt: int)
    requires CreateTx(met, AskOf(dto), key, hash, expiresAt).Ok?
    ensures Fulfils(met, dto, key, hash, expiresAt, Body(|met.requests|, NewRequest(AskOf(dto), key)),
                    CreateTx(met, AskOf(dto), key, hash, expiresAt).value)
  {
    MillisecondsAndDays(DateOf(dto.startDate), DateOf(dto.endDate));
    CreationMovesDays(met, AskOf(dto), key, hash, expiresAt);
    hide UtcDay;
    hide DateOf;
    hide CalculateDaysRequested;
  }

  /** With accepted dates the days reserved are the inclusive length of the leave. */
  lemma AcceptedDaysAreInclusive(dto: Dto, today: int)
    requires today >= UtcDay(Date(2000, 1, 1)) && DatesAccepted(dto, today)
    ensures var first, last := UtcDay(DateOf(dto.startDate)), UtcDay(DateOf(dto.endDate));
      first <= last && Max(last - first + 1, 1) == last - first + 1
  {
    AcceptedAskIsShaped(dto, today);
  }

  lemma CommitFulfils(met: Db, dto: Dto, today: int, key: string, hash: string, expiresAt: int)
    requires CreateTx(met, AskOf(dto), key, hash, expiresAt).Ok? && DatesAccepted(dto, today)
    ensures var body := Body(|met.requests|, NewRequest(AskOf(dto), key));
      && Fulfils(met, dto, key, hash, expiresAt, body, CreateTx(met, AskOf(dto), key, hash, expiresAt).value)
      && (today >= UtcDay(Date(2000, 1, 1)) ==> body.request.days == body.request.last - body.request.first + 1)
  {
    CreationFulfils(met, dto, key, hash, expiresAt);
    if today >= UtcDay(Date(2000, 1, 1)) { AcceptedDaysAreInclusive(dto, today); }
    hide UtcDay;
    hide DateOf;
    hide DatesAccepted;
    hide CalculateDaysRequested;
    hide CreateTx;
  }

  /**
   * The date checks in calendar terms, today being the date t: the leave starts on t or
   * later and does not end before it starts. A leave of one day, today, is accepted.
   */
  lemma DatesAcceptedInCalendar(dto: Dto, t: Date)
    requires IsDate(t) && t.year >= 2000
    ensures var start, end := Denoted(DateOf(dto.startDate)), Denoted(DateOf(dto.endDate));
      DatesAccepted(dto, UtcDay(t)) <==> NotAfter(t, start) && NotAfter(start, end)
  {
    var start, end, today := DateOf(dto.startDate), DateOf(dto.endDate), UtcDay(t);
    TextsAreWritten(dto.startDate);
    TextsAreWritten(dto.endDate);
    NotInPastByDays(start, today);
    WrittenDatesDenote(t);
    DayNumbersFollowTheCalendar(t, Date(2000, 1, 1));
    if DatesAccepted(dto, today) { AcceptedDatesAreUnmoved(start, end, today); }
    DayNumbersFollowDenotedDays(t, start);
    DayNumbersFollowDenotedDays(start, t);
    DayNumbersFollowDenotedDays(start, end);
    FromTheEpoch(start);
    FromTheEpoch(end);
    hide UtcDay;
    hide IsoDay;
    hide IsNotInPast;
    hide Denoted;
    hide DateOf;
  }

  lemma FromTheEpoch(d: Date)
    requires IsWritten(d)
    ensures UtcDay(d) >= UtcDay(Date(2000, 1, 1)) ==> IsoDay(d) == UtcDay(d)
  {
    UnmovedYear(Date(2000, 1, 1));
    if d.year < 2000 { BeforeTheEpoch(d); } else { WrittenYear(d); }
  }

  lemma LastDay(d: Date)
    requires IsWritten(d)
    ensures UtcDay(d) <= UtcDay(Date(9999, 12, 31))
  {
    hide UtcDay;
    WrittenDatesDenote(d);
    DayNumbersFollowTheCalendar(Denoted(d), Date(9999, 12, 31));
  }

  // ---------- the payload and its hash ----------

  function PayloadFields(dto: Dto): seq<Field> {
    [Field("employeeId", Str(dto.employee)), Field("locationId", Str(dto.location)),
     Field("leaveType", Str(LeaveName(dto.leave))),
     Field("startDate", Str(dto.startDate)), Field("endDate", Str(dto.endDate))]
    + (if dto.notes.Some? then [Field("notes", Str(dto.notes.value))] else [])
  }

  function RequestHash(digest: Json -> string, dto: Dto): string {
    HashObject(digest, Obj(PayloadFields(dto)))
  }

  lemma KeysDiffer(dto: Dto)
    ensures DistinctKeys(PayloadFields(dto))
    ensures forall i | 0 <= i < |PayloadFields(dto)| :: PayloadFields(dto)[i].key != PROTO
    ensures HasKey(PayloadFields(dto), "notes") <==> dto.notes.Some?
  {
    var fs := PayloadFields(dto);
    assert fs[0].key[..2] == "em" && fs[1].key[..2] == "lo" && fs[2].key[..2] == "le";
    assert fs[3].key[..2] == "st" && fs[4].key[..2] == "en" && "notes"[..2] == "no" && PROTO[..2] == "__";
    if dto.notes.Some? { assert fs[5].key == "notes"; }
  }

  lemma SameFieldSameValue(fs: seq<Field>, gs: seq<Field>, i: nat)
    requires SameUpToOrder(Obj(fs), Obj(gs)) && DistinctKeys(gs) && i < |fs| && i < |gs|
    requires fs[i].key == gs[i].key != PROTO && fs[i].value.Str?
    ensures gs[i].value == fs[i].value
  {
    var k := PartnerOf(Obj(fs), Obj(gs), i);
    assert k == i;
  }

  lemma SameNotes(a: Dto, b: Dto)
    requires SameUpToOrder(Obj(PayloadFields(a)), Obj(PayloadFields(b)))
    ensures a.notes.Some? <==> b.notes.Some?
  {
    KeysDiffer(a);
    KeysDiffer(b);
    PartnersExist(Obj(PayloadFields(a)), Obj(PayloadFields(b)));
    hide SameUpToOrder;
    if a.notes.Some? { assert HasPartner(PayloadFields(a)[5], PayloadFields(b)); }
  }

  lemma FieldsAt(dto: Dto)
    ensures var fs := PayloadFields(dto);
      && |fs| == (if dto.notes.Some? then 6 else 5)
      && fs[0].value == Str(dto.employee) && fs[1].value == Str(dto.location)
      && fs[2].value == Str(LeaveName(dto.leave))
      && fs[3].value == Str(dto.startDate) && fs[4].value == Str(dto.endDate)
      && (dto.notes.Some? ==> fs[5].value == Str(dto.notes.value))
  {
  }

  lemma KeysAgree(a: Dto, b: Dto, i: nat)
    requires i < |PayloadFields(a)| == |PayloadFields(b)|
    ensures PayloadFields(a)[i].key == PayloadFields(b)[i].key != PROTO && PayloadFields(a)[i].value.Str?
  {
    KeysDiffer(a);
  }

  lemma SamePayloadSameDto(a: Dto, b: Dto)
    requires SameUpToOrder(Obj(PayloadFields(a)), Obj(PayloadFields(b)))
    ensures a == b
  {
    var fs, gs := PayloadFields(a), PayloadFields(b);
    SameNotes(a, b);
    FieldsAt(a);
    FieldsAt(b);
    KeysDiffer(b);
    hide *;
    forall i: nat | i < |fs| ensures gs[i].value == fs[i].value {
      KeysAgree(a, b, i);
      SameFieldSameValue(fs, gs, i);
    }
    assert gs[0].value == fs[0].value && gs[1].value == fs[1].value && gs[2].value == fs[2].value;
    assert gs[3].value == fs[3].value && gs[4].value == fs[4].value;
    if a.notes.Some? { assert gs[5].value == fs[5].value; }
    LeaveNamesDiffer(a.leave, b.leave);
  }

  lemma PayloadIsWellFormed(dto: Dto)
    ensures WellFormed(Obj(PayloadFields(dto)))
  {
    KeysDiffer(dto);
  }

  /** With a digest that tells trees apart, two submissions hash alike exactly if they are the same. */
  lemma HashTellsPayloadsApart(digest: Json -> string, a: Dto, b: Dto)
    requires TellsApart(digest)
    ensures RequestHash(digest, a) == RequestHash(digest, b) <==> a == b
  {
    PayloadIsWellFormed(a);
    PayloadIsWellFormed(b);
    SameHashExactlyWhenEqual(digest, Obj(PayloadFields(a)), Obj(PayloadFields(b)));
    if SameUpToOrder(Obj(PayloadFields(a)), Obj(PayloadFields(b))) { SamePayloadSameDto(a, b); }
    hide PayloadFields;
    hide HashObject;
  }

  predicate Live(records: map<string, Record>, key: string, now: int) {
    key in records && !(records[key].expiresAt < now)
  }

  /** _checkIdempotency: nothing, the stored body, or a conflict. */
  function CheckIdempotency(records: map<string, Record>, key: string, hash: string, now: int)
    : Result<Option<Body>, Error>
  {
    if !Live(records, key, now) then Ok(None)
    else if records[key].hash != hash then Err(IdempotencyConflict)
    else Ok(Some(records[key].body))
  }

  /** The answer is read from the store: a live record of the same payload, or the row the key named. */
  predicate ReadFromStore(db: Db, key: string, hash: string, now: int, body: Body) {
    || (Live(db.records, key, now) && db.records[key].hash == hash && body == db.records[key].body)
    || (!Live(db.records, key, now) && body.id < |db.requests| && body.request == db.requests[body.id]
        && body.request.key == key)
  }

  /** Will _recoverAfterConstraint find an answer? */
  predicate Recoverable(db: Db, key: string, hash: string, now: int) {
    if Live(db.records, key, now) then db.records[key].hash == hash else KeyUsed(db.requests, key)
  }

  /** The position of the row a key names, or the length of the table. */
  function IndexOfKey(rs: seq<Request>, key: string): (i: nat)
    ensures i <= |rs| && (i < |rs| ==> rs[i].key == key)
    ensures forall j | 0 <= j < i :: rs[j].key != key
  {
    if rs == [] || rs[0].key == key then 0 else 1 + IndexOfKey(rs[1..], key)
  }

  /** What the catch block of createRequest makes of a constraint violation or contention. */
  function Recovered(db: Db, key: string, hash: string, now: int, failure: Error): Result<Body, Error> {
    var check := CheckIdempotency(db.records, key, hash, now);
    var i := IndexOfKey(db.requests, key);
    if check.Err? then Err(check.error)
    else if check.value.Some? then Ok(check.value.value)
    else if i < |db.requests| then Ok(Body(i, db.requests[i]))
    else Err(if failure == Contention then BalanceConflict else failure)
  }

  // ---------- a call inside its lane, one await at a time ----------

  /** What a call is about, once its dates are accepted. */
  datatype Submission = Submission(ask: Ask, key: string, hash: string, ttlMs: int)

  function SubmissionFrom(digest: Json -> string, ttlMs: int, dto: Dto, key: string): Submission {
    Submission(AskOf(dto), key, RequestHash(digest, dto), ttlMs)
  }

  /** The answer a call gives before it joins a lane, if it gives one. */
  function EarlyAnswer(digest: Json -> string, db: Db, dto: Dto, key: string, today: int, now: int)
    : Option<Result<Body, Error>>
  {
    if key == "" then Some(Err(MissingKey))
    else if !DatesAccepted(dto, today) then Some(Err(InvalidDateRange))
    else
      var check := CheckIdempotency(db.records, key, RequestHash(digest, dto), now);
      if check.Err? then Some(Err(check.error))
      else if check.value.Some? then Some(Ok(check.value.value))
      else None
  }

  /** What the call does when it resumes next: check again, try for the n-th time, recover, or nothing more. */
  datatype Stage = Joined | Trying(n: nat) | Recovering(failure: Error) | Done(answer: Result<Body, Error>)

  function AfterCheck(db: Db, sub: Submission, now: int): Stage {
    var check := CheckIdempotency(db.records, sub.key, sub.hash, now);
    if check.Err? then Done(Err(check.error))
    else if check.value.Some? then Done(Ok(check.value.value))
    else Trying(1)
  }

  function Tried(db: Db, sub: Submission, now: int, fault: Fault): Result<Db, Error> {
    Attempt(db, sub.ask, sub.key, sub.hash, now + sub.ttlMs, fault)
  }

  /** Contention is retried twice; after that, and after a constraint violation, the call looks for an answer. */
  function AfterFailure(n: nat, e: Error): Stage {
    if e == Contention && n < 3 then Trying(n + 1)
    else if e == Contention || e == ConstraintViolation then Recovering(e)
    else Done(Err(e))
  }

  /** One resumption, in the state the call meets then. */
  function Resume(db: Db, st: Stage, sub: Submission, now: int, fault: Fault): (Db, Stage) {
    match st
    case Joined => (db, AfterCheck(db, sub, now))
    case Trying(n) =>
      var tx := Tried(db, sub, now, fault);
      if tx.Ok? then (tx.value, Done(Ok(Body(|db.requests|, NewRequest(sub.ask, sub.key)))))
      else (db, AfterFailure(n, tx.error))
    case Recovering(failure) => (db, Done(Recovered(db, sub.key, sub.hash, now, failure)))
    case Done(_) => (db, st)
  }

  /** The course of a call over its awaits, from a state and a stage. */
  function Follow(db: Db, st: Stage, sub: Submission, pauses: seq<Pause>): (Db, Stage) {
    if pauses == [] then (db, st)
    else
      var n := |pauses| - 1;
      var (before, at) := Follow(db, st, sub, pauses[..n]);
      Resume(Run(before, pauses[n].others), at, sub, pauses[n].now, pauses[n].fault)
  }

  lemma FollowAppend(db: Db, st: Stage, sub: Submission, pauses: seq<Pause>, p: Pause)
    ensures var (before, at) := Follow(db, st, sub, pauses);
      Follow(db, st, sub, pauses + [p]) == Resume(Run(before, p.others), at, sub, p.now, p.fault)
  {
    hide Resume;
    hide Run;
    assert (pauses + [p])[..|pauses|] == pauses;
  }

  lemma FollowStep(db: Db, st: Stage, sub: Submission, pauses: seq<Pause>, lo: nat, n: nat)
    requires lo <= n < |pauses|
    ensures var (before, at) := Follow(db, st, sub, pauses[lo..n]);
      Follow(db, st, sub, pauses[lo..n + 1])
      == Resume(Run(before, pauses[n].others), at, sub, pauses[n].now, pauses[n].fault)
  {
    hide *;
    FollowAppend(db, st, sub, pauses[lo..n], pauses[n]);
    assert pauses[lo..n + 1] == pauses[lo..n] + [pauses[n]];
  }

  lemma FollowNothing(db: Db, st: Stage, sub: Submission, none: seq<Pause>)
    requires none == []
    ensures Follow(db, st, sub, none) == (db, st)
  {
  }

  /** The outcome of a try after n awaits of a call that has written nothing. */
  function TryAt(base: Db, pauses: seq<Pause>, n: nat, sub: Submission): Result<Db, Error>
    requires 1 <= n <= |pauses|
  {
    Tried(Met(base, pauses, n), sub, pauses[n - 1].now, pauses[n - 1].fault)
  }

  /** The call comes to its try after n awaits because all tries before it ended in contention. */
  predicate Retries(base: Db, pauses: seq<Pause>, sub: Submission, n: nat)
    requires n <= |pauses|
  {
    3 <= n <= 5 && forall j | 3 <= j < n :: TryAt(base, pauses, j, sub) == Err(Contention)
  }

  /** A record that is live at the second check gives the answer, and only then is nothing tried. */
  ghost predicate SecondCheckDecides(base: Db, pauses: seq<Pause>, sub: Submission, used: nat, r: Result<Body, Error>,
                                     committed: bool, after: Db)
    requires |pauses| == 6
  {
    var met := Met(base, pauses, 2);
    if Live(met.records, sub.key, pauses[1].now) then
      && used == 2 && !committed && after == met
      && r == if met.records[sub.key].hash == sub.hash then Ok(met.records[sub.key].body) else Err(IdempotencyConflict)
    else used >= 3
  }

  /**
   * How a call ends that got past its second check: with a commit, with a refusal, or with
   * what it recovers after a constraint violation or a third contention. after is the state
   * then.
   */
  ghost predicate TriesEnd(base: Db, pauses: seq<Pause>, sub: Submission, used: nat, r: Result<Body, Error>,
                           committed: bool, after: Db)
    requires 3 <= used <= 6 == |pauses|
  {
    || (&& committed && Retries(base, pauses, sub, used) && TryAt(base, pauses, used, sub) == Ok(after)
        && r == Ok(Body(|Met(base, pauses, used).requests|, NewRequest(sub.ask, sub.key))))
    || (&& !committed && r.Err? && r.error !in {Contention, ConstraintViolation} && after == Met(base, pauses, used)
        && Retries(base, pauses, sub, used) && TryAt(base, pauses, used, sub) == Err(r.error))
    || (&& !committed && used >= 4 && after == Met(base, pauses, used) && Retries(base, pauses, sub, used - 1)
        && var tried := TryAt(base, pauses, used - 1, sub);
           && (tried == Err(ConstraintViolation) || (tried == Err(Contention) && used == 6))
           && r == Recovered(after, sub.key, sub.hash, pauses[used - 1].now, tried.error))
  }

  /** All three tries would end in contention. */
  predicate Contended(base: Db, pauses: seq<Pause>, sub: Submission)
    requires |pauses| == 6
  {
    forall n: nat | 3 <= n <= 5 :: TryAt(base, pauses, n, sub) == Err(Contention)
  }

  lemma RecoveredFromStore(db: Db, key: string, hash: string, now: int, failure: Error)
    ensures var r := Recovered(db, key, hash, now, failure);
      && (r.Ok? ==> ReadFromStore(db, key, hash, now, r.value))
      && (r.Ok? <==> Recoverable(db, key, hash, now))
      && (r.Err? ==> if Live(db.records, key, now) && db.records[key].hash != hash then r.error == IdempotencyConflict
                     else r.error == (if failure == Contention then BalanceConflict else failure))
  {
  }

  /** What the end of the tries means for the answer. */
  lemma TriesDecide(base: Db, pauses: seq<Pause>, sub: Submission, used: nat, r: Result<Body, Error>,
                    committed: bool, after: Db)
    requires 3 <= used <= 6 == |pauses| && TriesEnd(base, pauses, sub, used, r, committed, after)
    ensures committed ==>
      var met := Met(base, pauses, used);
      && used <= 5 && CreateTx(met, sub.ask, sub.key, sub.hash, pauses[used - 1].now + sub.ttlMs) == Ok(after)
      && r == Ok(Body(|met.requests|, NewRequest(sub.ask, sub.key)))
    ensures !committed ==> after == Met(base, pauses, used)
    ensures r.Err? ==> !committed && r.error !in {MissingKey, InvalidDateRange}
    ensures r.Ok? && !committed ==> ReadFromStore(after, sub.key, sub.hash, pauses[used - 1].now, r.value)
    ensures r == Err(IdempotencyConflict) ==>
      Live(after.records, sub.key, pauses[used - 1].now) && after.records[sub.key].hash != sub.hash
  {
    if used <= 5 { FailedAttempt(Met(base, pauses, used), sub, pauses[used - 1].now, pauses[used - 1].fault); }
    FailedAttempt(Met(base, pauses, used - 1), sub, pauses[used - 2].now, pauses[used - 2].fault);
    var tried := TryAt(base, pauses, used - 1, sub);
    if tried.Err? { RecoveredFromStore(after, sub.key, sub.hash, pauses[used - 1].now, tried.error); }
    hide Met;
    hide Tried;
    hide CreateTx;
    hide Recovered;
    hide Recoverable;
    hide ReadFromStore;
    hide Live;
    hide Retries;
  }

  lemma ContentionDecides(base: Db, pauses: seq<Pause>, sub: Submission, used: nat, r: Result<Body, Error>,
                          committed: bool, after: Db)
    requires 3 <= used <= 6 == |pauses| && TriesEnd(base, pauses, sub, used, r, committed, after)
    requires Contended(base, pauses, sub)
    ensures used == 6 && (r.Ok? <==> Recoverable(after, sub.key, sub.hash, pauses[5].now))
    ensures r.Err? ==> r.error in {BalanceConflict, IdempotencyConflict}
  {
    RecoveredFromStore(after, sub.key, sub.hash, pauses[5].now, Contention);
    assert 4 <= used <= 6 ==> TryAt(base, pauses, used - 1, sub) == Err(Contention);
    hide TryAt;
    hide Recovered;
    hide Recoverable;
    hide Retries;
  }

  /** The first transaction decides when the store lets it finish. */
  lemma FirstTryDecides(base: Db, pauses: seq<Pause>, sub: Submission, used: nat, r: Result<Body, Error>,
                        committed: bool, after: Db)
    requires 3 <= used <= 6 == |pauses| && TriesEnd(base, pauses, sub, used, r, committed, after)
    requires pauses[2].fault == NoFault
    ensures var tx := CreateTx(Met(base, pauses, 3), sub.ask, sub.key, sub.hash, pauses[2].now + sub.ttlMs);
      && committed == tx.Ok?
      && (tx.Err? && tx.error != ConstraintViolation ==> r == Err(tx.error))
      && (tx == Err(ConstraintViolation) ==>
            used == 4 && (r.Ok? <==> Recoverable(after, sub.key, sub.hash, pauses[3].now)))
  {
    var tx := CreateTx(Met(base, pauses, 3), sub.ask, sub.key, sub.hash, pauses[2].now + sub.ttlMs);
    FailedAttempt(Met(base, pauses, 3), sub, pauses[2].now, NoFault);
    assert TryAt(base, pauses, 3, sub) == tx != Err(Contention);
    RecoveredFromStore(after, sub.key, sub.hash, pauses[3].now, ConstraintViolation);
    assert Retries(base, pauses, sub, used) ==> used == 3;
    assert Retries(base, pauses, sub, used - 1) ==> used == 4;
    hide TryAt;
    hide Recovered;
    hide Recoverable;
    hide Retries;
    hide CreateTx;
    hide Met;
  }

  /** All of this about a call that was inside its lane. */
  lemma TriesExplain(base: Db, pauses: seq<Pause>, sub: Submission, used: nat, r: Result<Body, Error>,
                     committed: bool, after: Db)
    requires 2 <= used <= 6 == |pauses|
    requires SecondCheckDecides(base, pauses, sub, used, r, committed, after)
    requires used >= 3 ==> TriesEnd(base, pauses, sub, used, r, committed, after)
    ensures !committed ==> after == Met(base, pauses, used)
    ensures committed ==>
      var met := Met(base, pauses, used);
      && 3 <= used <= 5 && CreateTx(met, sub.ask, sub.key, sub.hash, pauses[used - 1].now + sub.ttlMs) == Ok(after)
      && r == Ok(Body(|met.requests|, NewRequest(sub.ask, sub.key)))
    ensures r.Err? ==> !committed && r.error !in {MissingKey, InvalidDateRange}
    ensures r.Ok? && !committed ==> ReadFromStore(after, sub.key, sub.hash, pauses[used - 1].now, r.value)
    ensures r == Err(IdempotencyConflict) ==>
      Live(after.records, sub.key, pauses[used - 1].now) && after.records[sub.key].hash != sub.hash
    ensures Contended(base, pauses, sub) && !Live(Met(base, pauses, 2).records, sub.key, pauses[1].now) ==>
      && used == 6 && (r.Ok? <==> Recoverable(after, sub.key, sub.hash, pauses[5].now))
      && (r.Err? ==> r.error in {BalanceConflict, IdempotencyConflict})
    ensures pauses[2].fault == NoFault && !Live(Met(base, pauses, 2).records, sub.key, pauses[1].now) ==>
      var tx := CreateTx(Met(base, pauses, 3), sub.ask, sub.key, sub.hash, pauses[2].now + sub.ttlMs);
      && committed == tx.Ok?
      && (tx.Err? && tx.error != ConstraintViolation ==> r == Err(tx.error))
      && (tx == Err(ConstraintViolation) ==>
            used == 4 && (r.Ok? <==> Recoverable(after, sub.key, sub.hash, pauses[3].now)))
  {
    hide Met;
    hide TriesEnd;
    hide Contended;
    hide Recoverable;
    hide CreateTx;
    if used >= 3 {
      TriesDecide(base, pauses, sub, used, r, committed, after);
      if Contended(base, pauses, sub) { ContentionDecides(base, pauses, sub, used, r, committed, after); }
      if pauses[2].fault == NoFault { FirstTryDecides(base, pauses, sub, used, r, committed, after); }
    }
  }

  lemma CheckedFromStore(db: Db, key: string, hash: string, now: int)
    ensures var check := CheckIdempotency(db.records, key, hash, now);
      check.Ok? && check.value.Some? ==> ReadFromStore(db, key, hash, now, check.value.value)
  {
  }

  lemma FollowCheck(base: Db, pauses: seq<Pause>, sub: Submission)
    requires |pauses| == 6
    ensures var met := Met(base, pauses, 2);
      Follow(Met(base, pauses, 1), Joined, sub, pauses[1..2]) == (met, AfterCheck(met, sub, pauses[1].now))
  {
    FollowNothing(Met(base, pauses, 1), Joined, sub, pauses[1..1]);
    FollowStep(Met(base, pauses, 1), Joined, sub, pauses, 1, 1);
  }

  lemma FollowTry(base: Db, pauses: seq<Pause>, sub: Submission, n: nat)
    requires |pauses| == 6 && 3 <= n <= 5
    requires Follow(Met(base, pauses, 1), Joined, sub, pauses[1..n - 1]) == (Met(base, pauses, n - 1), Trying(n - 2))
    ensures var met, tried := Met(base, pauses, n), TryAt(base, pauses, n, sub);
      Follow(Met(base, pauses, 1), Joined, sub, pauses[1..n])
      == if tried.Ok? then (tried.value, Done(Ok(Body(|met.requests|, NewRequest(sub.ask, sub.key)))))
         else (met, AfterFailure(n - 2, tried.error))
  {
    FollowStep(Met(base, pauses, 1), Joined, sub, pauses, 1, n - 1);
    hide Run;
    hide Tried;
    hide Follow;
  }

  lemma {:induction false} FollowTries(base: Db, pauses: seq<Pause>, sub: Submission, n: nat)
    requires |pauses| == 6 && 2 <= n <= 4
    requires !Live(Met(base, pauses, 2).records, sub.key, pauses[1].now)
    requires forall j | 3 <= j <= n :: TryAt(base, pauses, j, sub) == Err(Contention)
    ensures Follow(Met(base, pauses, 1), Joined, sub, pauses[1..n]) == (Met(base, pauses, n), Trying(n - 1))
  {
    hide Follow;
    hide TryAt;
    if n == 2 {
      FollowCheck(base, pauses, sub);
    } else {
      FollowTries(base, pauses, sub, n - 1);
      FollowTry(base, pauses, sub, n);
    }
  }

  lemma FailedAttempt(db: Db, sub: Submission, now: int, fault: Fault)
    ensures Tried(db, sub, now, fault).Err? ==>
      Tried(db, sub, now, fault).error in {Overlapping, BalanceNotFound, InsufficientBalance, ConstraintViolation,
                                           Contention, Unexpected}
    ensures fault == NoFault ==> Tried(db, sub, now, fault) != Err(Contention)
    ensures Tried(db, sub, now, fault).Ok? || fault == NoFault ==>
      Tried(db, sub, now, fault) == CreateTx(db, sub.ask, sub.key, sub.hash, now + sub.ttlMs)
  {
    OnlyFaultsContend(db, sub.ask, sub.key, sub.hash, now + sub.ttlMs);
  }

  /** What a committed createRequest leaves behind: the pending row and its record, expiring at the given time. */
  ghost predicate Holds(db: Db, body: Body, ask: Ask, key: string, hash: string, expiresAt: int) {
    && body.request == NewRequest(ask, key)
    && body.id < |db.requests| && db.requests[body.id] == body.request
    && key in db.records && db.records[key] == Record(ask.employee, hash, body, expiresAt)
  }

  lemma CreateTxStores(db: Db, ask: Ask, key: string, hash: string, expiresAt: int)
    requires CreateTx(db, ask, key, hash, expiresAt).Ok?
    ensures Holds(CreateTx(db, ask, key, hash, expiresAt).value, Body(|db.requests|, NewRequest(ask, key)),
                  ask, key, hash, expiresAt)
  {
  }

  /**
   * In any later state the key refuses a second commit, with any payload; for the same
   * days a constraint violation, the one refusal that is recovered from, means the first
   * request has been withdrawn by then.
   */
  lemma HeldKeyRefuses(db: Db, later: Db, body: Body, ask: Ask, key: string, hash: string, expiresAt: int,
                       ask': Ask, hash': string, expiresAt': int)
    requires Holds(db, body, ask, key, hash, expiresAt) && Extends(db, later) && AskShaped(ask)
    ensures CreateTx(later, ask', key, hash', expiresAt').Err?
    ensures later.records[key] == db.records[key] && KeyUsed(later.requests, key)
    ensures ask' == ask && CreateTx(later, ask', key, hash', expiresAt').error == ConstraintViolation ==>
      later.requests[body.id].status in {Rejected, Cancelled}
  {
    var r := later.requests[body.id];
    assert Later(db.requests[body.id], r);
    assert r.key == key && r.employee == ask.employee && r.location == ask.location
      && r.first == ask.first && r.last == ask.last;
    if Active(r) {
      assert RangesOverlap(ask.first, ask.last, r.first, r.last);
    }
  }

  /** Whatever is read from the store under the key, live record or row, is the request first stored under it. */
  lemma AnswerIsTheFirstRequest(db: Db, later: Db, body: Body, ask: Ask, key: string, hash: string, expiresAt: int,
                                hash': string, now: int, answer: Body)
    requires Holds(db, body, ask, key, hash, expiresAt) && Extends(db, later) && OnePerKey(later)
    requires ReadFromStore(later, key, hash', now, answer)
    ensures answer.id == body.id && SameClaim(body.request, answer.request)
  {
    assert Later(db.requests[body.id], later.requests[body.id]);
    assert later.records[key] == db.records[key];
    if !Live(later.records, key, now) {
      assert later.records[later.requests[answer.id].key].body.id == answer.id;
    }
  }

  lemma HeldRecord(db: Db, later: Db, body: Body, ask: Ask, key: string, hash: string, expiresAt: int, now: int)
    requires Holds(db, body, ask, key, hash, expiresAt) && Extends(db, later)
    ensures key in later.records && later.records[key].hash == hash && later.records[key].body == body
    ensures Live(later.records, key, now) <==> now <= expiresAt
    ensures now > expiresAt ==> forall hash' :: Recoverable(later, key, hash', now)
  {
    assert Later(db.requests[body.id], later.requests[body.id]);
  }

  /** Once the first request is withdrawn and its record expired, its stored answer is no longer given. */
  lemma ExpiredAnswerDiffers(db: Db, met: Db, later: Db, body: Body, ask: Ask, key: string, hash: string,
                             expiresAt: int, now: int)
    requires Holds(db, body, ask, key, hash, expiresAt) && Extends(db, met) && Extends(met, later)
    requires met.requests[body.id].status in {Rejected, Cancelled} && now > expiresAt
    ensures !ReadFromStore(later, key, hash, now, body)
  {
    assert Later(met.requests[body.id], later.requests[body.id]);
    assert later.records[key] == met.records[key] == db.records[key];
  }

  /** Whatever others commit after the first answer, its request and record stand. */
  lemma StaysHeld(stored: Db, between: seq<Event>, pauses: seq<Pause>)
    requires OnePerKey(stored) && |pauses| == 6
    ensures var middle := Run(stored, between);
      && (forall n: nat | n <= 6 :: Extends(stored, Met(middle, pauses, n)) && OnePerKey(Met(middle, pauses, n)))
      && Extends(Met(middle, pauses, 3), Met(middle, pauses, 4))
  {
    var middle := Run(stored, between);
    assert Met(middle, pauses, 4) == Run(Met(middle, pauses, 3), pauses[3].others);
    hide Run;
    hide Met;
    hide Extends;
    hide OnePerKey;
    RunExtends(stored, between);
    RunKeepsKeys(stored, between);
    RunExtends(Met(middle, pauses, 3), pauses[3].others);
    forall n: nat | n <= 6
      ensures Extends(stored, Met(middle, pauses, n)) && OnePerKey(Met(middle, pauses, n))
    {
      MetExtends(middle, pauses, n);
      ExtendsTransitive(stored, middle, Met(middle, pauses, n));
      MetKeepsKeys(middle, pauses, n);
    }
  }

  /** What other calls do to the create locks before the call joins its lane, while it waits, and while it is inside. */
  datatype Traffic = Traffic(
    before: seq<CreateLock.Event>, waiting: seq<CreateLock.Event>, inside: seq<CreateLock.Event>)

  function LockKey(dto: Dto): string { dto.employee + ":" + dto.location }

  class TimeOffService {
    const db: Database
    const balanceService: BalanceService
    const lanes: CreateLock.CreateLanes
    const digest: Json -> string
    const ttlMs: int

    constructor (db: Database, balanceService: BalanceService, digest: Json -> string, ttlMs: int)
      requires balanceService.db == db
      ensures this.db == db && this.balanceService == balanceService && this.digest == digest && this.ttlMs == ttlMs
      ensures fresh(lanes) && lanes.View() == CreateLock.START && Wired()
    {
      this.db := db;
      this.balanceService := balanceService;
      this.digest := digest;
      this.ttlMs := ttlMs;
      lanes := new CreateLock.CreateLanes();
    }

    predicate Wired() { balanceService.db == db }

    function SubmissionOf(dto: Dto, key: string): Submission {
      SubmissionFrom(digest, ttlMs, dto, key)
    }

    /** The first active request of the lane that meets the range, if any. */
    method FindOverlap(employee: string, location: string, first: int, last: int) returns (found: Option<nat>)
      ensures found.None? <==> !Conflicts(db.requests, employee, location, first, last)
      ensures found.Some? ==>
        && found.value < |db.requests| && Books(db.requests[found.value], employee, location)
        && RangesOverlap(first, last, db.requests[found.value].first, db.requests[found.value].last)
    {
      var i := 0;
      while i < |db.requests|
        invariant 0 <= i <= |db.requests|
        invariant !Conflicts(db.requests[..i], employee, location, first, last)
      {
        var existing := db.requests[i];
        if existing.employee == employee && existing.location == location && Active(existing) {
          if RangesOverlap(first, last, existing.first, existing.last) {
            return Some(i);
          }
        }
        assert db.requests[..i + 1] == db.requests[..i] + [existing];
        i := i + 1;
      }
      assert db.requests[..i] == db.requests;
      return None;
    }

    /** The row an idempotency key names, by the unique column of the request table. */
    method FindByKey(key: string) returns (found: Option<nat>)
      ensures found.None? <==> !KeyUsed(db.requests, key)
      ensures found.Some? ==> found.value < |db.requests| && db.requests[found.value].key == key
      ensures found == if KeyUsed(db.requests, key) then Some(IndexOfKey(db.requests, key)) else None
    {
      var i := 0;
      while i < |db.requests|
        invariant 0 <= i <= |db.requests|
        invariant forall j | 0 <= j < i :: db.requests[j].key != key
      {
        if db.requests[i].key == key { return Some(i); }
        i := i + 1;
      }
      return None;
    }

    /** One SERIALIZABLE transaction; whatever fails, the tables are put back. */
    method CreateTransaction(ask: Ask, key: string, hash: string, expiresAt: int, fault: Fault)
      returns (r: Result<nat, Error>)
      requires Wired()
      modifies db
      ensures r.Ok? ==>
        Attempt(old(db.View()), ask, key, hash, expiresAt, fault) == Ok(db.View()) && r.value == |old(db.requests)|
      ensures r.Err? ==>
        Attempt(old(db.View()), ask, key, hash, expiresAt, fault) == Err(r.error) && db.View() == old(db.View())
    {
      if fault == BusyAtBegin { return Err(Contention); }
      var balances, requests, records := db.balances, db.requests, db.records;
      var conflict := FindOverlap(ask.employee, ask.location, ask.first, ask.last);
      if conflict.Some? { return Err(Overlapping); }
      var deducted := balanceService.AtomicDeduct(Row(ask.employee, ask.location, ask.leave), ask.days);
      if deducted.Err? { return Err(deducted.error); }
      var owner := FindByKey(key);
      if owner.Some? || key in db.records {
        db.balances, db.requests, db.records := balances, requests, records;
        return Err(ConstraintViolation);
      }
      var id := |db.requests|;
      var saved := NewRequest(ask, key);
      db.requests := db.requests + [saved];
      db.records := db.records[key := Record(ask.employee, hash, Body(id, saved), expiresAt)];
      if fault != NoFault {
        db.balances, db.requests, db.records := balances, requests, records;
        return Err(if fault == BusyAtCommit then Contention else Unexpected);
      }
      return Ok(id);
    }

    /** _recoverAfterConstraint */
    method Recover(key: string, hash: string, now: int) returns (r: Result<Option<Body>, Error>)
      ensures r.Err? <==> Live(db.records, key, now) && db.records[key].hash != hash
      ensures r.Err? ==> r.error == IdempotencyConflict
      ensures r.Ok? && r.value.Some? ==> ReadFromStore(db.View(), key, hash, now, r.value.value)
      ensures r == Ok(None) <==> !Live(db.records, key, now) && !KeyUsed(db.requests, key)
      ensures r.Ok? && r.value.Some? <==> Recoverable(db.View(), key, hash, now)
      ensures forall failure ::
        Recovered(db.View(), key, hash, now, failure)
        == (if r.Err? then Err(r.error) else if r.value.Some? then Ok(r.value.value)
            else Err(if failure == Contention then BalanceConflict else failure))
    {
      var cached := CheckIdempotency(db.records, key, hash, now);
      if cached.Err? || cached.value.Some? { return cached; }
      var existing := FindByKey(key);
      if existing.Some? {
        return Ok(Some(Body(existing.value, db.requests[existing.value])));
      }
      return Ok(None);
    }

    /**
     * _runCreateTransactionWithRetry: up to three tries, the next one only after
     * contention. base is the state before the call's first await.
     */
    method RunCreateTransactionWithRetry(sub: Submission, pauses: seq<Pause>, ghost base: Db)
      returns (r: Result<nat, Error>, used: nat)
      requires Wired() && |pauses| == 6 && db.View() == Met(base, pauses, 2) && sub.ttlMs == ttlMs
      modifies db
      ensures 3 <= used <= 5 && (r == Err(Contention) ==> used == 5)
      ensures forall j | 3 <= j < used :: TryAt(base, pauses, j, sub) == Err(Contention)
      ensures TryAt(base, pauses, used, sub) == if r.Ok? then Ok(db.View()) else Err(r.error)
      ensures r.Ok? ==> r.value == |Met(base, pauses, used).requests|
      ensures r.Err? ==> db.View() == Met(base, pauses, used)
    {
      hide Run;
      hide CreateTx;
      hide Attempt;
      used := 2;
      var attempt := 1;
      while true
        invariant 1 <= attempt <= 3 && used == attempt + 1
        invariant db.View() == Met(base, pauses, used)
        invariant forall j | 3 <= j <= used :: TryAt(base, pauses, j, sub) == Err(Contention)
        decreases 3 - attempt
      {
        db.Await(pauses[used].others);
        used := used + 1;
        assert db.View() == Met(base, pauses, used);
        r := CreateTransaction(sub.ask, sub.key, sub.hash, pauses[used - 1].now + ttlMs, pauses[used - 1].fault);
        assert TryAt(base, pauses, used, sub) == if r.Ok? then Ok(db.View()) else Err(r.error);
        if r.Ok? || r.error != Contention || attempt == 3 { return; }
        attempt := attempt + 1;
      }
    }

    /**
     * What createRequest does inside its lane: the second idempotency check, the
     * transaction with its retries, and the recovery. base is the state before the
     * call's first await. TriesExplain says what the clauses mean for the answer.
     */
    method CreateInside(sub: Submission, pauses: seq<Pause>, ghost base: Db, ghost ticket: nat)
      returns (r: Result<Body, Error>, used: nat, committed: bool)
      requires Wired() && |pauses| == 6 && db.View() == Met(base, pauses, 1) && sub.ttlMs == ttlMs
      requires CreateLock.MayLeave(lanes.View(), ticket)
      modifies db
      // the whole course
      ensures 2 <= used <= 6
      ensures Follow(Met(base, pauses, 1), Joined, sub, pauses[1..used]) == (db.View(), Done(r))
      // the second check
      ensures SecondCheckDecides(base, pauses, sub, used, r, committed, db.View())
      // the tries and the recovery
      ensures used >= 3 ==> TriesEnd(base, pauses, sub, used, r, committed, db.View())
    {
      hide Run;
      hide CreateTx;
      hide Follow;
      hide Tried;
      hide Recovered;
      committed := false;
      db.Await(pauses[1].others);
      used := 2;
      assert db.View() == Met(base, pauses, 2);
      var check := CheckIdempotency(db.records, sub.key, sub.hash, pauses[1].now);
      FollowCheck(base, pauses, sub);
      if check.Err? { return Err(check.error), used, committed; }
      if check.value.Some? { return Ok(check.value.value), used, committed; }

      var tx;
      tx, used := RunCreateTransactionWithRetry(sub, pauses, base);
      FollowTries(base, pauses, sub, used - 1);
      FollowTry(base, pauses, sub, used);
      if tx.Ok? {
        committed := true;
        return Ok(Body(tx.value, NewRequest(sub.ask, sub.key))), used, committed;
      }
      var failure := tx.error;
      if failure == ConstraintViolation || failure == Contention {
        FollowStep(Met(base, pauses, 1), Joined, sub, pauses, 1, used);
        db.Await(pauses[used].others);
        used := used + 1;
        assert db.View() == Met(base, pauses, used);
        var recovered := Recover(sub.key, sub.hash, pauses[used - 1].now);
        if recovered.Err? { return Err(recovered.error), used, committed; }
        if recovered.value.Some? { return Ok(recovered.value.value), used, committed; }
        if failure == Contention { return Err(BalanceConflict), used, committed; }
      }
      return Err(failure), used, committed;
    }

    /**
     * createRequest, among arbitrary concurrent writers. Between its awaits the
     * others' steps happen; its own effect is at most one committed transaction,
     * and none at all when it throws. From its second await on it is inside its
     * lane, which it leaves on every path.
     */
    method CreateRequest(dto: Dto, key: string, today: int, pauses: seq<Pause>, traffic: Traffic)
      returns (r: Result<Body, Error>, used: nat, committed: bool, ticket: Option<nat>)
      requires Wired() && |pauses| == 6 && CreateLock.Inv(lanes.View())
      modifies db, lanes
      // the whole effect of the call
      ensures used <= 6
      ensures !committed ==> db.View() == Met(old(db.View()), pauses, used)
      ensures committed ==> 3 <= used <= 5
      ensures committed ==>
        var met := Met(old(db.View()), pauses, used);
        && CreateTx(met, AskOf(dto), key, RequestHash(digest, dto), pauses[used - 1].now + ttlMs) == Ok(db.View())
        && r == Ok(Body(|met.requests|, NewRequest(AskOf(dto), key)))
      ensures r.Err? ==> !committed
      // what a commit stores and reserves, in the dto's own terms
      ensures committed ==>
        && r.Ok? && Fulfils(Met(old(db.View()), pauses, used), dto, key, RequestHash(digest, dto),
                            pauses[used - 1].now + ttlMs, r.value, db.View())
        && (today >= UtcDay(Date(2000, 1, 1)) ==>
              r.value.request.days == r.value.request.last - r.value.request.first + 1)
      // where an answer without effect comes from
      ensures r.Ok? && !committed ==>
        used > 0 && ReadFromStore(db.View(), key, RequestHash(digest, dto), pauses[used - 1].now, r.value)
      ensures r == Err(IdempotencyConflict) ==>
        && used > 0 && Live(db.View().records, key, pauses[used - 1].now)
        && db.View().records[key].hash != RequestHash(digest, dto)
      // the checks before the transaction
      ensures key == "" <==> r == Err(MissingKey)
      ensures key != "" ==> (!DatesAccepted(dto, today) <==> r == Err(InvalidDateRange))
      ensures key == "" || !DatesAccepted(dto, today) ==> used == 0
      ensures key != "" && DatesAccepted(dto, today) ==>
        var met, hash := Met(old(db.View()), pauses, 1), RequestHash(digest, dto);
        && (Live(met.records, key, pauses[0].now) ==>
              used == 1 && !committed
              && r == if met.records[key].hash == hash then Ok(met.records[key].body) else Err(IdempotencyConflict))
        && (!Live(met.records, key, pauses[0].now) ==> used >= 2)
      ensures EarlyAnswer(digest, Met(old(db.View()), pauses, 1), dto, key, today, pauses[0].now)
           == if used <= 1 then Some(r) else None
      // the course inside the lane: its second check, its tries and the recovery
      ensures used >= 2 ==>
        Follow(Met(old(db.View()), pauses, 1), Joined, SubmissionOf(dto, key), pauses[1..used]) == (db.View(), Done(r))
      ensures used >= 2 ==>
        SecondCheckDecides(old(db.View()), pauses, SubmissionOf(dto, key), used, r, committed, db.View())
      ensures used >= 3 ==> TriesEnd(old(db.View()), pauses, SubmissionOf(dto, key), used, r, committed, db.View())
      // contention on all three tries
      ensures
        (&& used >= 2 && Contended(old(db.View()), pauses, SubmissionOf(dto, key))
         && !Live(Met(old(db.View()), pauses, 2).records, key, pauses[1].now)) ==>
        && used == 6 && (r.Ok? <==> Recoverable(db.View(), key, RequestHash(digest, dto), pauses[5].now))
        && (r.Err? ==> r.error in {BalanceConflict, IdempotencyConflict})
      // the first transaction, when the store lets it finish
      ensures key != "" && DatesAccepted(dto, today) && pauses[2].fault == NoFault
        && !Live(Met(old(db.View()), pauses, 1).records, key, pauses[0].now)
        && !Live(Met(old(db.View()), pauses, 2).records, key, pauses[1].now)
        ==> var hash := RequestHash(digest, dto);
            var tx := CreateTx(Met(old(db.View()), pauses, 3), AskOf(dto), key, hash, pauses[2].now + ttlMs);
            && committed == tx.Ok?
            && (tx.Err? && tx.error != ConstraintViolation ==> r == Err(tx.error))
            && (tx == Err(ConstraintViolation) ==>
                  used == 4 && (r.Ok? <==> Recoverable(db.View(), key, hash, pauses[3].now)))
      // the lock
      ensures CreateLock.Inv(lanes.View()) && (ticket.Some? <==> used >= 2)
      ensures ticket.Some? ==>
        && ticket.value < |lanes.tickets| && lanes.tickets[ticket.value].lane == dto.employee + ":" + dto.location
        && lanes.tickets[ticket.value].phase == CreateLock.Left
    {
      hide UtcDay;
      hide IsoDay;
      hide IsNotInPast;
      hide CalculateDaysRequested;
      hide DateOf;
      hide RequestHash;
      hide Run;
      hide CreateTx;
      hide Fulfils;
      hide Follow;
      hide TriesEnd;
      hide SecondCheckDecides;
      hide Contended;
      hide Recoverable;
      hide ReadFromStore;
      hide CreateLock.Inv;
      used, committed, ticket := 0, false, None;
      if key == "" { return Err(MissingKey), used, committed, ticket; }
      if !IsNotInPast(DateOf(dto.startDate), today) { return Err(InvalidDateRange), used, committed, ticket; }
      if IsoDay(DateOf(dto.endDate)) < IsoDay(DateOf(dto.startDate)) {
        return Err(InvalidDateRange), used, committed, ticket;
      }
      var hash := RequestHash(digest, dto);

      db.Await(pauses[0].others);
      lanes.Others(None, traffic.before);
      used := 1;
      assert db.View() == Met(old(db.View()), pauses, 1);
      CheckedFromStore(db.View(), key, hash, pauses[0].now);
      var check := CheckIdempotency(db.records, key, hash, pauses[0].now);
      if check.Err? { return Err(check.error), used, committed, ticket; }
      if check.value.Some? { return Ok(check.value.value), used, committed, ticket; }

      r, used, committed, ticket := CreateInLane(LockKey(dto), SubmissionOf(dto, key), pauses, old(db.View()), traffic);
      TriesExplain(old(db.View()), pauses, SubmissionOf(dto, key), used, r, committed, db.View());
      if committed {
        CommitFulfils(Met(old(db.View()), pauses, used), dto, today, key, hash, pauses[used - 1].now + ttlMs);
      }
    }

    /** _withCreateLock around the rest of createRequest. */
    method CreateInLane(lane: string, sub: Submission, pauses: seq<Pause>, ghost base: Db, traffic: Traffic)
      returns (r: Result<Body, Error>, used: nat, committed: bool, ticket: Option<nat>)
      requires Wired() && |pauses| == 6 && db.View() == Met(base, pauses, 1) && sub.ttlMs == ttlMs
      requires CreateLock.Inv(lanes.View())
      modifies db, lanes
      ensures 2 <= used <= 6
      ensures Follow(Met(base, pauses, 1), Joined, sub, pauses[1..used]) == (db.View(), Done(r))
      ensures SecondCheckDecides(base, pauses, sub, used, r, committed, db.View())
      ensures used >= 3 ==> TriesEnd(base, pauses, sub, used, r, committed, db.View())
      ensures CreateLock.Inv(lanes.View()) && ticket.Some? && ticket.value < |lanes.tickets|
      ensures lanes.tickets[ticket.value].lane == lane && lanes.tickets[ticket.value].phase == CreateLock.Left
    {
      hide Run;
      hide Met;
      hide Follow;
      hide TriesEnd;
      hide SecondCheckDecides;
      hide CreateLock.Inv;
      var own := EnterLane(lane, traffic.waiting);
      ticket := Some(own);
      r, used, committed := CreateInside(sub, pauses, base, own);
      LeaveLane(own, traffic.inside);
    }

    /** The head of _withCreateLock: join the lane and wait. */
    method EnterLane(lane: string, others: seq<CreateLock.Event>) returns (ticket: nat)
      requires CreateLock.Inv(lanes.View())
      modifies lanes
      ensures CreateLock.Inv(lanes.View()) && CreateLock.MayLeave(lanes.View(), ticket)
      ensures lanes.tickets[ticket].lane == lane
    {
      hide CreateLock.Inv;
      CreateLock.StepKeepsInv(lanes.View(), CreateLock.Arrival(lane));
      ticket := lanes.Join(lane);
      lanes.AwaitTurn(ticket, others);
    }

    /** Its tail, after whatever other calls did meanwhile. */
    method LeaveLane(ticket: nat, others: seq<CreateLock.Event>)
      requires CreateLock.Inv(lanes.View()) && CreateLock.MayLeave(lanes.View(), ticket)
      modifies lanes
      ensures CreateLock.Inv(lanes.View()) && ticket < |lanes.tickets|
      ensures lanes.tickets[ticket] == old(lanes.tickets[ticket]).(phase := CreateLock.Left)
    {
      hide CreateLock.Inv;
      lanes.Others(Some(ticket), others);
      CreateLock.StepKeepsInv(lanes.View(), CreateLock.Exit(ticket));
      lanes.Release(ticket);
    }

    /** approveRequest: save the request, then move its days to used; undo both if the balance refuses. */
    method ApproveRequest(id: nat) returns (r: Result<Body, Error>)
      requires Wired()
      modifies db
      ensures r.Ok? ==> Decide(old(db.View()), id, Approved) == Ok(db.View()) && r.value == Body(id, db.requests[id])
      ensures r.Err? ==> Decide(old(db.View()), id, Approved) == Err(r.error) && db.View() == old(db.View())
    {
      if id >= |db.requests| { return Err(RequestNotFound); }
      var requests := db.requests;
      var request := db.requests[id];
      if !MayMove(request.status, Approved) { return Err(InvalidTransition); }
      request := request.(status := Approved);
      db.requests := db.requests[id := request];
      var moved := balanceService.FinalizeUsed(RowOf(request), request.days);
      if moved.Err? {
        db.requests := requests;
        return Err(moved.error);
      }
      return Ok(Body(id, request));
    }

    /** The shared course of rejectRequest and cancelRequest. */
    method Withdraw(id: nat, target: Status) returns (r: Result<Body, Error>)
      requires Wired() && (target == Rejected || target == Cancelled)
      modifies db
      ensures r.Ok? ==> Decide(old(db.View()), id, target) == Ok(db.View()) && r.value == Body(id, db.requests[id])
      ensures r.Err? ==> Decide(old(db.View()), id, target) == Err(r.error) && db.View() == old(db.View())
    {
      if id >= |db.requests| { return Err(RequestNotFound); }
      var requests := db.requests;
      var request := db.requests[id];
      if !MayMove(request.status, target) { return Err(InvalidTransition); }
      request := request.(status := target);
      db.requests := db.requests[id := request];
      var released := balanceService.ReleaseFromPending(RowOf(request), request.days);
      if released.Err? {
        db.requests := requests;
        return Err(released.error);
      }
      return Ok(Body(id, request));
    }

    /**
     * A submission under a key that a committed one holds, after others have done what
     * they like; held says whether there is such a one.
     */
    method Resubmit(dto: Dto, key: string, today: int, between: seq<Event>, pauses: seq<Pause>, traffic: Traffic,
                    ghost held: bool, ghost body: Body, ghost ask: Ask, ghost hash: string, ghost expiresAt: int)
      returns (r: Result<Body, Error>, committed: bool, ghost met: Db)
      requires Wired() && |pauses| == 6 && CreateLock.Inv(lanes.View())
      requires forall i, j | 0 <= i < j < 6 :: pauses[i].now <= pauses[j].now
      requires held ==>
        key != "" && Holds(db.View(), body, ask, key, hash, expiresAt) && OnePerKey(db.View()) && AskShaped(ask)
      modifies db, lanes
      ensures CreateLock.Inv(lanes.View())
      ensures held ==> !committed
      ensures held && r.Ok? ==> r.value.id == body.id && SameClaim(body.request, r.value.request)
      ensures held && RequestHash(digest, dto) == hash && AskOf(dto) == ask && pauses[2].fault == NoFault ==>
        (r == Ok(body) <==> DatesAccepted(dto, today) && pauses[0].now <= expiresAt)
      ensures held && RequestHash(digest, dto) != hash ==>
        (r == Err(IdempotencyConflict) <==> DatesAccepted(dto, today) && pauses[0].now <= expiresAt)
      ensures held && RequestHash(digest, dto) != hash && pauses[2].fault == NoFault ==>
        (r.Ok? <==>
           && DatesAccepted(dto, today) && pauses[0].now > expiresAt
           && CreateTx(met, AskOf(dto), key, RequestHash(digest, dto), pauses[2].now + ttlMs)
              == Err(ConstraintViolation))
    {
      hide UtcDay;
      hide IsoDay;
      hide DateOf;
      hide AskOf;
      hide DatesAccepted;
      hide RequestHash;
      hide Run;
      hide Met;
      hide CreateTx;
      hide Extends;
      hide Holds;
      hide OnePerKey;
      hide Live;
      hide Recoverable;
      hide ReadFromStore;
      hide SameClaim;
      hide CreateLock.Inv;
      hide AskShaped;
      ghost var ask', hash' := AskOf(dto), RequestHash(digest, dto);
      ghost var stored := db.View();
      db.Await(between);
      ghost var middle := db.View();
      met := Met(middle, pauses, 3);
      var used, ticket;
      r, used, committed, ticket := CreateRequest(dto, key, today, pauses, traffic);
      if held {
        StaysHeld(stored, between, pauses);
        HeldRecord(stored, Met(middle, pauses, 1), body, ask, key, hash, expiresAt, pauses[0].now);
        HeldRecord(stored, Met(middle, pauses, 2), body, ask, key, hash, expiresAt, pauses[1].now);
        HeldKeyRefuses(stored, met, body, ask, key, hash, expiresAt, ask', hash', pauses[2].now + ttlMs);
        if used > 0 {
          ghost var now, seen := pauses[used - 1].now, Met(middle, pauses, used);
          HeldRecord(stored, seen, body, ask, key, hash, expiresAt, now);
          HeldKeyRefuses(stored, seen, body, ask, key, hash, expiresAt, ask', hash', now + ttlMs);
          if r.Ok? { AnswerIsTheFirstRequest(stored, seen, body, ask, key, hash, expiresAt, hash', now, r.value); }
        }
        if r == Ok(body) && used == 4 && ask' == ask && pauses[3].now > expiresAt
           && CreateTx(met, ask', key, hash', pauses[2].now + ttlMs) == Err(ConstraintViolation) {
          ExpiredAnswerDiffers(stored, met, Met(middle, pauses, 4), body, ask, key, hash, expiresAt, pauses[3].now);
        }
      }
    }

    /**
     * A client that submits and, whatever happened to the answer, submits again under
     * the same key, the same payload or another one. The second submission never
     * commits, and any answer it gets is the first one's request. When the store lets it
     * finish, the same payload repeats the first answer exactly if the dates are still
     * accepted and the record has not expired. Another payload is told so under the same
     * condition on its dates and the record; once the record has expired it is answered,
     * with the first payload's request, exactly if its own transaction gets as far as the
     * unique column.
     */
    method SubmitTwice(dto: Dto, key: string, today: int, pauses: seq<Pause>, traffic: Traffic, between: seq<Event>,
                       dto': Dto, today': int, pauses': seq<Pause>, traffic': Traffic)
      returns (first: Result<Body, Error>, committed: bool, second: Result<Body, Error>, again: bool,
               ghost met: Db, expiresAt: int)
      requires Wired() && |pauses| == 6 && |pauses'| == 6 && CreateLock.Inv(lanes.View())
      requires OnePerKey(db.View()) && TellsApart(digest) && today >= UtcDay(Date(2000, 1, 1))
      requires forall i, j | 0 <= i < j < 6 :: pauses'[i].now <= pauses'[j].now
      modifies db, lanes
      ensures committed ==> !again && first.Ok?
      ensures committed && second.Ok? ==>
        second.value.id == first.value.id && SameClaim(first.value.request, second.value.request)
      ensures committed && dto' == dto && pauses'[2].fault == NoFault ==>
        (second == first <==> DatesAccepted(dto, today') && pauses'[0].now <= expiresAt)
      ensures committed && dto' != dto ==>
        (second == Err(IdempotencyConflict) <==> DatesAccepted(dto', today') && pauses'[0].now <= expiresAt)
      ensures committed && dto' != dto && pauses'[2].fault == NoFault ==>
        (second.Ok? <==>
           && DatesAccepted(dto', today') && pauses'[0].now > expiresAt
           && CreateTx(met, AskOf(dto'), key, RequestHash(digest, dto'), pauses'[2].now + ttlMs)
              == Err(ConstraintViolation))
    {
      hide UtcDay;
      hide IsoDay;
      hide DateOf;
      hide AskOf;
      hide DatesAccepted;
      hide RequestHash;
      hide Run;
      hide Met;
      hide CreateTx;
      hide Holds;
      hide OnePerKey;
      hide Live;
      hide Recoverable;
      hide ReadFromStore;
      hide SameClaim;
      hide TellsApart;
      hide AskShaped;
      hide CreateLock.Inv;
      ghost var ask, hash := AskOf(dto), RequestHash(digest, dto);
      HashTellsPayloadsApart(digest, dto, dto');
      var used, ticket;
      first, used, committed, ticket := CreateRequest(dto, key, today, pauses, traffic);
      expiresAt := if used > 0 then pauses[used - 1].now + ttlMs else 0;
      ghost var body := if first.Ok? then first.value else Body(0, NewRequest(ask, key));
      if committed {
        ghost var met0 := Met(old(db.View()), pauses, used);
        AcceptedAskIsShaped(dto, today);
        CreateTxStores(met0, ask, key, hash, expiresAt);
        MetKeepsKeys(old(db.View()), pauses, used);
        CreateKeepsKeys(met0, ask, key, hash, expiresAt);
      }
      second, again, met :=
        Resubmit(dto', key, today', between, pauses', traffic', committed, body, ask, hash, expiresAt);
    }
  }
}
