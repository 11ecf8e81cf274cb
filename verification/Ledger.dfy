/**
 * The leave ledger as a value: the three tables of the database and every
 * transaction that writes them. Each function is one committed transaction;
 * an Err result is a rollback, so it carries no new state.
 *
 * Request rows are never deleted, so a row's position serves as its primary
 * key (the program draws random UUIDs). Leave days are day numbers; amounts
 * are exact reals.
 */
module Ledger {
  import opened Prelude

  datatype LeaveType = Vacation | Sick | Personal | Maternity | Paternity | Bereavement

  function LeaveName(l: LeaveType): string {
    match l
    case Vacation => "VACATION"
    case Sick => "SICK"
    case Personal => "PERSONAL"
    case Maternity => "MATERNITY"
    case Paternity => "PATERNITY"
    case Bereavement => "BEREAVEMENT"
  }

  lemma LeaveNamesDiffer(l: LeaveType, m: LeaveType)
    requires LeaveName(l) == LeaveName(m)
    ensures l == m
  {
    assert LeaveName(l)[0] == LeaveName(m)[0] && LeaveName(l)[1] == LeaveName(m)[1];
  }

  const LEAVE_TYPES: seq<LeaveType> := [Vacation, Sick, Personal, Maternity, Paternity, Bereavement]

  /** The unique key of a balance row. */
  datatype Row = Row(employee: string, location: string, leave: LeaveType)

  datatype Balance = Balance(
    total: real, available: real, pending: real, used: real,
    hcmTotal: real, hcmVersion: Option<string>, hasDiscrepancy: bool, discrepancy: Option<real>)

  datatype Status = Pending | Approved | Rejected | Cancelled

  datatype SyncStatus = SyncPending | SyncSuccess | SyncFailed | SyncSkipped

  datatype Request = Request(
    key: string, employee: string, location: string, leave: LeaveType,
    first: int, last: int, days: int, status: Status,
    hcmValidated: bool, sync: SyncStatus, attempts: int)

  /** What _serializeRequest returns to the caller. */
  datatype Body = Body(id: nat, request: Request)

  /** An idempotency record, stored under its key. */
  datatype Record = Record(employee: string, hash: string, body: Body, expiresAt: int)

  datatype Db = Db(balances: map<Row, Balance>, requests: seq<Request>, records: map<string, Record>)

  datatype Error =
    | MissingKey | InvalidDateRange | IdempotencyConflict
    | Overlapping | BalanceNotFound | InsufficientBalance | BalanceConflict
    | RequestNotFound | InvalidTransition
    | ConstraintViolation | Contention | Unexpected

  const EMPTY := Db(map[], [], map[])

  /** A validated request for leave; days is what calculateDaysRequested returned. */
  datatype Ask = Ask(employee: string, location: string, leave: LeaveType, first: int, last: int, days: int)

  function RowOf(r: Request): Row { Row(r.employee, r.location, r.leave) }

  predicate Active(r: Request) { r.status == Pending || r.status == Approved }

  predicate RangesOverlap(s1: int, e1: int, s2: int, e2: int) { s1 <= e2 && s2 <= e1 }

  // ---------- balance.service.js ----------

  function AtomicDeduct(bs: map<Row, Balance>, k: Row, days: int): Result<map<Row, Balance>, Error> {
    if k !in bs then Err(BalanceNotFound)
    else
      var b := bs[k];
      if b.available < days as real then Err(InsufficientBalance)
      else Ok(bs[k := b.(available := b.available - days as real, pending := b.pending + days as real)])
  }

  function ReleaseFromPending(bs: map<Row, Balance>, k: Row, days: int): Result<map<Row, Balance>, Error> {
    if k !in bs then Err(BalanceNotFound)
    else
      var b := bs[k];
      if b.pending < days as real then Err(BalanceConflict)
      else Ok(bs[k := b.(pending := b.pending - days as real, available := b.available + days as real)])
  }

  function FinalizeUsed(bs: map<Row, Balance>, k: Row, days: int): Result<map<Row, Balance>, Error> {
    if k !in bs then Err(BalanceNotFound)
    else
      var b := bs[k];
      if b.pending < days as real then Err(BalanceConflict)
      else Ok(bs[k := b.(pending := b.pending - days as real, used := b.used + days as real)])
  }

  function NewBalance(total: real, version: Option<string>): Balance {
    Balance(total, total, 0.0, 0.0, total, version, false, None)
  }

  function UpsertBalance(bs: map<Row, Balance>, k: Row, total: real): map<Row, Balance> {
    if k in bs then bs else bs[k := NewBalance(total, None)]
  }

  function LocalTotal(b: Balance): real { b.used + b.pending + b.available }

  function Abs(x: real): real { if x < 0.0 then -x else x }

  /** Write the HCM bookkeeping columns of a row. */
  function Stamp(b: Balance, hcmTotal: real, version: Option<string>, drifted: bool): Balance {
    b.(hcmTotal := hcmTotal, hcmVersion := version, hasDiscrepancy := drifted,
       discrepancy := if drifted then Some(Abs(hcmTotal - LocalTotal(b))) else None)
  }

  function Raise(b: Balance, hcmTotal: real): Balance {
    b.(available := b.available + (hcmTotal - LocalTotal(b)), total := hcmTotal)
  }

  function ApplyHcmRealTimeUpdate(bs: map<Row, Balance>, k: Row, hcmTotal: real, version: Option<string>)
    : map<Row, Balance>
  {
    if k !in bs then bs
    else
      var b := bs[k];
      var drift := hcmTotal - LocalTotal(b);
      if drift > 0.001 then bs[k := Stamp(Raise(b, hcmTotal), hcmTotal, version, false)]
      else bs[k := Stamp(b, hcmTotal, version, drift < -0.001)]
  }

  // ---------- hcm-sync.service.js, one batch record ----------

  const DRIFT_TOLERANCE := 0.01

  function ReconcileRecord(bs: map<Row, Balance>, k: Row, hcmTotal: real, version: Option<string>)
    : map<Row, Balance>
  {
    if k !in bs then bs[k := NewBalance(hcmTotal, version)]
    else
      var b := bs[k];
      var drift := hcmTotal - LocalTotal(b);
      if Abs(drift) <= DRIFT_TOLERANCE then bs[k := Stamp(b, hcmTotal, version, false)]
      else if drift > DRIFT_TOLERANCE then bs[k := Stamp(Raise(b, hcmTotal), hcmTotal, version, false)]
      else bs[k := Stamp(b, hcmTotal, version, true)]
  }

  /** Flagged for review; a known shortfall is kept. */
  function Flag(b: Balance): Balance {
    b.(hasDiscrepancy := true, discrepancy := Some(if b.discrepancy.Some? then b.discrepancy.value else 0.0))
  }

  function FlagOmitted(bs: map<Row, Balance>, k: Row): map<Row, Balance> {
    if k !in bs then bs else bs[k := Flag(bs[k])]
  }

  // ---------- timeoff.service.js ----------

  /** _assertNoOverlap: some active request of the employee and location meets the days. */
  predicate Conflicts(rs: seq<Request>, employee: string, location: string, first: int, last: int) {
    exists i | 0 <= i < |rs| ::
      rs[i].employee == employee && rs[i].location == location && Active(rs[i])
      && RangesOverlap(first, last, rs[i].first, rs[i].last)
  }

  predicate KeyUsed(rs: seq<Request>, key: string) {
    exists i | 0 <= i < |rs| :: rs[i].key == key
  }

  function NewRequest(ask: Ask, key: string): Request {
    Request(key, ask.employee, ask.location, ask.leave, ask.first, ask.last, ask.days,
            Pending, false, SyncPending, 0)
  }

  /** The SERIALIZABLE transaction of createRequest. Both unique columns can refuse the insert. */
  function CreateTx(db: Db, ask: Ask, key: string, hash: string, expiresAt: int): Result<Db, Error> {
    if Conflicts(db.requests, ask.employee, ask.location, ask.first, ask.last) then Err(Overlapping)
    else
      var deducted := AtomicDeduct(db.balances, Row(ask.employee, ask.location, ask.leave), ask.days);
      if deducted.Err? then Err(deducted.error)
      else if KeyUsed(db.requests, key) then Err(ConstraintViolation)
      else if key in db.records then Err(ConstraintViolation)
      else
        var r := NewRequest(ask, key);
        var record := Record(ask.employee, hash, Body(|db.requests|, r), expiresAt);
        Ok(Db(deducted.value, db.requests + [r], db.records[key := record]))
  }

  /** VALID_TRANSITIONS: only a pending request may move, and only to a decision. */
  predicate MayMove(current: Status, target: Status) { current == Pending && target != Pending }

  /** approveRequest, rejectRequest and cancelRequest. */
  function Decide(db: Db, id: nat, target: Status): Result<Db, Error> {
    if id >= |db.requests| then Err(RequestNotFound)
    else
      var r := db.requests[id];
      if !MayMove(r.status, target) then Err(InvalidTransition)
      else
        var moved := if target == Approved then FinalizeUsed(db.balances, RowOf(r), r.days)
                     else ReleaseFromPending(db.balances, RowOf(r), r.days);
        if moved.Err? then Err(moved.error)
        else Ok(db.(balances := moved.value, requests := db.requests[id := r.(status := target)]))
  }

  // ---------- HCM notifications and the retry worker ----------

  /** What a resilient HCM call comes back with: null, a body, or an exception on the way. */
  datatype Reply = NoAnswer | Answer(valid: Option<bool>, success: Option<bool>) | Crash

  /** A partial update of a request row's sync columns; None leaves a column alone. */
  datatype SyncWrite = SyncWrite(sync: SyncStatus, validated: Option<bool>, attempts: Option<int>)

  const MAX_PENDING_SYNC_RETRIES := 10

  /** _notifyHcmAsync: only an explicit refusal counts as one. */
  function CreateNotice(reply: Reply): SyncWrite {
    match reply
    case NoAnswer => SyncWrite(SyncPending, None, Some(1))
    case Crash => SyncWrite(SyncPending, None, Some(1))
    case Answer(valid, _) =>
      if valid == Some(false) then SyncWrite(SyncFailed, Some(false), Some(1))
      else SyncWrite(SyncSuccess, Some(true), Some(1))
  }

  /** The validation-only half of the worker: anything but an explicit yes is a refusal. */
  function ValidationNotice(seen: Request, validate: Reply): SyncWrite {
    var n := Some(seen.attempts + 1);
    if seen.hcmValidated then SyncWrite(SyncSuccess, Some(true), n)
    else match validate
      case NoAnswer => SyncWrite(SyncPending, None, n)
      case Crash => SyncWrite(SyncPending, None, n)
      case Answer(valid, _) =>
        if valid == Some(true) then SyncWrite(SyncSuccess, Some(true), n) else SyncWrite(SyncFailed, Some(false), n)
  }

  /** _notifyApprovalToHcmAsync and _retryApprovalFlow: validate if needed, then notify. */
  function ApprovalNotice(seen: Request, validate: Reply, approve: Reply): SyncWrite {
    var n := Some(seen.attempts + 1);
    if !seen.hcmValidated && !validate.Answer? then SyncWrite(SyncPending, None, n)
    else if !seen.hcmValidated && validate.valid != Some(true) then SyncWrite(SyncFailed, Some(false), n)
    else match approve
      case Crash => SyncWrite(SyncPending, None, n)
      case NoAnswer => SyncWrite(SyncPending, Some(true), n)
      case Answer(_, success) =>
        if success == Some(false) then SyncWrite(SyncPending, Some(true), n) else SyncWrite(SyncSuccess, Some(true), n)
  }

  /** One request of a retry-worker pass, as the worker saw it when it loaded its page. */
  function RetryNotice(seen: Request, validate: Reply, approve: Reply): SyncWrite {
    if seen.attempts >= MAX_PENDING_SYNC_RETRIES then SyncWrite(SyncFailed, None, None)
    else match seen.status
      case Rejected => SyncWrite(SyncSkipped, None, Some(seen.attempts + 1))
      case Cancelled => SyncWrite(SyncSkipped, None, Some(seen.attempts + 1))
      case Pending => ValidationNotice(seen, validate)
      case Approved => ApprovalNotice(seen, validate, approve)
  }

  function UpdateSync(rs: seq<Request>, id: nat, w: SyncWrite): seq<Request> {
    if id >= |rs| then rs
    else
      var r := rs[id];
      rs[id := r.(sync := w.sync,
                  hcmValidated := if w.validated.Some? then w.validated.value else r.hcmValidated,
                  attempts := if w.attempts.Some? then w.attempts.value else r.attempts)]
  }

  /** Who writes sync columns, each with the row snapshot it acts on, however old. */
  datatype Writer =
    | OnCreate(reply: Reply)
    | OnApproval(seen: Request, validate: Reply, approve: Reply)
    | OnRetry(seen: Request, validate: Reply, approve: Reply)

  function WriteOf(w: Writer): SyncWrite {
    match w
    case OnCreate(reply) => CreateNotice(reply)
    case OnApproval(seen, v, a) => ApprovalNotice(seen, v, a)
    case OnRetry(seen, v, a) => RetryNotice(seen, v, a)
  }

  // ---------- runs ----------

  /** One atomic step of the service, from any of its concurrent callers and jobs. */
  datatype Event =
    | Create(ask: Ask, key: string, hash: string, expiresAt: int)
    | Decision(id: nat, target: Status)
    | Seed(row: Row, total: real)
    | RealTime(row: Row, total: real, version: Option<string>)
    | Reconcile(row: Row, total: real, version: Option<string>)
    | Omitted(row: Row)
    | Sync(id: nat, writer: Writer)

  function Committed(db: Db, r: Result<Db, Error>): Db { if r.Ok? then r.value else db }

  function Apply(db: Db, ev: Event): Db {
    match ev
    case Create(ask, key, hash, expiresAt) => Committed(db, CreateTx(db, ask, key, hash, expiresAt))
    case Decision(id, target) => Committed(db, Decide(db, id, target))
    case Seed(k, total) => db.(balances := UpsertBalance(db.balances, k, total))
    case RealTime(k, total, v) => db.(balances := ApplyHcmRealTimeUpdate(db.balances, k, total, v))
    case Reconcile(k, total, v) => db.(balances := ReconcileRecord(db.balances, k, total, v))
    case Omitted(k) => db.(balances := FlagOmitted(db.balances, k))
    case Sync(id, w) => db.(requests := UpdateSync(db.requests, id, WriteOf(w)))
  }

  function Run(db: Db, evs: seq<Event>): Db
    decreases |evs|
  {
    if evs == [] then db else Run(Apply(db, evs[0]), evs[1..])
  }

  lemma {:induction false} RunConcat(db: Db, a: seq<Event>, b: seq<Event>)
    ensures Run(db, a + b) == Run(Run(db, a), b)
    decreases |a|
  {
    if a == [] {
      assert a + b == b;
    } else {
      assert (a + b)[0] == a[0] && (a + b)[1..] == a[1..] + b;
      RunConcat(Apply(db, a[0]), a[1..], b);
    }
  }
}
