/**
 * What every reachable state of the ledger satisfies: rows that account for
 * their requests, disjoint active leaves, one record per key, and a sync status
 * that never claims success without validation.
 */
module LedgerInvariants {
  import opened Prelude
  import opened Ledger

  // ---------- sums over the request table ----------

  /** The days request r contributes to row k under status st. */
  function Share(r: Request, k: Row, st: Status): int {
    if RowOf(r) == k && r.status == st then r.days else 0
  }

  function SumDays(rs: seq<Request>, k: Row, st: Status): int {
    if rs == [] then 0 else SumDays(rs[..|rs| - 1], k, st) + Share(rs[|rs| - 1], k, st)
  }

  lemma SumAppend(rs: seq<Request>, r: Request, k: Row, st: Status)
    ensures SumDays(rs + [r], k, st) == SumDays(rs, k, st) + Share(r, k, st)
  {
    assert (rs + [r])[..|rs|] == rs;
  }

  lemma {:induction false} SumUpdate(rs: seq<Request>, i: nat, r: Request, k: Row, st: Status)
    requires i < |rs|
    ensures SumDays(rs[i := r], k, st) == SumDays(rs, k, st) - Share(rs[i], k, st) + Share(r, k, st)
  {
    var n := |rs| - 1;
    if i == n {
      assert rs[i := r][..n] == rs[..n];
    } else {
      assert rs[i := r][..n] == rs[..n][i := r];
      SumUpdate(rs[..n], i, r, k, st);
    }
  }

  lemma {:induction false} SumCovers(rs: seq<Request>, i: nat, k: Row, st: Status)
    requires i < |rs| && Shaped(rs)
    ensures Share(rs[i], k, st) <= SumDays(rs, k, st)
  {
    SumNonNegative(rs[..|rs| - 1], k, st);
    if i < |rs| - 1 {
      SumCovers(rs[..|rs| - 1], i, k, st);
    }
  }

  lemma {:induction false} SumNonNegative(rs: seq<Request>, k: Row, st: Status)
    requires Shaped(rs)
    ensures 0 <= SumDays(rs, k, st)
  {
    if rs != [] { SumNonNegative(rs[..|rs| - 1], k, st); }
  }

  // ---------- the invariant ----------

  predicate ShapedRequest(r: Request) { r.first <= r.last && r.days == r.last - r.first + 1 }

  ghost predicate Shaped(rs: seq<Request>) {
    forall i | 0 <= i < |rs| :: ShapedRequest(rs[i])
  }

  /** The row holds exactly the days of its pending and approved requests, and adds up. */
  ghost predicate Accounts(b: Balance, rs: seq<Request>, k: Row) {
    && b.pending == SumDays(rs, k, Pending) as real
    && b.used == SumDays(rs, k, Approved) as real
    && b.available >= 0.0
    && b.available + b.pending + b.used == b.total
  }

  ghost predicate RowsBalance(db: Db) {
    forall k | k in db.balances :: Accounts(db.balances[k], db.requests, k)
  }

  ghost predicate RowsExist(db: Db) {
    forall i | 0 <= i < |db.requests| :: RowOf(db.requests[i]) in db.balances
  }

  predicate Apart(r: Request, s: Request) {
    Active(r) && Active(s) && r.employee == s.employee && r.location == s.location
    ==> !RangesOverlap(r.first, r.last, s.first, s.last)
  }

  ghost predicate AllApart(rs: seq<Request>) {
    forall i, j | 0 <= i < j < |rs| :: Apart(rs[i], rs[j])
  }

  /** r still is the claim that was stored: only its progress may differ. */
  predicate SameClaim(r: Request, s: Request) {
    r.(status := s.status, hcmValidated := s.hcmValidated, sync := s.sync, attempts := s.attempts) == s
  }

  /** Requests and idempotency records are in one-to-one correspondence through their keys. */
  ghost predicate OnePerKey(db: Db) {
    && (forall i | 0 <= i < |db.requests| ::
          db.requests[i].key in db.records && db.records[db.requests[i].key].body.id == i)
    && (forall k | k in db.records ::
          && db.records[k].body.id < |db.requests|
          && db.requests[db.records[k].body.id].key == k
          && SameClaim(db.records[k].body.request, db.requests[db.records[k].body.id]))
  }

  ghost predicate SuccessIsValidated(rs: seq<Request>) {
    forall i | 0 <= i < |rs| :: rs[i].sync == SyncSuccess ==> rs[i].hcmValidated
  }

  ghost predicate Inv(db: Db) {
    && Shaped(db.requests)
    && RowsBalance(db)
    && RowsExist(db)
    && AllApart(db.requests)
    && OnePerKey(db)
    && SuccessIsValidated(db.requests)
  }

  // ---------- each step keeps it ----------

  /** What createRequest has checked before its transaction: an ordered range and its length. */
  predicate AskShaped(ask: Ask) { ask.first <= ask.last && ask.days == ask.last - ask.first + 1 }

  /** The total with which the step would create a missing row, if it would. */
  function CreatedTotal(db: Db, ev: Event): Option<real> {
    match ev
    case Seed(k, total) => if k in db.balances then None else Some(total)
    case Reconcile(k, total, _) => if k in db.balances then None else Some(total)
    case _ => None
  }

  predicate Sound(db: Db, ev: Event) {
    && (ev.Create? ==> AskShaped(ev.ask))
    && (CreatedTotal(db, ev).Some? ==> CreatedTotal(db, ev).value >= 0.0)
  }

  lemma {:induction false} SumWithoutRow(rs: seq<Request>, k: Row, st: Status)
    requires forall i | 0 <= i < |rs| :: RowOf(rs[i]) != k
    ensures SumDays(rs, k, st) == 0
  {
    if rs != [] { SumWithoutRow(rs[..|rs| - 1], k, st); }
  }

  /** A pending request of d days moves d days of its own row, and no other row, to pending. */
  lemma AppendAccounts(b: Balance, rs: seq<Request>, r: Request, k: Row)
    requires Accounts(b, rs, k) && r.status == Pending
    ensures RowOf(r) != k ==> Accounts(b, rs + [r], k)
    ensures RowOf(r) == k && b.available >= r.days as real ==>
      Accounts(b.(available := b.available - r.days as real, pending := b.pending + r.days as real), rs + [r], k)
  {
    hide SumDays;
    SumAppend(rs, r, k, Pending);
    SumAppend(rs, r, k, Approved);
  }

  lemma CreateKeepsRows(db: Db, ask: Ask, key: string, hash: string, expiresAt: int)
    requires Inv(db) && AskShaped(ask) && CreateTx(db, ask, key, hash, expiresAt).Ok?
    ensures RowsBalance(CreateTx(db, ask, key, hash, expiresAt).value)
  {
    hide Accounts;
    var db' := CreateTx(db, ask, key, hash, expiresAt).value;
    var r := NewRequest(ask, key);
    assert db'.requests == db.requests + [r];
    forall k | k in db'.balances
      ensures Accounts(db'.balances[k], db'.requests, k)
    {
      AppendAccounts(db.balances[k], db.requests, r, k);
    }
  }

  lemma AppendKeepsApart(rs: seq<Request>, r: Request)
    requires AllApart(rs) && !Conflicts(rs, r.employee, r.location, r.first, r.last)
    ensures AllApart(rs + [r])
  {
    var rs' := rs + [r];
    forall i, j | 0 <= i < j < |rs'|
      ensures Apart(rs'[i], rs'[j])
    {
      if j < |rs| { assert Apart(rs[i], rs[j]); }
    }
  }

  lemma CreateKeepsKeys(db: Db, ask: Ask, key: string, hash: string, expiresAt: int)
    requires OnePerKey(db) && CreateTx(db, ask, key, hash, expiresAt).Ok?
    ensures OnePerKey(CreateTx(db, ask, key, hash, expiresAt).value)
  {
    var db' := CreateTx(db, ask, key, hash, expiresAt).value;
    assert forall i | 0 <= i < |db.requests| :: db'.requests[i] == db.requests[i] && db.requests[i].key != key;
  }

  lemma CreateKeepsInv(db: Db, ask: Ask, key: string, hash: string, expiresAt: int)
    requires Inv(db) && AskShaped(ask) && CreateTx(db, ask, key, hash, expiresAt).Ok?
    ensures Inv(CreateTx(db, ask, key, hash, expiresAt).value)
  {
    hide RowsBalance;
    hide OnePerKey;
    hide AllApart;
    hide Conflicts;
    CreateKeepsRows(db, ask, key, hash, expiresAt);
    CreateKeepsKeys(db, ask, key, hash, expiresAt);
    AppendKeepsApart(db.requests, NewRequest(ask, key));
  }

  // ---------- a stored request makes progress ----------

  /** The row at id is replaced by a later version of itself that is active only if it was. */
  ghost predicate Progress(rs: seq<Request>, id: nat, r: Request) {
    id < |rs| && SameClaim(rs[id], r) && (Active(r) ==> Active(rs[id]))
  }

  lemma ProgressKeepsApart(rs: seq<Request>, id: nat, r: Request)
    requires AllApart(rs) && Progress(rs, id, r)
    ensures AllApart(rs[id := r])
  {
    var rs' := rs[id := r];
    forall i, j | 0 <= i < j < |rs'|
      ensures Apart(rs'[i], rs'[j])
    {
      assert Apart(rs[i], rs[j]);
    }
  }

  lemma ProgressKeepsShape(rs: seq<Request>, id: nat, r: Request)
    requires Shaped(rs) && Progress(rs, id, r)
    ensures Shaped(rs[id := r])
  {
    assert ShapedRequest(rs[id]);
  }

  lemma ProgressKeepsKeys(db: Db, id: nat, r: Request, bs: map<Row, Balance>)
    requires OnePerKey(db) && Progress(db.requests, id, r)
    ensures OnePerKey(Db(bs, db.requests[id := r], db.records))
  {
  }

  lemma ProgressKeepsInv(db: Db, id: nat, r: Request, bs: map<Row, Balance>)
    requires Inv(db) && Progress(db.requests, id, r) && (r.sync == SyncSuccess ==> r.hcmValidated)
    requires bs.Keys == db.balances.Keys && RowsBalance(Db(bs, db.requests[id := r], db.records))
    ensures Inv(Db(bs, db.requests[id := r], db.records))
  {
    hide RowsBalance;
    hide OnePerKey;
    hide AllApart;
    hide Shaped;
    ProgressKeepsApart(db.requests, id, r);
    ProgressKeepsShape(db.requests, id, r);
    ProgressKeepsKeys(db, id, r, bs);
    assert RowOf(r) == RowOf(db.requests[id]);
  }

  /** In a reachable state the pending guard never fires: the row still holds the request's days. */
  lemma PendingCovers(db: Db, id: nat)
    requires Inv(db) && id < |db.requests| && db.requests[id].status == Pending
    ensures RowOf(db.requests[id]) in db.balances
    ensures db.balances[RowOf(db.requests[id])].pending >= db.requests[id].days as real
  {
    var k := RowOf(db.requests[id]);
    assert Accounts(db.balances[k], db.requests, k);
    SumCovers(db.requests, id, k, Pending);
  }

  /** What a change of status does to the row of the request, and to every other row. */
  lemma StatusAccounts(b: Balance, rs: seq<Request>, id: nat, target: Status, k: Row)
    requires id < |rs| && Accounts(b, rs, k) && rs[id].status == Pending && target != Pending
    ensures var rs', days := rs[id := rs[id].(status := target)], rs[id].days as real;
      && (RowOf(rs[id]) != k ==> Accounts(b, rs', k))
      && (RowOf(rs[id]) == k && target == Approved ==>
            Accounts(b.(pending := b.pending - days, used := b.used + days), rs', k))
      && (RowOf(rs[id]) == k && target != Approved && b.available + days >= 0.0 ==>
            Accounts(b.(pending := b.pending - days, available := b.available + days), rs', k))
  {
    hide SumDays;
    SumUpdate(rs, id, rs[id].(status := target), k, Pending);
    SumUpdate(rs, id, rs[id].(status := target), k, Approved);
  }

  lemma DecideKeepsRows(db: Db, id: nat, target: Status)
    requires Inv(db) && Decide(db, id, target).Ok?
    ensures RowsBalance(Decide(db, id, target).value)
  {
    var db' := Decide(db, id, target).value;
    var r := db.requests[id];
    assert ShapedRequest(r);
    forall k | k in db'.balances
      ensures Accounts(db'.balances[k], db'.requests, k)
    {
      assert Accounts(db.balances[k], db.requests, k);
      StatusAccounts(db.balances[k], db.requests, id, target, k);
      hide Accounts;
    }
  }

  lemma DecideKeepsInv(db: Db, id: nat, target: Status)
    requires Inv(db) && Decide(db, id, target).Ok?
    ensures Inv(Decide(db, id, target).value)
  {
    DecideKeepsRows(db, id, target);
    hide RowsBalance;
    hide OnePerKey;
    hide AllApart;
    hide Shaped;
    var db' := Decide(db, id, target).value;
    ProgressKeepsInv(db, id, db.requests[id].(status := target), db'.balances);
  }

  /** Replacing one row by another that accounts for the same requests keeps everything. */
  lemma RowWriteKeepsInv(db: Db, k: Row, b: Balance)
    requires Inv(db) && Accounts(b, db.requests, k)
    ensures Inv(db.(balances := db.balances[k := b]))
  {
  }

  lemma NewRowKeepsInv(db: Db, k: Row, b: Balance)
    requires Inv(db) && k !in db.balances
    requires b.total == b.available && b.pending == b.used == 0.0
    ensures Inv(db.(balances := db.balances[k := b])) <==> b.total >= 0.0
  {
    forall st | true ensures SumDays(db.requests, k, st) == 0 { SumWithoutRow(db.requests, k, st); }
    if b.total >= 0.0 {
      RowWriteKeepsInv(db, k, b);
    } else {
      var db' := db.(balances := db.balances[k := b]);
      assert !Accounts(db'.balances[k], db'.requests, k);
    }
  }

  /** A sync write keeps the claim, the status and the days of the row it touches. */
  lemma SyncKeepsRows(db: Db, id: nat, w: SyncWrite)
    requires Inv(db)
    ensures RowsBalance(db.(requests := UpdateSync(db.requests, id, w)))
  {
    var rs' := UpdateSync(db.requests, id, w);
    forall k | k in db.balances
      ensures Accounts(db.balances[k], rs', k)
    {
      if id < |db.requests| {
        SumUpdate(db.requests, id, rs'[id], k, Pending);
        SumUpdate(db.requests, id, rs'[id], k, Approved);
      }
      assert Accounts(db.balances[k], db.requests, k);
    }
  }

  /** No writer reports success without validation, whatever stale row it looked at. */
  lemma WritersValidateBeforeSuccess(w: Writer)
    ensures WriteOf(w).sync == SyncSuccess ==> WriteOf(w).validated == Some(true)
    ensures WriteOf(w).validated == Some(false) ==> WriteOf(w).sync == SyncFailed
  {
  }

  /**
   * The notice sent on creation and the worker's retry of it read the same reply
   * differently in exactly one case, an answer that leaves valid out: the one reports
   * success, the other failure.
   */
  lemma NoticesDisagreeExactlyOnSilence(seen: Request, reply: Reply)
    requires !seen.hcmValidated && seen.status == Pending && seen.attempts < MAX_PENDING_SYNC_RETRIES
    ensures var first, retry := WriteOf(OnCreate(reply)), WriteOf(OnRetry(seen, reply, reply));
      && (first.sync != retry.sync <==> reply.Answer? && reply.valid == None)
      && (first.sync != retry.sync ==> first.sync == SyncSuccess && retry.sync == SyncFailed)
  {
    match reply
    case NoAnswer =>
    case Crash =>
    case Answer(valid, _) =>
      if valid.Some? {
        if valid.value { assert valid == Some(true); } else { assert valid == Some(false); }
      }
  }

  lemma SyncKeepsInv(db: Db, id: nat, w: Writer)
    requires Inv(db)
    ensures Inv(Apply(db, Sync(id, w)))
  {
    SyncKeepsRows(db, id, WriteOf(w));
    WritersValidateBeforeSuccess(w);
    if id < |db.requests| {
      hide RowsBalance;
      hide OnePerKey;
      hide AllApart;
      hide Shaped;
      hide WriteOf;
      ProgressKeepsInv(db, id, UpdateSync(db.requests, id, WriteOf(w))[id], db.balances);
    }
  }

  lemma RealTimeKeepsInv(db: Db, k: Row, total: real, v: Option<string>)
    requires Inv(db)
    ensures Inv(Apply(db, RealTime(k, total, v)))
  {
    if k in db.balances {
      assert Accounts(db.balances[k], db.requests, k);
      RowWriteKeepsInv(db, k, ApplyHcmRealTimeUpdate(db.balances, k, total, v)[k]);
    }
  }

  lemma ReconcileKeepsInv(db: Db, k: Row, total: real, v: Option<string>)
    requires Inv(db)
    ensures Inv(Apply(db, Reconcile(k, total, v))) <==> (k in db.balances || total >= 0.0)
  {
    if k in db.balances {
      assert Accounts(db.balances[k], db.requests, k);
      RowWriteKeepsInv(db, k, ReconcileRecord(db.balances, k, total, v)[k]);
    } else {
      NewRowKeepsInv(db, k, NewBalance(total, v));
    }
  }

  lemma OmittedKeepsInv(db: Db, k: Row)
    requires Inv(db)
    ensures Inv(Apply(db, Omitted(k)))
  {
    if k in db.balances {
      assert Accounts(db.balances[k], db.requests, k);
      RowWriteKeepsInv(db, k, FlagOmitted(db.balances, k)[k]);
    }
  }

  /**
   * One step, exactly: from a state that satisfies the invariant, a step with a
   * well-formed ask leads to such a state if and only if any row it creates
   * starts from a non-negative total.
   */
  lemma StepKeepsInv(db: Db, ev: Event)
    requires Inv(db) && (ev.Create? ==> AskShaped(ev.ask))
    ensures Inv(Apply(db, ev)) <==> Sound(db, ev)
  {
    hide Inv;
    match ev
    case Create(ask, key, hash, expiresAt) =>
      if CreateTx(db, ask, key, hash, expiresAt).Ok? { CreateKeepsInv(db, ask, key, hash, expiresAt); }
    case Decision(id, target) =>
      if Decide(db, id, target).Ok? { DecideKeepsInv(db, id, target); }
    case Seed(k, total) =>
      if k !in db.balances { NewRowKeepsInv(db, k, NewBalance(total, None)); }
    case RealTime(k, total, v) => RealTimeKeepsInv(db, k, total, v);
    case Reconcile(k, total, v) => ReconcileKeepsInv(db, k, total, v);
    case Omitted(k) => OmittedKeepsInv(db, k);
    case Sync(id, w) =>
      SyncKeepsInv(db, id, w);
  }

  /** The correspondence of keys and records needs nothing else: any step keeps it. */
  lemma StepKeepsKeys(db: Db, ev: Event)
    requires OnePerKey(db)
    ensures OnePerKey(Apply(db, ev))
  {
    hide OnePerKey;
    match ev
    case Create(ask, key, hash, expiresAt) =>
      if CreateTx(db, ask, key, hash, expiresAt).Ok? { CreateKeepsKeys(db, ask, key, hash, expiresAt); }
    case Decision(id, target) =>
      if Decide(db, id, target).Ok? {
        var db' := Decide(db, id, target).value;
        ProgressKeepsKeys(db, id, db.requests[id].(status := target), db'.balances);
      }
    case Seed(k, total) => BalancesBearNoKeys(db, Apply(db, ev));
    case RealTime(k, total, v) => BalancesBearNoKeys(db, Apply(db, ev));
    case Reconcile(k, total, v) => BalancesBearNoKeys(db, Apply(db, ev));
    case Omitted(k) => BalancesBearNoKeys(db, Apply(db, ev));
    case Sync(id, w) =>
      hide WriteOf;
      if id < |db.requests| {
        ProgressKeepsKeys(db, id, UpdateSync(db.requests, id, WriteOf(w))[id], db.balances);
      }
  }

  lemma BalancesBearNoKeys(db: Db, db': Db)
    requires OnePerKey(db) && db'.requests == db.requests && db'.records == db.records
    ensures OnePerKey(db')
  {
  }

  lemma {:induction false} RunKeepsKeys(db: Db, evs: seq<Event>)
    requires OnePerKey(db)
    ensures OnePerKey(Run(db, evs))
    decreases |evs|
  {
    hide OnePerKey;
    hide Apply;
    if evs != [] {
      StepKeepsKeys(db, evs[0]);
      RunKeepsKeys(Apply(db, evs[0]), evs[1..]);
    }
  }

  // ---------- every reachable state ----------

  /** Every step of the run is sound in the state it meets. */
  predicate SoundRun(db: Db, evs: seq<Event>)
    decreases |evs|
  {
    evs != [] ==> Sound(db, evs[0]) && SoundRun(Apply(db, evs[0]), evs[1..])
  }

  lemma {:induction false} RunKeepsInv(db: Db, evs: seq<Event>)
    requires Inv(db) && SoundRun(db, evs)
    ensures Inv(Run(db, evs))
    decreases |evs|
  {
    if evs != [] {
      StepKeepsInv(db, evs[0]);
      RunKeepsInv(Apply(db, evs[0]), evs[1..]);
    }
  }

  /** Every state any interleaving of the service's steps can reach satisfies the invariant. */
  lemma ReachableStatesBalance(evs: seq<Event>)
    requires SoundRun(EMPTY, evs)
    ensures Inv(Run(EMPTY, evs))
  {
    RunKeepsInv(EMPTY, evs);
  }
}
