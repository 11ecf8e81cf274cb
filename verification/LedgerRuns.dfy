/**
 * Consequences of the invariant over whole runs: decisions succeed exactly once,
 * keys have one effect, HCM data never takes leave away, and the booked days of a
 * location are exactly the calendar days its active requests cover.
 */
module LedgerRuns {
  import opened Prelude
  import opened Ledger
  import opened LedgerInvariants

  // ---------- decisions ----------

  /** The balance guards of a decision never fire: only the status decides. */
  lemma DecisionSucceedsExactlyWhenPending(db: Db, id: nat, target: Status)
    requires Inv(db)
    ensures Decide(db, id, target).Ok?
       <==> id < |db.requests| && db.requests[id].status == Pending && target != Pending
    ensures Decide(db, id, target).Ok? ==> Decide(db, id, target).value.requests[id].status == target
  {
    if id < |db.requests| && db.requests[id].status == Pending {
      PendingCovers(db, id);
    }
  }

  /** r is s at a later moment: same claim, and a decided status stays. */
  predicate Later(r: Request, s: Request) {
    SameClaim(r, s) && (r.status != Pending ==> s.status == r.status)
  }

  /** What no step ever takes back: claims, decisions and idempotency records. Balance rows stay, with any amounts. */
  ghost predicate Extends(db: Db, db': Db) {
    && |db.requests| <= |db'.requests|
    && (forall i | 0 <= i < |db.requests| :: Later(db.requests[i], db'.requests[i]))
    && (forall k | k in db.records :: k in db'.records && db'.records[k] == db.records[k])
    && (forall k | k in db.balances :: k in db'.balances)
  }

  lemma StepExtends(db: Db, ev: Event)
    ensures Extends(db, Apply(db, ev))
  {
  }

  lemma ExtendsTransitive(a: Db, b: Db, c: Db)
    requires Extends(a, b) && Extends(b, c)
    ensures Extends(a, c)
  {
    forall i | 0 <= i < |a.requests|
      ensures Later(a.requests[i], c.requests[i])
    {
      assert Later(a.requests[i], b.requests[i]) && Later(b.requests[i], c.requests[i]);
    }
  }

  lemma {:induction false} RunExtends(db: Db, evs: seq<Event>)
    ensures Extends(db, Run(db, evs))
    decreases |evs|
  {
    if evs == [] {
      assert forall i | 0 <= i < |db.requests| :: Later(db.requests[i], db.requests[i]);
    } else {
      StepExtends(db, evs[0]);
      RunExtends(Apply(db, evs[0]), evs[1..]);
      ExtendsTransitive(db, Apply(db, evs[0]), Run(db, evs));
    }
  }

  /**
   * A pending request is decided once: whatever else runs before, the decision is
   * available as long as nobody else decided, and after it every later decision is
   * refused and changes nothing.
   */
  lemma DecidedOnceForAll(db: Db, id: nat, target: Status, later: seq<Event>, again: Status)
    requires Inv(db) && Decide(db, id, target).Ok?
    ensures var after := Run(Decide(db, id, target).value, later);
      && id < |after.requests| && after.requests[id].status == target
      && Decide(after, id, again) == Err(InvalidTransition)
      && Apply(after, Decision(id, again)) == after
  {
    DecisionSucceedsExactlyWhenPending(db, id, target);
    var decided := Decide(db, id, target).value;
    RunExtends(decided, later);
    assert Later(decided.requests[id], Run(decided, later).requests[id]);
  }

  // ---------- keys ----------

  /** In every reachable state a key names at most one request. */
  lemma OneRequestPerKey(db: Db, i: nat, j: nat)
    requires Inv(db) && i < |db.requests| && j < |db.requests| && db.requests[i].key == db.requests[j].key
    ensures i == j
  {
    assert db.records[db.requests[i].key].body.id == i && db.records[db.requests[j].key].body.id == j;
  }

  /** Once a key has produced a request, no create transaction with that key commits again. */
  lemma UsedKeyNeverCommits(db: Db, id: nat, evs: seq<Event>, ask: Ask, hash: string, expiresAt: int)
    requires id < |db.requests|
    ensures CreateTx(Run(db, evs), ask, db.requests[id].key, hash, expiresAt).Err?
    ensures Apply(Run(db, evs), Create(ask, db.requests[id].key, hash, expiresAt)) == Run(db, evs)
  {
    RunExtends(db, evs);
    assert Later(db.requests[id], Run(db, evs).requests[id]);
    assert Run(db, evs).requests[id].key == db.requests[id].key;
  }

  /** A commit stores exactly one request and, in the same step, exactly one record naming it. */
  lemma CreateStoresBothRows(db: Db, ask: Ask, key: string, hash: string, expiresAt: int)
    requires Inv(db) && CreateTx(db, ask, key, hash, expiresAt).Ok?
    ensures var db' := CreateTx(db, ask, key, hash, expiresAt).value;
      && db'.requests == db.requests + [NewRequest(ask, key)]
      && !KeyUsed(db.requests, key)
      && db'.records.Keys == db.records.Keys + {key} && key !in db.records
      && db'.records[key].body == Body(|db.requests|, db'.requests[|db.requests|])
  {
  }

  // ---------- what a creation and a decision do ----------

  /** Some day of the asked range is already taken by a pending or approved request of the employee there. */
  ghost predicate SharesADay(rs: seq<Request>, ask: Ask) {
    exists i, d: int | 0 <= i < |rs| && ask.first <= d <= ask.last :: TakesDay(rs[i], ask, d)
  }

  predicate TakesDay(r: Request, ask: Ask, d: int) {
    && r.employee == ask.employee && r.location == ask.location
    && (r.status == Pending || r.status == Approved) && r.first <= d <= r.last
  }

  lemma ConflictIsASharedDay(rs: seq<Request>, ask: Ask)
    requires ask.first <= ask.last && Shaped(rs)
    ensures Conflicts(rs, ask.employee, ask.location, ask.first, ask.last) <==> SharesADay(rs, ask)
  {
    if i :| 0 <= i < |rs| && rs[i].employee == ask.employee && rs[i].location == ask.location && Active(rs[i])
            && RangesOverlap(ask.first, ask.last, rs[i].first, rs[i].last) {
      assert ShapedRequest(rs[i]);
      var d := if rs[i].first <= ask.first then ask.first else rs[i].first;
      assert TakesDay(rs[i], ask, d);
    }
    if i, d: int :| 0 <= i < |rs| && ask.first <= d <= ask.last && TakesDay(rs[i], ask, d) {
      assert RangesOverlap(ask.first, ask.last, rs[i].first, rs[i].last);
    }
  }

  /**
   * A creation commits exactly if no day of it is taken, the row exists with at least the
   * days asked for, and no request or record has the key; otherwise the first of these
   * that fails is the error.
   */
  lemma CreationCommitsExactlyWhen(db: Db, ask: Ask, key: string, hash: string, expiresAt: int)
    requires ask.first <= ask.last && Shaped(db.requests)
    ensures var tx, k := CreateTx(db, ask, key, hash, expiresAt), Row(ask.employee, ask.location, ask.leave);
      var free := (forall i | 0 <= i < |db.requests| :: db.requests[i].key != key) && key !in db.records;
      && (tx.Ok? <==>
            && !SharesADay(db.requests, ask) && k in db.balances && db.balances[k].available >= ask.days as real
            && free)
      && (tx == Err(Overlapping) <==> SharesADay(db.requests, ask))
      && (tx == Err(BalanceNotFound) <==> !SharesADay(db.requests, ask) && k !in db.balances)
      && (tx == Err(InsufficientBalance) <==>
            !SharesADay(db.requests, ask) && k in db.balances && db.balances[k].available < ask.days as real)
  {
    ConflictIsASharedDay(db.requests, ask);
    hide Conflicts;
    hide SharesADay;
  }

  /** A commit moves the days of the one row from available to pending and appends the request asked for. */
  lemma CreationMovesDays(db: Db, ask: Ask, key: string, hash: string, expiresAt: int)
    requires CreateTx(db, ask, key, hash, expiresAt).Ok?
    ensures var db', k := CreateTx(db, ask, key, hash, expiresAt).value, Row(ask.employee, ask.location, ask.leave);
      var r := Request(key, ask.employee, ask.location, ask.leave, ask.first, ask.last, ask.days,
                       Pending, false, SyncPending, 0);
      && k in db.balances && db'.requests == db.requests + [r]
      && db'.balances == db.balances[k := db.balances[k].(
           available := db.balances[k].available - ask.days as real,
           pending := db.balances[k].pending + ask.days as real)]
      && db'.records == db.records[key := Record(ask.employee, hash, Body(|db.requests|, r), expiresAt)]
  {
  }

  /** A decision changes one status and moves the request's days in its row, to used if approved, else to available. */
  lemma DecisionMovesDays(db: Db, id: nat, target: Status)
    requires Inv(db) && id < |db.requests| && db.requests[id].status == Pending && target != Pending
    ensures Decide(db, id, target).Ok?
    ensures var db', r := Decide(db, id, target).value, db.requests[id];
      var k, days := Row(r.employee, r.location, r.leave), r.days as real;
      && k in db.balances && db'.records == db.records
      && db'.requests == db.requests[id := r.(status := target)]
      && db'.balances == db.balances[k := var b := db.balances[k];
           if target == Approved then b.(pending := b.pending - days, used := b.used + days)
           else b.(pending := b.pending - days, available := b.available + days)]
  {
    PendingCovers(db, id);
    hide *;
    DecideInAmounts(db, id, target);
  }

  lemma DecideInAmounts(db: Db, id: nat, target: Status)
    requires id < |db.requests| && db.requests[id].status == Pending && target != Pending
    requires var r := db.requests[id];
      RowOf(r) in db.balances && db.balances[RowOf(r)].pending >= r.days as real
    ensures Decide(db, id, target).Ok?
    ensures var db', r := Decide(db, id, target).value, db.requests[id];
      var k, days := Row(r.employee, r.location, r.leave), r.days as real;
      && k == RowOf(r) && db'.records == db.records
      && db'.requests == db.requests[id := r.(status := target)]
      && db'.balances == db.balances[k := var b := db.balances[k];
           if target == Approved then b.(pending := b.pending - days, used := b.used + days)
           else b.(pending := b.pending - days, available := b.available + days)]
  {
  }

  /** A refused decision says why: no such request, or one that is decided already. */
  lemma DecisionRefusedBecause(db: Db, id: nat, target: Status)
    requires Inv(db)
    ensures Decide(db, id, target) == Err(RequestNotFound) <==> id >= |db.requests|
    ensures Decide(db, id, target) == Err(InvalidTransition)
       <==> id < |db.requests| && (db.requests[id].status != Pending || target == Pending)
  {
    if id < |db.requests| && db.requests[id].status == Pending && target != Pending {
      DecisionSucceedsExactlyWhenPending(db, id, target);
    }
    hide Inv;
  }

  // ---------- HCM data ----------

  /** The row holds at least as much as before, and what it gained is new total. */
  predicate OnlyGains(b: Balance, b': Balance) {
    && b'.pending == b.pending && b'.used == b.used
    && b'.available >= b.available
    && b'.available - b.available == b'.total - b.total
    && (b'.available > b.available ==> b'.total == b'.hcmTotal)
  }

  lemma RaiseOnlyGains(b: Balance, hcmTotal: real, version: Option<string>)
    requires b.available + b.pending + b.used == b.total && hcmTotal - LocalTotal(b) > 0.0
    ensures OnlyGains(b, Stamp(Raise(b, hcmTotal), hcmTotal, version, false))
  {
  }

  lemma StampOnlyGains(b: Balance, hcmTotal: real, version: Option<string>, drifted: bool)
    ensures OnlyGains(b, Stamp(b, hcmTotal, version, drifted)) && OnlyGains(b, Flag(b))
  {
  }

  lemma RealTimeOnlyGains(bs: map<Row, Balance>, k: Row, total: real, v: Option<string>)
    requires k in bs && bs[k].available + bs[k].pending + bs[k].used == bs[k].total
    ensures OnlyGains(bs[k], ApplyHcmRealTimeUpdate(bs, k, total, v)[k])
  {
    hide OnlyGains;
    var drift := total - LocalTotal(bs[k]);
    if drift > 0.001 { RaiseOnlyGains(bs[k], total, v); }
    StampOnlyGains(bs[k], total, v, drift < -0.001);
    hide Stamp;
  }

  lemma ReconcileOnlyGains(bs: map<Row, Balance>, k: Row, total: real, v: Option<string>)
    requires k in bs && bs[k].available + bs[k].pending + bs[k].used == bs[k].total
    ensures OnlyGains(bs[k], ReconcileRecord(bs, k, total, v)[k])
  {
    hide OnlyGains;
    if total - LocalTotal(bs[k]) > 0.01 { RaiseOnlyGains(bs[k], total, v); }
    StampOnlyGains(bs[k], total, v, false);
    StampOnlyGains(bs[k], total, v, true);
    hide Stamp;
  }

  /** Seeding, real-time updates and batch records leave pending and used alone and never lower available or total. */
  lemma HcmNeverTakesAway(db: Db, ev: Event, k: Row)
    requires Inv(db) && k in db.balances
    requires ev.Seed? || ev.RealTime? || ev.Reconcile? || ev.Omitted?
    ensures OnlyGains(db.balances[k], Apply(db, ev).balances[k])
    ensures Apply(db, ev).requests == db.requests && Apply(db, ev).records == db.records
  {
    assert Accounts(db.balances[k], db.requests, k);
    var b := db.balances[k];
    assert b.available + b.pending + b.used == b.total;
    hide Inv;
    hide Accounts;
    StampOnlyGains(b, 0.0, None, false);
    assert OnlyGains(b, b);
    hide OnlyGains;
    match ev
    case Seed(row, total) =>
    case RealTime(row, total, v) => if row == k { RealTimeOnlyGains(db.balances, k, total, v); }
    case Reconcile(row, total, v) => if row == k { ReconcileOnlyGains(db.balances, k, total, v); }
    case Omitted(row) =>
  }

  /** The amount by which HCM and a row must differ before a real-time update or a batch record reacts. */
  function Tolerance(ev: Event): real { if ev.RealTime? then 0.001 else 0.01 }

  /** The row after HCM has reported a total, with the tolerance it reacts beyond. */
  predicate Decided(b: Balance, b': Balance, total: real, version: Option<string>, tolerance: real) {
    && b'.hcmTotal == total && b'.hcmVersion == version
    && b'.total == (if total - b.total > tolerance then total else b.total)
    && (b'.hasDiscrepancy <==> b.total - total > tolerance)
    && b'.discrepancy == (if b'.hasDiscrepancy then Some(b.total - total) else None)
  }

  lemma RealTimeDecides(bs: map<Row, Balance>, k: Row, total: real, v: Option<string>)
    requires k in bs && LocalTotal(bs[k]) == bs[k].total
    ensures Decided(bs[k], ApplyHcmRealTimeUpdate(bs, k, total, v)[k], total, v, 0.001)
  {
  }

  lemma ReconcileDecides(bs: map<Row, Balance>, k: Row, total: real, v: Option<string>)
    requires k in bs && LocalTotal(bs[k]) == bs[k].total
    ensures Decided(bs[k], ReconcileRecord(bs, k, total, v)[k], total, v, 0.01)
  {
  }

  /**
   * In a reachable state the stored total decides what HCM data does: a total above it
   * by more than the tolerance becomes the new one, a total below it is flagged with the
   * shortfall, and anything in between only clears the flag.
   */
  lemma StoredTotalDecides(db: Db, ev: Event)
    requires Inv(db) && (ev.RealTime? || ev.Reconcile?) && ev.row in db.balances
    ensures Decided(db.balances[ev.row], Apply(db, ev).balances[ev.row], ev.total, ev.version, Tolerance(ev))
    ensures forall k | k in db.balances && k != ev.row :: Apply(db, ev).balances[k] == db.balances[k]
  {
    assert Accounts(db.balances[ev.row], db.requests, ev.row);
    assert LocalTotal(db.balances[ev.row]) == db.balances[ev.row].total;
    hide Inv;
    hide Accounts;
    hide Decided;
    hide Stamp;
    hide LocalTotal;
    if ev.RealTime? {
      RealTimeDecides(db.balances, ev.row, ev.total, ev.version);
    } else {
      ReconcileDecides(db.balances, ev.row, ev.total, ev.version);
    }
  }

  /**
   * In a reachable state, in amounts: a batch record more than 0.01 above the stored total
   * raises total and available by the difference, one more than 0.01 below it is flagged
   * with the shortfall, and in between nothing moves and the flag is cleared. For a
   * real-time update the limit is 0.001.
   */
  lemma TotalsMoveByAmounts(db: Db, ev: Event)
    requires Inv(db) && (ev.RealTime? || ev.Reconcile?) && ev.row in db.balances
    ensures var b, b' := db.balances[ev.row], Apply(db, ev).balances[ev.row];
      var limit := if ev.RealTime? then 0.001 else 0.01;
      && b'.pending == b.pending && b'.used == b.used
      && (ev.total > b.total + limit ==>
            && b'.total == ev.total && b'.available == b.available + (ev.total - b.total)
            && !b'.hasDiscrepancy && b'.discrepancy == None)
      && (ev.total < b.total - limit ==>
            && b'.total == b.total && b'.available == b.available
            && b'.hasDiscrepancy && b'.discrepancy == Some(b.total - ev.total))
      && (b.total - limit <= ev.total <= b.total + limit ==>
            && b'.total == b.total && b'.available == b.available
            && !b'.hasDiscrepancy && b'.discrepancy == None)
  {
    StoredTotalDecides(db, ev);
    HcmNeverTakesAway(db, ev, ev.row);
    hide Inv;
    hide Apply;
  }

  /** A missing row is ignored by a real-time update, and created by a record or a seed with its total available. */
  lemma NewRowsStartFull(db: Db, k: Row, total: real, v: Option<string>)
    requires k !in db.balances
    ensures Apply(db, RealTime(k, total, v)) == db && Apply(db, Omitted(k)) == db
    ensures Apply(db, Seed(k, total)) == db.(balances :=
      db.balances[k := Balance(total, total, 0.0, 0.0, total, None, false, None)])
    ensures Apply(db, Reconcile(k, total, v)) == db.(balances :=
      db.balances[k := Balance(total, total, 0.0, 0.0, total, v, false, None)])
  {
  }

  /** Flagging an omitted row writes two columns; a shortfall already known stays, otherwise it reads 0. */
  lemma OmittedRowsAreFlagged(db: Db, k: Row)
    requires k in db.balances
    ensures var b := db.balances[k];
      Apply(db, Omitted(k)) == db.(balances := db.balances[k := b.(
        hasDiscrepancy := true, discrepancy := if b.discrepancy == None then Some(0.0) else b.discrepancy)])
  {
  }

  // ---------- days ----------

  predicate Away(r: Request, d: int) { r.first <= d <= r.last }

  function LeaveDays(r: Request): set<int> { set d | r.first <= d <= r.last && Away(r, d) }

  predicate Books(r: Request, employee: string, location: string) {
    Active(r) && r.employee == employee && r.location == location
  }

  /** The calendar days on which the employee is or may be away from the location. */
  function CoveredDays(rs: seq<Request>, employee: string, location: string): set<int> {
    if rs == [] then {}
    else
      CoveredDays(rs[..|rs| - 1], employee, location)
      + (if Books(rs[|rs| - 1], employee, location) then LeaveDays(rs[|rs| - 1]) else {})
  }

  lemma {:induction false} CoveredMeansBooked(rs: seq<Request>, employee: string, location: string, d: int)
    ensures d in CoveredDays(rs, employee, location)
       <==> exists i | 0 <= i < |rs| :: Books(rs[i], employee, location) && d in LeaveDays(rs[i])
  {
    if rs != [] {
      var n := |rs| - 1;
      CoveredMeansBooked(rs[..n], employee, location, d);
      if i :| 0 <= i < |rs| && Books(rs[i], employee, location) && d in LeaveDays(rs[i]) {
        if i < n { assert rs[..n][i] == rs[i]; }
      }
      if d in CoveredDays(rs[..n], employee, location) {
        var i :| 0 <= i < n && Books(rs[..n][i], employee, location) && d in LeaveDays(rs[..n][i]);
        assert Books(rs[i], employee, location) && d in LeaveDays(rs[i]);
      }
    }
  }

  lemma {:induction false} RangeSize(r: Request)
    requires r.first <= r.last
    ensures |LeaveDays(r)| == r.last - r.first + 1
    decreases r.last - r.first
  {
    if r.first == r.last {
      assert Away(r, r.last);
      assert LeaveDays(r) == {r.last};
    } else {
      var shorter := r.(last := r.last - 1);
      RangeSize(shorter);
      forall d ensures d in LeaveDays(r) <==> d in LeaveDays(shorter) + {r.last} {
        assert Away(r, d) <==> Away(shorter, d) || d == r.last;
      }
      assert LeaveDays(r) == LeaveDays(shorter) + {r.last};
      assert r.last !in LeaveDays(shorter);
    }
  }

  /** Booked days of the location over a list of leave types. */
  function BookedDays(rs: seq<Request>, employee: string, location: string, types: seq<LeaveType>): int {
    if types == [] then 0
    else
      var k := Row(employee, location, types[0]);
      SumDays(rs, k, Pending) + SumDays(rs, k, Approved) + BookedDays(rs, employee, location, types[1..])
  }

  lemma {:induction false} BookedAppend(rs: seq<Request>, r: Request, employee: string, location: string,
                                        types: seq<LeaveType>)
    requires forall i, j | 0 <= i < j < |types| :: types[i] != types[j]
    ensures BookedDays(rs + [r], employee, location, types)
         == BookedDays(rs, employee, location, types)
            + (if Books(r, employee, location) && r.leave in types then r.days else 0)
  {
    if types != [] {
      var k := Row(employee, location, types[0]);
      SumAppend(rs, r, k, Pending);
      SumAppend(rs, r, k, Approved);
      BookedAppend(rs, r, employee, location, types[1..]);
    }
  }

  lemma {:induction false} BookedNothing(employee: string, location: string, types: seq<LeaveType>)
    ensures BookedDays([], employee, location, types) == 0
  {
    if types != [] { BookedNothing(employee, location, types[1..]); }
  }

  lemma EveryLeaveTypeOnce()
    ensures forall t: LeaveType :: t in LEAVE_TYPES
    ensures forall i, j | 0 <= i < j < |LEAVE_TYPES| :: LEAVE_TYPES[i] != LEAVE_TYPES[j]
  {
    forall t: LeaveType ensures t in LEAVE_TYPES {
      match t
      case Vacation => assert LEAVE_TYPES[0] == t;
      case Sick => assert LEAVE_TYPES[1] == t;
      case Personal => assert LEAVE_TYPES[2] == t;
      case Maternity => assert LEAVE_TYPES[3] == t;
      case Paternity => assert LEAVE_TYPES[4] == t;
      case Bereavement => assert LEAVE_TYPES[5] == t;
    }
  }

  /** A leave apart from all earlier ones shares no day with them. */
  lemma ApartMeansDisjoint(rs: seq<Request>, r: Request)
    requires AllApart(rs + [r]) && Active(r)
    ensures LeaveDays(r) !! CoveredDays(rs, r.employee, r.location)
  {
    hide CoveredDays;
    var all := rs + [r];
    forall d | d in LeaveDays(r)
      ensures d !in CoveredDays(rs, r.employee, r.location)
    {
      CoveredMeansBooked(rs, r.employee, r.location, d);
      forall i | 0 <= i < |rs| && Books(rs[i], r.employee, r.location)
        ensures d !in LeaveDays(rs[i])
      {
        assert Apart(all[i], all[|rs|]);
      }
    }
  }

  lemma DisjointSizes(a: set<int>, b: set<int>)
    requires a !! b
    ensures |a + b| == |a| + |b|
  {
  }

  /** Disjoint leaves cover as many days as they book. */
  lemma {:induction false} BookedDaysAreDistinct(rs: seq<Request>, employee: string, location: string)
    requires Shaped(rs) && AllApart(rs)
    ensures |CoveredDays(rs, employee, location)| == BookedDays(rs, employee, location, LEAVE_TYPES)
  {
    EveryLeaveTypeOnce();
    if rs == [] {
      BookedNothing(employee, location, LEAVE_TYPES);
    } else {
      var n := |rs| - 1;
      var r := rs[n];
      BookedDaysAreDistinct(rs[..n], employee, location);
      assert rs == rs[..n] + [r];
      BookedAppend(rs[..n], r, employee, location, LEAVE_TYPES);
      hide LeaveDays;
      hide BookedDays;
      hide AllApart;
      if Books(r, employee, location) {
        RangeSize(r);
        ApartMeansDisjoint(rs[..n], r);
        DisjointSizes(CoveredDays(rs[..n], employee, location), LeaveDays(r));
      }
    }
  }

  /** pending + used of a location's rows, over a list of leave types. */
  function Reserved(bs: map<Row, Balance>, employee: string, location: string, types: seq<LeaveType>): real {
    if types == [] then 0.0
    else
      var k := Row(employee, location, types[0]);
      (if k in bs then bs[k].pending + bs[k].used else 0.0) + Reserved(bs, employee, location, types[1..])
  }

  lemma {:induction false} ReservedIsBooked(db: Db, employee: string, location: string, types: seq<LeaveType>)
    requires Inv(db)
    ensures Reserved(db.balances, employee, location, types)
         == BookedDays(db.requests, employee, location, types) as real
  {
    if types != [] {
      var k := Row(employee, location, types[0]);
      if k in db.balances {
        assert Accounts(db.balances[k], db.requests, k);
      } else {
        SumWithoutRow(db.requests, k, Pending);
        SumWithoutRow(db.requests, k, Approved);
      }
      ReservedIsBooked(db, employee, location, types[1..]);
    }
  }

  /**
   * In every reachable state the reserved amounts of an employee at a location, over
   * all leave types, count the days on which an active request keeps them away.
   */
  lemma ReservedDaysAreCalendarDays(db: Db, employee: string, location: string)
    requires Inv(db)
    ensures Reserved(db.balances, employee, location, LEAVE_TYPES)
         == |CoveredDays(db.requests, employee, location)| as real
  {
    ReservedIsBooked(db, employee, location, LEAVE_TYPES);
    BookedDaysAreDistinct(db.requests, employee, location);
  }
}
