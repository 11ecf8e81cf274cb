/**
 * Batch reconciliation and the retry worker (src/modules/hcm/hcm-sync.service.js).
 * Each record of a batch and each row of a worker pass is one atomic step.
 */
module HcmSync {
  import opened Prelude
  import opened Ledger
  import opened LedgerInvariants
  import opened Services

  // ---------- batch reconciliation ----------

  /** One entry of the HCM snapshot. */
  datatype HcmRecord = HcmRecord(row: Row, total: real, version: Option<string>)

  /** Reconcile the snapshot in order; positions in failing throw and leave their row alone. */
  function ReconcileAll(bs: map<Row, Balance>, recs: seq<HcmRecord>, failing: set<nat>): map<Row, Balance> {
    if recs == [] then bs
    else
      var n := |recs| - 1;
      var before := ReconcileAll(bs, recs[..n], failing);
      if n in failing then before else ReconcileRecord(before, recs[n].row, recs[n].total, recs[n].version)
  }

  /** The text under which a row is looked up among the rows the snapshot mentioned. */
  function JoinedText(k: Row): string { k.employee + "|" + k.location + "|" + LeaveName(k.leave) }

  predicate Listed(recs: seq<HcmRecord>, text: string) {
    exists i | 0 <= i < |recs| :: JoinedText(recs[i].row) == text
  }

  /** The sweep over all local rows that the snapshot seems to omit. */
  function FlagMissing(bs: map<Row, Balance>, recs: seq<HcmRecord>): map<Row, Balance> {
    map k | k in bs :: if Listed(recs, JoinedText(k)) then bs[k] else Flag(bs[k])
  }

  function Batch(bs: map<Row, Balance>, recs: seq<HcmRecord>, failing: set<nat>): map<Row, Balance> {
    FlagMissing(ReconcileAll(bs, recs, failing), recs)
  }

  predicate SameAmounts(a: Balance, b: Balance) {
    a.total == b.total && a.available == b.available && a.pending == b.pending && a.used == b.used
  }

  /** What the row looks like once the record has been seen and nothing is left to raise. */
  function Restamp(b: Balance, r: HcmRecord): Balance {
    Stamp(b, r.total, r.version, r.total - LocalTotal(b) < -0.01)
  }

  predicate Settled(bs: map<Row, Balance>, recs: seq<HcmRecord>) {
    forall i | 0 <= i < |recs| ::
      recs[i].row in bs && recs[i].total - LocalTotal(bs[recs[i].row]) <= 0.01
  }

  function LastFor(recs: seq<HcmRecord>, k: Row): Option<HcmRecord> {
    if recs == [] then None
    else if recs[|recs| - 1].row == k then Some(recs[|recs| - 1])
    else LastFor(recs[..|recs| - 1], k)
  }

  /** A record never lowers what its row holds, and leaves nothing more to raise for itself. */
  lemma RecordSettles(bs: map<Row, Balance>, r: HcmRecord)
    ensures var bs' := ReconcileRecord(bs, r.row, r.total, r.version);
      && bs'.Keys == bs.Keys + {r.row}
      && r.total - LocalTotal(bs'[r.row]) <= 0.01
      && bs'[r.row] == Restamp(bs'[r.row], r)
      && (forall k | k in bs && k != r.row :: bs'[k] == bs[k])
      && (r.row in bs ==> LocalTotal(bs[r.row]) <= LocalTotal(bs'[r.row]))
  {
  }

  lemma {:induction false} BatchSettles(bs: map<Row, Balance>, recs: seq<HcmRecord>)
    ensures Settled(ReconcileAll(bs, recs, {}), recs)
    ensures forall k | LastFor(recs, k).Some? ::
      var done := ReconcileAll(bs, recs, {});
      k in done && done[k] == Restamp(done[k], LastFor(recs, k).value)
  {
    if recs != [] {
      var n := |recs| - 1;
      BatchSettles(bs, recs[..n]);
      RecordSettles(ReconcileAll(bs, recs[..n], {}), recs[n]);
      forall i | 0 <= i < n
        ensures recs[i].row in ReconcileAll(bs, recs, {})
        ensures recs[i].total - LocalTotal(ReconcileAll(bs, recs, {})[recs[i].row]) <= 0.01
      {
        assert recs[..n][i] == recs[i];
      }
    }
  }

  /** On a settled table a further pass over the snapshot, failing where it may, moves no amount. */
  lemma {:induction false} SettledStays(bs: map<Row, Balance>, recs: seq<HcmRecord>, failing: set<nat>)
    requires Settled(bs, recs)
    ensures ReconcileAll(bs, recs, failing).Keys == bs.Keys
    ensures forall k | k in bs :: SameAmounts(ReconcileAll(bs, recs, failing)[k], bs[k])
  {
    if recs != [] {
      var n := |recs| - 1;
      assert forall i | 0 <= i < n :: recs[..n][i] == recs[i];
      SettledStays(bs, recs[..n], failing);
    }
  }

  lemma {:induction false} SettledRestamps(bs: map<Row, Balance>, recs: seq<HcmRecord>)
    requires Settled(bs, recs)
    ensures ReconcileAll(bs, recs, {}).Keys == bs.Keys
    ensures forall k | k in bs ::
      ReconcileAll(bs, recs, {})[k]
      == (if LastFor(recs, k).Some? then Restamp(bs[k], LastFor(recs, k).value) else bs[k])
  {
    if recs != [] {
      var n := |recs| - 1;
      assert forall i | 0 <= i < n :: recs[..n][i] == recs[i];
      SettledRestamps(bs, recs[..n]);
    }
  }

  lemma FlagsKeepAmounts(bs: map<Row, Balance>, recs: seq<HcmRecord>)
    ensures forall k | k in bs :: k in FlagMissing(bs, recs) && SameAmounts(FlagMissing(bs, recs)[k], bs[k])
    ensures FlagMissing(bs, recs).Keys == bs.Keys
    ensures Settled(bs, recs) ==> Settled(FlagMissing(bs, recs), recs)
  {
  }

  /**
   * After one batch without failures the snapshot is exhausted: running it again moves
   * no amount, whichever of its records fail, and if none fails it changes nothing at
   * all. The snapshot may repeat keys with different totals.
   */
  lemma SecondBatchChangesNothing(bs: map<Row, Balance>, recs: seq<HcmRecord>, failing: set<nat>)
    ensures var once := Batch(bs, recs, {});
      && Batch(once, recs, failing).Keys == once.Keys
      && (forall k | k in once :: SameAmounts(Batch(once, recs, failing)[k], once[k]))
      && Batch(once, recs, {}) == once
  {
    var raised := ReconcileAll(bs, recs, {});
    BatchSettles(bs, recs);
    FlagsKeepAmounts(raised, recs);
    var once := FlagMissing(raised, recs);
    SettledStays(once, recs, failing);
    FlagsKeepAmounts(ReconcileAll(once, recs, failing), recs);
    SettledRestamps(once, recs);
    forall k | k in once
      ensures Batch(once, recs, {})[k] == once[k]
    {
      if LastFor(recs, k).Some? {
        LastIsListed(recs, k);
        assert once[k] == raised[k];
      }
    }
  }

  lemma {:induction false} LastIsListed(recs: seq<HcmRecord>, k: Row)
    requires LastFor(recs, k).Some?
    ensures Listed(recs, JoinedText(k))
  {
    var n := |recs| - 1;
    if recs[n].row != k {
      LastIsListed(recs[..n], k);
      var i :| 0 <= i < n && JoinedText(recs[..n][i].row) == JoinedText(k);
      assert JoinedText(recs[i].row) == JoinedText(k);
    }
  }

  /** The snapshot has an entry for the row itself. */
  predicate Mentions(recs: seq<HcmRecord>, k: Row) {
    exists i | 0 <= i < |recs| :: recs[i].row == k
  }

  /**
   * What a failure-free batch reports about a row: one the snapshot mentions is flagged
   * exactly if its last total there is below what the row holds, with the shortfall. One
   * it omits is flagged for review, unless the text of another record stands for it, and
   * then it is left as it was.
   */
  lemma DiscrepanciesAreFlagged(bs: map<Row, Balance>, recs: seq<HcmRecord>, k: Row)
    requires k in Batch(bs, recs, {})
    ensures var b := Batch(bs, recs, {})[k];
      match LastFor(recs, k)
      case Some(r) =>
        && b.hcmTotal == r.total
        && (b.hasDiscrepancy <==> LocalTotal(b) - r.total > 0.01)
        && b.discrepancy == if b.hasDiscrepancy then Some(LocalTotal(b) - r.total) else None
      case None =>
        && k in bs && b == (if Listed(recs, JoinedText(k)) then bs[k] else Flag(bs[k]))
        && (Plain(k) ==> b.hasDiscrepancy && b.discrepancy.Some?)
  {
    hide Listed;
    hide JoinedText;
    hide ReconcileAll;
    hide Plain;
    hide Restamp;
    BatchSettles(bs, recs);
    var raised := ReconcileAll(bs, recs, {});
    if LastFor(recs, k).Some? {
      LastIsListed(recs, k);
      RestampedFlags(raised[k], LastFor(recs, k).value);
    } else {
      NeverLast(recs, k);
      UnmentionedStays(bs, recs, {}, k);
      if Plain(k) { PlainRowsAreListedExactly(recs, k); }
    }
  }

  /** Records leave every row alone that none of them names. */
  lemma {:induction false} UnmentionedStays(bs: map<Row, Balance>, recs: seq<HcmRecord>, failing: set<nat>, k: Row)
    requires !Mentions(recs, k)
    ensures var done := ReconcileAll(bs, recs, failing);
      (k in done <==> k in bs) && (k in bs ==> done[k] == bs[k])
  {
    if recs != [] {
      var n := |recs| - 1;
      assert recs[n].row != k;
      assert forall i | 0 <= i < n :: recs[..n][i] == recs[i];
      UnmentionedStays(bs, recs[..n], failing, k);
    }
  }

  /** A record that throws counts for nothing: a row that all other records leave out stays as it was. */
  lemma {:induction false} FailingRecordsDoNothing(bs: map<Row, Balance>, recs: seq<HcmRecord>, failing: set<nat>,
                                                   k: Row)
    requires forall i: nat | i < |recs| && recs[i].row == k :: i in failing
    ensures var done := ReconcileAll(bs, recs, failing);
      (k in done <==> k in bs) && (k in bs ==> done[k] == bs[k])
  {
    if recs != [] {
      var n := |recs| - 1;
      assert forall i: nat | i < n :: recs[..n][i] == recs[i];
      FailingRecordsDoNothing(bs, recs[..n], failing, k);
    }
  }

  lemma RestampedFlags(b: Balance, r: HcmRecord)
    requires b == Restamp(b, r)
    ensures b.hcmTotal == r.total && (b.hasDiscrepancy <==> LocalTotal(b) - r.total > 0.01)
    ensures b.discrepancy == if b.hasDiscrepancy then Some(LocalTotal(b) - r.total) else None
  {
  }

  lemma {:induction false} NeverLast(recs: seq<HcmRecord>, k: Row)
    requires LastFor(recs, k).None?
    ensures !Mentions(recs, k)
  {
    if recs != [] {
      var n := |recs| - 1;
      NeverLast(recs[..n], k);
      assert forall i | 0 <= i < n :: recs[..n][i] == recs[i];
    }
  }

  lemma {:induction false} RecordsNeverTakeAway(db: Db, recs: seq<HcmRecord>, failing: set<nat>, k: Row)
    requires Inv(db) && k in db.balances
    ensures k in ReconcileAll(db.balances, recs, failing)
    ensures var b, b' := db.balances[k], ReconcileAll(db.balances, recs, failing)[k];
      && b'.pending == b.pending && b'.used == b.used && b'.available >= b.available
      && b'.available - b.available == b'.total - b.total
  {
    if recs == [] {
    } else {
      var n := |recs| - 1;
      RecordsNeverTakeAway(db, recs[..n], failing, k);
      assert Accounts(db.balances[k], db.requests, k);
    }
  }

  /**
   * A batch never takes leave away, its sweep over omitted rows included: existing rows
   * keep pending and used, available only grows, and only with total.
   */
  lemma BatchNeverTakesAway(db: Db, recs: seq<HcmRecord>, failing: set<nat>, k: Row)
    requires Inv(db) && k in db.balances
    ensures k in Batch(db.balances, recs, failing)
    ensures var b, b' := db.balances[k], Batch(db.balances, recs, failing)[k];
      && b'.pending == b.pending && b'.used == b.used && b'.available >= b.available
      && b'.available - b.available == b'.total - b.total
  {
    RecordsNeverTakeAway(db, recs, failing, k);
    FlagsKeepAmounts(ReconcileAll(db.balances, recs, failing), recs);
  }

  lemma {:induction false} RecordsKeepInv(db: Db, recs: seq<HcmRecord>, failing: set<nat>)
    requires Inv(db) && forall i | 0 <= i < |recs| :: recs[i].total >= 0.0
    ensures Inv(db.(balances := ReconcileAll(db.balances, recs, failing)))
  {
    if recs != [] {
      var n := |recs| - 1;
      RecordsKeepInv(db, recs[..n], failing);
      StepKeepsInv(db.(balances := ReconcileAll(db.balances, recs[..n], failing)),
                   Reconcile(recs[n].row, recs[n].total, recs[n].version));
    }
  }

  /** A batch of non-negative totals keeps the ledger's invariant, wherever it fails. */
  lemma BatchKeepsInv(db: Db, recs: seq<HcmRecord>, failing: set<nat>)
    requires Inv(db) && forall i | 0 <= i < |recs| :: recs[i].total >= 0.0
    ensures Inv(db.(balances := Batch(db.balances, recs, failing)))
  {
    RecordsKeepInv(db, recs, failing);
    var bs := ReconcileAll(db.balances, recs, failing);
    FlagsKeepAmounts(bs, recs);
    forall k | k in bs ensures Accounts(FlagMissing(bs, recs)[k], db.requests, k) {
      assert Accounts(bs[k], db.requests, k);
      assert SameAmounts(FlagMissing(bs, recs)[k], bs[k]);
    }
  }

  // ---------- which rows count as omitted ----------

  predicate Plain(k: Row) { '|' !in k.employee && '|' !in k.location }

  lemma SplitAtBar(a: string, x: string, b: string, y: string)
    requires '|' !in a && '|' !in b && a + "|" + x == b + "|" + y
    ensures a == b && x == y
  {
    var s, t := a + "|" + x, b + "|" + y;
    assert s[|a|] == '|' && t[|b|] == '|';
    if |a| < |b| {
      assert false;
    } else if |b| < |a| {
      assert false;
    }
    assert s[..|a|] == a && t[..|b|] == b;
    assert s[|a| + 1..] == x && t[|b| + 1..] == y;
  }

  lemma JoinedIsInjective(k: Row, m: Row)
    requires Plain(k) && Plain(m) && JoinedText(k) == JoinedText(m)
    ensures k == m
  {
    hide LeaveName;
    var kRest, mRest := k.location + "|" + LeaveName(k.leave), m.location + "|" + LeaveName(m.leave);
    assert JoinedText(k) == k.employee + "|" + kRest && JoinedText(m) == m.employee + "|" + mRest;
    SplitAtBar(k.employee, kRest, m.employee, mRest);
    SplitAtBar(k.location, LeaveName(k.leave), m.location, LeaveName(m.leave));
    LeaveNamesDiffer(k.leave, m.leave);
  }

  function Bars(s: string): nat {
    if s == [] then 0 else (if s[0] == '|' then 1 else 0) + Bars(s[1..])
  }

  lemma {:induction false} BarsConcat(a: string, b: string)
    ensures Bars(a + b) == Bars(a) + Bars(b)
  {
    if a == [] {
      assert a + b == b;
    } else {
      BarsConcat(a[1..], b);
      assert (a + b)[1..] == a[1..] + b;
    }
  }

  lemma {:induction false} BarsZero(s: string)
    ensures Bars(s) == 0 <==> '|' !in s
  {
    if s != [] {
      BarsZero(s[1..]);
      assert s == [s[0]] + s[1..];
    }
  }

  lemma LeaveNameIsPlain(l: LeaveType)
    ensures '|' !in LeaveName(l)
  {
  }

  /** The joined text has two bars more than the identifiers. */
  lemma BarsOfJoined(k: Row)
    ensures Bars(JoinedText(k)) == Bars(k.employee) + Bars(k.location) + 2
    ensures Plain(k) <==> Bars(JoinedText(k)) == 2
  {
    hide LeaveName;
    hide Bars;
    var bar, leave := "|", LeaveName(k.leave);
    assert JoinedText(k) == k.employee + (bar + (k.location + (bar + leave)));
    BarsConcat(k.employee, bar + (k.location + (bar + leave)));
    BarsConcat(bar, k.location + (bar + leave));
    BarsConcat(k.location, bar + leave);
    BarsConcat(bar, leave);
    OneBar();
    LeaveNameIsPlain(k.leave);
    BarsZero(leave);
    BarsZero(k.employee);
    BarsZero(k.location);
  }

  lemma OneBar()
    ensures Bars("|") == 1
  {
    assert "|"[1..] == "";
  }

  /** A row without the separator in its identifiers counts as listed exactly when the snapshot has it. */
  lemma PlainRowsAreListedExactly(recs: seq<HcmRecord>, k: Row)
    requires Plain(k)
    ensures Listed(recs, JoinedText(k)) <==> Mentions(recs, k)
  {
    hide JoinedText;
    hide Plain;
    if Listed(recs, JoinedText(k)) {
      var i :| 0 <= i < |recs| && JoinedText(recs[i].row) == JoinedText(k);
      BarsOfJoined(k);
      BarsOfJoined(recs[i].row);
      JoinedIsInjective(recs[i].row, k);
    }
  }

  lemma SplitAtFirstBar(s: string) returns (front: string, back: string)
    requires '|' in s
    ensures s == front + "|" + back
  {
    var i :| 0 <= i < |s| && s[i] == '|';
    front, back := s[..i], s[i + 1..];
    assert s == s[..i] + [s[i]] + s[i + 1..];
  }

  /** The row's double: another row with the same text, the bar moved across the join. */
  lemma Double(k: Row) returns (other: Row)
    requires !Plain(k)
    ensures other != k && JoinedText(other) == JoinedText(k)
  {
    hide LeaveName;
    if '|' in k.employee {
      var a, b := SplitAtFirstBar(k.employee);
      other := Row(a, b + "|" + k.location, k.leave);
      assert JoinedText(other) == JoinedText(k);
      assert |a| < |k.employee|;
    } else {
      var a, b := SplitAtFirstBar(k.location);
      other := Row(k.employee + "|" + a, b, k.leave);
      assert JoinedText(other) == JoinedText(k);
      assert |b| < |k.location|;
    }
  }

  /** The snapshot omits the row, and yet a batch leaves it unflagged. */
  ghost predicate Overlooks(recs: seq<HcmRecord>, k: Row) {
    && !Mentions(recs, k) && Listed(recs, JoinedText(k))
    && forall bs: map<Row, Balance> | k in bs :: k in Batch(bs, recs, {}) && Batch(bs, recs, {})[k] == bs[k]
  }

  /** One record of the double is enough to hide the omission, whatever its total. */
  lemma SeparatorHidesOmission(k: Row, total: real)
    requires !Plain(k)
    ensures exists other :: JoinedText(other) == JoinedText(k) && Overlooks([HcmRecord(other, total, None)], k)
  {
    hide JoinedText;
    hide Plain;
    var other := Double(k);
    var recs := [HcmRecord(other, total, None)];
    assert recs[0].row == other;
    forall bs: map<Row, Balance> | k in bs
      ensures k in Batch(bs, recs, {}) && Batch(bs, recs, {})[k] == bs[k]
    {
      UnmentionedStays(bs, recs, {}, k);
    }
    assert Overlooks(recs, k);
  }

  /**
   * Exactly the rows without the separator in their identifiers are looked up rightly:
   * for any other row some snapshot omits it and the sweep takes it for listed.
   */
  lemma ListedExactlyWhenPlain(k: Row)
    ensures Plain(k) <==> forall recs: seq<HcmRecord> :: Listed(recs, JoinedText(k)) <==> Mentions(recs, k)
  {
    hide JoinedText;
    hide Plain;
    if Plain(k) {
      forall recs: seq<HcmRecord> ensures Listed(recs, JoinedText(k)) <==> Mentions(recs, k) {
        PlainRowsAreListedExactly(recs, k);
      }
    } else {
      SeparatorHidesOmission(k, 0.0);
      var other :| Overlooks([HcmRecord(other, 0.0, None)], k);
      var recs := [HcmRecord(other, 0.0, None)];
      assert Overlooks(recs, k);
      assert Listed(recs, JoinedText(k)) && !Mentions(recs, k);
    }
  }

  // ---------- the retry worker ----------

  predicate Waiting(r: Request) { r.sync == SyncPending }

  function WaitingSet(rs: seq<Request>): set<nat> { set i: nat | i < |rs| && Waiting(rs[i]) }

  const PAGE := 50

  /** What the worker's query returns: distinct waiting rows, fewest attempts first, oldest first among equals. */
  ghost predicate IsPage(rs: seq<Request>, page: seq<nat>) {
    && |page| == Min(PAGE, |WaitingSet(rs)|)
    && (forall i | 0 <= i < |page| :: page[i] < |rs| && Waiting(rs[page[i]]))
    && (forall i, j | 0 <= i < j < |page| :: page[i] != page[j] && Precedes(rs, page[i], page[j]))
    && (forall i, x: nat | 0 <= i < |page| && x < |rs| && Waiting(rs[x]) && x !in page :: Precedes(rs, page[i], x))
  }

  predicate Precedes(rs: seq<Request>, x: nat, y: nat)
    requires x < |rs| && y < |rs|
  {
    rs[x].attempts < rs[y].attempts || (rs[x].attempts == rs[y].attempts && x <= y)
  }

  /** The page lists up to fifty waiting rows in order: fewest attempts first, and of equal ones the oldest. */
  lemma PageTakesFifty(rs: seq<Request>, page: seq<nat>, x: nat)
    requires IsPage(rs, page) && x < |rs| && rs[x].sync == SyncPending
    ensures |page| <= 50
    ensures x !in page ==> |page| == 50 && forall i | 0 <= i < |page| ::
      rs[page[i]].attempts < rs[x].attempts || (rs[page[i]].attempts == rs[x].attempts && page[i] < x)
    ensures forall i, j | 0 <= i < j < |page| ::
      rs[page[i]].attempts < rs[page[j]].attempts
      || (rs[page[i]].attempts == rs[page[j]].attempts && page[i] < page[j])
  {
    if x !in page {
      var taken := set i | 0 <= i < |page| :: page[i];
      TakenSize(page, taken);
      assert x in WaitingSet(rs);
      if |page| < 50 { SubsetSize(taken + {x}, WaitingSet(rs)); assert false; }
    }
  }

  lemma {:induction false} TakenSize(page: seq<nat>, taken: set<nat>)
    requires taken == set i | 0 <= i < |page| :: page[i]
    requires forall i, j | 0 <= i < j < |page| :: page[i] != page[j]
    ensures |taken| == |page|
  {
    if page != [] {
      var n := |page| - 1;
      var before := set i | 0 <= i < n :: page[..n][i];
      TakenSize(page[..n], before);
      assert taken == before + {page[n]};
    }
  }

  lemma {:induction false} SubsetSize(a: set<nat>, b: set<nat>)
    requires a <= b
    ensures |a| <= |b|
  {
    assert b == a + (b - a);
  }

  /** The writes of a pass, each based on the row as the query loaded it. */
  function PassEvents(seen: seq<Request>, page: seq<nat>, replies: seq<(Reply, Reply)>): seq<Event>
    requires |page| == |replies| && forall i | 0 <= i < |page| :: page[i] < |seen|
  {
    if page == [] then []
    else [Sync(page[0], OnRetry(seen[page[0]], replies[0].0, replies[0].1))] + PassEvents(seen, page[1..], replies[1..])
  }

  lemma {:induction false} PassEventsAppend(seen: seq<Request>, page: seq<nat>, replies: seq<(Reply, Reply)>,
                                            id: nat, reply: (Reply, Reply))
    requires |page| == |replies| && id < |seen| && forall i | 0 <= i < |page| :: page[i] < |seen|
    ensures PassEvents(seen, page + [id], replies + [reply])
         == PassEvents(seen, page, replies) + [Sync(id, OnRetry(seen[id], reply.0, reply.1))]
  {
    if page != [] {
      assert (page + [id])[1..] == page[1..] + [id] && (replies + [reply])[1..] == replies[1..] + [reply];
      PassEventsAppend(seen, page[1..], replies[1..], id, reply);
    }
  }

  lemma {:induction false} PassLeavesOthers(db: Db, seen: seq<Request>, page: seq<nat>,
                                            replies: seq<(Reply, Reply)>, x: nat)
    requires |replies| == |page| && x !in page && x < |db.requests|
    requires forall i | 0 <= i < |page| :: page[i] < |seen|
    ensures var after := Run(db, PassEvents(seen, page, replies)).requests;
      |after| == |db.requests| && after[x] == db.requests[x]
    decreases |page|
  {
    if page != [] {
      var ev := Sync(page[0], OnRetry(seen[page[0]], replies[0].0, replies[0].1));
      var rest := PassEvents(seen, page[1..], replies[1..]);
      assert PassEvents(seen, page, replies)[0] == ev && PassEvents(seen, page, replies)[1..] == rest;
      assert x != page[0] && x !in page[1..];
      PassLeavesOthers(Apply(db, ev), seen, page[1..], replies[1..], x);
    }
  }

  /** A pass gives every row of its page the outcome of its own two replies, and leaves all other rows alone. */
  lemma {:induction false} PassSettlesEachRow(db: Db, seen: seq<Request>, page: seq<nat>,
                                              replies: seq<(Reply, Reply)>, i: nat)
    requires |replies| == |page| && i < |page| && |db.requests| == |seen|
    requires forall j | 0 <= j < |page| :: page[j] < |seen|
    requires forall j, k | 0 <= j < k < |page| :: page[j] != page[k]
    ensures var after, one := Run(db, PassEvents(seen, page, replies)), Sync(page[i],
                                  OnRetry(seen[page[i]], replies[i].0, replies[i].1));
      && |after.requests| == |db.requests| && after.requests[page[i]] == Apply(db, one).requests[page[i]]
      && after.balances == db.balances && after.records == db.records
    decreases |page|
  {
    var ev := Sync(page[0], OnRetry(seen[page[0]], replies[0].0, replies[0].1));
    var rest := PassEvents(seen, page[1..], replies[1..]);
    assert PassEvents(seen, page, replies)[0] == ev && PassEvents(seen, page, replies)[1..] == rest;
    hide WriteOf;
    var next := Apply(db, ev);
    if i > 0 {
      PassSettlesEachRow(next, seen, page[1..], replies[1..], i - 1);
    } else {
      PassLeavesOthers(next, seen, page[1..], replies[1..], page[0]);
      PassKeepsTables(next, seen, page[1..], replies[1..]);
    }
  }

  lemma {:induction false} PassKeepsTables(db: Db, seen: seq<Request>, page: seq<nat>, replies: seq<(Reply, Reply)>)
    requires |replies| == |page|
    requires forall i | 0 <= i < |page| :: page[i] < |seen|
    ensures var after := Run(db, PassEvents(seen, page, replies));
      after.balances == db.balances && after.records == db.records && |after.requests| == |db.requests|
    decreases |page|
  {
    if page != [] {
      var ev := Sync(page[0], OnRetry(seen[page[0]], replies[0].0, replies[0].1));
      var rest := PassEvents(seen, page[1..], replies[1..]);
      assert PassEvents(seen, page, replies)[0] == ev && PassEvents(seen, page, replies)[1..] == rest;
      PassKeepsTables(Apply(db, ev), seen, page[1..], replies[1..]);
    }
  }

  /** How many more passes a row can stay in the queue. */
  function Weight(r: Request): nat {
    if Waiting(r) then Max(1, 11 - r.attempts) else 0
  }

  function Potential(rs: seq<Request>): nat {
    if rs == [] then 0 else Potential(rs[..|rs| - 1]) + Weight(rs[|rs| - 1])
  }

  lemma {:induction false} PotentialUpdate(rs: seq<Request>, i: nat, r: Request)
    requires i < |rs|
    ensures Potential(rs[i := r]) == Potential(rs) - Weight(rs[i]) + Weight(r)
  {
    var n := |rs| - 1;
    if i == n {
      assert rs[i := r][..n] == rs[..n];
    } else {
      assert rs[i := r][..n] == rs[..n][i := r];
      PotentialUpdate(rs[..n], i, r);
    }
  }

  lemma {:induction false} PotentialCovers(rs: seq<Request>, i: nat)
    requires i < |rs|
    ensures Weight(rs[i]) <= Potential(rs)
  {
    if i < |rs| - 1 { PotentialCovers(rs[..|rs| - 1], i); }
  }

  lemma {:induction false} PotentialZero(rs: seq<Request>)
    requires Potential(rs) > 0
    ensures exists i: nat | i < |rs| :: Waiting(rs[i])
  {
    var n := |rs| - 1;
    if !Waiting(rs[n]) {
      PotentialZero(rs[..n]);
      var i: nat :| i < n && Waiting(rs[..n][i]);
      assert Waiting(rs[i]);
    }
  }

  /** Whatever HCM answers, handling a waiting row takes one unit off its weight. */
  lemma RetryLightens(rs: seq<Request>, id: nat, validate: Reply, approve: Reply)
    requires id < |rs| && Waiting(rs[id])
    ensures Weight(UpdateSync(rs, id, RetryNotice(rs[id], validate, approve))[id]) <= Weight(rs[id]) - 1
  {
  }

  lemma {:induction false} PassLightens(db: Db, seen: seq<Request>, page: seq<nat>, replies: seq<(Reply, Reply)>)
    requires |page| == |replies| && |seen| == |db.requests|
    requires forall i | 0 <= i < |page| ::
      page[i] < |seen| && db.requests[page[i]] == seen[page[i]] && Waiting(seen[page[i]])
    requires forall i, j | 0 <= i < j < |page| :: page[i] != page[j]
    ensures Potential(Run(db, PassEvents(seen, page, replies)).requests) + |page| <= Potential(db.requests)
    decreases |page|
  {
    if page != [] {
      var ev := Sync(page[0], OnRetry(seen[page[0]], replies[0].0, replies[0].1));
      var rest := PassEvents(seen, page[1..], replies[1..]);
      assert PassEvents(seen, page, replies)[0] == ev && PassEvents(seen, page, replies)[1..] == rest;
      RetryLightens(db.requests, page[0], replies[0].0, replies[0].1);
      PotentialUpdate(db.requests, page[0], Apply(db, ev).requests[page[0]]);
      PassLightens(Apply(db, ev), seen, page[1..], replies[1..]);
    }
  }

  /** Some row waits exactly when the worker's page is not empty. */
  lemma PageIsEmptyOnlyWhenDone(rs: seq<Request>, page: seq<nat>)
    requires IsPage(rs, page)
    ensures page == [] <==> Potential(rs) == 0
  {
    if Potential(rs) > 0 {
      PotentialZero(rs);
      var i: nat :| i < |rs| && Waiting(rs[i]);
      assert i in WaitingSet(rs);
    } else if page != [] {
      PotentialCovers(rs, page[0]);
    }
  }

  /** Consecutive passes of the worker with no other step in between. */
  ghost predicate Passes(trace: seq<Db>, pages: seq<seq<nat>>, replies: seq<seq<(Reply, Reply)>>) {
    && |trace| == |pages| + 1 == |replies| + 1
    && forall i | 0 <= i < |pages| ::
         && IsPage(trace[i].requests, pages[i]) && |replies[i]| == |pages[i]|
         && trace[i + 1] == Run(trace[i], PassEvents(trace[i].requests, pages[i], replies[i]))
  }

  lemma {:induction false} PassesLighten(trace: seq<Db>, pages: seq<seq<nat>>, replies: seq<seq<(Reply, Reply)>>,
                                         n: nat)
    requires Passes(trace, pages, replies) && n <= |pages|
    ensures Potential(trace[n].requests) <= Max(0, Potential(trace[0].requests) - n)
  {
    hide Run;
    hide PassEvents;
    hide Potential;
    if n > 0 {
      PassesLighten(trace, pages, replies, n - 1);
      var db := trace[n - 1];
      PassLightens(db, db.requests, pages[n - 1], replies[n - 1]);
      PageIsEmptyOnlyWhenDone(db.requests, pages[n - 1]);
    }
  }

  /** The worker alone empties the queue in at most as many passes as the initial potential, HCM answering or not. */
  lemma WorkerEmptiesTheQueue(trace: seq<Db>, pages: seq<seq<nat>>, replies: seq<seq<(Reply, Reply)>>)
    requires Passes(trace, pages, replies) && |pages| >= Potential(trace[0].requests)
    ensures WaitingSet(trace[|pages|].requests) == {}
  {
    PassesLighten(trace, pages, replies, |pages|);
    var rs := trace[|pages|].requests;
    forall i: nat | i < |rs| ensures !Waiting(rs[i]) { PotentialCovers(rs, i); }
  }

  // ---------- the service ----------

  datatype LogStatus = Started | Completed | Partial | Failed

  datatype SyncLog = SyncLog(status: LogStatus, processed: nat, updated: nat, failed: nat)

  /** Does the record change the row beyond its bookkeeping, so that it is reported as updated? */
  predicate Moves(bs: map<Row, Balance>, r: HcmRecord) {
    r.row !in bs || Abs(r.total - LocalTotal(bs[r.row])) > 0.01
  }

  function UpdatedCount(bs: map<Row, Balance>, recs: seq<HcmRecord>, failing: set<nat>): nat {
    if recs == [] then 0
    else
      var n := |recs| - 1;
      UpdatedCount(bs, recs[..n], failing)
      + (if n !in failing && Moves(ReconcileAll(bs, recs[..n], failing), recs[n]) then 1 else 0)
  }

  /** The positions of the records that were reported as updated, each judged on the table as it was by then. */
  function UpdatedAt(bs: map<Row, Balance>, recs: seq<HcmRecord>, failing: set<nat>): set<nat> {
    set i: nat | i < |recs| && i !in failing && Moves(ReconcileAll(bs, recs[..i], failing), recs[i])
  }

  lemma {:induction false} UpdatedCountIsTheirNumber(bs: map<Row, Balance>, recs: seq<HcmRecord>, failing: set<nat>)
    ensures UpdatedCount(bs, recs, failing) == |UpdatedAt(bs, recs, failing)|
  {
    hide Moves;
    hide ReconcileAll;
    if recs != [] {
      var n := |recs| - 1;
      UpdatedCountIsTheirNumber(bs, recs[..n], failing);
      var before, all := UpdatedAt(bs, recs[..n], failing), UpdatedAt(bs, recs, failing);
      forall i: nat | i < n ensures i in before <==> i in all {
        assert recs[..n][..i] == recs[..i];
      }
      hide UpdatedAt;
      assert n !in before && forall i | i in all :: i <= n by { UpdatedBelow(bs, recs, failing); }
      if n in all { assert all == before + {n}; } else { assert all == before; }
      assert n in all <==> n !in failing && Moves(ReconcileAll(bs, recs[..n], failing), recs[n]) by {
        UpdatedLast(bs, recs, failing);
      }
    }
  }

  lemma UpdatedBelow(bs: map<Row, Balance>, recs: seq<HcmRecord>, failing: set<nat>)
    requires recs != []
    ensures forall i | i in UpdatedAt(bs, recs, failing) :: i < |recs|
    ensures |recs| - 1 !in UpdatedAt(bs, recs[..|recs| - 1], failing)
  {
  }

  lemma UpdatedLast(bs: map<Row, Balance>, recs: seq<HcmRecord>, failing: set<nat>)
    requires recs != []
    ensures var n := |recs| - 1;
      n in UpdatedAt(bs, recs, failing) <==> n !in failing && Moves(ReconcileAll(bs, recs[..n], failing), recs[n])
  {
    hide Moves;
    hide ReconcileAll;
  }

  lemma {:induction false} FailedCountIsTheirNumber(n: nat, failing: set<nat>)
    ensures FailedCount(n, failing) == |set i: nat | i < n && i in failing|
  {
    var all := set i: nat | i < n && i in failing;
    if n > 0 {
      FailedCountIsTheirNumber(n - 1, failing);
      var before := set i: nat | i < n - 1 && i in failing;
      assert all == before + (if n - 1 in failing then {n - 1} else {});
    }
  }

  function FailedCount(n: nat, failing: set<nat>): nat {
    if n == 0 then 0 else FailedCount(n - 1, failing) + (if n - 1 in failing then 1 else 0)
  }

  function Missing(bs: map<Row, Balance>, recs: seq<HcmRecord>): set<Row> {
    set k | k in bs && !Listed(recs, JoinedText(k))
  }

  /** The sweep after it has flagged some rows. */
  function FlagRows(bs: map<Row, Balance>, flagged: set<Row>): map<Row, Balance> {
    map k | k in bs :: if k in flagged then Flag(bs[k]) else bs[k]
  }

  lemma SweepBounds(bs: map<Row, Balance>, recs: seq<HcmRecord>)
    ensures FlagRows(bs, {}) == bs && FlagRows(bs, Missing(bs, recs)) == FlagMissing(bs, recs)
  {
  }

  lemma SweepStep(bs: map<Row, Balance>, flagged: set<Row>, k: Row)
    requires k in bs && k !in flagged
    ensures FlagRows(bs, flagged + {k}) == FlagOmitted(FlagRows(bs, flagged), k)
    ensures |flagged + {k}| == |flagged| + 1
  {
  }

  /** One row fewer ahead: it joins the flagged ones if it is missing. */
  lemma SweepAdvances(missing: set<Row>, todo: set<Row>, k: Row)
    requires k in todo
    ensures k in missing ==> missing - (todo - {k}) == (missing - todo) + {k} && |missing - todo| < |missing|
    ensures k !in missing ==> missing - (todo - {k}) == missing - todo
    ensures k !in missing - todo && missing - todo <= missing
  {
    assert missing == (missing - todo) + (missing * todo);
    assert |missing * todo| > 0 <== k in missing * todo;
  }

  /**
   * How the store may fail a batch outside its records: on the first log row, on the
   * sweep's query, on a sweep update after the given number of them, or on the final
   * log update.
   */
  datatype BatchFault = NoBatchFault | FirstLogFails | SweepReadFails | SweepUpdateFails(after: nat) | FinalLogFails

  /** How many of the missing rows the sweep flags. */
  function Flagged(fault: BatchFault, missing: nat): nat {
    match fault
    case SweepReadFails => 0
    case SweepUpdateFails(after) => Min(after, missing)
    case _ => missing
  }

  /** How many it counts: a row counts before its update is tried. */
  function Swept(fault: BatchFault, missing: nat): nat {
    if fault.SweepUpdateFails? && fault.after < missing then fault.after + 1 else Flagged(fault, missing)
  }

  lemma SweepCounts(fault: BatchFault, missing: nat)
    ensures fault == SweepReadFails ==> Flagged(fault, missing) == 0 == Swept(fault, missing)
    ensures fault.SweepUpdateFails? && fault.after < missing ==>
      Flagged(fault, missing) == fault.after && Swept(fault, missing) == fault.after + 1
    ensures fault != SweepReadFails && (fault.SweepUpdateFails? ==> missing <= fault.after) ==>
      Flagged(fault, missing) == missing == Swept(fault, missing)
  {
  }

  lemma WholeOrNothing(part: set<Row>, whole: set<Row>)
    requires part <= whole
    ensures |part| == |whole| ==> part == whole
    ensures |part| == 0 ==> part == {}
  {
    assert whole == part + (whole - part);
  }

  lemma MissingMeansUnlisted(bs: map<Row, Balance>, recs: seq<HcmRecord>, todo: set<Row>)
    requires todo == bs.Keys
    ensures Missing(bs, recs) - todo == {}
    ensures forall k | k in todo :: k in Missing(bs, recs) <==> !Listed(recs, JoinedText(k))
  {
  }

  /** The handler runs. */
  predicate Caught(fault: BatchFault, missing: nat) {
    fault == SweepReadFails || fault == FinalLogFails || (fault.SweepUpdateFails? && fault.after < missing)
  }

  /** The log row after the handler: when its own update throws, the row stays as first written. */
  function HandlerLog(updates: bool, processed: nat, updated: nat, failed: nat): SyncLog {
    if updates then SyncLog(Failed, processed, updated, failed) else SyncLog(Started, 0, 0, 0)
  }

  function FinalStatus(processed: nat, failed: nat): LogStatus {
    if failed == 0 then Completed else if failed < processed then Partial else Failed
  }

  lemma NothingRuns(db: Db, seen: seq<Request>)
    ensures Run(db, PassEvents(seen, [], [])) == db
  {
  }

  lemma OneRuns(db: Db, ev: Event)
    ensures Run(db, [ev]) == Apply(db, ev)
  {
  }

  class HcmSyncService {
    const db: Database
    var batchRunning: bool

    constructor (db: Database)
      ensures this.db == db && !batchRunning
    {
      this.db := db;
      batchRunning := false;
    }

    method ReconcileRecord(r: HcmRecord) returns (updated: bool)
      modifies db
      ensures db.requests == old(db.requests) && db.records == old(db.records)
      ensures db.balances == Ledger.ReconcileRecord(old(db.balances), r.row, r.total, r.version)
      ensures updated == Moves(old(db.balances), r)
      // in amounts
      ensures r.row !in old(db.balances) ==>
        && updated
        && db.balances
           == old(db.balances)[r.row := Balance(r.total, r.total, 0.0, 0.0, r.total, r.version, false, None)]
      ensures r.row in old(db.balances) ==>
        var b, b' := old(db.balances)[r.row], db.balances[r.row];
        var drift := r.total - (b.available + b.pending + b.used);
        && (updated <==> drift > 0.01 || drift < -0.01)
        && b'.total == (if drift > 0.01 then r.total else b.total)
        && b'.available == (if drift > 0.01 then b.available + drift else b.available)
        && b'.pending == b.pending && b'.used == b.used && b'.hcmTotal == r.total && b'.hcmVersion == r.version
        && b'.discrepancy == (if drift < -0.01 then Some(-drift) else None)
        && b'.hasDiscrepancy == b'.discrepancy.Some?
        && db.balances == old(db.balances)[r.row := b']
    {
      if r.row !in db.balances {
        db.balances := db.balances[r.row := NewBalance(r.total, r.version)];
        return true;
      }
      var local := db.balances[r.row];
      var localTotal := local.used + local.pending + local.available;
      var drift := r.total - localTotal;
      if Abs(drift) <= DRIFT_TOLERANCE {
        local := local.(hcmTotal := r.total, hcmVersion := r.version, hasDiscrepancy := false, discrepancy := None);
        db.balances := db.balances[r.row := local];
        return false;
      }
      if drift > DRIFT_TOLERANCE {
        var newAvailable := local.available + drift;
        local := local.(total := r.total, available := newAvailable,
                        hcmTotal := r.total, hcmVersion := r.version, hasDiscrepancy := false, discrepancy := None);
        db.balances := db.balances[r.row := local];
        return true;
      }
      local := local.(hcmTotal := r.total, hcmVersion := r.version,
                      hasDiscrepancy := true, discrepancy := Some(Abs(drift)));
      db.balances := db.balances[r.row := local];
      return true;
    }

    /**
     * The sweep over rows the snapshot omits: the rows it flagged, how many it counted,
     * and whether it got to its end.
     */
    method FlagOmittedRows(recs: seq<HcmRecord>, fault: BatchFault)
      returns (flagged: set<Row>, counted: nat, finished: bool)
      modifies db
      ensures db.requests == old(db.requests) && db.records == old(db.records)
      ensures db.balances == FlagRows(old(db.balances), flagged)
      ensures var missing := Missing(old(db.balances), recs);
        && flagged <= missing && |flagged| == Flagged(fault, |missing|)
        && counted == Swept(fault, |missing|)
        && finished == !(fault == SweepReadFails || (fault.SweepUpdateFails? && fault.after < |missing|))
    {
      hide *;
      ghost var start := db.balances;
      ghost var missing := Missing(start, recs);
      SweepBounds(start, recs);
      SweepCounts(fault, |missing|);
      flagged, counted := {}, 0;
      if fault == SweepReadFails { return flagged, counted, false; }
      var todo := db.balances.Keys;
      MissingMeansUnlisted(start, recs, todo);
      while todo != {}
        invariant todo <= start.Keys && flagged == missing - todo && counted == |flagged|
        invariant fault.SweepUpdateFails? ==> counted <= fault.after
        invariant db.requests == old(db.requests) && db.records == old(db.records)
        invariant db.balances == FlagRows(start, flagged)
        decreases todo
      {
        var k :| k in todo;
        SweepAdvances(missing, todo, k);
        todo := todo - {k};
        if !Listed(recs, JoinedText(k)) {
          counted := counted + 1;
          SweepStep(start, flagged, k);
          if fault.SweepUpdateFails? && fault.after < counted { return flagged, counted, false; }
          db.balances := FlagOmitted(db.balances, k);
          flagged := flagged + {k};
        }
      }
      assert flagged == missing;
      return flagged, counted, true;
    }

    /** The records of a snapshot; how many changed their row and how many threw. */
    method ReconcileRecords(recs: seq<HcmRecord>, failing: set<nat>) returns (updated: nat, failed: nat)
      modifies db
      ensures db.requests == old(db.requests) && db.records == old(db.records)
      ensures db.balances == ReconcileAll(old(db.balances), recs, failing)
      ensures updated == UpdatedCount(old(db.balances), recs, failing) && failed == FailedCount(|recs|, failing)
    {
      var processed := 0;
      updated, failed := 0, 0;
      while processed < |recs|
        invariant 0 <= processed <= |recs|
        invariant db.requests == old(db.requests) && db.records == old(db.records)
        invariant db.balances == ReconcileAll(old(db.balances), recs[..processed], failing)
        invariant updated == UpdatedCount(old(db.balances), recs[..processed], failing)
        invariant failed == FailedCount(processed, failing)
      {
        assert recs[..processed + 1][..processed] == recs[..processed];
        if processed in failing {
          failed := failed + 1;
        } else {
          var moved := ReconcileRecord(recs[processed]);
          if moved { updated := updated + 1; }
        }
        processed := processed + 1;
      }
      assert recs[..processed] == recs;
    }

    /**
     * One batch run. snapshot is None when HCM gives no usable answer, failing are the
     * positions whose record throws, handlerUpdates tells whether the handler can write
     * its log.
     *
     * The running flag is released after every run, except when writing the first log
     * row throws: it is set before, and outside the try block.
     */
    method RunBatchSync(snapshot: Option<seq<HcmRecord>>, failing: set<nat>, fault: BatchFault, handlerUpdates: bool)
      returns (log: Option<SyncLog>, flagged: set<Row>)
      modifies this, db
      ensures db.requests == old(db.requests) && db.records == old(db.records)
      ensures old(batchRunning) ==> batchRunning && log.None?
      ensures !old(batchRunning) ==> (batchRunning <==> fault == FirstLogFails)
      ensures log.Some? <==> !old(batchRunning) && fault != FirstLogFails
      ensures log.None? || snapshot.None? ==> db.balances == old(db.balances)
      ensures log.Some? && snapshot.None? ==>
        log.value == SyncLog(if handlerUpdates then Failed else Started, 0, 0, 0)
      ensures log.Some? && snapshot.Some? ==>
        var recs := snapshot.value;
        var raised := ReconcileAll(old(db.balances), recs, failing);
        var missing := Missing(raised, recs);
        var counted := Swept(fault, |missing|);
        var processed, failed := |recs| + counted, FailedCount(|recs|, failing) + counted;
        var updated := UpdatedCount(old(db.balances), recs, failing);
        && flagged <= missing && |flagged| == Flagged(fault, |missing|)
        && db.balances == FlagRows(raised, flagged)
        && (flagged == missing ==> db.balances == Batch(old(db.balances), recs, failing))
        && log.value == (if Caught(fault, |missing|) then HandlerLog(handlerUpdates, processed, updated, failed)
                         else SyncLog(FinalStatus(processed, failed), processed, updated, failed))
      // what the logged status says
      ensures log.Some? && snapshot.Some? && fault in {SweepReadFails, FinalLogFails} ==>
        log.value.status == if handlerUpdates then Failed else Started
      ensures log.Some? && snapshot.Some? && fault in {NoBatchFault, FinalLogFails} ==>
        db.balances == Batch(old(db.balances), snapshot.value, failing)
      ensures log.Some? && snapshot.Some? && fault == SweepReadFails ==>
        db.balances == ReconcileAll(old(db.balances), snapshot.value, failing)
      ensures log.Some? && log.value.status == Completed ==> log.value.failed == 0
      ensures log.Some? && log.value.status == Partial ==> 0 < log.value.failed < log.value.processed
      ensures log.Some? && snapshot.Some? && fault == NoBatchFault ==>
        && (log.value.status == Completed <==> log.value.failed == 0)
        && (log.value.status == Failed <==> log.value.failed > 0 && log.value.failed >= log.value.processed)
    {
      hide FlagRows;
      hide Listed;
      hide Missing;
      hide Swept;
      hide Flagged;
      hide ReconcileAll;
      hide FailedCount;
      hide UpdatedCount;
      hide FlagMissing;
      flagged := {};
      if batchRunning { return None, flagged; }
      batchRunning := true;
      if fault == FirstLogFails { return None, flagged; }
      if snapshot.None? {
        batchRunning := false;
        return Some(HandlerLog(handlerUpdates, 0, 0, 0)), flagged;
      }
      var recs := snapshot.value;
      var updated, failed := ReconcileRecords(recs, failing);
      SweepBounds(db.balances, recs);
      var counted, finished;
      ghost var missing := Missing(db.balances, recs);
      flagged, counted, finished := FlagOmittedRows(recs, fault);
      SweepCounts(fault, |missing|);
      WholeOrNothing(flagged, missing);
      var processed := |recs| + counted;
      failed := failed + counted;
      batchRunning := false;
      if !finished || fault == FinalLogFails {
        return Some(HandlerLog(handlerUpdates, processed, updated, failed)), flagged;
      }
      return Some(SyncLog(FinalStatus(processed, failed), processed, updated, failed)), flagged;
    }

    method UpdateSyncAttempt(id: nat, seen: Request, sync: SyncStatus, validated: Option<bool>)
      modifies db
      ensures db.View() == old(db.View()).(requests :=
        UpdateSync(old(db.requests), id, SyncWrite(sync, validated, Some(seen.attempts + 1))))
    {
      db.requests := UpdateSync(db.requests, id, SyncWrite(sync, validated, Some(seen.attempts + 1)));
    }

    method RetryValidationOnly(id: nat, seen: Request, validate: Reply)
      modifies db
      ensures db.View() == old(db.View()).(requests :=
        UpdateSync(old(db.requests), id, ValidationNotice(seen, validate)))
      // on the stored row
      ensures id < |old(db.requests)| ==>
        var r, r' := old(db.requests)[id], db.requests[id];
        && r' == r.(sync := r'.sync, hcmValidated := r'.hcmValidated, attempts := seen.attempts + 1)
        && (r'.sync == SyncSuccess <==> seen.hcmValidated || (validate.Answer? && validate.valid == Some(true)))
        && (r'.sync == SyncPending <==> !seen.hcmValidated && (validate.NoAnswer? || validate.Crash?))
        && (r'.sync == SyncFailed <==> !seen.hcmValidated && validate.Answer? && validate.valid != Some(true))
        && r'.hcmValidated == (if r'.sync == SyncPending then r.hcmValidated else r'.sync == SyncSuccess)
    {
      var validation := if seen.hcmValidated then Answer(Some(true), None) else validate;
      if !validation.Answer? {
        UpdateSyncAttempt(id, seen, SyncPending, None);
        return;
      }
      if validation.valid != Some(true) {
        UpdateSyncAttempt(id, seen, SyncFailed, Some(false));
        return;
      }
      UpdateSyncAttempt(id, seen, SyncSuccess, Some(true));
    }

    method RetryApprovalFlow(id: nat, seen: Request, validate: Reply, approve: Reply)
      modifies db
      ensures db.View() == old(db.View()).(requests :=
        UpdateSync(old(db.requests), id, ApprovalNotice(seen, validate, approve)))
      // on the stored row
      ensures id < |old(db.requests)| ==>
        var r, r' := old(db.requests)[id], db.requests[id];
        var validated := seen.hcmValidated || (validate.Answer? && validate.valid == Some(true));
        && r' == r.(sync := r'.sync, hcmValidated := r'.hcmValidated, attempts := seen.attempts + 1)
        && (r'.sync == SyncSuccess <==> validated && approve.Answer? && approve.success != Some(false))
        && (r'.sync == SyncFailed <==> !seen.hcmValidated && validate.Answer? && validate.valid != Some(true))
        && r'.sync in {SyncSuccess, SyncFailed, SyncPending}
        && r'.hcmValidated == (if r'.sync == SyncFailed then false
                               else if validated && !approve.Crash? then true else r.hcmValidated)
    {
      if !seen.hcmValidated {
        if !validate.Answer? {
          UpdateSyncAttempt(id, seen, SyncPending, None);
          return;
        }
        if validate.valid != Some(true) {
          UpdateSyncAttempt(id, seen, SyncFailed, Some(false));
          return;
        }
      }
      if approve.Crash? {
        UpdateSyncAttempt(id, seen, SyncPending, None);
        return;
      }
      if approve.Answer? && approve.success != Some(false) {
        UpdateSyncAttempt(id, seen, SyncSuccess, Some(true));
        return;
      }
      UpdateSyncAttempt(id, seen, SyncPending, Some(true));
    }

    /** One pass over the page the query returned; replies are HCM's two answers per row, used as far as asked for. */
    method RetryPendingHcmSyncs(page: seq<nat>, replies: seq<(Reply, Reply)>)
      requires IsPage(db.requests, page) && |replies| == |page|
      modifies db
      ensures db.View() == Run(old(db.View()), PassEvents(old(db.requests), page, replies))
    {
      hide Run;
      hide PassEvents;
      hide UpdateSync;
      hide ValidationNotice;
      hide ApprovalNotice;
      hide Precedes;
      var seen := db.requests;
      var i := 0;
      NothingRuns(old(db.View()), seen);
      while i < |page|
        invariant 0 <= i <= |page|
        invariant db.View() == Run(old(db.View()), PassEvents(seen, page[..i], replies[..i]))
      {
        ghost var before := db.View();
        var id, request, reply := page[i], seen[page[i]], replies[i];
        if request.attempts >= MAX_PENDING_SYNC_RETRIES {
          db.requests := UpdateSync(db.requests, id, SyncWrite(SyncFailed, None, None));
        } else if request.status == Rejected || request.status == Cancelled {
          UpdateSyncAttempt(id, request, SyncSkipped, None);
        } else if request.status == Pending {
          RetryValidationOnly(id, request, reply.0);
        } else {
          RetryApprovalFlow(id, request, reply.0, reply.1);
        }
        ghost var ev := Sync(id, OnRetry(request, reply.0, reply.1));
        assert db.View() == Apply(before, ev);
        assert page[..i + 1] == page[..i] + [id] && replies[..i + 1] == replies[..i] + [reply];
        PassEventsAppend(seen, page[..i], replies[..i], id, reply);
        RunConcat(old(db.View()), PassEvents(seen, page[..i], replies[..i]), [ev]);
        OneRuns(before, ev);
        i := i + 1;
      }
      assert page[..i] == page && replies[..i] == replies;
    }
  }
}
