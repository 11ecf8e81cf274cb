/**
 * What the sync columns of a stored request say about HCM's replies: row by row for
 * each kind of notice, and over whole runs of the service
 * (src/modules/timeoff/timeoff.service.js, src/modules/hcm/hcm-sync.service.js).
 */
module HcmNotices {
  import opened Prelude
  import opened Ledger
  import opened LedgerInvariants
  import opened LedgerRuns

  // ---------- one notice and its row ----------

  /** The row after a notice differs from the row before in its sync columns only; no other row changes. */
  ghost predicate OnlySyncChanges(db: Db, db': Db, id: nat)
    requires id < |db.requests|
  {
    && db'.balances == db.balances && db'.records == db.records && |db'.requests| == |db.requests|
    && (forall i | 0 <= i < |db.requests| && i != id :: db'.requests[i] == db.requests[i])
    && var r, r' := db.requests[id], db'.requests[id];
       r' == r.(sync := r'.sync, hcmValidated := r'.hcmValidated, attempts := r'.attempts)
  }

  lemma NoticeTouchesOneRow(db: Db, id: nat, w: Writer)
    requires id < |db.requests|
    ensures OnlySyncChanges(db, Apply(db, Sync(id, w)), id)
  {
    hide WriteOf;
  }

  /** The notice of a creation: an explicit refusal fails it, silence leaves it waiting, any other answer is a yes. */
  lemma FirstNotice(db: Db, id: nat, reply: Reply)
    requires id < |db.requests|
    ensures var r, r' := db.requests[id], Apply(db, Sync(id, OnCreate(reply))).requests[id];
      && (r'.sync == SyncPending <==> reply.NoAnswer? || reply.Crash?)
      && (r'.sync == SyncFailed <==> reply.Answer? && reply.valid == Some(false))
      && (r'.sync == SyncSuccess <==> reply.Answer? && reply.valid != Some(false))
      && r'.attempts == 1
      && r'.hcmValidated == (if reply.Answer? then reply.valid != Some(false) else r.hcmValidated)
  {
  }

  /**
   * The notice of an approval, first or retried: refused without validation it fails, no
   * reply or success == false leaves it waiting, and only an accepted notification of a
   * request validated by then succeeds.
   */
  lemma ApprovalSettlesRow(db: Db, id: nat, w: Writer)
    requires id < |db.requests|
    requires w.OnApproval? || (w.OnRetry? && w.seen.status == Approved && w.seen.attempts < 10)
    ensures var r, r' := db.requests[id], Apply(db, Sync(id, w)).requests[id];
      var validated := w.seen.hcmValidated || (w.validate.Answer? && w.validate.valid == Some(true));
      && (r'.sync == SyncSuccess <==> validated && w.approve.Answer? && w.approve.success != Some(false))
      && (r'.sync == SyncFailed <==> !w.seen.hcmValidated && w.validate.Answer? && w.validate.valid != Some(true))
      && r'.sync in {SyncSuccess, SyncFailed, SyncPending}
      && r'.attempts == w.seen.attempts + 1
      && r'.hcmValidated == (if r'.sync == SyncFailed then false
                             else if validated && !w.approve.Crash? then true else r.hcmValidated)
  {
    match w
    case OnApproval(seen, v, a) =>
    case OnRetry(seen, v, a) =>
  }

  /** The retry of a pending request: an explicit yes, now or before, succeeds; silence waits; anything else fails. */
  lemma ValidationSettlesRow(db: Db, id: nat, seen: Request, validate: Reply, approve: Reply)
    requires id < |db.requests| && seen.status == Pending && seen.attempts < 10
    ensures var r, r' := db.requests[id], Apply(db, Sync(id, OnRetry(seen, validate, approve))).requests[id];
      && (r'.sync == SyncSuccess <==> seen.hcmValidated || (validate.Answer? && validate.valid == Some(true)))
      && (r'.sync == SyncPending <==> !seen.hcmValidated && (validate.NoAnswer? || validate.Crash?))
      && (r'.sync == SyncFailed <==> !seen.hcmValidated && validate.Answer? && validate.valid != Some(true))
      && r'.attempts == seen.attempts + 1
      && r'.hcmValidated == (if r'.sync == SyncPending then r.hcmValidated else r'.sync == SyncSuccess)
  {
  }

  /** A withdrawn request is skipped, and one with ten attempts behind it is given up; neither touches validation. */
  lemma WithdrawnOrExhausted(db: Db, id: nat, seen: Request, validate: Reply, approve: Reply)
    requires id < |db.requests| && (seen.status in {Rejected, Cancelled} || seen.attempts >= 10)
    ensures var r, r' := db.requests[id], Apply(db, Sync(id, OnRetry(seen, validate, approve))).requests[id];
      && r'.hcmValidated == r.hcmValidated
      && r'.sync == (if seen.attempts >= 10 then SyncFailed else SyncSkipped)
      && r'.attempts == (if seen.attempts >= 10 then r.attempts else seen.attempts + 1)
  {
  }

  // ---------- over runs ----------

  /** The last word on the request in the run is event n. */
  ghost predicate LastNotice(evs: seq<Event>, id: nat, n: nat) {
    && n < |evs| && evs[n].Sync? && evs[n].id == id
    && forall m | n < m < |evs| :: !(evs[m].Sync? && evs[m].id == id)
  }

  /** HCM accepted what the notice was about, in terms of its replies. */
  predicate HcmAccepted(w: Writer) {
    match w
    case OnCreate(reply) => reply.Answer? && reply.valid != Some(false)
    case OnApproval(seen, v, a) =>
      && a.Answer? && a.success != Some(false)
      && (seen.hcmValidated || (v.Answer? && v.valid == Some(true)))
    case OnRetry(seen, v, a) =>
      && seen.attempts < 10 && (seen.status == Pending || seen.status == Approved)
      && (seen.hcmValidated || (v.Answer? && v.valid == Some(true)))
      && (seen.status == Approved ==> a.Answer? && a.success != Some(false))
  }

  /** HCM said yes in this notice: to the notice of the creation by not refusing, to the others explicitly. */
  predicate HcmVouched(w: Writer) {
    match w
    case OnCreate(reply) => reply.Answer? && reply.valid != Some(false)
    case OnApproval(seen, v, a) => !seen.hcmValidated && v.Answer? && v.valid == Some(true)
    case OnRetry(seen, v, a) => !seen.hcmValidated && v.Answer? && v.valid == Some(true)
  }

  /** Event n is the last notice about the request, which is stored by then, and HCM accepted it. */
  ghost predicate AcceptedLast(db: Db, evs: seq<Event>, id: nat, n: nat) {
    LastNotice(evs, id, n) && HcmAccepted(evs[n].writer) && id < |Run(db, evs[..n]).requests|
  }

  lemma NoticeSucceeds(db: Db, id: nat, w: Writer)
    requires id < |db.requests|
    ensures Apply(db, Sync(id, w)).requests[id].sync == SyncSuccess <==> HcmAccepted(w)
    ensures Apply(db, Sync(id, w)).requests[id].hcmValidated ==>
      db.requests[id].hcmValidated || HcmVouched(w) || (!w.OnCreate? && w.seen.hcmValidated)
  {
    match w
    case OnCreate(reply) => FirstNotice(db, id, reply);
    case OnApproval(seen, v, a) => ApprovalSettlesRow(db, id, w);
    case OnRetry(seen, v, a) =>
      if seen.attempts >= 10 || seen.status in {Rejected, Cancelled} {
        WithdrawnOrExhausted(db, id, seen, v, a);
      } else if seen.status == Pending {
        ValidationSettlesRow(db, id, seen, v, a);
      } else {
        ApprovalSettlesRow(db, id, w);
      }
  }

  /** Without a notice to it, a request keeps its sync columns; a new one waits and is not validated. */
  lemma OthersKeepSync(db: Db, ev: Event, id: nat)
    requires id < |Apply(db, ev).requests| && !(ev.Sync? && ev.id == id)
    ensures var r' := Apply(db, ev).requests[id];
      if id < |db.requests| then r'.sync == db.requests[id].sync && r'.hcmValidated == db.requests[id].hcmValidated
      else r'.sync == SyncPending && !r'.hcmValidated
  {
  }

  lemma RunLast(db: Db, evs: seq<Event>)
    requires evs != []
    ensures Run(db, evs) == Apply(Run(db, evs[..|evs| - 1]), evs[|evs| - 1])
  {
    var n := |evs| - 1;
    RunConcat(db, evs[..n], [evs[n]]);
    assert evs == evs[..n] + [evs[n]];
    hide Apply;
  }

  lemma StaysStored(db: Db, ev: Event, id: nat)
    requires ev.Sync? && ev.id == id && id < |Apply(db, ev).requests|
    ensures id < |db.requests|
  {
  }

  /**
   * A request is in sync exactly if the last notice about it, sent when it was stored, met
   * HCM's acceptance: no refusal of a creation, an accepted notification of an approved
   * request, an explicit yes or earlier validation otherwise.
   */
  lemma {:induction false} InSyncMeansAccepted(db: Db, evs: seq<Event>, id: nat)
    requires id < |db.requests| ==> db.requests[id].sync != SyncSuccess
    requires id < |Run(db, evs).requests|
    ensures Run(db, evs).requests[id].sync == SyncSuccess
       <==> exists n: nat :: AcceptedLast(db, evs, id, n)
    decreases |evs|
  {
    hide Apply;
    hide HcmAccepted;
    hide Run;
    if evs == [] {
      NothingRuns(db);
    } else {
      var n := |evs| - 1;
      var before, last := Run(db, evs[..n]), evs[n];
      RunLast(db, evs);
      if last.Sync? && last.id == id {
        StaysStored(before, last, id);
        NoticeSucceeds(before, id, last.writer);
        assert LastNotice(evs, id, n);
        assert AcceptedLast(db, evs, id, n) <==> HcmAccepted(last.writer);
        assert forall m: nat | AcceptedLast(db, evs, id, m) :: m == n;
      } else {
        OthersKeepSync(before, last, id);
        if id < |before.requests| {
          InSyncMeansAccepted(db, evs[..n], id);
          NoticesOfPrefix(db, evs, id);
          hide AcceptedLast;
          if m: nat :| AcceptedLast(db, evs[..n], id, m) { assert AcceptedLast(db, evs, id, m); }
          if m: nat :| AcceptedLast(db, evs, id, m) { assert AcceptedLast(db, evs[..n], id, m); }
        } else {
          NoNoticeYet(db, evs, id);
        }
      }
    }
  }

  lemma NothingRuns(db: Db)
    ensures Run(db, []) == db
  {
  }

  /** A last event that is no notice to the request leaves the notices to it as they were. */
  lemma NoticesOfPrefix(db: Db, evs: seq<Event>, id: nat)
    requires evs != [] && !(evs[|evs| - 1].Sync? && evs[|evs| - 1].id == id)
    ensures forall n: nat :: AcceptedLast(db, evs, id, n) <==> AcceptedLast(db, evs[..|evs| - 1], id, n)
  {
    hide HcmAccepted;
    hide Run;
    var shorter := evs[..|evs| - 1];
    forall n: nat
      ensures AcceptedLast(db, evs, id, n) <==> AcceptedLast(db, shorter, id, n)
    {
      if n < |shorter| { assert shorter[n] == evs[n] && shorter[..n] == evs[..n]; }
      if LastNotice(evs, id, n) { assert LastNotice(shorter, id, n); }
      if LastNotice(shorter, id, n) {
        assert forall m | n < m < |shorter| :: evs[m] == shorter[m];
        assert LastNotice(evs, id, n);
      }
    }
  }

  lemma NoNoticeYet(db: Db, evs: seq<Event>, id: nat)
    requires evs != [] && id >= |Run(db, evs[..|evs| - 1]).requests|
    ensures forall n: nat | n < |evs| :: id >= |Run(db, evs[..n]).requests|
  {
    var last := |evs| - 1;
    forall n: nat | n < |evs| ensures id >= |Run(db, evs[..n]).requests| {
      RunConcat(db, evs[..n], evs[n..last]);
      assert evs[..last] == evs[..n] + evs[n..last];
      RunExtends(Run(db, evs[..n]), evs[n..last]);
    }
  }

  /** Every row a notice acts on is the row of its request as it was stored at some earlier moment of the run. */
  ghost predicate SeesRealRows(evs: seq<Event>) {
    forall n | 0 <= n < |evs| && evs[n].Sync? && !evs[n].writer.OnCreate? :: SawRow(evs, n)
  }

  ghost predicate SawRow(evs: seq<Event>, n: nat)
    requires n < |evs| && evs[n].Sync? && !evs[n].writer.OnCreate?
  {
    exists m: nat | m <= n :: SeesAt(evs, n, m)
  }

  predicate SeesAt(evs: seq<Event>, n: nat, m: nat)
    requires m <= n < |evs| && evs[n].Sync? && !evs[n].writer.OnCreate?
  {
    var rs := Run(EMPTY, evs[..m]).requests;
    evs[n].id < |rs| && rs[evs[n].id] == evs[n].writer.seen
  }

  lemma SeesRealRowsBefore(evs: seq<Event>, k: nat)
    requires SeesRealRows(evs) && k <= |evs|
    ensures SeesRealRows(evs[..k])
  {
    var cut := evs[..k];
    hide Run;
    forall n | 0 <= n < |cut| && cut[n].Sync? && !cut[n].writer.OnCreate? ensures SawRow(cut, n) {
      assert SawRow(evs, n);
      var m: nat :| m <= n && SeesAt(evs, n, m);
      assert cut[..m] == evs[..m];
      assert SeesAt(cut, n, m);
    }
  }

  /**
   * Nobody is validated on nobody's word: a validated request got a yes from HCM in some
   * notice of the run, however many stale rows later notices went by.
   */
  lemma {:induction false} ValidatedMeansVouched(evs: seq<Event>, id: nat)
    requires SeesRealRows(evs)
    requires id < |Run(EMPTY, evs).requests| && Run(EMPTY, evs).requests[id].hcmValidated
    ensures exists n :: 0 <= n < |evs| && evs[n].Sync? && evs[n].id == id && HcmVouched(evs[n].writer)
    decreases |evs|
  {
    hide Apply;
    hide HcmAccepted;
    hide HcmVouched;
    hide Run;
    if evs == [] {
      NothingRuns(EMPTY);
      assert false;
    } else {
      var n := |evs| - 1;
      var before, last := Run(EMPTY, evs[..n]), evs[n];
      RunLast(EMPTY, evs);
      SeesRealRowsBefore(evs, n);
      if last.Sync? && last.id == id {
        StaysStored(before, last, id);
        NoticeSucceeds(before, id, last.writer);
        if !HcmVouched(last.writer) {
          var m := n;
          if !before.requests[id].hcmValidated {
            assert SawRow(evs, n);
            m :| 0 <= m <= n && SeesAt(evs, n, m);
            SeesRealRowsBefore(evs, m);
          }
          ValidatedMeansVouched(evs[..m], id);
          var k :| 0 <= k < m && evs[..m][k].Sync? && evs[..m][k].id == id && HcmVouched(evs[..m][k].writer);
          assert evs[k] == evs[..m][k];
        }
      } else {
        OthersKeepSync(before, last, id);
        ValidatedMeansVouched(evs[..n], id);
        var k :| 0 <= k < n && evs[..n][k].Sync? && evs[..n][k].id == id && HcmVouched(evs[..n][k].writer);
        assert evs[k] == evs[..n][k];
      }
    }
  }
}
