# LeaveLedger, verified model

A Dafny model of the LeaveLedger service: the leave ledger with its three tables and all transactions that write them, the mutex that guards request creation, batch reconciliation and the retry worker towards the HCM, and the in-memory structures beside it (heap, dead-letter queue, breaker and retry, two rate limiters, audit chain, payload canonicalisation).

`dafny verify dfyconfig.toml` checks everything.

## How it is organised

| file | what it holds |
|---|---|
| `Ledger.dfy` | the tables as a value, every transaction as a function, runs of steps |
| `LedgerInvariants.dfy`, `LedgerRuns.dfy` | what every reachable state satisfies, and its consequences over runs |
| `Services.dfy` | database, balance service and time-off service as objects, proved against those functions |
| `Submissions.dfy`, `ParallelSubmissions.dfy` | all calls of `createRequest` at once, with their locks |
| `HcmSync.dfy` | batch reconciliation and retry worker |
| `HcmNotices.dfy` | what the sync columns of a request say about HCM's replies |
| `Dates.dfy`, `LeaveCalendar.dfy` | calendar days behind a request, and the dates a ledger books |
| `CreateLock.dfy` | the promise-chain mutex as a small-step protocol |
| `PriorityQueue.dfy`, `DeadLetterQueue.dfy`, `Redrives.dfy` | the outbox heap, the dead-letter queue, and its redrives under overlap |
| `CircuitBreaker.dfy`, `Resilience.dfy` | breaker under overlapping calls, and its nesting in the retry loop |
| `RateLimiter.dfy`, `TokenBucket.dfy` | sliding window and token bucket |
| `AuditLedger.dfy`, `Canonical.dfy` | hash chain and key-order canonicalisation |

Services and structures that the program updates in place are classes; each method is proved against a function on the state, and the theorems are about those functions and their runs.

## Assumptions

- A transaction is one atomic step that commits or rolls back. `_reconcileRecord` and the sweep over omitted rows read and write outside a transaction; each row they handle is taken as one atomic step too.
- Amounts are exact reals; text that `parseFloat` cannot read is outside the model. Dates arrive as `YYYY-MM-DD` with months 1 to 12 and days 1 to 31; a day past the end of its month counts into the next one, as Date.UTC and the date parser of Node have it. The clock of `createRequest` reads a day in 2000 or later.
- A row's position in the request table stands for its UUID. Clocks, random numbers, HCM replies, store failures and the lifetime of idempotency records (read from the environment) are parameters. Clocks do not run backwards.
- A call that waits for its lane's lock gets in because the calls ahead of it keep making their next steps; how many that takes is proved (`WaitIsBounded`).
- The digests (SHA-256 of a JSON text) are parameters; injectivity is stated where it is used.

## Where code and documentation disagree

The model follows the code.

- The repository README promises the cached answer for every duplicate of a key, and 409 for a key reused with another payload. The date checks come first and records expire, so either promise holds exactly while the start date is not past and the record is live. After expiry a reused key is answered with the first payload's request as soon as the new payload's own transaction gets as far as the unique column (`SubmitTwice`).
- The comment and README describe a conditional UPDATE with a version check for the deduction; the code reads, checks and saves.
- A negative seed or first HCM total makes the available balance negative; the invariant is kept exactly when a created row starts from a non-negative total (`StepKeepsInv`).
- TRD section 7.4 has every row omitted by the snapshot flagged. Rows are looked up by text joined with `|`. Exactly the rows without `|` in their employee and location are looked up rightly in every snapshot (`ListedExactlyWhenPlain`); for any other row one record of a different row makes a batch overlook its omission (`SeparatorHidesOmission`).
- `runBatchSync` sets its running flag before the try block; if the first log row cannot be written the flag stays set for good (`RunBatchSync`).
- `hcm.service.js` calls the breaker the outermost layer. The retry loop is outside, so every attempt counts against the threshold (`CallWithResilience`).
- The documents speak of a half-open probe. Every call that starts while half-open is dispatched (`HalfOpenAdmitsEveryCall`), and every configuration gets there (`HalfOpenIsReached`).
- `totalRedriven` can be trusted exactly as long as no message is redriven again, deleted, cleared or evicted while a redrive of it is under way (`RedriveCounterBalancesExactlyUnderDiscipline`): two overlapping redrives count one message twice (`OverlappingRedrivesCountTwice`), and a message enqueued anew under the id of a redrive under way is removed unseen and counted as redriven (`NewMessageIsStolen`).
- A negative `maxCapacity` is accepted and never respected (`CapacityMustBePositive`).
- `maxBackoffMs` bounds the wait exactly if 1.2 times the capped delay does not exceed the next whole millisecond (`CapIsKeptExactlyWithRoomForJitter`); with the default delays and a random number of one half the tenth retry is set 5500 ms ahead, beyond the maximum of 5000 (`DefaultCapIsExceeded`).
- The heap's `maxSize` comment says the oldest low-priority item is evicted; the code evicts the newest of them. A maximum below 1 makes `enqueue` throw.
- The architecture document has any altered historical record break the chain. A forged entry verifies if and only if it is the last one, keeps its link and carries its own hash (`ForgeryVerifiesExactlyWhenLastAndRehashed`); that, like cutting off the end, shows only in the last hash (`TruncationShowsOnlyInTheLastHash`).
- The first HCM notice takes any answer but an explicit refusal for a yes, the worker only an explicit yes; the two disagree exactly on an answer that leaves `valid` out (`NoticesDisagreeExactlyOnSilence`).
- Date.UTC numbers the years 0 to 99 as 1900 to 1999, so their dates collide with those (`TwoDigitYearsAreMoved`); no such date passes the checks (`AcceptedDatesAreUnmoved`).

## Model

| member | source | states |
|---|---|---|
| LedgerInvariants.StepKeepsInv | src/modules/timeoff/timeoff.service.js:143-360 | one step of any kind keeps the whole invariant (rows account for their requests and add up to total, available is not negative, active leaves are disjoint, keys and records match one to one, success implies validated) if and only if a row it creates starts from a non-negative total |
| LedgerInvariants.ReachableStatesBalance | src/modules/balance/balance.service.js:75-282 | every state that any interleaving of create, approve, reject, cancel, seed, HCM and sync steps reaches from the empty database satisfies the invariant |
| LedgerInvariants.CreateKeepsInv | src/modules/timeoff/timeoff.service.js:143-190 | a committed creation keeps sums, disjointness and the key correspondence |
| LedgerInvariants.DecideKeepsInv | src/modules/timeoff/timeoff.service.js:251-360 | a committed decision keeps the invariant: days move with the request's status |
| LedgerInvariants.PendingCovers | src/modules/balance/balance.service.js:136-149 | a pending request's row exists and still holds its days, so the underflow guards cannot fire |
| LedgerInvariants.WritersValidateBeforeSuccess | src/modules/timeoff/timeoff.service.js:518-638 | no writer of sync columns reports success without validation, or withdraws validation without reporting failure, whatever stale row it saw |
| LedgerInvariants.SyncKeepsInv | src/modules/hcm/hcm-sync.service.js:418-424 | sync updates with arbitrarily stale snapshots keep the ledger invariant |
| LedgerInvariants.NoticesDisagreeExactlyOnSilence | src/modules/hcm/hcm-sync.service.js:336-365 | the notice sent on creation and the retry of it come to different sync statuses exactly for an answer that leaves valid out, success and failure |
| LedgerInvariants.StepKeepsKeys | src/modules/timeoff/timeoff.service.js:143-190 | any step, sound or not, keeps requests and idempotency records in one-to-one correspondence through their keys |
| LedgerRuns.DecisionSucceedsExactlyWhenPending | src/modules/timeoff/timeoff.service.js:251-360 | in a reachable state a decision succeeds exactly when the request is stored and pending and the target is a decision; the new status is the target |
| LedgerRuns.DecidedOnceForAll | src/common/constants/index.js:55-65 | after a decision, in every later state, the status stands and any further decision is refused without effect |
| LedgerRuns.RunExtends | src/modules/timeoff/timeoff.service.js:71-245 | no run removes or alters a stored claim, a decided status or an idempotency record, or removes a balance row; the amounts of balance rows are free to change |
| LedgerRuns.OneRequestPerKey | src/modules/timeoff/entities/timeoff-request.entity.js:22-24 | in a reachable state a key names at most one request |
| LedgerRuns.UsedKeyNeverCommits | src/modules/timeoff/timeoff.service.js:143-190 | once a key has produced a request, no creation with that key, with any payload, ever changes the database again |
| LedgerRuns.CreateStoresBothRows | src/modules/timeoff/timeoff.service.js:160-189 | a commit adds exactly one request and one record naming it, for a key that was free |
| LedgerRuns.CreationCommitsExactlyWhen | src/modules/timeoff/timeoff.service.js:143-190 | a creation commits if and only if no day of it is taken by a pending or approved request of the employee there, the row exists with at least its days available, and no request or record has the key; which of these fails decides the error |
| LedgerRuns.CreationMovesDays | src/modules/timeoff/timeoff.service.js:152-189 | a commit moves the days asked for from available to pending of one row and appends the request asked for and its record |
| LedgerRuns.DecisionMovesDays | src/modules/timeoff/timeoff.service.js:251-360 | in a reachable state the decision of a pending request changes its status and moves its days in its own row, to used when approved and back to available otherwise |
| LedgerRuns.DecisionRefusedBecause | src/modules/timeoff/timeoff.service.js:486-516 | a decision is refused exactly for an unknown request or one that is decided already, each with its own error |
| LedgerRuns.HcmNeverTakesAway | src/modules/balance/balance.service.js:226-282 | seeding, real-time updates, batch records and omission flags leave pending and used alone, never lower available, and move it only together with total |
| LedgerRuns.StoredTotalDecides | src/modules/hcm/hcm-sync.service.js:210-271 | in a reachable state an HCM total above the stored total by more than 0.01 (0.001 for a real-time update) replaces it, one below it by more is flagged with the shortfall, and no other row changes |
| LedgerRuns.TotalsMoveByAmounts | src/modules/hcm/hcm-sync.service.js:215-270 | in a reachable state a batch record more than 0.01 above the stored total raises total and available by the difference, one more than 0.01 below is flagged with the shortfall, anything between moves nothing and clears the flag; 0.001 for a real-time update |
| LedgerRuns.NewRowsStartFull | src/modules/balance/balance.service.js:200-245 | a missing row is created by a seed or a batch record with all of its total available, and ignored by a real-time update |
| LedgerRuns.OmittedRowsAreFlagged | src/modules/hcm/hcm-sync.service.js:110-135 | flagging writes two columns of one row: a known shortfall is kept, otherwise it reads 0 |
| LedgerRuns.CoveredMeansBooked | src/modules/timeoff/timeoff.service.js:441-467 | a day counts as covered exactly when some active request of the employee and location contains it |
| LedgerRuns.BookedDaysAreDistinct | src/modules/timeoff/timeoff.service.js:441-467 | disjoint active requests cover exactly as many days as they book |
| LedgerRuns.ReservedDaysAreCalendarDays | src/modules/timeoff/timeoff.service.js:441-467 | in a reachable state pending plus used, over all leave types of an employee at a location, is the number of distinct day numbers covered |
| LeaveCalendar.ReservedAmountsCountLeaveDates | src/modules/timeoff/timeoff.service.js:97-190 | after any run whose creations ask for days of the calendar, as the date checks see to, pending plus used of an employee at a location is the number of calendar dates on which an active request keeps them away |
| LeaveCalendar.LeaveDatesAreBooked | src/modules/timeoff/timeoff.service.js:441-467 | a date is counted exactly when an active request of the employee and location spans it |
| LeaveCalendar.DatesLieInCalendar | src/common/utils/date.util.js:14-22 | every date from year 100 to 9999 is recovered from its day number by walking the calendar |
| Services.BalanceService.AtomicDeduct | src/modules/balance/balance.service.js:75-114 | succeeds exactly if the row exists with at least the days available, and then moves them from available to pending; otherwise it writes nothing |
| Services.BalanceService.ReleaseFromPending | src/modules/balance/balance.service.js:120-154 | succeeds exactly if the row exists with at least the days pending, and then moves them back to available; otherwise it writes nothing |
| Services.BalanceService.FinalizeUsed | src/modules/balance/balance.service.js:160-194 | succeeds exactly if the row exists with at least the days pending, and then moves them to used; otherwise it writes nothing |
| Services.BalanceService.UpsertBalance | src/modules/balance/balance.service.js:200-224 | creates a missing row with the given total, all of it available; leaves an existing row as it is |
| Services.BalanceService.ApplyHcmRealTimeUpdate | src/modules/balance/balance.service.js:235-282 | raises available and total by a drift above 0.001, flags one below -0.001 with the shortfall, clears the flag in between, touches no other row |
| Services.TimeOffService.FindOverlap | src/modules/timeoff/timeoff.service.js:441-467 | finds an active request of the lane meeting the range exactly when one exists |
| Services.TimeOffService.FindByKey | src/modules/timeoff/timeoff.service.js:715-721 | finds the row of a key exactly when the key is used |
| Services.TimeOffService.CreateTransaction | src/modules/timeoff/timeoff.service.js:143-190 | commits the creation transaction or, on any error or store failure, leaves all three tables as they were |
| Services.TimeOffService.RunCreateTransactionWithRetry | src/modules/timeoff/timeoff.service.js:667-686 | at most three tries; every try but the last ended in contention on the state it met, and the last one gives the outcome |
| Services.TimeOffService.Recover | src/modules/timeoff/timeoff.service.js:709-724 | answers from a live record of the payload or, without a live record, from the key's row; conflicts exactly on a live record of another payload, and has nothing exactly when the key is neither live nor used |
| Services.TimeOffService.CreateRequest | src/modules/timeoff/timeoff.service.js:89-245 | among arbitrary concurrent writers the call's own effect is one committed creation or nothing, and nothing when it throws; a commit stores employee, location, leave type and dates of the submission with its inclusive number of days, and moves that many days of exactly that row from available to pending; a record live at the first or the second check answers with the stored body or a conflict; a fault-free first try decides the outcome, and after three contended tries it is what the store has under the key or a retry request; its lane is entered before the second check and left on every path |
| Services.TimeOffService.CreateInside | src/modules/timeoff/timeoff.service.js:130-244 | the part behind the lock, which needs the lane held: its course is Services.Follow; a record live at the second check gives the answer and nothing is tried; otherwise another try follows contention only, and recovery follows a constraint violation or a third contention and nothing else |
| Services.TimeOffService.CreateInLane | src/modules/timeoff/timeoff.service.js:688-707 | runs that part inside the lane of the submission and leaves the lane afterwards |
| Services.TriesExplain | src/modules/timeoff/timeoff.service.js:157-244 | what the second check, the tries and the recovery mean for the answer: where it comes from, when it is a commit, what contention and a fault-free first try lead to |
| Services.TimeOffService.EnterLane | src/modules/timeoff/timeoff.service.js:688-698 | joins the lane, waits while others act, and comes back inside it |
| Services.TimeOffService.LeaveLane | src/modules/timeoff/timeoff.service.js:699-707 | leaves the lane after whatever others did, keeping the protocol's invariant |
| Services.TimeOffService.ApproveRequest | src/modules/timeoff/timeoff.service.js:251-286 | approves and moves the days, or rolls both back |
| Services.TimeOffService.Withdraw | src/modules/timeoff/timeoff.service.js:292-360 | rejects or cancels and returns the days, or rolls both back |
| Services.TimeOffService.SubmitTwice | src/modules/timeoff/timeoff.service.js:409-435 | a second submission under a committed key never commits, and whatever it is answered is the first request; the same payload repeats the first answer, and another one conflicts, if and only if its dates are accepted and the record is live; after expiry another payload is answered exactly if its own transaction fails on the unique column |
| Submissions.DuplicatesGetOneAnswer | src/modules/timeoff/timeoff.service.js:117-244 | overlapping submissions of one payload under one fresh key, among any other calls and writers and with any store failures, while the record is live: only errors are answered until one commits, then exactly that one has, those ahead of it in the lane had left with an error, and every call behind it or later gets its answer |
| Submissions.OneCommitPerKey | src/modules/timeoff/timeoff.service.js:130-190 | in every interleaving of calls with any keys, payloads and failures at most one call per key commits |
| Submissions.CallFollowsItsCourse | src/modules/timeoff/timeoff.service.js:89-245 | each call of the protocol goes through the course createRequest is proved to follow, over exactly the steps others make during its awaits |
| Submissions.RestMeansAnswered | src/modules/timeoff/timeoff.service.js:688-707 | where no call of a lane can enter, go on or leave, all its calls are answered |
| ParallelSubmissions.ParallelDuplicatesAgree | test/e2e/timeoff.e2e-spec.js:208-243 | parallel submissions of one payload under one fresh key, with HCM notices as the only other writes and no store fault, are all given one and the same answer: the one created request if the database they found allows it, else its refusal |
| Services.AcceptedAskIsShaped | src/modules/timeoff/timeoff.service.js:97-114 | the date checks leave an ordered day range within the calendar from 2000 on whose length is daysRequested, also for days written past the end of their month |
| Services.DatesAcceptedInCalendar | src/modules/timeoff/timeoff.service.js:97-112 | read on 2000-01-01 or later, the date checks accept exactly the leaves that start on that day or later and do not end before they start, one-day leaves included |
| Services.CreationFulfils | src/modules/timeoff/timeoff.service.js:143-190 | a committed creation stores one pending request with the fields of the submission, reserves its days in the row named there, and writes the record of the key |
| Services.AttemptEnds | src/modules/timeoff/timeoff.service.js:667-686 | a store failure at commit turns a commit and nothing else into contention or an unexpected error |
| Services.HeldKeyRefuses | src/modules/timeoff/timeoff.service.js:143-190 | in any later state the key refuses a second commit with any payload; for the same days a constraint violation means the first request has been withdrawn |
| Services.AnswerIsTheFirstRequest | src/modules/timeoff/timeoff.service.js:709-724 | whatever is read from the store under a key, from a live record or from the row, is the request first stored under it |
| Services.HashTellsPayloadsApart | src/common/utils/hash.util.js:12-16 | with an injective digest two submissions hash alike exactly if every field of theirs agrees |
| Services.ExpiredAnswerDiffers | src/modules/timeoff/timeoff.service.js:412-435 | once the first request is withdrawn and its record expired, the stored answer is no longer given |
| Services.MetExtends | src/modules/timeoff/timeoff.service.js:130-190 | whatever others commit between the awaits, stored claims and records survive |
| HcmSync.SecondBatchChangesNothing | src/modules/hcm/hcm-sync.service.js:55-152 | after a failure-free batch, the same snapshot moves no amount whichever records fail, and changes nothing at all if none fails, also with repeated keys |
| HcmSync.BatchNeverTakesAway | src/modules/hcm/hcm-sync.service.js:85-135 | a batch, failing on any records, its sweep over omitted rows included, keeps pending and used of existing rows and raises available only together with total |
| HcmSync.BatchKeepsInv | src/modules/hcm/hcm-sync.service.js:55-152 | a batch of non-negative totals keeps the ledger invariant |
| HcmSync.DiscrepanciesAreFlagged | src/modules/hcm/hcm-sync.service.js:85-135 | after a failure-free batch over any snapshot a listed row is flagged exactly if its last HCM total falls short, with the shortfall; an omitted row is flagged unless the text of another record stands for it, which cannot happen to a row without the separator |
| HcmSync.RecordSettles | src/modules/hcm/hcm-sync.service.js:185-271 | one record never lowers what its row holds and leaves nothing further to raise for itself |
| HcmSync.SettledStays | src/modules/hcm/hcm-sync.service.js:215-228 | on a table with nothing left to raise no amount moves |
| HcmSync.FailingRecordsDoNothing | src/modules/hcm/hcm-sync.service.js:89-108 | a row whose records all throw stays as it was |
| HcmSync.UpdatedCountIsTheirNumber | src/modules/hcm/hcm-sync.service.js:89-108 | the updated count is the number of records that moved an amount, created a row or flagged one, each judged on the table it met |
| HcmSync.FailedCountIsTheirNumber | src/modules/hcm/hcm-sync.service.js:89-108 | the failed count is the number of records that threw |
| HcmSync.PlainRowsAreListedExactly | src/modules/hcm/hcm-sync.service.js:85-119 | whatever else the snapshot holds, a row without the separator in its identifiers counts as listed exactly when the snapshot has it |
| HcmSync.ListedExactlyWhenPlain | src/modules/hcm/hcm-sync.service.js:85-119 | a row is looked up rightly in all snapshots if and only if its identifiers do not contain the separator |
| HcmSync.SeparatorHidesOmission | src/modules/hcm/hcm-sync.service.js:85-119 | for every row with the separator in an identifier one record of another row makes a batch overlook the omission |
| HcmSync.RetryLightens | src/modules/hcm/hcm-sync.service.js:292-333 | handling a waiting row takes a unit off its weight whatever HCM answers |
| HcmSync.PageTakesFifty | src/modules/hcm/hcm-sync.service.js:278-283 | a page holds at most fifty waiting rows, in order of attempts and then age, and leaves out only rows behind all of them, and only when it holds fifty |
| HcmSync.PassLightens | src/modules/hcm/hcm-sync.service.js:278-334 | a pass lowers the sum of max(1, 11 - attempts) over waiting rows by at least the size of its page |
| HcmSync.PassSettlesEachRow | src/modules/hcm/hcm-sync.service.js:292-333 | a pass gives each row of its page the outcome of its own two replies and changes no other table |
| HcmSync.PassLeavesOthers | src/modules/hcm/hcm-sync.service.js:292-333 | a pass leaves every row outside its page as it was |
| HcmSync.WorkerEmptiesTheQueue | src/modules/hcm/hcm-sync.service.js:278-334 | consecutive passes alone empty the queue within the initial potential, HCM answering or not |
| HcmSync.HcmSyncService.ReconcileRecord | src/modules/hcm/hcm-sync.service.js:185-271 | creates a missing row; raises total and available for a drift above 0.01, flags one below -0.01 with the shortfall, and otherwise only stamps the row; reports exactly whether it did more than stamp |
| HcmSync.HcmSyncService.ReconcileRecords | src/modules/hcm/hcm-sync.service.js:89-108 | reconciles the snapshot in order past records that throw, counting changed and failed ones |
| HcmSync.HcmSyncService.FlagOmittedRows | src/modules/hcm/hcm-sync.service.js:110-135 | flags every unlisted row and no other, or those it reaches before the query or an update fails, and counts the row it fails on |
| HcmSync.HcmSyncService.RunBatchSync | src/modules/hcm/hcm-sync.service.js:55-179 | performs the batch as far as the store lets it, logs true counts (completed without failures, partial below the processed number, failed otherwise) or, from the handler, a failure with the counts so far, and leaves the running flag clear unless the first log write failed |
| HcmSync.HcmSyncService.RetryValidationOnly | src/modules/hcm/hcm-sync.service.js:336-365 | on the stored row: an explicit yes, now or before, succeeds; no reply waits; anything else fails; one attempt more than the row as loaded, nothing else touched |
| HcmSync.HcmSyncService.RetryApprovalFlow | src/modules/hcm/hcm-sync.service.js:367-416 | on the stored row: success exactly for a validated request whose notification HCM answered without success == false, failed exactly for a validation reply without a yes, waiting otherwise; one attempt more than the row as loaded, nothing else touched |
| HcmSync.HcmSyncService.RetryPendingHcmSyncs | src/modules/hcm/hcm-sync.service.js:278-334 | a pass is exactly the run of one sync step per row of its page, based on the rows as loaded |
| HcmNotices.InSyncMeansAccepted | src/modules/timeoff/timeoff.service.js:518-638 | over any run a request is in sync if and only if the last notice about it, sent when it was stored, met HCM's acceptance in terms of the replies: no refusal for a creation notice, for an approved request a notification answered without success == false, for the others an explicit yes or earlier validation |
| HcmNotices.ValidatedMeansVouched | src/modules/hcm/hcm-sync.service.js:336-416 | over any run of notices based on rows really read, however stale, a validated request got a yes from HCM in some notice about it |
| HcmNotices.FirstNotice | src/modules/timeoff/timeoff.service.js:588-638 | the creation notice writes failure exactly for an explicit refusal, waits exactly without a reply, succeeds otherwise, and counts one attempt |
| HcmNotices.ApprovalSettlesRow | src/modules/timeoff/timeoff.service.js:518-582 | an approval notice, first or retried: refused validation fails, no reply or success == false leaves it waiting, an accepted notification of a validated request succeeds; one attempt more each time |
| HcmNotices.ValidationSettlesRow | src/modules/hcm/hcm-sync.service.js:336-365 | the retry for a pending request: an explicit yes, now or before, succeeds, silence waits, anything else fails |
| HcmNotices.WithdrawnOrExhausted | src/modules/hcm/hcm-sync.service.js:293-313 | a withdrawn request is skipped with one attempt more, one with ten attempts is given up without a further one; neither touches validation |
| HcmNotices.NoticeTouchesOneRow | src/modules/hcm/hcm-sync.service.js:418-424 | a notice writes the sync columns of one request and nothing else |
| Dates.DayFromYearIsTheStandardFormula | src/common/utils/date.util.js:14-22 | counting year lengths from 1970 gives the closed form of section 20.3.1.3 of ECMA-262 |
| Dates.DayNumbersFollowTheCalendar | src/common/utils/date.util.js:14-51 | from year 100 on day numbers are ordered as the calendar and distinct for distinct dates |
| Dates.WrittenDatesDenote | src/common/utils/date.util.js:14-22 | every written date has the number of the calendar day it denotes, 31 February that of 2 or 3 March |
| Dates.DayNumbersFollowDenotedDays | src/common/utils/date.util.js:14-51 | numbers of written dates are ordered as the days they denote and collide exactly when these are the same |
| Dates.NextDateIsNextDay | src/common/utils/date.util.js:14-22 | consecutive calendar days get consecutive numbers |
| Dates.DaysRequestedSpansTheLeave | src/common/utils/date.util.js:14-22 | for all dates the validation admits, walking daysRequested calendar days, the first included, leads from the day the start denotes to the day the end denotes |
| Dates.OverlapIsASharedDate | src/common/utils/date.util.js:39-51 | ranges overlap exactly when some calendar date lies in both, for all dates the validation admits |
| Dates.TwoDigitYearsAreMoved | src/common/utils/date.util.js:14-18 | years 0 to 99 are numbered after the years 100 to 1899 they precede, and share their numbers with 1900 to 1999 |
| Dates.AcceptedDatesAreUnmoved | src/modules/timeoff/timeoff.service.js:97-112 | the date checks let none of those years through |
| Dates.TextSaysDate | src/common/utils/date.util.js:14-18 | every accepted date text is the text of the date it is read as |
| Dates.DateSaysText | src/common/utils/date.util.js:14-18 | reading the text of a date gives that date back |
| CreateLock.LeftIsResolved | src/modules/timeoff/timeoff.service.js:689-696 | a call's promise is resolved exactly when the call has left |
| CreateLock.EntersInTurn | src/modules/timeoff/timeoff.service.js:688-698 | a waiting call may enter exactly when everybody ahead of it in its lane has left |
| CreateLock.StepKeepsInv | src/modules/timeoff/timeoff.service.js:688-707 | arrival, entry and exit keep the order, the links and the tail entries |
| CreateLock.MutualExclusion | src/modules/timeoff/timeoff.service.js:688-707 | in every interleaving at most one call is inside a lane |
| CreateLock.FirstComeFirstServed | src/modules/timeoff/timeoff.service.js:688-707 | a call gets past the wait only after all earlier ones of its lane have left |
| CreateLock.EntryExactlyWhenBusy | src/modules/timeoff/timeoff.service.js:701-706 | a lane has a map entry exactly when somebody holds it or waits |
| CreateLock.LanesNeverStall | src/modules/timeoff/timeoff.service.js:688-707 | the first remaining call of a lane is inside or may enter |
| CreateLock.WaitIsBounded | src/modules/timeoff/timeoff.service.js:688-707 | from any reachable state a waiting call may enter exactly when the calls ahead of it have made the steps they have left, at most two each, whatever else happens; until then one of them can move |
| CreateLock.StepWorks | src/modules/timeoff/timeoff.service.js:688-707 | each entry or exit of a call ahead takes one step off what a call waits for, and nothing else changes it |
| CreateLock.CreateLanes.AwaitTurn | src/modules/timeoff/timeoff.service.js:698-698 | given that the calls ahead go on making their next steps, which the method carries out as an assumption about the runtime, the call comes to be inside its lane; that they can, and how many steps it takes, is WaitIsBounded |
| CreateLock.CreateLanes.Join | src/modules/timeoff/timeoff.service.js:689-696 | chains the call behind the lane's tail and becomes the tail |
| CreateLock.CreateLanes.Proceed | src/modules/timeoff/timeoff.service.js:698-698 | resumes the call exactly if the promise it found has resolved |
| CreateLock.CreateLanes.Release | src/modules/timeoff/timeoff.service.js:701-706 | resolves the gate and deletes the entry only if it is still the call's own |
| PriorityQueue.BoundedQueueKeepsTheLeast | src/common/utils/priority-queue.util.js:83-105 | after any run of enqueues a queue of size k holds min(k, n) of the entries offered, each with a lower priority number than every entry it does not hold, or the same and an earlier arrival |
| PriorityQueue.OrderedByPriorityThenArrival | src/common/utils/priority-queue.util.js:83-120 | the list the heap stands for is ordered by priority and, for equal priorities, by arrival |
| PriorityQueue.OfferIsCutInsert | src/common/utils/priority-queue.util.js:83-105 | bounded enqueueing is sorted insertion cut to k |
| PriorityQueue.OrderIsUnique | src/common/utils/priority-queue.util.js:140-151 | the ordered list of a heap's entries is unique, so the drain order is determined by the contents |
| PriorityQueue.LeafBelow | src/common/utils/priority-queue.util.js:226-241 | below every node there is a leaf at least as large |
| PriorityQueue.RemovalKeepsDrainOrder | src/common/utils/priority-queue.util.js:153-166 | draining after a removal gives the old drain order without the matching values |
| PriorityQueue.KeepOfSameElements | src/common/utils/priority-queue.util.js:161-166 | filtering the heap array and filtering the sorted list keep the same entries |
| PriorityQueue.Queue.SiftUp | src/common/utils/priority-queue.util.js:185-196 | restores the heap above a raised slot, keeping the entries |
| PriorityQueue.Queue.SiftDown | src/common/utils/priority-queue.util.js:198-217 | extends the heap by the node it starts at, keeping the entries |
| PriorityQueue.Queue.BuildHeap | src/common/utils/priority-queue.util.js:219-224 | makes any array a heap of the same entries |
| PriorityQueue.Queue.FindMaxIndex | src/common/utils/priority-queue.util.js:226-241 | the leaf scan finds an entry no other exceeds |
| PriorityQueue.Queue.Enqueue | src/common/utils/priority-queue.util.js:83-105 | refines bounded insertion into the sorted list, reporting the entry it gives up; throws for a maximum below 1 |
| PriorityQueue.Queue.Dequeue | src/common/utils/priority-queue.util.js:112-120 | removes and returns the head of the sorted list, or nothing |
| PriorityQueue.Queue.Drain | src/common/utils/priority-queue.util.js:140-151 | terminates and returns all values in list order, leaving the queue empty |
| PriorityQueue.Queue.RemoveWhere | src/common/utils/priority-queue.util.js:153-166 | filters the sorted list and reports how many entries went |
| Redrives.NothingIsLost | src/common/utils/dead-letter-queue.util.js:46-189 | over any run of arrivals, overlapping redrives, deletions and clearings ids stay distinct, poison means attempts have reached the maximum and, for a capacity of at least 1, size stays within it and every inserted message is stored, redriven, evicted, deleted or cleared |
| Redrives.CapacityMustBePositive | src/common/utils/dead-letter-queue.util.js:67-72 | already for one message, capacity and books hold if and only if the capacity is at least 1; the constructor accepts a negative one |
| Redrives.DisciplineBalancesTheBooks | src/common/utils/dead-letter-queue.util.js:117-138 | as long as no message is redriven again, deleted, cleared or evicted while a redrive of it is under way, every successful redrive removes the message its processor saw and the reported counters add up |
| Redrives.RedriveCounterBalancesExactlyUnderDiscipline | src/common/utils/dead-letter-queue.util.js:117-138 | a run keeps that discipline if and only if the reported counters add up at each of its points and however the redrives under way there succeed |
| Redrives.NewMessageIsStolen | src/common/utils/dead-letter-queue.util.js:117-138 | after any run, a message deleted and enqueued anew while a redrive of it is under way is removed by the old success, unseen by any processor and counted as redriven, with the books as balanced as before |
| Redrives.RedriveIsStartAndFinish | src/common/utils/dead-letter-queue.util.js:117-138 | a redrive from its start to its finish, with any steps in between, changes the queue as the method Redrive says |
| Redrives.OverlappingRedrivesCountTwice | src/common/utils/dead-letter-queue.util.js:117-128 | after any run, two redrives of one stored message that overlap and both succeed raise the counter by two and remove one message |
| DeadLetterQueue.EachMessageOnce | src/common/utils/dead-letter-queue.util.js:146-160 | in a redrive pass every message that is not poison and whose time has come leaves exactly if its processor succeeds and gains one attempt if it fails; all others stay unchanged |
| DeadLetterQueue.DueIdsExactly | src/common/utils/dead-letter-queue.util.js:96-108 | exactly the messages that are not poison and whose time has come are due |
| DeadLetterQueue.RetriedInFields | src/common/utils/dead-letter-queue.util.js:46-94 | a repeated failure counts one attempt, keeps id, channel and payload, poisons exactly at maxRetries and never reschedules into the past |
| DeadLetterQueue.RedriveAllIds | src/common/utils/dead-letter-queue.util.js:146-160 | a pass shrinks the queue by exactly its successes and brings in no new id |
| DeadLetterQueue.BackoffGrowsUpToTheCap | src/common/utils/dead-letter-queue.util.js:217-229 | the wait is never negative, grows with attempts, and exceeds the maximum by at most the jitter |
| DeadLetterQueue.DelaysDoubleUpToTheTenth | src/common/utils/dead-letter-queue.util.js:224-229 | below the maximum the delay is twice the base for the first attempt, doubles up to the tenth and then stays |
| DeadLetterQueue.CapIsKeptExactlyWithRoomForJitter | src/common/utils/dead-letter-queue.util.js:217-229 | for any options no random number makes a retry later than maxBackoffMs if and only if 1.2 times the capped delay is at most the next whole millisecond |
| DeadLetterQueue.DefaultCapIsExceeded | src/common/utils/dead-letter-queue.util.js:17-31 | with the default delays and a random number of one half the tenth retry is set 5500 ms ahead, 500 ms beyond the maximum |
| DeadLetterQueue.Queue.Enqueue | src/common/utils/dead-letter-queue.util.js:46-94 | refuses empty ids and channels untouched; otherwise counts a failure of the stored message in place, or stores a fresh one at the end, evicting the oldest when full and counting the eviction |
| DeadLetterQueue.Queue.Redrive | src/common/utils/dead-letter-queue.util.js:117-138 | refuses unknown ids at once; otherwise, after anything others did to the queue while the processor ran, removes what is stored under the id or re-enqueues the captured message; undisturbed, the message is gone and counted, or stored in its place with one attempt more |
| DeadLetterQueue.Queue.RedriveEligible | src/common/utils/dead-letter-queue.util.js:146-160 | when the processors leave the queue alone, the live iteration calls them once, in insertion order, for exactly the messages that are not poison and whose time has come, and leaves the queue the pass describes |
| CircuitBreaker.BreakerTracksItsHistory | src/common/utils/circuit-breaker.util.js:60-135 | under overlapping calls the count is the current run of failures, closed means below a threshold of at least 1, and the opening time is set exactly while not closed |
| CircuitBreaker.OpensAtTheThreshold | src/common/utils/circuit-breaker.util.js:119-127 | a closed breaker opens on exactly the failure that completes threshold failures in a row |
| CircuitBreaker.CompletionsDecide | src/common/utils/circuit-breaker.util.js:105-127 | half-open the first completion closes or re-opens; a late success does not close an open breaker |
| CircuitBreaker.RefusesUntilCooldown | src/common/utils/circuit-breaker.util.js:70-80 | an open breaker refuses exactly before its cooldown is over, also for an opening at time zero |
| CircuitBreaker.NoDispatchDuringCooldown | src/common/utils/circuit-breaker.util.js:60-135 | after any opening at time T no call is dispatched before T plus cooldown unless reset by hand |
| CircuitBreaker.HalfOpenAdmitsEveryCall | src/common/utils/circuit-breaker.util.js:70-90 | while half-open any number of calls is dispatched |
| CircuitBreaker.HalfOpenIsReached | src/common/utils/circuit-breaker.util.js:60-127 | under every configuration threshold failures, a cooldown and a call lead to the half-open state, in which any number of calls is dispatched |
| CircuitBreaker.ResetCloses | src/common/utils/circuit-breaker.util.js:129-135 | a reset by hand closes the breaker from any state, so that the next call is dispatched, and counting starts anew |
| CircuitBreaker.EverySuccessCounts | src/common/utils/circuit-breaker.util.js:105-117 | the success counter is the number of successful completions, resets or not |
| CircuitBreaker.Circuit.Admit | src/common/utils/circuit-breaker.util.js:70-80 | refuses or half-opens as the breaker's state and clock say |
| CircuitBreaker.Circuit.Succeeded | src/common/utils/circuit-breaker.util.js:105-117 | zeroes the count and, when half-open, closes the breaker and clears its times |
| CircuitBreaker.Circuit.FailedAt | src/common/utils/circuit-breaker.util.js:119-127 | counts the failure and opens or re-opens the breaker, with its times, when it trips |
| CircuitBreaker.Circuit.ResetByHand | src/common/utils/circuit-breaker.util.js:129-135 | closes the breaker, zeroes the count and clears its times |
| Resilience.CallWithResilience | src/modules/hcm/hcm.service.js:161-194 | from a closed breaker with f failures at most min(maxAttempts, threshold - f) calls fail, with equality when all fail transiently; data is returned exactly if some call within reach succeeds; in statuses, no response, 408, 429 and everything outside 400 to 499 is retried and any other failure ends the call with null at once; an open breaker is not dialled; only a maximum below 1 throws |
| Resilience.CallThroughBreaker | src/common/utils/circuit-breaker.util.js:60-127 | an attempt is refused untouched or dialled and booked at its end, a success closing the breaker, a failure opening it at the threshold or from half-open |
| Resilience.RetriedStatuses | src/common/utils/retry.util.js:5-16 | a failure is retried exactly if it is no refusal of the breaker and has no response, status 408 or 429, or a status outside 400 to 499 |
| Resilience.DelayIsHalfToFull | src/common/utils/retry.util.js:39-43 | the delay before the next attempt is between half and all of a bound that starts at the base and doubles up to the maximum |
| Resilience.CappedSleepsAreShort | src/common/utils/retry.util.js:39-49 | sleeps stay below the cooldown as soon as delay cap plus timer lag do |
| RateLimiter.NoWindowOverflows | src/common/utils/rate-limiter.util.js:25-55 | no window (T - W, T] ever contains more than maxRequests admissions |
| RateLimiter.DecisionsMatchFullHistory | src/common/utils/rate-limiter.util.js:29-43 | every decision on the pruned list is the decision on the full history |
| RateLimiter.DecisionCountsTheWindow | src/common/utils/rate-limiter.util.js:29-54 | a check is admitted exactly with fewer than maxRequests admissions of the full history in its window, and reports their number and how many more would fit |
| RateLimiter.OldestSetsTheReset | src/common/utils/rate-limiter.util.js:34-48 | the reported reset time is when the oldest admission in the window leaves it |
| RateLimiter.PrunedSeesTheSame | src/common/utils/rate-limiter.util.js:29-31 | no later check can tell the pruned list from the full history |
| RateLimiter.ResetTimeIsExact | src/common/utils/rate-limiter.util.js:33-43 | after a rejection a check is admitted at resetTimeMs and later, and never before; a limit below 1 admits nothing and gives no reset time |
| RateLimiter.RejectedUntilReset | src/common/utils/rate-limiter.util.js:33-43 | all checks before resetTimeMs are rejected and change nothing; the first one from then on is admitted |
| RateLimiter.Limiter.Check | src/common/utils/rate-limiter.util.js:25-55 | decides as the full history would, for the key alone |
| RateLimiter.Limiter.Reset | src/common/utils/rate-limiter.util.js:57-63 | forgets one key and no other |
| TokenBucket.StaysInBounds | src/common/utils/token-bucket-limiter.util.js:11-25 | with non-negative amounts tokens stay between zero and capacity over any run |
| TokenBucket.GrantedExactlyWhen | src/common/utils/token-bucket-limiter.util.js:11-25 | an amount is granted exactly if it fits the capacity and what is there plus rate times elapsed milliseconds over 1000, and then it and nothing else is taken |
| TokenBucket.OneCallStaysInBounds | src/common/utils/token-bucket-limiter.util.js:18-25 | for any amount, the bounds survive a call if and only if it hands back no more than the bucket lacks |
| TokenBucket.RunStaysInBounds | src/common/utils/token-bucket-limiter.util.js:11-25 | over any run with any amounts, every point is in bounds if and only if each call hands back no more than the refilled bucket lacks |
| TokenBucket.ConsumptionIsPaidFor | src/common/utils/token-bucket-limiter.util.js:11-25 | consumption plus what is left is at most what was there plus the refill |
| TokenBucket.BurstIsBounded | src/common/utils/token-bucket-limiter.util.js:11-25 | between any two points of any run consumption is at most capacity plus rate times elapsed seconds |
| TokenBucket.LooksChangeNoAnswer | src/common/utils/token-bucket-limiter.util.js:11-30 | extra refills anywhere in a run change no later decision |
| TokenBucket.Limiter.RefillTokens | src/common/utils/token-bucket-limiter.util.js:11-16 | adds rate times elapsed time, cut at capacity, and moves the refill time |
| TokenBucket.Limiter.Consume | src/common/utils/token-bucket-limiter.util.js:18-25 | refills, then grants and subtracts, or refuses |
| AuditLedger.AppendOnlyRunsVerify | src/common/utils/audit-logger.util.js:26-54 | every append-only run verifies |
| AuditLedger.LedgerTellsTheChanges | src/common/utils/audit-logger.util.js:26-43 | an append-only ledger tells exactly the changes that name an employee, once each, in order and numbered from 0 |
| AuditLedger.LastHashDeterminesTheChain | src/common/utils/audit-logger.util.js:14-54 | two verified chains with the same last hash are identical in length and in every entry |
| AuditLedger.TamperingShows | src/common/utils/audit-logger.util.js:45-54 | replacing an entry makes verification fail or changes the last hash; before the last entry it always makes verification fail |
| AuditLedger.ForgeryVerifiesExactlyWhenLastAndRehashed | src/common/utils/audit-logger.util.js:45-54 | a chain with one forged entry verifies if and only if the entry is the last, keeps its link and carries the hash of its fields; then the last hash differs |
| AuditLedger.TruncationShowsOnlyInTheLastHash | src/common/utils/audit-logger.util.js:45-54 | a cut chain still verifies and differs from the whole one in its last hash exactly when something was cut |
| AuditLedger.Ledger.AppendEntry | src/common/utils/audit-logger.util.js:26-43 | chains the new entry, or refuses an empty employee id untouched |
| AuditLedger.Ledger.VerifyIntegrity | src/common/utils/audit-logger.util.js:45-54 | returns true exactly when every entry fits its predecessor and its own hash |
| Canonical.CanonicalFormDecidesEquality | src/common/utils/hash.util.js:18-29 | canonical forms coincide exactly when two trees are equal up to key order at every depth, leaving aside properties named __proto__; array-index keys included |
| Canonical.CanonicalFormIsEqual | src/common/utils/hash.util.js:18-29 | a canonical form is a well-formed tree equal to its original up to key order |
| Canonical.CanonicalKeysAreInOrder | src/common/utils/hash.util.js:18-26 | a canonical object enumerates array-index keys first, by their numbers, and then all other keys in lexicographic order |
| Canonical.CanonicalisingTwiceIsOnce | src/common/utils/hash.util.js:18-29 | canonicalising is idempotent |
| Canonical.SameHashExactlyWhenEqual | src/common/utils/hash.util.js:12-16 | with an injective digest payload hashes agree exactly for payloads equal up to key order |
| Canonical.ProtoIsInvisible | src/common/utils/hash.util.js:21-26 | a property named __proto__ is lost, so payloads that differ only in it hash alike |
| Canonical.BuildDependsOnMembers | src/common/utils/hash.util.js:21-26 | the object built depends only on which properties there are, not on their order |

## Left out

- NestJS controllers, DTO validation, filters, interceptors and health endpoints: framework plumbing.
- Axios, TypeORM, SQLite and timer internals: replaced by atomic transactions, parameters for outcomes, and explicit clocks.
- Stored notes, approver and reason fields, log lines, version columns and timestamps that no decision reads.
- HCM versions given as an empty text, which the program stores as none.
- Reads and listings (`getRequest`, `listRequests`, `getSyncLogs`, `getStatus`, `metrics`): they only project state.
- `calculateWorkingDays`, `isStale` and `retryWithBackoff`: not used by the flows modelled here.
- Custom comparators of the heap, fractional `maxSize` and NaN priorities.
- The error taxonomy and statistics of the dead-letter queue.
- Aliasing of the entries that the audit ledger hands out.
- Date texts in the other ISO 8601 forms that the DTO's date check admits; notes given as null.
- RedriveEligible: its contract is for processors that leave the queue alone; single redrives are modelled among arbitrary interference.
- rbac, event bus, request deduplication, traceparent, metrics registry, health aggregator and the smaller duplicates of the breaker, lock, backoff and date helpers: nothing harder than what is proved here.
