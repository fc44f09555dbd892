# Civic platform API: model and proofs

The platform lets the members of a community turn a signal into a mandate. Members vouch for a signal,
propose, deliberate, vote, contest and verify; paying keeps a membership entitlement alive through Stripe
webhooks; owners moderate accounts; and a handful of operational programs seed, inspect and shut down the
service. This project models the decision logic of those parts, statement by statement where the source
changes rows, and proves what holds over every input, every run and every interleaving.

Each file is one module. Database rows are values; the tables that a request changes are fields of a class whose
methods follow the source's statements and are proved equal to a step function; the theorems are lemmas about
runs of that step function. Constraints, triggers and unique keys are modelled from `src/db/schema.ts` and the
SQL under `drizzle/`.

| file | models |
|---|---|
| `Prelude.dfy` | options, results, orders, stable sorting, distinctness |
| `AccountModeration.dfy` | bans and unbans under row locks: serializability, deadlock freedom, audit trail |
| `CivicProcess.dfy` | the stage machine of a civic process with its triggers, ballots, tally and verification |
| `CivicLaws.dfy` | every civic request on any process: when it takes effect, what it changes, what the clock decides |
| `CivicMandate.dfy` | the 72-hour contestation window, as the read offers it and as the write enforces it |
| `Timestamps.dfy` | the calendar behind ISO strings, and when their string order is the order of time |
| `CivicExamples.dfy` | runs of any five members up to the ballot and the mandate, where lazy closing and the window fall short |
| `MembershipTransitions.dfy` | the entitlement row, its CHECK, its transitions and their idempotency ledger |
| `MembershipLaws.dfy` | the five transitions kind by kind: when each applies, what else is answered, the row it writes |
| `MembershipRaces.dfy` | membership transitions running at the same time: one serial order, once per event, no deadlock |
| `StripeWebhooks.dfy` | the Stripe handlers on top of the transitions |
| `StripeLaws.dfy` | each kind of Stripe event on any store: reply, row and ledger |
| `MembershipExpiry.dfy` | effective status, access decisions, and sweeps that nobody can observe |
| `ExpiryLaws.dfy` | what a sweep writes and reports, sweeps as runs of steps, and the obstacles a reader is told of |
| `CommunityCommitment.dfy` | choosing and binding a member's community |
| `MemberActivity.dfy` | the merged, sorted and cut activity feed |
| `RateLimits.dfy` | fixed-window limiting, one at a time and with overlapping calls |
| `PayloadHash.dfy` | the canonical JSON text behind payload hashes, and a reader that undoes it |
| `PayloadLaws.dfy` | the exact text of a payload: escapes, numerals, punctuation, order of keys |
| `OpenApiSort.dfy` | the recursive key sorter of the OpenAPI document |
| `MigrationLedger.dfy` | the ordered comparison of expected and applied migrations |
| `MigrationLaws.dfy` | each ledger verdict in terms of the rows' columns |
| `StagingSeed.dfy` | the staging seed: preflight, upsert, postcheck |
| `StagingLaws.dfy` | the staging seed in terms of rows: preflight, writes, reports, what every success leaves |
| `StagingInspection.dfy` | the read-only inspection transaction under every placement of faults |
| `GracefulShutdown.dfy` | shutdown under every order of signals, triggers, close and timer |

## Where the code falls short of what is said about it

For each of these a lemma over all inputs says exactly when the code does what it should, and another shows an input
for which it does not.

- A read closes an elapsed ballot, except when it found the process still in ballot preparation
  (`ElapsedBallotLeftOpen`): that request then takes the votes of exactly the eligible seats (`LateVoteAccepted`), and
  the next one closes it (`SecondReadCloses`). Any five members can bring it about (`LateVoteHappens`).
- A contestation window that ends past year 9999 reads as closed, because its ISO text starts with `+`
  (`WindowRightIffFourDigits`, `WindowPastYear9999`).
- A `customer.subscription.deleted` event that preserves unlapsed access is not recorded, so its redelivery can
  still change the row (`DeletionRedeliveryExactly`, `DeletionStrikesTwice`); every recorded id is inert.
- A payload hash includes the clock, so a redelivery replays only at the same clock and for the same input, and
  otherwise answers `payload_hash_mismatch` while leaving the row alone (`RedeliveryReplaysExactly`,
  `RedeliveryAtLaterClockMismatches`).
- An invoice with an earlier period end is stale for an active row, but replaces the later window of a cancelling
  one (`AccessLostExactly`, `InvoiceShortensAccess`).
- Copies of one transition that run at the same time replay, but for an activation whose clock is before the row's
  creation (`CopiesResolve`, `RacedTransitionExactly`, `EarlyLoserAborts`); with one clock for all they all replay
  (`SimultaneousCopiesReplay`).
- A suspension looks at the stored status, so it tells a swept row from a lapsed one (`SuspendAgreesExactly`,
  `SuspensionRevealsSweep`).
- Reactivating a cancelling row without an activation time violates the state CHECK; no reachable row is like that
  (`WriteKeepsCheckExactly`, `UnactivatedCancellingRowCannotReactivate`).
- Sorting account ids prevents deadlock exactly when distinct ids never collate as equal (`DeadlockFreeIffStrict`,
  `TiedIdsDeadlock`).
- The staging seed accepts some drifted baselines that its own postcheck then refuses (`RunSucceedsExactly`,
  `DriftFits`, `ArenaActorFailsPostcheck`), and a unique key held by another row, or a process that pins a moved
  signal, makes the upsert fail (`SeedExactly`, `SwappedPositionsAbort`).
- Sorting drops what stands under a `__proto__` key and nothing else (`SortKeepsPaths`, `PrototypeMemberIsLost`), and
  it gives a canonical form of a tree exactly when no two plain keys of one of its objects collate as equal
  (`CanonicalExactly`, `CanonicalIffNoPlainTies`, `TiedKeysAreNotCanonical`).
- A close that rejects with `undefined` exits with code 0 (`ExitCodeExactly`, `UndefinedRejectionExitsZero`); an
  inspection stage that throws `undefined` is invisible to the final error checks (`OutcomeExactly`,
  `UndefinedIsInvisible`).
- An unpaid commitment of a verified member to another community, and nothing else, leaves the verification time
  behind (`VerificationFitsExactly`, `CommitmentKeepsOldVerification`); an owner's transfer, and nothing else, leaves
  the acceptance behind (`AcceptanceFitsExactly`, `TransferKeepsOldAcceptance`).

## Model

| member | source | states |
|---|---|---|
| AccountModeration.OrderedIdsIsSort | src/routes/account-moderation.ts:187-190 | The locked ids are the stable sort of owner and target under the collation. |
| AccountModeration.ExecEffect | src/routes/account-moderation.ts:213-372 | A request changes at most the target's row, only from the expected status, only for an active owner, and reports a change exactly when it made one. |
| AccountModeration.ExecKeepsChecks | src/identity/repositories/accounts.ts:195-273 | Every account and session CHECK survives a ban or unban. |
| AccountModeration.BanAnswersExactly | src/routes/account-moderation.ts:213-293 | Which of its answers a ban gives; it takes place exactly for an active owner acting on an active non-owner none of whose live sessions is younger than the clock, sessions or none. |
| AccountModeration.BanWritesExactly | src/routes/account-moderation.ts:264-293 | A ban that takes place suspends the target at its clock, revokes its live sessions and no others, adds one audit row, and writes nothing else. |
| AccountModeration.UnbanAnswersExactly | src/routes/account-moderation.ts:330-372 | An unban takes place exactly for an active owner acting on a suspended account that meets the requirements of being active. |
| AccountModeration.UnbanWritesExactly | src/routes/account-moderation.ts:330-372 | An unban that takes place makes the target active and not suspended, adds one audit row, and writes nothing else. |
| AccountModeration.BanAbortsIffLaterSession | src/ceremony/repositories/account-sessions.ts:506-556 | A valid ban aborts exactly when some live session of the target was created after the ban's clock. |
| AccountModeration.UnbanUndoesBan | src/routes/account-moderation.ts:330-372 | Unban after ban restores every account row up to the update time; all the target's sessions stay revoked. |
| AccountModeration.RepeatChangesNothing | src/routes/account-moderation.ts:213-372 | A second ban, or a second unban, of the same target leaves the database as it is. |
| AccountModeration.AuditTrailExplainsStatus | src/routes/account-moderation.ts:262-281 | Over any sequence of requests, replaying the audit rows written gives the final statuses, with one row per reported change. |
| AccountModeration.ConcurrentIsSerial | src/routes/account-moderation.ts:178-211 | For every schedule of any number of transactions, database and outcomes equal those of running them alone in commit order. |
| AccountModeration.ConcurrentRunSafe | src/routes/account-moderation.ts:178-281 | No interleaving breaks a CHECK, changes an active owner, loses an audit row or aborts on a stale read. |
| AccountModeration.NoWaitCycle | src/routes/account-moderation.ts:178-211 | In every reachable state no chain of lock waits returns to its start. |
| AccountModeration.ReachableLive | src/routes/account-moderation.ts:178-211 | In every reachable state some unfinished transaction can step, if there is one. |
| AccountModeration.TiedIdsDeadlock | src/routes/account-moderation.ts:187-198 | Two distinct ids that collate as equal let two transactions deadlock. |
| AccountModeration.DeadlockFreeIffStrict | src/routes/account-moderation.ts:187-198 | All requests and schedules are free of deadlock if and only if distinct ids never collate as equal. |
| AccountModeration.EveryScheduleEnds | src/routes/account-moderation.ts:178-211 | At most three moves per request; a schedule that can move no further has finished each request once. |
| AccountModeration.ModerationStore.LockOwnerAndTarget | src/routes/account-moderation.ts:178-211 | The locking loop returns owner and target as the table holds them, whatever the lock order. |
| AccountModeration.ModerationStore.BanAccount | src/routes/account-moderation.ts:213-281 | The ban transaction's new tables and answer are those of the step function, including its rollback. |
| AccountModeration.ModerationStore.UnbanAccount | src/routes/account-moderation.ts:330-372 | The unban transaction's new tables and answer are those of the step function. |
| CivicProcess.DecideIsOutcome | src/db/repositories/civic-mandates.ts:118-121 | The decided mandate names the proposal that leads alone, or none on a tie, with the right counts. |
| CivicProcess.OutcomeUnique | src/db/repositories/civic-mandates.ts:118-121 | The votes admit one outcome only. |
| CivicProcess.AdvanceSucceeds | src/db/schema.ts:2382-2387 | No unique key of the logs stands in the way of an edge out of the current stage. |
| CivicProcess.AdvanceForward | src/db/schema.ts:2382-2473 | Each forward edge is inserted with its event and keeps the logs canonical. |
| CivicProcess.StepKeepsInv | drizzle/0054_civic_secret_ballot.sql:154-580 | Every action keeps the joint invariant of stage, logs, thresholds, ballot, seats, votes, outcome and verification. |
| CivicProcess.ReachableInv | drizzle/0054_civic_secret_ballot.sql:154-580 | The invariant holds after every run from a new process. |
| CivicProcess.LogExplainsProcess | src/db/schema.ts:2365-2473 | On every run the log folds to the stage, the cycle is one plus the quorum failures, the log has length rank plus three per extra cycle, and each row has its event. |
| CivicProcess.ConstraintsNeverReject | src/db/schema.ts:2382-2473 | In every reachable process each supported edge out of the stage is accepted by every constraint. |
| CivicProcess.KeysDistinct | src/db/schema.ts:2382-2387 | The log of a run never repeats a key of the uniqueness constraint. |
| CivicProcess.RestingStages | src/db/repositories/civic-processes.ts:142-208 | Archived processes and mandates without a winner never move again. |
| CivicProcess.BallotIsFixed | drizzle/0053_civic_ballot_preparation.sql:46-150 | Once on a ballot, proposals are changed by no action. |
| CivicProcess.DecisionsAreFinal | src/db/repositories/civic-mandates.ts:51-206 | Mandate, counted votes and verification are changed by no later action. |
| CivicProcess.ActionsOnlyAdd | src/db/schema.ts:2365-2473 | Logs, votes and consumed tokens only grow, and cycle and stage never move back. |
| CivicProcess.RunKeepsDecisions | src/db/repositories/civic-mandates.ts:51-206 | Any continuation of any run keeps mandate, votes, verification and ballot. |
| CivicProcess.MandateIsPlurality | src/db/repositories/civic-mandates.ts:51-206 | The mandate of any run is the plurality outcome of its decisive cycle, with quorum; earlier cycles missed it; votes match consumed tokens, which are no more than the eligible seats. |
| CivicProcess.VerificationIsThreshold | drizzle/0054_civic_secret_ballot.sql:378-469 | A process is archived exactly when one outcome has five attestations, and that outcome is recorded. |
| CivicProcess.QuorumFailureRecorded | src/db/repositories/civic-processes.ts:216-229 | The quorum-failure event of a cycle exists exactly for the abandoned cycles. |
| CivicProcess.ElapsedBallotLeftOpen | src/routes/civic-mandate.ts:200-224 | A read leaves an elapsed ballot open if and only if it found the process in ballot preparation. |
| CivicProcess.LateVoteAccepted | src/db/repositories/civic-votes.ts:74-101 | The request that opens such a ballot late takes a vote exactly from an eligible seat for a proposal on the ballot. |
| CivicProcess.SecondReadCloses | src/routes/civic-mandate.ts:200-224 | The next read at the same clock closes it. |
| CivicExamples.BallotIsReached | drizzle/0054_civic_secret_ballot.sql:234-580 | Any five members who confirm, propose and contribute reach ballot preparation with the dated window, their seats and their frozen proposals. |
| CivicExamples.LateVoteHappens | src/routes/civic-mandate.ts:200-224 | Such a run, unseen for three days, leaves its elapsed ballot open to a first request's vote. |
| CivicExamples.BallotStaysOpen | src/db/repositories/civic-mandates.ts:51-72 | Five members who read at the opening instant, and again at any time before the close, still have an open ballot. |
| CivicLaws.ConfirmExactly | drizzle/0054_civic_secret_ballot.sql:234-303 | Five different members confirm, and the fifth moves the process on; nothing else changes. |
| CivicLaws.ProposeExactly | drizzle/0054_civic_secret_ballot.sql:306-375 | Five proposals by five authors, and the fifth moves the process on. |
| CivicLaws.ReviseExactly | drizzle/0053_civic_ballot_preparation.sql:46-150 | A proposal is revised at most once, and only while proposals are collected. |
| CivicLaws.WithdrawExactly | drizzle/0053_civic_ballot_preparation.sql:46-150 | A proposal is withdrawn in any stage until it is on a ballot. |
| CivicLaws.ContributeExactly | drizzle/0054_civic_secret_ballot.sql:470-579 | The fifth contributor, or any after a missed quorum, freezes the ballot: it opens ten minutes later, closes 72 hours after that, freezes what is not withdrawn and seats exactly the members. |
| CivicLaws.OpenExactly | src/db/repositories/civic-processes.ts:142-208 | A ballot opens at the first request at or after its instant, with a token for each seat of its cycle, and otherwise nothing changes. |
| CivicLaws.CloseExactly | src/db/repositories/civic-mandates.ts:51-206 | A ballot closes at the first request at or after its instant: below five votes into a further cycle, otherwise with the plurality outcome, decided at that request. |
| CivicLaws.ReadExactly | src/routes/civic-mandate.ts:200-224 | A read moves a ballot in preparation if and only if its opening instant has come, an open one if and only if its closing instant has, and otherwise changes nothing. |
| CivicLaws.CastExactly | src/db/repositories/civic-votes.ts:74-101 | A vote counts exactly for a seat of the cycle not used before and a proposal on the open ballot. |
| CivicLaws.CastAnswersExactly | src/db/repositories/civic-votes.ts:64-101 | Which obstacle a refused vote meets first; it is refused exactly when nothing changes. |
| CivicLaws.VotesInExactly | src/db/repositories/civic-mandates.ts:75-82 | The votes of a cycle are the votes that carry its number. |
| CivicLaws.CountForExactly | src/db/repositories/civic-mandates.ts:75-82 | A proposal is counted as often as votes name it. |
| CivicLaws.PluralityExactly | src/db/repositories/civic-mandates.ts:118-121 | The outcome names a proposal if and only if it was voted for and has more votes than every other. |
| CivicLaws.MarkReadyExactly | src/db/repositories/civic-verification.ts:26-77 | Marking ready opens verification from the action stage, and nothing else happens. |
| CivicLaws.AttestExactly | drizzle/0054_civic_secret_ballot.sql:378-460 | Each member attests once; the fifth attestation of one outcome archives the process with it and with both counts. |
| CivicProcess.SumTally | src/db/repositories/civic-mandates.ts:75-82 | The summed counts of the grouped tally are the number of votes. |
| CivicProcess.CountTiedAtTop | src/db/repositories/civic-mandates.ts:118-121 | The count of rows tied with the first is one exactly when no other row ties. |
| CivicProcess.DecideFromTally | src/db/repositories/civic-mandates.ts:118-121 | Whatever order SQL gives tied rows, the winner read off the tally is the outcome of the votes. |
| CivicProcess.CivicStore.MoveStage | src/db/repositories/civic-processes.ts:142-208 | Insert-or-ignore, stage update and event happen together or not at all. |
| CivicProcess.CivicStore.OpenVotingIfBallotPreparationElapsed | src/db/repositories/civic-processes.ts:142-208 | The lazy opening does what the opening step says, including nothing. |
| CivicProcess.CivicStore.CloseVotingWindowIfElapsed | src/db/repositories/civic-mandates.ts:51-206 | The lazy closing does what the closing step says, for any tally answer of the current votes. |
| CivicProcess.CivicStore.RecordMandate | src/db/repositories/civic-mandates.ts:123-204 | The mandate row, its transition and a winner's move to action are written as one. |
| CivicProcess.CivicStore.VisibleProcess | src/routes/civic-mandate.ts:200-224 | A request sees the process after lazy opening or closing, both decided by the stage read first. |
| CivicProcess.CivicStore.CastCivicVote | src/db/repositories/civic-votes.ts:74-101 | A vote consumes one token and adds one row, or is refused with the step function's reason. |
| CivicMandate.ReadSeesMandate | src/routes/civic-mandate.ts:239-246 | In reachable states the read's stage filter hides no mandate. |
| CivicMandate.GuardAccepts | drizzle/0055_civic_mandate_extensions.sql:44-91 | The trigger's microsecond test accepts exactly the millisecond instants up to the window's end. |
| CivicMandate.CanContestIffAccepted | src/routes/civic-mandate.ts:275-446 | In every reachable state, for one caller and instant, the read offers to contest exactly when the write passes every gate. |
| CivicMandate.AcceptedExactly | src/routes/civic-mandate.ts:376-446 | A contestation is accepted exactly for an eligible participant who has not filed, up to the last millisecond of the window by the row's clock. |
| CivicMandate.WindowRightIffFourDigits | src/routes/civic-mandate.ts:275-308 | Within the window both routes are right exactly when the window ends by year 9999; the database accepts in any case. |
| CivicExamples.MandateIsReached | src/db/repositories/civic-mandates.ts:51-206 | The five members' votes give a mandate that they are eligible to contest. |
| CivicExamples.WindowPastYear9999 | src/routes/civic-mandate.ts:275-308 | A ballot closing in the last hour of year 9999: the database would accept, both routes say the window is over. |
| CivicMandate.ContestedOnce | src/db/repositories/civic-contestations.ts:92-110 | After one filing the read stops offering and a second filing is refused with the right error. |
| CivicMandate.OfferExactly | src/routes/civic-mandate.ts:275-308 | The read offers to contest exactly to an eligible participant who has not filed, up to 72 hours after the close to the millisecond. |
| CivicMandate.AnswerExactly | src/routes/civic-mandate.ts:376-446 | The answer to a filing is that of the first gate that fails, and last the row's own clock against the 72 hours. |
| CivicMandate.QuorumFlagIsCycle | src/routes/civic-mandate.ts:256-263 | In reachable states the quorum-failed flag says deliberation in a later cycle. |
| CivicMandate.MandateRoutes.PostContest | src/routes/civic-mandate.ts:376-446 | The write advances the process lazily, then files or refuses as the gates say, leaving filings alone on refusal. |
| Timestamps.YearStep | src/lib/timestamps.ts:1-10 | Consecutive New Year's days are 365 or 366 days apart, as the leap rule says. |
| Timestamps.FieldsOf | src/lib/timestamps.ts:4-10 | Every JavaScript date has calendar fields, and they determine its instant. |
| Timestamps.InstantsOrdered | src/lib/timestamps.ts:4-10 | Instants are ordered as their calendar fields are. |
| Timestamps.IsoLength | src/lib/timestamps.ts:4-10 | Four-digit years give 24 characters. |
| Timestamps.IsoOrderIsTimeOrder | src/routes/civic-mandate.ts:275-303 | On years 0 to 9999 the string order of ISO texts is the order of time. |
| Timestamps.IsoOrderExactly | src/routes/civic-mandate.ts:275-303 | Against a later instant the string order is right exactly when that instant's year is at most 9999. |
| Timestamps.CalendarExactly | src/lib/timestamps.ts:4-10 | 1970 begins at day 0, years have 365 or 366 days, and months their usual lengths. |
| Timestamps.IsoReadsBack | src/lib/timestamps.ts:4-10 | Read back digit by digit, the text of every date denotes that date, in four-digit years and beyond. |
| MembershipTransitions.WriteKeepsCheckExactly | src/db/schema.ts:1093-1123 | An applied transition's row meets the state CHECK in every case but reactivating a row that was never activated. |
| MembershipTransitions.UnactivatedCancellingRowCannotReactivate | src/membership/transitions/reactivate.ts:13-60 | Such a row satisfies every constraint, and its reactivation aborts. |
| MembershipTransitions.MutateKeepsRowInv | src/membership/transitions/shared.ts:208-449 | Every applied transition raises the version by one and keeps the row constraints exactly when its clock is not before the row's creation. |
| MembershipTransitions.WriteKeepsUnique | src/db/schema.ts:1124-1127 | A write that clashes with no row keeps Stripe subscriptions unique. |
| MembershipTransitions.TransitionKeepsInv | src/membership/transitions/shared.ts:208-449 | Every transition, applied or refused, keeps every constraint. |
| MembershipTransitions.AbortsExactly | src/membership/transitions/shared.ts:208-449 | The database refuses a valid transition exactly for a clock before the row's creation or a taken subscription. |
| MembershipTransitions.TransitionEffect | src/membership/transitions/shared.ts:208-449 | Rows change exactly with the outcome applied, one row by one version, and only for an event not recorded before, which is then recorded. |
| MembershipTransitions.CopiesReplay | src/membership/transitions/shared.ts:135-206 | Of any number of copies of one transition, all after the first that answers are replays and change nothing. |
| MembershipTransitions.RacedTransitionExactly | src/membership/transitions/shared.ts:208-449 | On the state that an identical transition left, the work before the ledger insert fails in exactly one case: an activation at a clock before the row's creation that is still valid. |
| MembershipRaces.ConcurrentIsSerial | src/membership/transitions/shared.ts:208-533 | For every schedule of any transitions, tables and replies are those of the order in which they ended, but for errors met by one whose event another recorded meanwhile. |
| MembershipRaces.AppliedOncePerEvent | src/membership/transitions/shared.ts:208-533 | Of all transitions of one event at most one is applied, however they interleave. |
| MembershipRaces.RecoveryNeverFails | src/membership/transitions/shared.ts:499-533 | The comparison after a lost race always finds the recorded event. |
| MembershipRaces.CopiesResolve | README.md:621-647 | Copies of one transition in any interleaving: the first that answers decides the tables, every later one replays or is the excepted activation that aborts. |
| MembershipRaces.SimultaneousCopiesReplay | README.md:621-647 | Copies at one clock: all after the first replay, and an applied one raises the version once. |
| MembershipRaces.NeverStuck | src/membership/transitions/shared.ts:451-497 | The account locks, ledger locks and unique keys never deadlock. |
| MembershipRaces.EveryScheduleEnds | src/membership/transitions/shared.ts:208-533 | At most six moves per transition; a schedule that can move no further has ended each of them once. |
| MembershipRaces.EarlyLoserAborts | src/membership/transitions/shared.ts:208-449 | A schedule of two identical activations whose loser aborts on the CHECK. |
| MembershipTransitions.ReactivationUndoesCancellation | src/membership/transitions/reactivate.ts:13-61 | Cancelling and reactivating restores the row with two versions more, and no other row changes. |
| MembershipTransitions.MembershipStore.ExecuteTransition | src/membership/transitions/shared.ts:208-497 | The transaction's new tables and outcome are those of the step function. |
| MembershipLaws.ActivateExactly | src/membership/transitions/activate.ts:16-83 | When an activation of a new event applies, and its row: active until the given window, activated at the given instant, no cancel flag; else the answer and no change. |
| MembershipLaws.ScheduleExactly | src/membership/transitions/schedule-cancellation.ts:13-61 | Cancelling applies to an active, unlapsed row unless older than its request, and sets flag, status and request time alone. |
| MembershipLaws.ReactivateExactly | src/membership/transitions/reactivate.ts:13-61 | Reactivating applies to a cancelling, unlapsed row unless older than the request it undoes, and clears what that set. |
| MembershipLaws.ExpireExactly | src/membership/transitions/expire.ts:13-60 | Expiring applies to a paid row whose window is over, and marks it expired at the event's instant. |
| MembershipLaws.SuspendExactly | src/membership/transitions/suspend.ts:13-46 | Suspending applies to every active or cancelling row and changes its status alone. |
| MembershipLaws.NoRowExactly | src/membership/transitions/shared.ts:208-449 | Without a row everything but an activation is refused and nothing is stored but the refusal. |
| MembershipLaws.ReasonsExactly | src/membership/transitions/activate.ts:16-57 | Which reason a refused or stale event of each kind is given: the first that applies. |
| MembershipLaws.NotHeardExactly | src/membership/transitions/shared.ts:135-206 | A recorded event replays or mismatches by its payload; an unknown account or a test event in production is thrown out. |
| StripeWebhooks.CurrentPeriodEndIsLatest | src/billing/webhook-processor.ts:110-127 | The period end is the latest that the subscription or any item mentions. |
| StripeWebhooks.ExtractCurrentPeriodEnd | src/billing/webhook-processor.ts:110-127 | The collecting loop computes that period end, or none. |
| StripeWebhooks.ProcessIsAsked | src/billing/webhook-processor.ts:374-831 | Every handler but checkout does what one transition keyed by the event id does, or nothing. |
| StripeWebhooks.CheckoutKeepsAccess | src/billing/webhook-processor.ts:278-372 | Checkout linking changes neither status, window nor cancel flag, writes no ledger row and keeps every constraint. |
| StripeWebhooks.ProcessEffect | src/billing/webhook-processor.ts:186-276 | A delivery keeps every constraint, changes one row by one version at most, and only under an unrecorded id that it records. |
| StripeWebhooks.RecordedIsInert | src/billing/webhook-processor.ts:186-276 | A recorded id changes nothing, whatever its payload and clock. |
| StripeWebhooks.EventChangesAtMostOnce | src/billing/webhook-processor.ts:186-276 | In any run, of all deliveries of one id at most one changes the entitlement. |
| StripeWebhooks.RecordedRepeatDrops | src/billing/webhook-processor.ts:186-276 | Dropping a delivery of a recorded id from anywhere in a run leaves the final rows and ledger the same. |
| StripeWebhooks.RecordedRepeatsDrop | src/billing/webhook-processor.ts:186-276 | Dropping from a run every delivery whose id was recorded by then leaves the final rows and ledger the same. |
| StripeWebhooks.VersionCountsChanges | src/membership/transitions/shared.ts:208-449 | Over any run a row's version grows by the number of its changes. |
| StripeWebhooks.AccessLostExactly | src/membership/transitions/activate.ts:16-57 | Access paid beyond t survives every delivery by t, except exactly an invoice that activates a cancelling row with an earlier period end. |
| StripeWebhooks.InvoiceShortensAccess | src/membership/transitions/activate.ts:16-57 | A cancelling row whose access an invoice cuts from 100 to 50 seconds. |
| StripeWebhooks.RunKeepsAccess | src/billing/webhook-processor.ts:186-276 | Over any run, access paid beyond t lasts if no invoice on the way names a period end by t. |
| StripeWebhooks.RedeliveryReplaysExactly | src/billing/webhook-processor.ts:374-831 | Another delivery of a recorded id, by any handler, changes nothing and replays exactly when clock and requested input are the same; another input is a hash mismatch. |
| StripeWebhooks.RedeliveryAtLaterClockMismatches | src/billing/webhook-processor.ts:374-831 | The same delivery again replays, whichever the event; the same event at another clock never does. |
| StripeWebhooks.DeletionRedeliveryExactly | src/billing/webhook-processor.ts:745-831 | A redelivered deletion changes the row exactly when the id was unrecorded and access lapsed between the two clocks. |
| StripeWebhooks.DeletionStrikesTwice | src/billing/webhook-processor.ts:745-831 | A deletion preserved at first and delivered again after the lapse expires the row. |
| StripeWebhooks.WebhookProcessor.ProcessEvent | src/billing/webhook-processor.ts:186-276 | Dispatch's effect and reply are those of the step function, for every event type. |
| StripeWebhooks.WebhookProcessor.LinkCheckout | src/billing/webhook-processor.ts:278-372 | The checkout handler's effect and reply. |
| StripeWebhooks.WebhookProcessor.ActivateFromInvoice | src/billing/webhook-processor.ts:374-535 | The paid-invoice handler's effect and reply. |
| StripeWebhooks.WebhookProcessor.FollowUpdate | src/billing/webhook-processor.ts:570-743 | The subscription-updated handler's effect and reply. |
| StripeWebhooks.WebhookProcessor.ExpireOrPreserve | src/billing/webhook-processor.ts:745-831 | The subscription-deleted handler's effect and reply. |
| StripeLaws.UpdateExactly | src/billing/webhook-processor.ts:570-743 | A supported update of a new event: with the flag an unlapsed active row becomes cancelling, without it an unlapsed cancelling row becomes active; every other case and its reply, exactly. |
| StripeLaws.UnsupportedUpdateExactly | src/billing/webhook-processor.ts:600-680 | An unsupported update changes nothing and names the first reason found. |
| StripeLaws.InvoiceExactly | src/billing/webhook-processor.ts:374-535 | A payable invoice activates until the subscription's period end, or is stale or refused, with the reply of each. |
| StripeLaws.InvoiceRefusalExactly | src/billing/webhook-processor.ts:490-535 | Which reason a payable invoice is refused or ignored with. |
| StripeLaws.UnpayableInvoiceExactly | src/billing/webhook-processor.ts:374-480 | An invoice that is not payable changes nothing and names the first reason found. |
| StripeLaws.DeletionExactly | src/billing/webhook-processor.ts:745-831 | A deletion expires a paid row whose window is over, and leaves unlapsed access and the ledger alone. |
| StripeLaws.CheckoutExactly | src/billing/webhook-processor.ts:278-372 | A completed checkout links customer and subscription to a row unless another row holds them, and records nothing. |
| StripeLaws.OthersExactly | src/billing/webhook-processor.ts:186-276 | What reaches no account, or is none of the four kinds, changes nothing. |
| MembershipExpiry.ParticipationExactly | src/membership/civic-access.ts:48-187 | The guard cascade lets someone participate exactly with a session of an active account, an own and committed actor of the community, and either ownership or paid, unlapsed access. |
| MembershipExpiry.ReconcileExpiredMemberships | src/membership/reconcile.ts:32-72 | The sweep's loop expires its candidates one transaction each; each result is that of its own transaction on the tables the earlier ones left. |
| ExpiryLaws.SweepOneExactly | src/membership/reconcile.ts:47-66 | One candidate: its row expires at the sweep's clock if and only if the event is new and the row has lapsed; no other row changes. |
| ExpiryLaws.SweepExactly | src/membership/reconcile.ts:32-72 | After a sweep exactly the lapsed rows with a new candidate are expired, at its clock, and every other row is as it was. |
| ExpiryLaws.ResultExactly | src/membership/reconcile.ts:47-66 | A candidate is reported as applied exactly when its own turn changed its row, and that is when its row first became due. |
| ExpiryLaws.SweepClears | src/membership/reconcile.ts:32-72 | A sweep whose candidates cover the lapsed rows, all new, leaves no lapsed row. |
| ExpiryLaws.SweepKeeps | src/membership/reconcile.ts:32-72 | A sweep keeps every constraint and account, and adds no ledger entry but its own candidates'. |
| ExpiryLaws.UuidsTellAccounts | src/membership/reconcile.ts:48-48 | Account ids without a colon make the sweep's event ids tell accounts apart. |
| ExpiryLaws.SweepIsRun | src/membership/reconcile.ts:32-72 | A sweep is a run of single steps, so what holds of such runs holds of sweeps. |
| ExpiryLaws.SweepIsInvisible | src/membership/reconcile.ts:32-72 | No status, access decision or view tells a swept table from an unswept one, then or later. |
| ExpiryLaws.ActivationGivesAccess | src/membership/civic-access.ts:12-39 | After an applied activation a membership reads as active until its window ends, and as expired from then on. |
| ExpiryLaws.MembershipDenialExactly | src/membership/civic-access.ts:48-143 | Which session, account or membership obstacle is reported, each exactly when it is the first. |
| ExpiryLaws.ActorDenialExactly | src/membership/civic-access.ts:145-187 | Which actor, community or commitment obstacle is reported to those admitted. |
| ExpiryLaws.ViewExactly | src/membership/read-service.ts:13-76 | The status, window, cancel flag, access and owner flag shown for any row at any time. |
| MembershipExpiry.SweptReadsSame | src/membership/read-service.ts:13-76 | Rows that agree give the same effective status, access decision with reason, and membership view, then and later. |
| MembershipExpiry.TransitionKeepsAgreement | src/membership/transitions/expire.ts:13-60 | Every transition but suspension takes agreeing rows to agreeing rows. |
| MembershipExpiry.SuspendAgreesExactly | src/membership/transitions/suspend.ts:13-46 | Suspension keeps agreement exactly unless one row is paid and the other already swept. |
| MembershipExpiry.TransitionAgrees | src/membership/transitions/shared.ts:208-449 | A whole transition, ledger and keys included, keeps two stores in agreement. |
| MembershipExpiry.SweepAgrees | src/membership/reconcile.ts:32-72 | Sweeping one store only keeps the agreement. |
| MembershipExpiry.CheckoutAgrees | src/billing/webhook-processor.ts:278-372 | So does a checkout. |
| MembershipExpiry.DeliveryAgrees | src/billing/webhook-processor.ts:186-276 | So does every Stripe delivery. |
| MembershipExpiry.RunsAgree | src/membership/civic-access.ts:12-36 | Any run with sweeps and the same run without them end in agreement. |
| MembershipExpiry.SweepsAreInvisible | src/membership/civic-access.ts:12-61 | Sweeps inserted anywhere change no effective status, access decision, denial reason or membership view, at the end or later. |
| MembershipExpiry.SuspensionRevealsSweep | src/membership/transitions/suspend.ts:13-46 | With a suspension in between, whether a payment reactivates depends on the sweep. |
| CommunityCommitment.PaidCommunityIsFixed | src/membership/community-commitment-service.ts:110-183 | While a non-owner pays, community, acceptance time and version never change, over any interleaving. |
| CommunityCommitment.PaidMemberCannotCommit | src/membership/community-commitment-service.ts:45-183 | A paying member without a commitment cannot make one. |
| CommunityCommitment.PairCheckKept | src/db/schema.ts:401-411 | The commitment-pair CHECK holds after every call. |
| CommunityCommitment.AcceptanceIsStretchStart | src/membership/community-commitment-service.ts:110-183 | The community is the one last chosen, and its acceptance time is when the present stretch of choosing it began. |
| CommunityCommitment.CommitmentsAreFaithful | src/membership/community-commitment.ts:16-32 | A non-owner's valid commitment was chosen explicitly, at its acceptance time. |
| CommunityCommitment.VerificationFitsExactly | src/membership/community-commitment-service.ts:110-183 | One call takes a community away from its verification exactly as a verified member's unpaid move, and brings it back exactly by a new verification or a return. |
| CommunityCommitment.AcceptanceFitsExactly | src/membership/bind-service.ts:31-110 | One call takes a community away from its acceptance exactly as a committed owner's transfer, and brings it back exactly by a new acceptance or a return. |
| CommunityCommitment.VerificationAlwaysFits | src/membership/community-commitment-service.ts:110-183 | Along any run the verification fits throughout exactly when no call is a verified member's unpaid move. |
| CommunityCommitment.AcceptanceAlwaysFits | src/membership/bind-service.ts:31-110 | Along any run the acceptance fits throughout exactly when no call is a committed owner's transfer; so always for non-owners. |
| CommunityCommitment.CommitmentKeepsOldVerification | src/membership/community-commitment-service.ts:110-183 | Verified for one community and then committed to another, a member keeps the old verification time. |
| CommunityCommitment.TransferKeepsOldAcceptance | src/membership/bind-service.ts:31-110 | An owner's transfer leaves a valid commitment to a community never accepted. |
| CommunityCommitment.MemberActor.RecordCommunityCommitment | src/membership/community-commitment-service.ts:110-183 | The commitment transaction's row and answer. |
| CommunityCommitment.MemberActor.BindLocalEligibility | src/membership/bind-service.ts:31-110 | The bind transaction's row and answer. |
| CommunityCommitment.CommitExactly | src/membership/community-commitment-service.ts:110-183 | A repeated choice changes nothing; another is locked while access is paid, and else recorded at once with the verification time kept. |
| CommunityCommitment.BindExactly | src/membership/bind-service.ts:31-110 | A member binds once, an owner again; a bind to the own community changes nothing. |
| MemberActivity.GetMemberActivity | src/membership/member-activity-service.ts:41-128 | Pushing, sorting in place and slicing give the specified feed. |
| MemberActivity.FeedIsSorted | src/membership/member-activity-service.ts:64-127 | The feed is sorted under a consistent order, at most a hundred long, and made of source rows. |
| MemberActivity.FirstFiftyAreNewest | src/membership/member-activity-service.ts:50-127 | With sources newest first, the first fifty entries carry exactly the fifty greatest timestamps of the uncut union. |
| MemberActivity.FeedExactly | src/membership/member-activity-service.ts:64-127 | The feed is the first hundred of the newest fifty of each source, newest first, then by the kinds' names, then as the source gave them; no entry is added, lost or doubled. |
| MemberActivity.DropOne | src/membership/member-activity-service.ts:15-16 | A row older than a limit's worth of others cannot be among that many greatest. |
| MemberActivity.CutSource | src/membership/member-activity-service.ts:50-61 | Cutting one source at its limit leaves the fifty greatest timestamps of the union alone. |
| RateLimits.SubjectsDisjoint | src/membership/rate-limits.ts:21-23 | The three prefixed subjects of one scope never coincide, nor do two accounts'. |
| RateLimits.AlignedWindowExactly | src/billing/rate-limits.ts:18-94 | Of n attempts in an aligned window exactly min(n, limit) pass and max(0, n - limit + 1) are audited. |
| RateLimits.IntervalBound | src/billing/rate-limits.ts:18-63 | Any interval of length d accepts at most (ceil(d / window) + 1) limits, for clocks in any order. |
| RateLimits.WindowLengthBound | src/billing/rate-limits.ts:18-63 | Any one window length accepts at most twice the limit. |
| RateLimits.ShippedBounds | src/billing/rate-limits.ts:13-16 | Any half hour accepts at most ten checkouts and twenty portal visits of an account, any quarter of an hour at most 120 membership calls. |
| RateLimits.ShippedExactly | src/billing/rate-limits.ts:13-16 | In each aligned half hour the first five checkouts and ten portal visits pass, and no others; of membership calls the first 60 in each quarter of an hour. |
| RateLimits.CountedInOneBucket | src/billing/rate-limits.ts:27-55 | An attempt counts in the bucket of its own window and in no other. |
| RateLimits.OverlapBound | src/routes/billing.ts:253-269 | With at most k calls in flight, every interleaving of checks and increments accepts at most limit + k - 1; the counter is the number of increments that took place, and with the open calls that of the checks. |
| RateLimits.SequentialGateIsLimiter | src/routes/billing.ts:253-269 | Calls that do not overlap count and pass exactly as the limiter says of the attempts in the window. |
| RateLimits.BoundAttained | src/routes/billing.ts:253-269 | Some interleaving attains that bound. |
| RateLimits.RateLimiter.CountInWindow | src/billing/rate-limits.ts:27-55 | Get-or-create reads the number of earlier attempts in the window. |
| RateLimits.RateLimiter.IsThrottled | src/billing/rate-limits.ts:57-63 | Throttled exactly when the window already holds the limit. |
| RateLimits.RateLimiter.RecordAttempt | src/billing/rate-limits.ts:65-94 | Recording counts the attempt, and audits from the limit on. |
| RateLimits.RateLimiter.HandleRequest | src/routes/billing.ts:253-269 | Check then record: accepted and audited as the attempts so far say. |
| PayloadHash.StringRoundTrip | src/membership/payload-hash.ts:46-47 | Reading an escaped string gives it back, whatever it contains. |
| PayloadHash.ValueRoundTrip | src/membership/payload-hash.ts:46-47 | So for every value. |
| PayloadHash.MembersRoundTrip | src/membership/payload-hash.ts:46-47 | So for every list of members. |
| PayloadHash.ObjectRoundTrip | src/membership/payload-hash.ts:38-48 | The JSON text of a record decodes to its members in order. |
| PayloadHash.ObjectIsWellFormed | src/membership/payload-hash.ts:46-47 | The text has no lone surrogate, so hashing its UTF-8 form loses nothing. |
| PayloadHash.CanonicalHolds | src/membership/payload-hash.ts:38-45 | The canonical record holds a value at an ordered key exactly when the payload does. |
| PayloadHash.TextDecidesPayload | src/membership/payload-hash.ts:19-48 | Two payloads have the same text if and only if every ordered key is absent in both or has the same value in both. |
| PayloadHash.KeyOrdersAreGood | src/billing/webhook-payload-hash.ts:27-44 | Both key orders list distinct keys that stay distinct as code units. |
| PayloadHash.HashDecidesPayload | src/billing/webhook-payload-hash.ts:46-56 | Under an injective digest, membership hashes agree exactly on the twelve fields and webhook hashes on the sixteen. |
| PayloadHash.HashPayload | src/membership/payload-hash.ts:38-48 | The loop that fills the dictionary key by key hashes the canonical text. |
| PayloadLaws.OneUnitExactly | src/membership/payload-hash.ts:46-47 | Seven units have short escapes, other controls and lone surrogates four lower-case digits, and every other unit is written as it is. |
| PayloadLaws.PairExactly | src/membership/payload-hash.ts:46-47 | A surrogate pair is written as it is. |
| PayloadLaws.EscapeAppends | src/membership/payload-hash.ts:46-47 | Apart from pairs a string is escaped piece by piece, so these laws determine every string. |
| PayloadLaws.ValueExactly | src/membership/payload-hash.ts:46-47 | Strings stand between quotation marks, numbers are decimal without leading zeros, words are lower-case. |
| PayloadLaws.SmallObjectsExactly | src/membership/payload-hash.ts:46-47 | The text of no member and of one. |
| PayloadLaws.NextMemberExactly | src/membership/payload-hash.ts:46-47 | One member more is written at the end after a comma, without spaces. |
| PayloadLaws.RecordExactly | src/membership/payload-hash.ts:38-45 | The record lists the payload's defined keys in the given order, and no others. |
| OpenApiSort.SortJson | src/openapi/document.ts:5-20 | The recursive loop of assignments computes the sorted tree. |
| OpenApiSort.FillHas | src/openapi/document.ts:13-18 | Filling makes one member per key with its sorted value, and none for `__proto__`. |
| OpenApiSort.SameSortsEqual | src/openapi/document.ts:5-20 | Trees equal up to key order at every depth sort to the same tree, if no two plain keys of one object of the first collate as equal. |
| OpenApiSort.EqualSortsSame | src/openapi/document.ts:5-20 | Trees with the same sorted tree are equal up to key order. |
| OpenApiSort.SortedIffSame | src/openapi/document.ts:5-24 | Both directions, for a tree without such ties: the sorted tree is a canonical form. |
| OpenApiSort.CanonicalExactly | src/openapi/document.ts:5-24 | For each tree: every tree equal to it sorts alike if and only if it has no such tie. |
| OpenApiSort.CanonicalIffNoPlainTies | src/openapi/document.ts:5-24 | For all trees: sorting is canonical if and only if no two plain keys collate as equal. |
| OpenApiSort.SortKeepsTree | src/openapi/document.ts:5-20 | The sorted tree is well formed and equal to the original up to key order. |
| OpenApiSort.SortIsIdempotent | src/openapi/document.ts:5-20 | Sorting a sorted tree changes nothing, under any collation. |
| OpenApiSort.KeysAscend | src/openapi/document.ts:13-18 | A sorted object lists its index-like keys by value and then its other keys ascending in the collation. |
| OpenApiSort.IndexLikeExactly | src/openapi/document.ts:13-18 | The keys that come first are exactly the decimal numerals below 4294967295. |
| OpenApiSort.SortKeepsPaths | src/openapi/document.ts:5-20 | Every path leads to the sorted form of what it led to, except that nothing is found under `__proto__`. |
| OpenApiSort.TiedKeysAreNotCanonical | src/openapi/document.ts:13-15 | Two plain keys that collate as equal give two sorted forms of one object. |
| OpenApiSort.PrototypeMemberIsLost | src/openapi/document.ts:13-18 | A value under `__proto__` is found before sorting and not after. |
| MigrationLedger.SortedHashKeyDecidesMultiset | src/db/migration-ledger.ts:146-148 | The joined sorted hashes agree exactly when the multisets do, whatever the expected side contains. |
| MigrationLedger.JoinInjective | src/db/migration-ledger.ts:146-148 | Joining is injective as soon as one side is free of the separator. |
| MigrationLedger.IsHashPermutation | src/db/migration-ledger.ts:150-164 | The test holds exactly for equally many rows with the same hash multiset in another order. |
| MigrationLedger.ValidateAppliedRows | src/db/migration-ledger.ts:166-195 | The loop accepts exactly the well-formed rows: digests, no duplicates, usable timestamps. |
| MigrationLedger.IdsIncrease | src/db/migration-ledger.ts:201-280 | The loop accepts exactly strictly increasing ids. |
| MigrationLedger.CompareMigrationSequences | src/db/migration-ledger.ts:201-280 | The comparison returns the verdict of the two sequences: ok exactly on a pointwise match of well-formed rows, order mismatch exactly on a rearrangement. |
| MigrationLedger.MatchIsNotRearranged | src/db/migration-ledger.ts:150-164 | The case-sensitive rearrangement test never pre-empts a true match. |
| MigrationLedger.OkIffWellFormedAndMatching | src/db/migration-ledger.ts:201-280 | `ok` if and only if the applied rows are well formed and match pointwise, hashes up to case and timestamps exactly. |
| MigrationLedger.OrderMismatchIffRearranged | src/db/migration-ledger.ts:201-280 | Any verdict is an order mismatch exactly for a non-identity rearrangement of the hashes, and a match exactly for a pointwise match. |
| MigrationLedger.VerdictUnique | src/db/migration-ledger.ts:201-280 | The verdict is determined by the two sequences. |
| MigrationLedger.ParseAppliedRows | src/db/migration-ledger.ts:288-307 | Parsing succeeds exactly when every row parses, row by row. |
| MigrationLedger.BoundedReadSuffices | src/db/migration-ledger.ts:314-383 | Reading one row more than expected decides agreement of the whole table. |
| MigrationLedger.CheckMigrationLedger | src/db/migration-ledger.ts:314-383 | The status of the bounded read is that of the whole table, and its detail the verdict on the rows read; a missing table is unknown, a timeout or another error a failure. |
| MigrationLaws.LowerExactly | src/db/migration-ledger.ts:166-195 | Lower-cased hashes agree exactly when the hashes agree up to the case of Latin letters. |
| MigrationLaws.WellFormedExactly | src/db/migration-ledger.ts:166-195 | Rows are well formed exactly with positive ascending ids, 64 hexadecimal digits each, and no hash twice in any case. |
| MigrationLaws.VerdictExactly | src/db/migration-ledger.ts:201-280 | Each verdict with exactly the sequences that earn it: lengths, rearrangement, or the first place of disagreement and what differs there. |
| MigrationLaws.LedgerAgreesExactly | src/db/migration-ledger.ts:314-383 | A ledger is fine exactly when its rows are the journal's, complete, in order, each with its hash and time. |
| StagingSeed.SortedContiguousIffNumbered | src/db/run-staging-seed.ts:520-527 | Sorted positions are contiguous exactly when they are distinct and within range. |
| StagingSeed.SeedExactly | src/db/run-staging-seed.ts:579-680 | The row-by-row upsert either overwrites by id or aborts, and a condition on the old rows says which. |
| StagingSeed.SwappedPositionsAbort | src/db/run-staging-seed.ts:579-680 | Two canonical communities with swapped positions: accepted as drift, aborted by the first write. |
| StagingSeed.CountsAfter | src/db/run-staging-seed.ts:178-214 | The counts after the upsert are the expected ones exactly when the database fits. |
| StagingSeed.PostcheckExactly | src/db/run-staging-seed.ts:491-573 | The postcheck passes on the upserted database if and only if the old one fits. |
| StagingSeed.ExactPasses | src/db/run-staging-seed.ts:393-405 | A baseline found exact passes the postcheck unchanged. |
| StagingSeed.DriftFits | src/db/run-staging-seed.ts:407-409 | An accepted drifted baseline fits exactly when its canonical rows are outside the arena. |
| StagingSeed.RunSucceedsExactly | src/db/run-staging-seed.ts:367-680 | From every consistent database, exactly when a run succeeds. |
| StagingSeed.ArenaActorFailsPostcheck | src/db/run-staging-seed.ts:491-573 | A controlled actor in the arena beside another actor outside: accepted as drift, written, refused by the postcheck. |
| StagingSeed.AcceptedBaselineSucceeds | src/db/run-staging-seed.ts:367-573 | With arena rows free of canonical ids and the actor placed outside it, every accepted baseline succeeds. |
| StagingSeed.RunFrame | src/db/run-staging-seed.ts:432-438 | A run touches nothing but the manifest's rows, and a failed run nothing at all. |
| StagingSeed.CanonicalAssessed | src/db/run-staging-seed.ts:367-459 | A canonical database is assessed by its confirmation and actor counts alone. |
| StagingSeed.SecondRunExactly | src/db/run-staging-seed.ts:393-459 | After a success a second run changes nothing, and is already canonical exactly with one outside actor and no counted confirmation, else refused with the code of the first that fails. |
| StagingSeed.SeedRunner.RunStagingSeed | src/db/run-staging-seed.ts:579-680 | Under the lock the program does what the run function says; without the lock, or with an injected failure, the database stays, and the error says which. |
| StagingSeed.SeedRunner.Mutate | src/db/run-staging-seed.ts:579-680 | Write, check, commit or roll back as one. |
| StagingLaws.EmptyExactly | src/db/run-staging-seed.ts:382-391 | A database counts as empty exactly when it holds the arena's rows at most and no controlled actor. |
| StagingLaws.ExactExactly | src/db/run-staging-seed.ts:393-405 | It is exact exactly when it holds the manifest's rows and no others outside the arena, nobody but the controlled actor, and no confirmation of his. |
| StagingLaws.DriftExactly | src/db/run-staging-seed.ts:393-409 | It has drifted exactly when it has the manifest's ids and as many rows, but not all as listed. |
| StagingLaws.SubsetExactly | src/db/run-staging-seed.ts:303-365 | It is a subset exactly when outside the arena it holds some of the manifest's rows as listed, none besides, the controlled actor in place, and others are missing. |
| StagingLaws.RefusalExactly | src/db/run-staging-seed.ts:367-459 | Which refusal is given, the first reason in order. |
| StagingLaws.WritesGoThroughExactly | src/db/run-staging-seed.ts:579-680 | The upsert goes through exactly when no row takes a slug or position that a row not yet rewritten still has, and no signal with a process changes its community. |
| StagingLaws.WritesExactly | src/db/run-staging-seed.ts:579-680 | What a successful run has written, table by table, with every other row and unmanaged column as before. |
| StagingLaws.SuccessLeavesManifest | src/db/run-staging-seed.ts:491-573 | Every success leaves the manifest in place, and nothing else outside the arena. |
| StagingLaws.ReportExactly | src/db/run-staging-seed.ts:393-459 | Which report is given for which preflight. |
| StagingLaws.SuccessExactly | src/db/run-staging-seed.ts:367-680 | From every consistent database, exactly when a run succeeds, in terms of rows. |
| StagingLaws.FreshDatabaseIsSeeded | src/db/run-staging-seed.ts:382-391 | A fresh database is seeded with the manifest's rows and nothing else. |
| StagingInspection.CleanupIsRight | src/db/run-staging-inspection.ts:505-637 | For every placement of faults: rollback exactly when begun and not committed, one release exactly when acquired, one pool end, last, in order. |
| StagingInspection.CleanupCounts | src/db/run-staging-inspection.ts:573-637 | How often each cleanup stage is attempted. |
| StagingInspection.CleanupOrder | src/db/run-staging-inspection.ts:573-637 | Rollback and commit precede release, which precedes the pool's end. |
| StagingInspection.BodyExactly | src/db/run-staging-inspection.ts:513-571 | Each stage of the body is attempted once, exactly when the one before it succeeded, and succeeds exactly when it does not fault. |
| StagingInspection.FaultsShow | src/db/run-staging-inspection.ts:573-652 | The body's error is that of its failed attempt, and the release's counts where a client was acquired. |
| StagingInspection.OutcomeExactly | src/db/run-staging-inspection.ts:639-652 | A result exactly on a commit with clean release and pool end; otherwise the first defined error in the order body, release, pool end. |
| StagingInspection.UndefinedIsInvisible | src/db/run-staging-inspection.ts:639-652 | A release that throws `undefined` still completes; a check that does hides behind the pool's error or the missing result. |
| StagingInspection.Inspection.RunBody | src/db/run-staging-inspection.ts:513-571 | The two flags say, after any fault, whether a client was acquired and a transaction left open. |
| StagingInspection.Inspection.RunStagingInspection | src/db/run-staging-inspection.ts:483-653 | The program's attempts and outcome are those of the fault placement. |
| GracefulShutdown.RunInv | src/ops/graceful-shutdown.ts:75-129 | Every interleaving keeps flag, close, timer and exit consistent. |
| GracefulShutdown.PlacesExtend | src/ops/graceful-shutdown.ts:75-129 | The first trigger after installation and the first settling event after that never move. |
| GracefulShutdown.ShutdownMeetsContract | src/ops/graceful-shutdown.ts:60-145 | Every interleaving has exactly the effects that its first trigger and first settling event call for. |
| GracefulShutdown.CloseAndExitOnce | src/ops/graceful-shutdown.ts:75-129 | Close and exit happen at most once each, after the flag is set. |
| GracefulShutdown.ExitCodeExactly | src/ops/graceful-shutdown.ts:91-129 | Exit code 0 exactly when close settles before the timer without an error other than `undefined`. |
| GracefulShutdown.StartExactly | src/ops/graceful-shutdown.ts:60-100 | Nothing happens until a signal or manual trigger follows an installation; then the flag and the close, and until something settles nothing more. |
| GracefulShutdown.ExitExactly | src/ops/graceful-shutdown.ts:91-129 | The first close or timer to settle after that brings the one exit, with code 1 for the timer and for an error. |
| GracefulShutdown.UndefinedRejectionExitsZero | src/ops/graceful-shutdown.ts:91-129 | A close that rejects with `undefined` exits with 0. |
| GracefulShutdown.HangingCloseExits | src/ops/graceful-shutdown.ts:82-113 | If close never settles, the timer still exits with code 1. |
| GracefulShutdown.ShutdownHandle.InstallGracefulShutdown | src/ops/graceful-shutdown.ts:60-71 | A second installation does nothing. |
| GracefulShutdown.ShutdownHandle.BeginShutdown | src/ops/graceful-shutdown.ts:77-103 | The first trigger sets the flag, arms the timer and starts closing, in that order; later ones do nothing. |
| GracefulShutdown.ShutdownHandle.Finish | src/ops/graceful-shutdown.ts:103-129 | The decided race clears the timer and exits with its code. |

## Left out

- HTTP routing, schemas, sessions, headers, CSRF, logging and the printed OpenAPI text: wiring without a deep claim.
- Stripe's SDK, hashing, e-mail, object storage and load scripts: foreign calls. SHA-256 is an injective parameter.
- Environment configuration, role ranks, price policy, request ids and error mapping: each rule is settled by one branch.
- Postgres beyond row locks, unique keys, CHECKs, triggers and rollback; retries after its transient conflicts.
- AccountModeration: account creation and the other writers of accounts and sessions while moderation runs.
- CivicProcess: contents and revisions of proposals, views, evidence and discussion; the dates of log rows; the
  eligibility tests of the insert triggers, whose rejected inserts change nothing.
- CivicProcess.Contribute: the database clock at which the deliberation threshold is met is an input.
- CivicMandate: the operators' review of filed contestations.
- CivicMandate.CanContestIffAccepted: one clock reading serves the whole request and the session resolves alike for
  both routes; `AcceptedExactly` covers a later second reading.
- MembershipTransitions: the Google Play and paid-pending-binding transitions, and the audit rows of all transitions.
- MembershipRaces: the comparison's short share locks are taken and released in one step; other writers of the
  account, entitlement and ledger rows; the retries, which these transitions never need (`NeverStuck`).
- StripeWebhooks: the attempt and audit rows; a customer reconciles to an account by a fixed map.
- ExpiryLaws.SweepExactly: candidates with one event id are of one account, as for ids without colons
  (`UuidsTellAccounts`).
- MembershipExpiry: the query that picks a sweep's candidates, with its batch size and skipped locks; any list of
  candidates is swept.
- MembershipExpiry.SweepsAreInvisible: clocks never run backwards along the run, and Stripe's event ids do not
  start with the sweep's prefix; suspensions are excluded, as `SuspendAgreesExactly` says they must be.
- StagingSeed: writers between preflight and mutation, environment checks and logs; columns that are compared only as
  a whole are one field.
- StagingSeed.SecondRunExactly: the second run follows immediately, with nothing written in between.
- RateLimits: the hashing of subjects, taken as injective; deleted buckets.
- PayloadHash: numbers with fractions and non-finite numbers, which no hashed field has.
- OpenApiSort: leaf values are opaque; `localeCompare` is any total preorder, without ties where a lemma says so.
- MemberActivity: titles and texts of the entries, the empty feed of an account without an actor, and the civic inbox.
- MemberActivity.FirstFiftyAreNewest: each source is given newest first, as its query orders it.
- StagingInspection: the queries and findings of the check stage, which is one stage that may throw.
- GracefulShutdown: a close that throws before it returns a promise, and a process that ends by itself because the
  timer does not keep it alive.
