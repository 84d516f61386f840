# Verified model of the forecasting and settlement programs

Dafny models of the repository's decision code, with proofs of what that code is for. There are five parts.

**Interval scoring.** An event has a bid and an ask per outcome bucket. The bounds are tightened against the unit sum,
the outcome is projected onto box and simplex by a hundred bisections, and best and worst scores of the market follow
(`RealVectors`, `SimplexProjection`, `IntervalScoring`). A model passes its gate only if it beats the market at the
market's best (`FrozenGate`). The proofs show that tightening loses no belief the market may hold, that the projection
is nearest up to the resolution of the bisection, that a passing gate really beats every belief the bids and asks allow,
and that a model of clear merit passes.
The buckets themselves are proved to cover the real line (`BucketCoverage`).

**Artifact history.** A directory of hash-chained entries under a manifest, with pruning (`ArtifactHistory`,
`HistoryRuns`, `HistoryLeftovers`). A directory is validated exactly when it describes one chain; every run of appends,
each of which may die after any of its file operations, leaves a valid directory, though a death midway leaves files
behind for good; and the head hash determines the retained history unless two of its own entries collide.

**Settlement protocol.** Timestamp evidence is audited (`TimestampAudit`), collected (`ExchangeCollector`,
`EvidenceCollection`), gated (`ReadinessGate`), proposed (`CanonicalizationProposal`), reviewed (`ProposalReview`) and
enveloped (`ReadinessEnvelope`, artifacts in `FunnelArtifacts`), and then written by a compare-and-swap transaction
(`SettlementTransaction`). `Funnel` proves what the later steps can still refuse once their inputs link to the steps
before, `Provenance` what a committed timestamp owes to each step, and `Passage` and `HonestRun` when settlements that
nobody disturbs pass them. Around it are the paired publication of reports (`PairedPublication`), recovery from crashes
(`CrashRecovery`), contention between writers (`Contention`) and the pure model with its shrinking of counterexamples
(`PropertyModel`).

**Selection.** Greedy selection under two nested caps, proved optimal (`NearMoneySelection`), and round-robin selection
over series (`RoundRobinSelection`).

**Walk-forward evaluation.** Forecasts of an expanding window see only rows settled by their own time (`WalkForward`);
monthly rain forecasts and their prequential scores do not see the rain they forecast (`RainForecasts`).

`Support`, `Lists` and `Text` hold options, lists and strings. Code that changes things step by step is a method with its
loops and fields, proved against functions on values; the lemmas are about those functions. Hashes, parsers of times and
numerical routines are parameters. No hash is taken to be injective: a proof that needs two artifacts not to collide names
the two.

## What the proofs found

- An append that dies between its entry file and its manifest leaves a valid directory, but the orphaned entry file makes
  every retry of the same source fail with a filename collision as long as nothing is committed. Once an earlier source
  has been committed the retry gets another number and goes through, and the orphan stays
  (`HistoryLeftovers.RetryExactly`, with `HistoryLeftovers.RetrySucceedsElsewhere` as a concrete run).
- Of the transaction's checks, the postcondition check and the unrelated-state check can never fail after the row count
  has passed (`SettlementTransaction.LateChecksNeverFail`); a candidate over an empty-string timestamp or a NULL result
  passes revalidation and is caught only by the row count (`SettlementTransaction.RevalidatedMissesRollBack`).
- A stale backup file left by an earlier process is restored over a destination when a publication fails before it makes
  its own backup: `PairedPublication.StaleBackupsReplaceCurrentFiles` is such a directory, and failures are harmless
  exactly when no stale backup differs from its destination (`PairedPublication.EveryFailureSparesExactly`). The
  program's backup names contain the process id, so a stale backup takes a process whose id is used again.
- An append that dies midway leaves files that no later append removes, its own entry's or those still to be pruned
  (`HistoryLeftovers.PruningDeathLeavesFile` is such a run); a directory stays free of them if and only if no append
  dies midway (`HistoryLeftovers.FilesAfterRunExactly`).
- Collection, gate and proposal take several captures of one ticker, but every review refuses what they then propose
  (`Passage.SharedTickerIsNeverReviewed`).
- Once review and envelope accept their inputs, the row checks they repeat can fail only for a drifted settlement
  (`Funnel.ReviewRejectsOnlyDrift`, `Funnel.EnvelopeRejectsOnlyDrift`).
- A settlement whose timestamp is an empty string passes every step as one without a timestamp, and then rolls back the
  transaction of all candidates (`Passage.UndisturbedCommitsExactly`).
- The coverage check compares only neighbouring bounds that both exist, so it accepts a second bucket open on the same
  side, and the two overlap without limit (`BucketCoverage.OverlapsOnlyAtBoundsExact`).
- The invariant check of the pure model raises on rows that have no length, though evaluating them does not
  (`PropertyModel.NoCaseBreaksAnInvariant`).

## Model

| member | source | states |
|---|---|---|
| SimplexProjection.BoundedSimplexProjection | scripts/crypto_event_multiclass_walk_forward.py:507-526 | the hundred-round loop ends on the specified projection |
| SimplexProjection.BisectKeepsBracket | scripts/crypto_event_multiclass_walk_forward.py:512-521 | after any number of rounds the low end still sums to at least one and the high end to at most one, and the width has halved every round |
| SimplexProjection.StartingBracket | scripts/crypto_event_multiclass_walk_forward.py:510-511 | the first multipliers bracket a unit sum for every box that meets the simplex |
| SimplexProjection.ShiftedSumFalls | scripts/crypto_event_multiclass_walk_forward.py:514-517 | the clipped sum never rises with the multiplier, and moves by at most its length times the step |
| SimplexProjection.ProjectionIsNearlyFeasible | scripts/crypto_event_multiclass_walk_forward.py:507-526 | the result lies in the box and misses a unit sum by at most n times the first width over 2^101 |
| SimplexProjection.ProjectionIsNearest | scripts/crypto_event_multiclass_walk_forward.py:507-526 | its squared distance to the target is at most that of any feasible point plus twice the multiplier times the missed sum |
| SimplexProjection.ShiftedMinimisesLagrangian | scripts/crypto_event_multiclass_walk_forward.py:514-526 | clipping the shifted target minimises distance plus multiplier times sum over the whole box |
| IntervalScoring.BoundsAreTheQuotes | scripts/crypto_event_multiclass_walk_forward.py:426-443 | a probability vector lies between the clamped bounds exactly when every bid and ask that is there allows it: no lower than the bid and no higher than the ask, quotes outside the unit interval counting as its ends |
| IntervalScoring.SimplexFeasibleExactly | scripts/crypto_event_multiclass_walk_forward.py:446-452 | the feasibility test passes exactly when some vector that bids and asks allow sums to one up to 1e-9 |
| IntervalScoring.TighteningKeepsPolytope | scripts/crypto_event_multiclass_walk_forward.py:470-478 | a unit-sum vector is inside the quotes exactly when it is inside the tightened bounds |
| IntervalScoring.TightBoundsAreAttained | scripts/crypto_event_multiclass_walk_forward.py:470-478 | every tightened bound is the coordinate of some vector of the polytope |
| IntervalScoring.IntervalScoreBounds | scripts/crypto_event_multiclass_walk_forward.py:467-504 | the loop over buckets computes the specified bounds of both scores |
| IntervalScoring.OptimisticBrierIsLowest | scripts/crypto_event_multiclass_walk_forward.py:479-483 | no probability vector inside the quotes has a lower Brier score, up to the projection's resolution |
| IntervalScoring.OptimisticBrierIsReached | scripts/crypto_event_multiclass_walk_forward.py:479-483 | some probability vector inside the quotes has that Brier score, up to the resolution |
| IntervalScoring.ToleranceExactly | scripts/crypto_event_multiclass_walk_forward.py:507-526 | that resolution is n times 16 over 2^101 |
| IntervalScoring.PessimisticBrierIsAbove | scripts/crypto_event_multiclass_walk_forward.py:484-496 | the worst Brier score, capped at two, is at least that of every probability vector inside the quotes |
| IntervalScoring.PessimisticBrierExactly | scripts/crypto_event_multiclass_walk_forward.py:484-496 | the worst score is exactly the sum, cut off at two, of the largest squares that the coordinates can reach, each in some probability vector inside the quotes |
| IntervalScoring.BrierAtMostTwo | scripts/crypto_event_multiclass_walk_forward.py:484-496 | the cap at two is harmless: no probability vector scores above it |
| IntervalScoring.LossBoundsEnclose | scripts/crypto_event_multiclass_walk_forward.py:497-504 | for a log that never falls, the two losses, each of a probability floored at 0.001, enclose the loss of every vector inside the quotes |
| IntervalScoring.LossBoundsAreReached | scripts/crypto_event_multiclass_walk_forward.py:497-504 | both losses are the losses of actual vectors of the polytope |
| IntervalScoring.TwoBucketScores | scripts/crypto_event_multiclass_walk_forward.py:467-504 | two concrete buckets have the scores 0.72, up to 1e-9, and 1.28 and the losses of 0.4 and 0.2 |
| IntervalScoring.NormalizeIsDistribution | scripts/crypto_event_multiclass_walk_forward.py:529-533 | normalising any values gives a probability vector: one over the count everywhere when nothing is positive, and proportional to the non-negative parts otherwise |
| FrozenGate.EligibleExactly | scripts/crypto_event_multiclass_walk_forward.py:571-590 | the gate counts, in order, exactly the informative rows with a model vector for whose bids and asks some vector sums to one up to 1e-9 |
| FrozenGate.GateExactly | scripts/crypto_event_multiclass_walk_forward.py:591-622 | the gate passes exactly with ten or more eligible events over which the market's best Brier scores exceed the model's by 0.005 each, and its best losses the model's at all, both on average; the advantages reported are those averages |
| FrozenGate.BeliefsScoreNoBetter | scripts/crypto_event_multiclass_walk_forward.py:591-605 | whatever the market believes inside its quotes, its mean scores are no better than the optimistic means |
| FrozenGate.PassedGateBeatsEveryBelief | scripts/crypto_event_multiclass_walk_forward.py:571-622 | soundness: a pass means ten or more eligible events over which, for every choice of unit-sum vectors that the bids and asks allow, the model's Brier scores are better by 0.005 on average less the resolution, and its losses strictly |
| FrozenGate.ModelInsideTheQuotesNeverPasses | scripts/crypto_event_multiclass_walk_forward.py:571-622 | a model whose vectors are themselves possible market beliefs cannot pass |
| FrozenGate.FailedBrierCheckHasBeliefs | scripts/crypto_event_multiclass_walk_forward.py:591-611 | a failed Brier check is witnessed by unit-sum vectors that bids and asks allow and that deny the advantage, up to the resolution |
| FrozenGate.LogLossCheckExact | scripts/crypto_event_multiclass_walk_forward.py:591-611 | the log-loss check passes if and only if the model's total loss is strictly below that of every choice of unit-sum vectors that bids and asks allow |
| FrozenGate.ClearMeritPasses | scripts/crypto_event_multiclass_walk_forward.py:571-622 | completeness: a model with ten eligible events that beats every such choice by 0.005 on average more than the resolution, and strictly in loss, passes |
| FrozenGate.TenSureEventsPass | scripts/crypto_event_multiclass_walk_forward.py:571-622 | ten concrete events that pass |
| BucketCoverage.CoverageReasons | scripts/crypto_event_multiclass_walk_forward.py:398-411 | the loop over neighbours collects exactly the specified reasons in order |
| BucketCoverage.BuildBuckets | scripts/crypto_event_multiclass_walk_forward.py:320-359 | the loop over markets collects the buckets of the parseable ones in ascending order and counts the others |
| BucketCoverage.EventBucketsExact | scripts/crypto_event_multiclass_walk_forward.py:320-395 | the buckets of an event are exactly those that its markets' strike fields describe, in ascending order |
| BucketCoverage.ReasonsExactly | scripts/crypto_event_multiclass_walk_forward.py:398-411 | each reason is given exactly when it applies: no bucket, a closed first or last bucket, two neighbours more than 0.011 apart |
| BucketCoverage.NoReasonsExact | scripts/crypto_event_multiclass_walk_forward.py:398-411 | no reason is given exactly when both tails are open and all neighbours meet to within 0.011 |
| BucketCoverage.EveryValueIsCovered | scripts/crypto_event_multiclass_walk_forward.py:398-419 | without a reason every real value is in a bucket or within 0.011 of a bucket's end |
| BucketCoverage.EveryValueHasItsMarket | scripts/crypto_event_multiclass_walk_forward.py:320-419 | in an event without a reason every real value has a market that resolves yes at it or has a strike within 0.011 |
| BucketCoverage.OverlapsOnlyAtBoundsExact | scripts/crypto_event_multiclass_walk_forward.py:398-419 | sorted buckets that pass overlap only near their ends if and only if no second bucket is open on the same side |
| BucketCoverage.SecondOpenTailPasses | scripts/crypto_event_multiclass_walk_forward.py:398-411 | concrete buckets that pass the check although two of them share a value that is near no end |
| ArtifactHistory.ValidateExact | scripts/local/phase4ac_artifact_history.py:103-166 | validation succeeds with a manifest and entries exactly when the manifest is the stored one, has its schema and its own hash, counts the entries, and lists every source once, and each entry has the name, hashes, link, order, schema and flags it must have |
| ArtifactHistory.EditedManifestIsRefused | scripts/local/phase4ac_artifact_history.py:91-100 | a stored manifest that no longer has its own hash is refused for that, whatever it lists |
| ArtifactHistory.CheckReferencesExact | scripts/local/phase4ac_artifact_history.py:115-157 | the reference loop yields entries exactly when each fits its reference and its predecessor |
| ArtifactHistory.HeadDeterminesHistory | scripts/local/phase4ac_artifact_history.py:115-163 | two valid directories with equal head hash hold the same most recent entries, as many as both retain, unless two of those very entries at the same distance from the head collide |
| HistoryRuns.HistoryDirectory.ValidateHistory | scripts/local/phase4ac_artifact_history.py:103-166 | the loop over references returns the specified verdict and changes nothing |
| HistoryRuns.HistoryDirectory.Prune | scripts/local/phase4ac_artifact_history.py:232-235 | unlinks exactly the unlinkable files among the combined entries, as far as the process lives |
| HistoryRuns.HistoryDirectory.Append | scripts/local/phase4ac_artifact_history.py:169-236 | leaves the directory as the plan says after any number of file operations, or unchanged when refused |
| HistoryRuns.AcceptedExactly | scripts/local/phase4ac_artifact_history.py:176-202 | on a directory holding a ledger, an append is accepted exactly when the retention is positive and the source is of a known kind, sound, new, later and free of a file in its way; the entry, manifest and pruning planned are then the ones stated |
| HistoryRuns.HeldIsDescribed | scripts/local/phase4ac_artifact_history.py:103-166 | a directory that holds a ledger validates to the retained suffix of that ledger |
| HistoryRuns.PerformHolds | scripts/local/phase4ac_artifact_history.py:203-236 | crash consistency: after any number of an append's file operations the directory holds the old ledger or the new one |
| HistoryRuns.UnlinkableSparesKept | scripts/local/phase4ac_artifact_history.py:232-235 | pruning never unlinks a file of a retained entry |
| HistoryRuns.AppendKeepsNewest | scripts/local/phase4ac_artifact_history.py:204-231 | a committed append validates to the newest entries, as many as the retention allows |
| HistoryRuns.DyingEarlyKeepsOldHistory | scripts/local/phase4ac_artifact_history.py:203-231 | dying before the manifest is replaced leaves a directory that validates to exactly the old history |
| HistoryRuns.RetryAfterDeath | scripts/local/phase4ac_artifact_history.py:182-203 | a retry on the directory as the death left it, with nothing in between, succeeds if nothing was written, collides with the orphaned file if only the entry was, and is a duplicate once committed |
| HistoryRuns.RunHolds | scripts/local/phase4ac_artifact_history.py:169-236 | every sequence of attempts, each cut short anywhere, keeps the invariant, and the ledger only grows |
| HistoryRuns.EveryRunValidates | scripts/local/phase4ac_artifact_history.py:103-236 | from an empty directory every run validates to a contiguous suffix within the last retention, anchored at the last pruned entry, with the true total and no source twice |
| HistoryRuns.ReconstructGateHistory | scripts/local/phase4ac_artifact_history.py:239-251 | the loop over validated entries yields the specified gate history or the validation error |
| HistoryRuns.GatePayloadsExactly | scripts/local/phase4ac_artifact_history.py:239-251 | the payloads are, in order, the sources of exactly the entries of the gate kind |
| HistoryRuns.EveryRunReconstructs | scripts/local/phase4ac_artifact_history.py:239-251 | after every run the gate history can be read: it is, in order, the sources of exactly the retained gate entries, sound and without repetition, with the manifest's hash and anchor |
| HistoryRuns.RetainedEntriesNeverChange | scripts/local/phase4ac_artifact_history.py:115-163 | an entry retained before and after any further attempts is the same entry |
| HistoryLeftovers.LeftoversExactly | scripts/local/phase4ac_artifact_history.py:203-236 | after any run from any held directory the files no retained entry names are those from before, unchanged, and what the run's own deaths left behind, and no others |
| HistoryLeftovers.FilesAfterRunExactly | scripts/local/phase4ac_artifact_history.py:203-236 | after any run from an empty directory the files are those of the validated entries and, disjoint from them, what deaths left behind; that is nothing if and only if every accepted append died before its first file operation or not at all |
| HistoryLeftovers.TidyExactly | scripts/local/phase4ac_artifact_history.py:203-236 | from a directory without leftover files a run ends in one if and only if none of its accepted appends died midway |
| HistoryLeftovers.DeathMidwayIsForever | scripts/local/phase4ac_artifact_history.py:203-236 | a file left by a death midway, the new entry's or one still to be unlinked, stays unchanged and unnamed whatever is appended later |
| HistoryLeftovers.PruningDeathLeavesFile | scripts/local/phase4ac_artifact_history.py:232-235 | a concrete run: two appends at retention one, the second dying after two operations, leave the first entry's file |
| HistoryLeftovers.RetryExactly | scripts/local/phase4ac_artifact_history.py:169-203 | after any run from a directory without leftovers an otherwise acceptable source is refused if and only if an append of the same time, kind and hash prefix died right after writing its entry and nothing has been committed since; the refusal is a filename collision |
| HistoryLeftovers.RetryCollidesUntilCommit | scripts/local/phase4ac_artifact_history.py:182-203 | whatever is attempted in between, a source whose append died right after writing its entry is refused as long as nothing is committed |
| HistoryLeftovers.AnotherCommitFreesRetry | scripts/local/phase4ac_artifact_history.py:59-65 | once an earlier source has been committed in between, the retry is accepted, under the next number |
| HistoryLeftovers.RetrySucceedsElsewhere | scripts/local/phase4ac_artifact_history.py:169-203 | a concrete run: refused at once, the same source is accepted after another commit |
| TimestampAudit.ReadyExactly | scripts/local/phase4af_settlement_timestamp_audit.py:223-285 | ready exactly when present, of valid lineage, binary, fresh, unevaluated, without canonical time, with exchange or artifact evidence, and all authorities agree on one time, which is the chosen one |
| TimestampAudit.Audit | scripts/local/phase4af_settlement_timestamp_audit.py:331-431 | the audit loop yields the specified rows in order and counts the ready ones |
| TimestampAudit.AuditOrderExactly | scripts/local/phase4af_settlement_timestamp_audit.py:380-431 | rows come by ticker and capture, the evidence of each by source, identity and text |
| TimestampAudit.InventoryBySource | scripts/local/phase4af_settlement_timestamp_audit.py:415-422 | in the inventory the settlement's own time stands before the exchange's, and that before any artifact's |
| TimestampAudit.BinaryExactly | src/kalshi_predictor/phase4cd/reconciliation_audit.py:79-81 | a result is binary exactly when it reads yes or no, in any case, between blank ends |
| Text.CasesInvert | src/kalshi_predictor/phase4cd/reconciliation_audit.py:79-81 | the two cases of the letters a to z invert each other, and no other character has two |
| TimestampAudit.CandidatesExactly | scripts/local/phase4af_settlement_timestamp_audit.py:102-220 | the evidence on a settlement is exactly what its artifacts, its row, the raw exchange record and its market state, each under its source, identity and hash |
| TimestampAudit.ClassExactly | scripts/local/phase4af_settlement_timestamp_audit.py:223-285 | the class of a settlement's evidence: what is wrong with it in the program's order, else the strongest source that states a time |
| TimestampAudit.ChosenExactly | scripts/local/phase4af_settlement_timestamp_audit.py:223-285 | the time proposed is one that the strongest source stating any states, with that evidence's hash, and none if none does |
| TimestampAudit.AuditRowExactly | scripts/local/phase4af_settlement_timestamp_audit.py:349-416 | freshness, zone and readiness flags, the settlement's hash and the inventory are the true ones |
| TimestampAudit.MissingExactly | scripts/local/phase4af_settlement_timestamp_audit.py:349-402 | a timestamp counts as missing exactly when the attributed, binary settlement's own row states no time and no artifact speaks of it |
| TimestampAudit.ArtifactsSpeakExactly | scripts/local/phase4af_settlement_timestamp_audit.py:349-402 | over a row that states no time, artifacts make evidence available exactly when there are some, all state one time and the source is fresh; that time is reported |
| TimestampAudit.ArtifactEvidenceIsReady | scripts/local/phase4af_settlement_timestamp_audit.py:349-416 | a row showing artifact evidence without evaluation is ready, and every authority in the evidence it records agrees on the time it reports |
| ExchangeCollector.ReadStamps | scripts/local/phase4ag_exchange_timestamp_collector.py:173-196 | collects a market's timestamps or stops at the first that does not parse |
| ExchangeCollector.InspectExchangePayload | scripts/local/phase4ag_exchange_timestamp_collector.py:144-217 | the nested loops give the specified disposition, the first fault deciding |
| ExchangeCollector.InspectedExactly | scripts/local/phase4ag_exchange_timestamp_collector.py:144-217 | the first response that is not sound decides, for the reason that makes it unsound; else missing, conflicting and agreeing timestamps |
| ExchangeCollector.ChosenIsFirst | scripts/local/phase4ag_exchange_timestamp_collector.py:144-217 | the finding chosen is the one of the least field and response hash |
| ExchangeCollector.FoundExactly | scripts/local/phase4ag_exchange_timestamp_collector.py:144-217 | evidence is found exactly when all responses are of this market and outcome, all times parse, there is one at least, and all are the same time, the one reported |
| EvidenceCollection.Eligible | scripts/local/phase4ag_exchange_timestamp_collector.py:106-116 | the grouping loop refuses a repeated key and otherwise lists, per ticker in order of appearance, exactly the audited rows that lack a timestamp |
| EvidenceCollection.Collect | scripts/local/phase4ag_exchange_timestamp_collector.py:319-429 | the run publishes the specified status of every such ticker in order, and its evidence |
| EvidenceCollection.CollectEvidence | scripts/local/phase4ag_exchange_timestamp_collector.py:405-429 | the evidence rows are those of the successful status rows, in order |
| EvidenceCollection.CollectionOrderExactly | scripts/local/phase4ag_exchange_timestamp_collector.py:319-429 | status rows come by ticker, evidence by ticker, time and identity |
| EvidenceCollection.ResponsesExactly | scripts/local/phase4ag_exchange_timestamp_collector.py:334-376 | the responses on a ticker are its archive if it has one, and else at most the one that the network gives online |
| EvidenceCollection.ArchivesSuffice | scripts/local/phase4ag_exchange_timestamp_collector.py:334-376 | with an archive, or offline, the responses do not depend on the network |
| EvidenceCollection.InspectionExactly | scripts/local/phase4ag_exchange_timestamp_collector.py:319-403 | lineage is checked first, then there must be responses, and then their inspection is reported |
| EvidenceCollection.EvidenceExactly | scripts/local/phase4ag_exchange_timestamp_collector.py:405-422 | evidence carries the ticker and the time found, and its identity tells where, in which response and in which field |
| EvidenceCollection.StatusRowsExact | scripts/local/phase4ag_exchange_timestamp_collector.py:319-403 | the status has exactly one row per ticker that some audited row lacks a timestamp for |
| EvidenceCollection.EvidenceFoundExactly | scripts/local/phase4ag_exchange_timestamp_collector.py:334-376 | evidence on a ticker is found exactly when its settlement still has the hash of every capture and the responses, archived or else fetched, attest one time, the one of the evidence |
| ReadinessGate.ValidatePair | scripts/local/phase4ah_timestamp_readiness_gate.py:55-89 | the loop with its set of seen tickers returns the specified first fault |
| ReadinessGate.PairHoldsExactly | scripts/local/phase4ah_timestamp_readiness_gate.py:55-89 | a pair is accepted exactly when its hashes link and its evidence is, once each, what the successful status rows call for |
| ReadinessGate.EvidenceRowsAreDue | scripts/local/phase4ag_exchange_timestamp_collector.py:409-422 | with one row per ticker the published evidence is exactly what the gate will call for |
| ReadinessGate.CollectedPairIsAccepted | scripts/local/phase4ah_timestamp_readiness_gate.py:55-89 | what the collector publishes always passes the gate's pair check |
| ReadinessGate.JudgeReadiness | scripts/local/phase4ah_timestamp_readiness_gate.py:180-202 | rejects duplicate keys and otherwise compares the audits key by key and states the gate |
| ReadinessGate.TransitionExactly | scripts/local/phase4ah_timestamp_readiness_gate.py:92-118 | each transition is reported exactly for its change between the two audits of a key |
| ReadinessGate.GateRowsCoverKeys | scripts/local/phase4ah_timestamp_readiness_gate.py:180-201 | the gate has exactly one row per key of either audit |
| ReadinessGate.GateOrderExactly | scripts/local/phase4ah_timestamp_readiness_gate.py:180-202 | gate rows come by ticker and capture |
| ReadinessGate.EvidenceAddedIsReady | scripts/local/phase4ah_timestamp_readiness_gate.py:92-118 | evidence counts as added only to a settlement of unchanged hash that the new audit finds ready, where all authorities among the very facts audited, and in the evidence the row records, agree on its time |
| ReadinessGate.GateOpensExactly | scripts/local/phase4ah_timestamp_readiness_gate.py:121-142 | the gate opens fully exactly when no row is alarming and every audited settlement is ready |
| ReadinessGate.GateStateExactly | scripts/local/phase4ah_timestamp_readiness_gate.py:121-142 | the state of the gate in the program's order of alarms, and then by how much is ready |
| CanonicalizationProposal.Propose | scripts/local/phase4ai_canonicalization_proposal.py:119-273 | refuses on the first fault of its inputs and otherwise builds the specified proposal row by row |
| CanonicalizationProposal.InputFaultExactly | scripts/local/phase4ai_canonicalization_proposal.py:119-158 | a proposal is refused exactly for its validity, a broken link, a repeated key or a repeated ticker, in that order |
| CanonicalizationProposal.DispositionExactly | scripts/local/phase4ai_canonicalization_proposal.py:159-225 | the disposition of a row is the first of the thirteen obstacles in its way, and it is proposed if there is none |
| CanonicalizationProposal.RowComesFromGate | scripts/local/phase4ai_canonicalization_proposal.py:159-260 | every proposal row comes from a gate row and carries its own hash |
| CanonicalizationProposal.ProposalRowExactly | scripts/local/phase4ai_canonicalization_proposal.py:226-260 | a row records time and hash of its audit, the identity of its evidence, and the preconditions of the settlement as it stands |
| CanonicalizationProposal.ProposalOrderExactly | scripts/local/phase4ai_canonicalization_proposal.py:159-260 | there is one row per gate row, by ticker and capture |
| CanonicalizationProposal.ProposalStateExactly | scripts/local/phase4ai_canonicalization_proposal.py:98-116 | conflicts decide the state before drift, and drift before how much is proposed |
| ProposalReview.ReviewProposal | scripts/local/phase4aj_independent_proposal_review.py:210-474 | refuses on the first fault and otherwise attests every row and advances the eligible ones if approved |
| ProposalReview.ProposalFaultExactly | scripts/local/phase4aj_independent_proposal_review.py:210-281 | a review is refused exactly for its clock skew, a broken link, the proposal's validity, an execution capability, repetitions or a wrong row hash, in that order |
| ProposalReview.ReviewResultExactly | scripts/local/phase4aj_independent_proposal_review.py:282-346 | a proposed row is found wanting in lineage, evidence or settlement, the first that fails, and eligible if none does |
| ProposalReview.ApprovalStatusExactly | scripts/local/phase4aj_independent_proposal_review.py:160-207 | an approval is valid exactly when it is complete, binds proposal, manifest and each eligible hash once, authorises no execution, is in force, does not reject and names a reviewer; absent, rejecting, invalid and mistimed approvals have their exact conditions |
| ProposalReview.EligibleHashesExact | scripts/local/phase4aj_independent_proposal_review.py:368-370 | the eligible hashes are exactly those of the eligible rows |
| ProposalReview.ReviewOrderExactly | scripts/local/phase4aj_independent_proposal_review.py:283-366 | every row of the proposal is reviewed, by ticker |
| ProposalReview.TextSortedExactly | scripts/local/phase4aj_independent_proposal_review.py:368-370 | hashes are advanced in ascending order, none lost and none added |
| ReadinessEnvelope.BuildEnvelope | scripts/local/phase4ak_readiness_envelope.py:188-518 | refuses on the first fault and otherwise rebuilds every advanced row, its state and its deadline |
| ReadinessEnvelope.EnvelopeFaultExactly | scripts/local/phase4ak_readiness_envelope.py:188-290 | an envelope is refused exactly for a broken link, an execution authorisation, an approval without times, repetitions or other rows than the eligible ones, in that order |
| ReadinessEnvelope.ReadinessExactly | scripts/local/phase4ak_readiness_envelope.py:291-411 | an advanced hash is ready exactly when its rows are there and verified, its settlement is as the preconditions say and its evidence unchanged; else the first of these that fails is reported |
| ReadinessEnvelope.HandedOnExactly | scripts/local/phase4ak_readiness_envelope.py:503-512 | an open envelope hands on all advanced hashes in ascending order, any other none |
| ReadinessEnvelope.ReadyBeforeEveryDeadline | scripts/local/phase4ak_readiness_envelope.py:494-510 | a ready envelope has an approval and is built before the earliest deadline, which is the least of the three expiries |
| Funnel.StepsShareArtifacts | scripts/local/phase4ak_readiness_envelope.py:135-185 | unless two artifacts the steps took for each other collide, all have worked on the same audit, collection, evidence, gate and proposal |
| Funnel.ReviewRejectsOnlyDrift | scripts/local/phase4aj_independent_proposal_review.py:282-346 | a review that accepts its inputs refuses a proposed row if and only if its settlement has drifted; its other row checks never fail |
| Funnel.ReviewEndsExactly | scripts/local/phase4aj_independent_proposal_review.py:380-404 | the state of a review that accepts its inputs, decided by the time, by proposed settlements that moved and by the approval alone |
| Funnel.ReviewApprovesExactly | scripts/local/phase4aj_independent_proposal_review.py:380-404 | the review approves exactly in time, with something proposed of which nothing moved, under a complete approval in force of exactly these rows that authorises no execution, does not reject and names a reviewer |
| Funnel.EnvelopeRejectsOnlyDrift | scripts/local/phase4ak_readiness_envelope.py:298-381 | an envelope that accepts its inputs refuses a row of an approved review if and only if its settlement has drifted |
| Funnel.EnvelopeEndsExactly | scripts/local/phase4ak_readiness_envelope.py:414-433 | the state of the envelope of an approved review, decided by its approval, the time and moved settlements alone |
| Funnel.EnvelopeOpensExactly | scripts/local/phase4ak_readiness_envelope.py:414-433 | the envelope opens exactly after an approval by the review, in time, under an approval that still holds, when nothing proposed has moved |
| Provenance.ReadyRowProvenance | scripts/local/phase4ak_readiness_envelope.py:298-381 | behind a ready row stand one time and one settlement: all exchange responses stated that time to the collector, all authorities in the new audit agreed on it, and the settlement's hash never changed in between |
| Provenance.CommittedTimestampProvenance | scripts/local/phase4al_offline_protocol_simulation.py:231-337 | a commit follows only a complete approval, in force at review, envelope and commit, that does not reject; every committed time was written over NULL and before proposal, review and approval expired; it is the one time that all exchange responses stated and all audited authorities agreed on, and the settlement's hash at the commit is the one at baseline, collection, audit and proposal; nothing else changed |
| Provenance.RequestOf | scripts/local/phase4al_offline_protocol_simulation.py:241-257 | every handoff has its request to the protocol |
| Provenance.CandidateOrderExactly | scripts/local/phase4al_offline_protocol_simulation.py:241-247 | the protocol meets the candidates by ticker |
| Passage.AttestedEvidenceIsAdded | scripts/local/phase4ah_timestamp_readiness_gate.py:92-118 | an undisturbed settlement that lacked a timestamp has evidence added exactly when the collector's responses attest one time, which the new audit then reports; otherwise it stays blocked as it was |
| Passage.WaitingIsProposed | scripts/local/phase4ai_canonicalization_proposal.py:159-208 | over an open gate such a settlement is proposed exactly then, with that time |
| Passage.SharedTickerIsNeverReviewed | scripts/local/phase4aj_independent_proposal_review.py:255-258 | a proposal over an audit with two captures of one ticker is refused by every review |
| Passage.CandidatesAreDistinct | scripts/local/phase4al_offline_protocol_simulation.py:241-247 | an open envelope gives the protocol every row, once each: the duplicate check never refuses it |
| Passage.UndisturbedCommitsExactly | scripts/local/phase4al_offline_protocol_simulation.py:258-337 | over settlements undisturbed since the proposal an open envelope commits in time if and only if every one is NULL; an empty string rolls the whole transaction back by its row count |
| HonestRun.CohortQualifies | scripts/local/phase4ak_readiness_envelope.py:135-185 | the assumptions of an honest run can be met: any cohort of distinct tickers qualifies whose settlements are as attributed, binary, without timestamps, fresh and unevaluated, under a named reviewer and row hashes that do not collide |
| HonestRun.SceneIsPublished | scripts/local/phase4ak_readiness_envelope.py:135-185 | a run over any cohort of distinct tickers, whose row hashes do not collide, in which every step reads what the step before published is accepted by every step, so the results about linked steps apply to it |
| HonestRun.HonestRunCommitsExactly | scripts/local/phase4al_offline_protocol_simulation.py:231-337 | from collection to commit: such a run over any undisturbed cohort without timestamps commits in time if and only if the exchange's responses attest a time for some settlement and all attested ones are NULL; it then writes exactly the attested ones, each with its time |
| SettlementTransaction.SimulationDatabase.Simulate | scripts/local/phase4al_offline_protocol_simulation.py:241-355 | the transaction with its injected failures reports as specified, and a report other than a commit leaves the database as it was |
| SettlementTransaction.SimulationDatabase.Revalidate | scripts/local/phase4al_offline_protocol_simulation.py:275-290 | the revalidation loop stops at the first candidate that is at fault |
| SettlementTransaction.SimulationDatabase.UpdateAll | scripts/local/phase4al_offline_protocol_simulation.py:294-314 | the update loop applies every swap in order and counts the rows it changed |
| SettlementTransaction.SimulationDatabase.VerifyPostconditions | scripts/local/phase4al_offline_protocol_simulation.py:322-327 | passes exactly when every candidate's row holds its proposed time |
| SettlementTransaction.AffectedCountsHits | scripts/local/phase4al_offline_protocol_simulation.py:294-319 | the row count equals the number of candidates exactly when every candidate hits its row |
| SettlementTransaction.FullSwap | scripts/local/phase4al_offline_protocol_simulation.py:294-332 | when all hit, the swaps settle exactly the candidates, and both later checks pass |
| SettlementTransaction.EndsExactly | scripts/local/phase4al_offline_protocol_simulation.py:241-355 | every ending from the table and the request alone: refusals in order, injected failures at their stages, the first candidate that does not pass with its reason, and the row count |
| SettlementTransaction.CommitsExactly | scripts/local/phase4al_offline_protocol_simulation.py:258-337 | the protocol commits if and only if candidates are distinct, ready, in time, uninjured and all over NULL with equal binary result, update time and lineage; then exactly their times change, and as many rows are reported as affected as could be swapped |
| SettlementTransaction.LateChecksNeverFail | scripts/local/phase4al_offline_protocol_simulation.py:318-332 | no run ends in a postcondition mismatch or a change of unrelated state |
| SettlementTransaction.RevalidatedMissesRollBack | scripts/local/phase4al_offline_protocol_simulation.py:275-319 | revalidated candidates roll back by row count exactly when one is over an empty string, a NULL result or another update time |
| PairedPublication.PublicationDirectory.PublishPair | scripts/local/phase4al_offline_protocol_simulation.py:449-503 | publishes both files, or fails at exactly the first step whose fault strikes and leaves the specified directory |
| PairedPublication.PublicationDirectory.WriteBoth | scripts/local/phase4al_offline_protocol_simulation.py:472-476 | writes both temporaries exclusively, or returns the step that failed and leaves the undoing to its caller |
| PairedPublication.PublicationDirectory.MoveBothAside | scripts/local/phase4al_offline_protocol_simulation.py:477-480 | moves existing destinations to backups, or returns the step that failed and leaves the undoing to its caller |
| PairedPublication.PublicationDirectory.RenameBoth | scripts/local/phase4al_offline_protocol_simulation.py:481-483 | renames both temporaries into place, or on failure undoes the call and leaves the specified directory |
| PairedPublication.FailureRestoresBoth | scripts/local/phase4al_offline_protocol_simulation.py:492-503 | without stale backups a failure at any step leaves both destinations exactly as before, absent ones included |
| PairedPublication.FailureRestoresExactly | scripts/local/phase4al_offline_protocol_simulation.py:492-503 | a failure at a given step leaves a destination as it was if and only if this call had moved it aside or no stale backup differs from it |
| PairedPublication.EveryFailureSparesExactly | scripts/local/phase4al_offline_protocol_simulation.py:492-503 | whatever faults strike, every failure leaves a destination as it was, if and only if no stale backup of it differs from it or the call is refused at once, which a caller can check beforehand |
| PairedPublication.StaleBackupsReplaceCurrentFiles | scripts/local/phase4al_offline_protocol_simulation.py:492-503 | a concrete directory whose two current files a failing first write replaces by stale ones |
| CrashRecovery.PairValidExactly | scripts/local/phase4an_crash_recovery_simulation.py:147-162 | a pair is valid exactly when both files are there, each has its own hash, and the proof is of this receipt |
| CrashRecovery.PairsDoNotMix | scripts/local/phase4an_crash_recovery_simulation.py:147-162 | receipts of different operations differ, and a receipt with another operation's proof forms a valid pair only if these two receipts collide |
| CrashRecovery.CleaningEmpties | scripts/local/phase4an_crash_recovery_simulation.py:165-176 | cleaning leaves no publication file, whatever files were there |
| CrashRecovery.PublishingFromEmpty | scripts/local/phase4an_crash_recovery_simulation.py:122-144 | publishing into a clean directory leaves exactly this operation's receipt and proof |
| CrashRecovery.CrashLeavesOnePair | scripts/local/phase4an_crash_recovery_simulation.py:122-144 | wherever the publication dies, two files in place are of one operation, itself or the superseded one; complete, they are its own, with the superseded pair in the backups |
| CrashRecovery.CompleteRecoverySettles | scripts/local/phase4an_crash_recovery_simulation.py:244-275 | a recovery that completes leaves a committed row with its valid pair and nothing else, or an untouched row with no file |
| CrashRecovery.EveryCrashIsRecovered | scripts/local/phase4an_crash_recovery_simulation.py:215-275 | after a crash at any step and any number of recoveries dying anywhere, one complete recovery settles: the proposed time and exactly this operation's receipt and proof when the crash came after the commit, the row as before and no file otherwise |
| CrashRecovery.Workspace.PerformSteps | scripts/local/phase4an_crash_recovery_simulation.py:122-144 | performs the file operations in order as far as the process lives |
| CrashRecovery.Workspace.Operate | scripts/local/phase4an_crash_recovery_simulation.py:215-242 | begin, swap, commit and publication, dying anywhere; an uncommitted swap does not survive |
| CrashRecovery.Workspace.Simulate | scripts/local/phase4an_crash_recovery_simulation.py:179-292 | refuses a settled row, fails the swap over an empty string or dies before it, and otherwise ends settled after any crash and any dying recoveries |
| Contention.StepIsConsistent | scripts/local/phase4ao_concurrency_proof.py:112-117 | every action of every actor keeps the committed table explained by the durable swaps, and an open copy by its own |
| Contention.RunIsConsistent | scripts/local/phase4ao_concurrency_proof.py:154-209 | so does every schedule |
| Contention.NoLostUpdates | scripts/local/phase4ao_concurrency_proof.py:154-225 | in every interleaving no row takes two swaps, a swapped row holds that swap's time, and everything else is preserved |
| Contention.FirstWinnerStays | scripts/local/phase4ao_concurrency_proof.py:154-225 | once a swap is durable no continuation changes its row or makes another swap of it durable |
| Contention.SwapThenReplay | scripts/local/phase4ao_concurrency_proof.py:180-199 | with the lock free a swap of a NULL row takes effect whatever was read before, and a replay or rival swap affects nothing |
| Contention.InterleavedTransactionIsSerial | scripts/local/phase4ao_concurrency_proof.py:154-209 | a transaction begun with the lock free and ended by its own actor leaves the same database as without anything the others did in between |
| Contention.TransactionIsAllOrNothing | scripts/local/phase4ao_concurrency_proof.py:154-209 | begun with the lock free, a rolled-back transaction leaves no trace, and a committed one exactly what its own swaps do one by one with nobody else there, whatever the others do in between |
| Contention.ReadsAreClean | scripts/local/phase4ao_concurrency_proof.py:86-90 | a read changes nothing and sees only durable swaps, save in one's own open transaction |
| Contention.SharedDatabase.Update | scripts/local/phase4ao_concurrency_proof.py:112-117 | the conditional update is one step of the state machine |
| Contention.SharedDatabase.Play | scripts/local/phase4ao_concurrency_proof.py:154-209 | both actors' moves in each scenario leave at most the first swap, with the specified events and counters over a NULL row and no success over any other |
| Contention.SharedDatabase.Simulate | scripts/local/phase4ao_concurrency_proof.py:120-254 | each scenario succeeds exactly when the row exists and is NULL, with its counters and events, and writes the first time only |
| PropertyModel.EvaluateCase | scripts/local/phase4am_property_invariant_model.py:147-197 | the evaluation on copied rows, stamped one by one, gives the specified result |
| PropertyModel.CommitsExactly | scripts/local/phase4am_property_invariant_model.py:147-197 | a case commits exactly when every precondition holds, strictly before expiry, and the swap affects each row of its table once; committing stamps every row and changes nothing else, any other ending keeps the rows |
| PropertyModel.EndsExactly | scripts/local/phase4am_property_invariant_model.py:147-197 | a case that does not commit is refused for the first precondition it does not meet, or rolled back for its row count or its postcondition, with these very counts and transitions |
| PropertyModel.InvariantsExactly | scripts/local/phase4am_property_invariant_model.py:223-249 | the check reports each invariant exactly when a result breaks it |
| PropertyModel.NoCaseBreaksAnInvariant | scripts/local/phase4am_property_invariant_model.py:147-249 | no case breaks an invariant; evaluation raises only on an unhashable ticker, the check exactly on rows without a length |
| PropertyModel.ShrinkCounterexample | scripts/local/phase4am_property_invariant_model.py:252-280 | terminates; the result still fails, none of its simplifications does, and it differs from the original by offered simplifications only |
| PropertyModel.ShrunkIsMinimal | scripts/local/phase4am_property_invariant_model.py:252-280 | greedy shrinking preserves failure and ends at a local minimum |
| PropertyModel.ShrinkingStepsExactly | scripts/local/phase4am_property_invariant_model.py:252-280 | each step takes, of the offered simplifications that still fail, one whose serialisation comes first, and shrinking stops when none fails |
| PropertyModel.OffersExactly | scripts/local/phase4am_property_invariant_model.py:258-274 | what is offered: the first of several rows alone, or a switch at its ordinary value that does not have it |
| PropertyModel.CandidatesAreSmaller | scripts/local/phase4am_property_invariant_model.py:258-274 | every offered simplification has strictly fewer simplifications of its own |
| NearMoneySelection.SelectNearMoney | archive/workspace-reference/phase3bc_r3.py:1170-1199 | the loop with its counters selects the greedy choice of the sorted list, and every count it reports is true, per symbol and liquidity-first ones included |
| NearMoneySelection.TallyLiquid | archive/workspace-reference/phase3bc_r3.py:1170-1199 | counts the liquidity-first candidates of each symbol |
| NearMoneySelection.SortedIsOrdered | archive/workspace-reference/phase3bc_r3.py:1338-1349 | sorting keeps the candidates, and of two the earlier has the higher liquidity priority, or at equal priority the earlier close, then the smaller distance, the higher score, the tighter spread and the lesser ticker |
| NearMoneySelection.SelectionExactly | archive/workspace-reference/phase3bc_r3.py:1170-1199 | in that order each candidate is selected exactly if fewer than the limits are selected before it of its symbol and of its window: one passed over has a full symbol or window, all of it at least as good |
| NearMoneySelection.WindowsExactly | archive/workspace-reference/phase3bc_r3.py:1352-1356 | two candidates share a window exactly when their close times are the same, or both have none and the second parts of their tickers are the same |
| NearMoneySelection.GreedyIsFeasible | archive/workspace-reference/phase3bc_r3.py:1173-1182 | the greedy choice respects both caps everywhere |
| NearMoneySelection.GreedyReachesCapacity | archive/workspace-reference/phase3bc_r3.py:1170-1182 | it takes exactly the sum over symbols of the lesser of the symbol cap and the sum over windows of the lesser of the window cap and the count |
| NearMoneySelection.NoSelectionTakesMore | archive/workspace-reference/phase3bc_r3.py:1170-1182 | no selection within the caps takes more than that |
| NearMoneySelection.GreedyStaysAhead | archive/workspace-reference/phase3bc_r3.py:1170-1182 | greedy takes at least as many candidates as any selection within the caps |
| NearMoneySelection.GreedyAheadOnEveryPrefix | archive/workspace-reference/phase3bc_r3.py:1170-1182 | that lead holds after every candidate of the order, not only at the end |
| NearMoneySelection.GreedyIsWorthMost | archive/workspace-reference/phase3bc_r3.py:1170-1182 | for every non-negative worth that never rises along the order, no selection within the caps is worth more |
| NearMoneySelection.MostLiquidTaken | archive/workspace-reference/phase3bc_r3.py:1184-1191 | no selection within the caps takes more liquidity-first candidates |
| RoundRobinSelection.ExactTickers | scripts/supported_weather_snapshot_forecast.py:127-142 | the result is the round-robin order of the distinct tickers cut at the limit, of length the lesser of both, without duplicates and fair to the series |
| RoundRobinSelection.TickersExactly | scripts/supported_weather_snapshot_forecast.py:131-133 | the tickers are those that some value names between blank ends, each once, in the order in which they are first named |
| RoundRobinSelection.SeriesExactly | scripts/supported_weather_snapshot_forecast.py:135-136 | the series of a ticker is what stands before its first dash, or all of it |
| RoundRobinSelection.GroupBySeries | scripts/supported_weather_snapshot_forecast.py:134-136 | every series has exactly its tickers in input order |
| RoundRobinSelection.ServeRound | scripts/supported_weather_snapshot_forecast.py:138-141 | a pass over the series removes at least one ticker and stops at the limit |
| RoundRobinSelection.SeriesOrderExact | scripts/supported_weather_snapshot_forecast.py:139-139 | the passes go over exactly the series that occur, each once, in ascending order |
| RoundRobinSelection.ProgressIsFair | scripts/supported_weather_snapshot_forecast.py:138-142 | at every moment each series has given a prefix of its tickers, and counts differ by at most one unless the smaller is exhausted |
| RoundRobinSelection.ProgressLength | scripts/supported_weather_snapshot_forecast.py:138-142 | the selection is complete exactly when every series is exhausted |
| RoundRobinSelection.RoundRobinLength | scripts/supported_weather_snapshot_forecast.py:138-142 | the full round-robin order holds as many tickers as were given |
| WalkForward.Evaluate | scripts/crypto_distribution_walk_forward.py:52-106 | the loop gives every validation row the prediction that `WalkForward.PredictionExactly` spells out |
| WalkForward.CalibrationExactly | scripts/crypto_distribution_walk_forward.py:558-570 | the calibration rows of a row are, in order, exactly the earlier rows settled by its forecast that share its symbol and band if there are ten, else those that share its symbol if there are ten, else all of them; the level says which |
| WalkForward.PredictionExactly | scripts/crypto_distribution_walk_forward.py:56-106 | level, count, bias, scale, degrees, mixture and the three probabilities of a prediction all come from exactly those rows and from what is known of the row |
| WalkForward.CutExactly | scripts/crypto_distribution_walk_forward.py:53-54 | validation begins at the given fraction of the rows rounded down, but never before the second row |
| WalkForward.NoLookahead | scripts/crypto_distribution_walk_forward.py:56-106 | two runs that agree on what row i knows and on earlier rows settled by then predict the same for row i, whatever else differs |
| WalkForward.EvaluateEvents | scripts/crypto_event_multiclass_walk_forward.py:88-127 | the loop gives every complete event of the validation part the prediction that `WalkForward.EventPredictionExactly` spells out |
| WalkForward.EventPredictionExactly | scripts/crypto_event_multiclass_walk_forward.py:91-127 | level, count and every bucket probability of an event come from exactly the earlier events that calibrate it and from its own buckets |
| WalkForward.EventNoLookahead | scripts/crypto_event_multiclass_walk_forward.py:91-127 | two runs that know the same of event i and its buckets, and of earlier events settled by then, give its buckets the same probabilities |
| WalkForward.UnsettledRowsAreIgnored | scripts/crypto_distribution_walk_forward.py:379-382 | removing rows not yet settled changes no history |
| WalkForward.LocationBias | scripts/crypto_distribution_walk_forward.py:385-404 | the shrunk bias stays within one standard deviation |
| WalkForward.LocationBiasExactly | scripts/crypto_distribution_walk_forward.py:385-404 | the bias is the total residual over thirty more than their number, cut off at one either way |
| WalkForward.ResidualsExactly | scripts/crypto_distribution_walk_forward.py:483-486 | the residuals are, in order, those of exactly the rows with a positive sigma and a realized move |
| WalkForward.FitMixture | scripts/crypto_distribution_walk_forward.py:791-847 | the thirty rounds with their inner loop compute the specified mixture |
| WalkForward.MixtureExactly | scripts/crypto_distribution_walk_forward.py:791-847 | fewer than four residuals give the standard mixture; else thirty rounds, each from the shares of the one before, lead from the quartiles to the mixture, its components in order |
| WalkForward.MixtureIsUsable | scripts/crypto_distribution_walk_forward.py:791-847 | whatever the rows, means are in order, widths are bounded, and the weight lies between the prior's two shares, themselves strictly between 0 and 1 |
| RainForecasts.ExpandingSamples | scripts/cliaus_historical_monthly_harvest.py:98-123 | one sample per complete month after the training months, each from its past; fails exactly when a month must be forecast from no history |
| RainForecasts.MonthOrderExact | scripts/cliaus_historical_monthly_harvest.py:154-163 | the months are exactly those with readings for at least 27 days, all before today, each once, in calendar order |
| RainForecasts.PredictExactly | scripts/cliaus_historical_monthly_harvest.py:126-132 | the forecast counts the mean of the calendar month's own years once a year and the global mean four times |
| RainForecasts.HistoryAt | scripts/cliaus_historical_monthly_harvest.py:98-123 | the history of a month is its calendar month and the rain after the cutoff |
| RainForecasts.RainAdds | scripts/cliaus_historical_monthly_harvest.py:98-123 | rain of records put together is the sum of theirs, in all and up to the cutoff |
| RainForecasts.RainOfOne | scripts/cliaus_historical_monthly_harvest.py:98-123 | a reading's rain counts in its own month only, and up to the cutoff only if its day is not later |
| RainForecasts.HistoryAdds | scripts/cliaus_historical_monthly_harvest.py:126-132 | totals and a calendar month's own years of histories put together are those of the parts |
| RainForecasts.HistoryOfOne | scripts/cliaus_historical_monthly_harvest.py:126-132 | a month counts with its remaining rain, and among its calendar month's years only |
| RainForecasts.ForecastIgnoresLaterRain | scripts/cliaus_historical_monthly_harvest.py:98-132 | equal rain before the month and up to its cutoff gives an equal forecast, whatever fell later |
| RainForecasts.ScoreSample | scripts/cliaus_walk_forward_identity_audit.py:66-104 | each threshold is scored before its own probability and outcome are recorded |
| RainForecasts.ScoreSamples | scripts/cliaus_walk_forward_identity_audit.py:60-105 | the loops give every sample its specified scores from the samples before it |
| RainForecasts.ScoreExactly | scripts/cliaus_walk_forward_identity_audit.py:66-104 | a score spelled out: squared errors, a correction from twelve earlier samples on, an interval of 1.281552 deviations around the biased prediction |
| RainForecasts.PriorAt | scripts/cliaus_walk_forward_identity_audit.py:66-104 | what a correction is fitted on: each earlier sample with the probability it was given at the time and its own outcome |
| RainForecasts.ResidualAt | scripts/cliaus_walk_forward_identity_audit.py:60-105 | the residuals are actual less predicted, in order |
| RainForecasts.TotalAdds | scripts/cliaus_walk_forward_identity_audit.py:60-105 | totals of lists put together are the sums of theirs |
| RainForecasts.MeanExactly | scripts/cliaus_walk_forward_identity_audit.py:60-105 | the mean times the count is the total, and none makes a mean of 0 |
| RainForecasts.ProbabilitiesIgnoreOutcome | scripts/cliaus_walk_forward_identity_audit.py:66-105 | a sample's probabilities depend on earlier samples and its own prediction only |
| RainForecasts.RowOf | scripts/cliaus_walk_forward_identity_audit.py:66-105 | each sample has its seven rows in order, one per threshold |

## Left out

- Floating point: numbers are reals, so rounding, overflow and not-a-number are not modelled.
- Square roots, logarithms, densities, the incomplete beta function, isotonic fits and the volatility and degree-of-freedom estimators are parameters; only a non-negative density and a log that never falls are used of them.
- Upper and lower case are those of ASCII letters; blanks are those of Unicode that `str.strip` removes.
- SHA-256 and JSON encoding: hashes are parameters, one per kind of artifact.
- ISO times: parsing is a parameter and times are integers; `normalized` times are texts compared for equality.
- SQL, SQLite pragmas, file-system races, fsync, path and inode identity, HTTP transport, retries and redirects, argument parsing.
- Tables are maps keyed by ticker, so tickers are unique; rows keep the columns a protocol never names in one text.
- The publication of the other phases' pairs, which differs from the modelled one only in names or by having no rollback.
- Renames are atomic, and a write that fails leaves no file, except in `PairedPublication`, where it may leave any content. File names are structured values instead of formatted texts.
- Artifacts are well typed: missing or mistyped JSON fields, schema strings and rows-hash checks of the settlement steps are not modelled, except in `PropertyModel`, whose cases are arbitrary JSON objects.
- ArtifactHistory.ValidateExact: entries and manifests are well-typed records, because the checks of field types add only easy cases.
- FrozenGate.PassedGateBeatsEveryBelief: the polytope's information test, whose body is outside the modelled files, is a Boolean of the row.
- IntervalScoring.OptimisticBrierIsLowest: assumes a vector with unit sum inside the quotes; bounds admitted only by the 1e-9 slack of the feasibility test contain none, and for those nothing is claimed.
- NearMoneySelection.SelectNearMoney: building candidates from markets, prices and liquidity hints, and the counters of skipped markets, are not modelled.
- NearMoneySelection.SortedIsOrdered: window keys are structured, so the text of a closing time never equals a part of a ticker, and undated candidates sort as if closing at one last second.
- RoundRobinSelection.ExactTickers: list items are texts; converting other JSON values to text is not modelled.
- WalkForward.NoLookahead: the confidence figures, trade results and reports computed from a prediction are not modelled; the forecasting routines see of the forecast row only its known part, by their type.
- RainForecasts.ForecastIgnoresLaterRain: the two records have the same dates, since which months count as complete depends on the dates present.
- RainForecasts.ScoreSamples: metrics and reliability bands over the scores are not modelled.
- ProposalReview.ReviewProposal: counts and paths in the published artifacts are not modelled, and a failing lineage check is not named.
- EvidenceCollection.Collect: archives and the outcomes of bounded requests are parameters; capture lists, counts and provenance hashes of the status are not modelled.
- TimestampAudit.Audit: the non-empty fields of a raw exchange record and the age of a source are parameters, and the lineage checks before the loop are not modelled.
- HonestRun.HonestRunCommitsExactly: every settlement of the cohort is without a timestamp, attributed, fresh and unevaluated; for cohorts with others, `Funnel` and `Passage` give the exact condition of each step.
- Passage.AttestedEvidenceIsAdded: assumes that the audit reads back a time the collector wrote as that same time.
- Contention.SharedDatabase.Simulate: the database lock is one flag; lock timeouts that succeed after waiting are not modelled.
- CrashRecovery.Workspace.Simulate: the isolation checks of the work directory and the production database's identity are not modelled.
- The gates 4AA, 4AQ and 4AX, static scanners, report rendering, previews and migrations: they would add only easy members.
