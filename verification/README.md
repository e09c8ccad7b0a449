# Verified models of the audit log, the policy language and their neighbours

This project models the parts of Verixa where correctness is an argument and not
a reading: a hash-chained audit log written by racing writers, a policy language
with a static analyser that makes claims about every request, caches and limiters
whose guarantees are about whole runs, and text formats that must read back. Each
file is one module.

| Files | What they model |
|---|---|
| `JsText`, `CanonicalForm` | JavaScript strings as UTF-16 code units, their UTF-8 bytes, and the text an entry's hash is taken over |
| `AuditChain`, `AuditMetadata` | entries, linking, verification, what a head hash commits to; bounds and escapes for metadata |
| `AppendProtocol`, `AppendProgress` | single and batch writers racing for the head, step by step; what makes an attempt fail, and that nothing else does |
| `BatchedAuditWriter`, `AuditPipeline`, `PipelineProgress` | the bounded queue and its drain; the two together; when a queued batch is written |
| `ChainWalk`, `AnchoredLog` | paged verification of a stored log, anchoring its head, comparing a walk with the receipts |
| `Conditions`, `PolicyLinter`, `DatedRequests`, `PolicyMapper` | condition trees and their meaning, combining algorithms, the linter and what its verdicts mean with and without dates, saving and loading policies |
| `CacheKeys`, `InMemoryPolicyCache`, `RedisPolicyCache` | the two policy caches and their generation counters |
| `RateLimit`, `BalanceMonitor` | the in-process rate limiter and the funding monitor |
| `CsvExport`, `Paging`, `PeerSuffix` | the CSV export and a reader for it, keyset paging, pnpm peer suffixes |

Two conventions run through all of it. A component that changes state is a class
whose methods are proved equal to one step of a function on values, and the
theorems are about every sequence of steps. Library functions (the digest, ISO
dates, JSON text, `Date.parse`, the ledger) are parameters, so the theorems hold
for whatever they compute. No theorem assumes that the digest is injective: a
result that rests on it says that the logs agree or that two different canonical
forms with one digest are among their entries.

## Findings

Seven promises of the code's own comments hold only under a condition. Each is
proved with its exact condition and with an input on which it fails.

- **A walk over a growing log can raise a false alarm.** The comment at
  `packages/audit/application/use-cases/verify-audit-chain.ts:126-128` calls
  growth harmless. It is, unless the range starts beyond the head when the seed
  is read and the log has reached it by the next read (`ChainWalk.Walk`, an
  equivalence). A walk from 2 over a log that is empty at first and then gets two
  entries reports a break in a valid chain (`ChainWalk.FalseAlarm`).
- **Not every reported conflict is real.** "No false positives by construction"
  (`packages/authorization/application/services/policy-linter.ts:176-179`) holds
  for exactly those pairs whose requirements can be met together, path by path, by
  one scalar or by one date (`DatedRequests.ConflictIsRealExactly`). Where no
  attribute is a date this says that each rule is consistent by itself
  (`PolicyLinter.DatelessConflictIsRealExactly`). A rule that asks one attribute to
  be two texts is reported against any opposite rule on another attribute, and
  some request matches both only if the texts spell one instant
  (`DatedRequests.TwoTextsConflict`). Conversely a clean lint says nothing about
  requests with dates (`PolicyLinter.DatesDefeatTheLint`).
- **Canonical forms collide on unpaired surrogates.** Two contents print alike
  exactly when they have the same scalar values after U+FFFD has replaced
  unpaired surrogates, metadata pair by pair in printed order
  (`CanonicalForm.CanonicalExact`); two different actor ids do
  (`CanonicalForm.UnpairedSurrogatesCollide`).
- **Numbers that are not finite do not survive saving.** A policy reloads exactly
  when all its numeric literals are finite (`PolicyMapper.SavedPolicyReloads`); one
  that compares with Infinity does not (`PolicyMapper.InfinityIsLost`).
- **A settle can stop early.** A pass starts a drain or joins the one in flight.
  `settle` stops after it exactly when, during the pass, `record` accepted at least
  as many commands as the awaited batch holds
  (`BatchedAuditWriter.SettleStopsExactly`). That is at once if the drain in flight
  has already disposed of its batch, and it can be after a pass that succeeded
  (`BatchedAuditWriter.RefillStopsSettle`).
- **What was accepted may be reported instead of written.** "Everything accepted will
  be written"
  (`packages/audit/infrastructure/persistence/batched-audit-writer.ts:132-133`) fails
  for the batches whose drain runs out of attempts, over every interleaving exactly
  for those (`BatchedAuditWriter.ReportedExactly`). Left alone, `settle` writes all
  that was queued if and only if each of its passes has an attempt that commits among
  those allowed (`BatchedAuditWriter.EverythingWrittenExactly`). In one run the only
  command is reported after two failures (`BatchedAuditWriter.AcceptedIsReported`).
  On the shared log each of those attempts met a fault or lost the race to another
  call's insert (`PipelineProgress.ReportedWasThwarted`). Either way no command is lost
  from sight (`AuditPipeline.AcceptedReachTheLog`).
- **A superseded cache entry can stay reachable.** Both policy caches say that an
  invalidated entry is unreachable at once
  (`packages/authorization/infrastructure/cache/in-memory-policy-cache.ts:41-46`,
  `packages/authorization/infrastructure/cache/redis-policy-cache.ts:35-37`). Over the
  resource types in use that holds if and only if none of them is another one followed
  by the separator (`InMemoryPolicyCache.LikeDeletionExactly`,
  `RedisPolicyCache.NoStaleAnswerExactly`). For any other pair of types, what was
  cached for the longer one and then invalidated answers for the shorter one
  (`InMemoryPolicyCache.SupersededAnswers`, `RedisPolicyCache.SupersededAnswers`), such
  as `a|b` and `a` (`InMemoryPolicyCache.SeparatorConfusesKeys`).

Smaller disagreements between code and comments: a failed batch leaves the queue
(`packages/audit/infrastructure/persistence/batched-audit-writer.ts:366`), so the
remark at line 300 about a pass that removed nothing is stale and `settle` goes on
past a failed batch (`BatchedAuditWriter.BatchedWriter.Settle`; the summary at line
295 says it stops); and after a recovery
`#lastAlertedKind` is `recovered`, not cleared as its comment says
(`packages/stellar-anchor/infrastructure/balance-monitor.ts:153`), which changes
no alert (`BalanceMonitor.ClearingChangesNoAlert`). The model follows the code.

## Model

| member | source | states |
|---|---|---|
| JsText.Utf8Exact | packages/audit/domain/value-objects/audit-metadata.ts:276-286 | two texts have the same UTF-8 bytes exactly when they have the same scalar values; well-formed texts exactly when they are equal |
| JsText.UnpairedIsReplaced | packages/audit/domain/value-objects/audit-metadata.ts:276-286 | a surrogate without a partner is encoded as EF BF BD |
| JsText.LessExactly | packages/audit/domain/value-objects/audit-metadata.ts:235-236 | the order of sorted keys: a proper prefix first, otherwise the smaller code unit at the first difference |
| CanonicalForm.PrintMetadata | packages/audit/domain/value-objects/audit-metadata.ts:235-245 | the loop that pushes one segment per sorted key prints the metadata form the decoder below reads back |
| CanonicalForm.DecodeRecovers | packages/audit/domain/entities/audit-log-entry.ts:155-174 | an independent decoder recovers the bytes of all seven fields and every metadata pair from any printed form, whatever separators, digits or newlines the values hold |
| CanonicalForm.DecodedFields | packages/audit/domain/entities/audit-log-entry.ts:155-174 | the decoder finds, in this order, the number, the action, actor and subject, the instant and the predecessor's hash, and with every metadata key its value |
| CanonicalForm.CanonicalExact | packages/audit/domain/entities/audit-log-entry.ts:155-174 | two contents have one canonical form if and only if they are the same record: equal fields, up to an absent or empty actor or subject, every text read as its scalar values, and equal metadata pairs in printed order |
| CanonicalForm.CanonicalInjective | packages/audit/domain/entities/audit-log-entry.ts:155-174 | for well-formed text the form is injective on content and does not depend on the order in which metadata was inserted |
| CanonicalForm.UnpairedSurrogatesCollide | packages/audit/domain/entities/audit-log-entry.ts:172-174 | two different actor ids made of unpaired surrogates give the same bytes to hash |
| CanonicalForm.SortKeysProperties | packages/audit/domain/value-objects/audit-metadata.ts:235-236 | sorting keeps exactly the keys and puts them in ascending code-unit order |
| AuditChain.VerifyChainFrom | packages/audit/domain/entities/audit-log-entry.ts:297-322 | the loop over a running predecessor reports exactly the first break of the run, and the next rows say what that is |
| AuditChain.FirstBreakNone | packages/audit/domain/entities/audit-log-entry.ts:297-341 | verification passes exactly the runs in which every entry has the hash of its content, links to its predecessor and is numbered after it |
| AuditChain.FirstBreakSome | packages/audit/domain/entities/audit-log-entry.ts:297-322 | a reported break is at a position before which everything is intact; the reason is an altered content if the stored hash is not the digest of the content, else a broken link if the entry does not name its predecessor's hash, else a gap if it is not numbered after it |
| AuditChain.BreaksAtIsFirst | packages/audit/domain/entities/audit-log-entry.ts:297-322 | conversely, whatever of these goes wrong first is what is reported |
| AuditChain.FirstBreakExactly | packages/audit/domain/entities/audit-log-entry.ts:297-322 | a break is reported if and only if it says what goes wrong where the first thing does |
| AuditChain.AlteredIsReported | packages/audit/domain/entities/audit-log-entry.ts:303-305 | giving an entry of a verified log another record under its old hash is reported as altered content, or the two records collide |
| AuditChain.CutIsReported | packages/audit/domain/entities/audit-log-entry.ts:308-317 | cutting entries out of a verified log is reported as a broken link at the entry behind the cut, as a gap if two entries have one hash, and not at all if the cut reaches the end |
| AuditChain.RenumberedIsReported | packages/audit/domain/entities/audit-log-entry.ts:312-317 | an entry with a fresh hash and the right link but another number is reported as a gap |
| AuditChain.FirstBreakOfConcat | packages/audit/domain/entities/audit-log-entry.ts:287-322 | verifying a run in two parts, the second seeded with the end of the first, finds what verifying it at once finds |
| AuditChain.VerifiedIsConsecutive | packages/audit/domain/entities/audit-log-entry.ts:297-322 | a run that verifies is numbered without gaps from its seed on |
| AuditChain.HeadCommits | packages/audit/domain/entities/audit-log-entry.ts:155-174 | two non-empty logs that verify and end in one hash have equal length and the same record at every position, or they contain two different canonical forms with one digest |
| AuditChain.LinkBatch | packages/audit/application/use-cases/record-audit-event.ts:177-190 | the loop that moves its tail builds each entry on the one before it |
| AuditChain.LinkAllVerifies | packages/audit/domain/entities/audit-log-entry.ts:184-207 | whatever the drafts, a linked batch verifies after the entry it was linked to |
| AuditChain.LinkAllBuilds | packages/audit/domain/entities/audit-log-entry.ts:184-207 | a linked batch holds its drafts' content, one entry each and in the order given |
| AuditMetadata.Validate | packages/audit/domain/value-objects/audit-metadata.ts:124-183 | the loop reports too many keys or the first key with a problem, a value that is no string included, and otherwise returns a copy of the record |
| AuditMetadata.MetadataForBounds | packages/audit/application/use-cases/record-audit-event.ts:205-211 | what a single-event writer stores is always within the bounds: the supplied record if that is one of strings within them, and otherwise a marker with the reason |
| AuditMetadata.FirstFaultIsMarked | packages/audit/domain/value-objects/audit-metadata.ts:124-183 | of a record that is not stored remains the name of the fault of the first key that has one: empty, too long, no string, or a value too long |
| AuditMetadata.TooManyIsMarked | packages/audit/domain/value-objects/audit-metadata.ts:124-183 | and with more than 32 keys that there were too many |
| AuditMetadata.UnescapeEscaped | packages/audit/domain/value-objects/audit-metadata.ts:323-342 | the escape is one-to-one: a reader gets back what was supplied |
| AuditMetadata.EscapedIsControlFree | packages/audit/domain/value-objects/audit-metadata.ts:323-342 | no control character survives the escape |
| AuditMetadata.EscapeKeepsPlain | packages/audit/domain/value-objects/audit-metadata.ts:323-342 | a text with nothing to escape is written as it is |
| AuditMetadata.JsonBecomesLineSafe | packages/audit/domain/value-objects/audit-metadata.ts:360-367 | JSON text leaves the escape without a line terminator of any kind |
| AuditMetadata.JsonMeaningKept | packages/audit/domain/value-objects/audit-metadata.ts:344-367 | and stands for the same value as before, whatever escapes it holds |
| AuditMetadata.NeutralizedIsNoFormula | packages/audit/domain/value-objects/audit-metadata.ts:369-379 | no cell starts with a character a spreadsheet takes for a formula, and only a cell that did gets an apostrophe |
| AppendProtocol.CheckBatch | packages/audit/infrastructure/persistence/prisma-audit-repositories.ts:258-272 | the loop finds the first entry of a batch that does not link to the one before it |
| AppendProtocol.InMemoryAuditLog.AppendMany | packages/audit/infrastructure/testing/in-memory-audit-repositories.ts:51-87 | the atomic append adds the whole batch or nothing, and is refused exactly for a moved head, a taken sequence or a batch that does not link |
| AppendProtocol.RefusalExactly | packages/audit/infrastructure/testing/in-memory-audit-repositories.ts:51-87 | a batch is refused exactly if the head has another hash than expected, a sequence is taken or an entry does not link to the one before it; the conflict names what was expected and what was found |
| AppendProtocol.IndexDecides | packages/audit/infrastructure/persistence/prisma-audit-repositories.ts:166-176 | the unique index admits a linked batch exactly when the log still ends where the batch was linked, with no assumption on hashes |
| AppendProtocol.RunKeepsInv | packages/audit/infrastructure/persistence/prisma-audit-repositories.ts:207-248 | the protocol's invariant holds in every state any interleaving of writers reaches |
| AppendProtocol.StoredLogVerifies | packages/audit/infrastructure/persistence/prisma-audit-repositories.ts:207-248 | under every interleaving the stored rows verify as a chain and are numbered 1..n |
| AppendProtocol.LogGrowsBySuffix | packages/audit/infrastructure/persistence/prisma-audit-repositories.ts:207-248 | whatever happens next, the log so far stays a prefix of the log |
| AppendProtocol.StepExtends | packages/audit/infrastructure/persistence/prisma-audit-repositories.ts:220-237 | a step leaves the log alone or appends a whole batch to the very head that batch was linked to |
| AppendProtocol.CallWroteWhatItReturned | packages/audit/application/use-cases/record-audit-event.ts:112-203 | a call that returned entries wrote exactly those, once and side by side, and they record its commands one each and in order; a call that gave up or is unfinished wrote nothing |
| AppendProtocol.RefinesAtomicAppend | packages/audit/infrastructure/persistence/prisma-audit-repositories.ts:220-247 | the indexed insert goes through, with its effect, exactly when one atomic append would at that moment, and otherwise the call tries again; and a check sends back only what the atomic append would refuse |
| AppendProgress.UndisturbedAppends | packages/audit/infrastructure/persistence/prisma-audit-repositories.ts:207-237 | from every reachable state a call that nothing interleaves with appends one entry per command to the log, under the given ids and dated as the commands say or else now, and returns them |
| AppendProgress.AttemptFailsExactly | packages/audit/infrastructure/persistence/prisma-audit-repositories.ts:220-247 | over every interleaving, the event that ends an attempt fails it if and only if it is a fault or another call's insert has gone through since the attempt read the head |
| AppendProgress.GaveUpExactly | packages/audit/application/use-cases/record-audit-event.ts:112-148 | a call gives up if and only if all the attempts it was allowed have failed, or a fault has met a single-event writer; and each failed attempt met a fault or was overtaken |
| BatchedAuditWriter.RunConsistent | packages/audit/infrastructure/persistence/batched-audit-writer.ts:248-374 | every interleaving of `record` with drain steps keeps the drain's batch at the front of the queue, the queue within its limit, and the accepted commands equal to settled batches followed by the queue |
| BatchedAuditWriter.NothingVanishes | packages/audit/infrastructure/persistence/batched-audit-writer.ts:121-138 | from a new writer on, every accepted command is, in order, in a batch that was written or reported failed, or still queued, and the totals of accepted and written commands say so |
| BatchedAuditWriter.CountersExactly | packages/audit/infrastructure/persistence/batched-audit-writer.ts:339-368 | over every interleaving the counters are the number of batches written, of batches reported, the size of the largest written one, and the number of appends refused because the head had moved |
| BatchedAuditWriter.HistoriesGrow | packages/audit/infrastructure/persistence/batched-audit-writer.ts:248-374 | an accepted command keeps its place and a settled batch stays settled |
| BatchedAuditWriter.SettleStopsExactly | packages/audit/infrastructure/persistence/batched-audit-writer.ts:296-305 | over every interleaving, a pass that starts or joins a drain leaves the queue no shorter exactly when `record` accepted meanwhile at least as many commands as the awaited batch holds |
| BatchedAuditWriter.RecordsAreCounted | packages/audit/infrastructure/persistence/batched-audit-writer.ts:248-272 | every call of `record` is accepted or counted as refused, so callers can count what a pass accepts |
| BatchedAuditWriter.FullBatchIsDrained | packages/audit/infrastructure/persistence/batched-audit-writer.ts:248-272 | after any run an accepted command leaves no full batch waiting without a drain: one starts on the front of the queue exactly if that makes a full batch and none is in flight |
| BatchedAuditWriter.FlushOccupies | packages/audit/infrastructure/persistence/batched-audit-writer.ts:280-293 | every flush leaves a promise in flight, even over an empty queue, and only a finished one is cleared |
| BatchedAuditWriter.RefillStopsSettle | packages/audit/infrastructure/persistence/batched-audit-writer.ts:296-305 | a command recorded during a successful pass can be left queued when `settle` stops |
| BatchedAuditWriter.ReportedExactly | packages/audit/infrastructure/persistence/batched-audit-writer.ts:310-374 | over every interleaving, the batch a drain has taken is reported failed exactly when all the attempts left to it fail, is written as soon as one succeeds, and until then the drain goes on with it |
| BatchedAuditWriter.AcceptedIsReported | packages/audit/infrastructure/persistence/batched-audit-writer.ts:132-133 | one run accepts a command, loses the race once, cannot read the head once, and reports the command without ever writing it |
| BatchedAuditWriter.EverythingWrittenExactly | packages/audit/infrastructure/persistence/batched-audit-writer.ts:296-308 | an undisturbed `settle` writes all that was queued if and only if each of its passes, one for every full or last batch, has an attempt that commits among the attempts allowed |
| BatchedAuditWriter.BatchedWriter.Offer | packages/audit/infrastructure/persistence/batched-audit-writer.ts:248-272 | the newest command is refused exactly when the queue is full, and otherwise queued, starting a drain when a batch is ready |
| BatchedAuditWriter.BatchedWriter.Resume | packages/audit/infrastructure/persistence/batched-audit-writer.ts:318-374 | each part of a drain between two awaits is one step of the state machine |
| BatchedAuditWriter.BatchedWriter.FlushAlone | packages/audit/infrastructure/persistence/batched-audit-writer.ts:310-374 | an undisturbed flush ends and takes exactly the front batch off the queue; the batch is settled as written if one of the attempts allowed commits, and as reported failed otherwise |
| BatchedAuditWriter.BatchedWriter.Settle | packages/audit/infrastructure/persistence/batched-audit-writer.ts:296-308 | undisturbed, `settle` ends with an empty queue, whichever attempts of whichever passes fail, and settles the queue batch by batch, each written or reported as the attempts of its own pass decide |
| AuditPipeline.RunKeepsInv | packages/audit/infrastructure/persistence/batched-audit-writer.ts:310-374 | under every interleaving with other writers of the log a drain and its call move in step |
| AuditPipeline.AcceptedReachTheLog | packages/audit/infrastructure/persistence/batched-audit-writer.ts:128-132 | from `record` to the stored log, under every interleaving with every other writer: each written batch is in the log once, entry by entry in the order of its commands, side by side and behind the batches written before it; a batch reported failed has no row; every other accepted command is queued; and the log is a valid chain |
| PipelineProgress.UndisturbedDrainWrites | packages/audit/infrastructure/persistence/batched-audit-writer.ts:318-352 | a drain that nothing interleaves with writes its batch at the end of the log and takes it off the queue |
| PipelineProgress.ReportedWasThwarted | packages/audit/infrastructure/persistence/batched-audit-writer.ts:322-374 | under every interleaving with every other writer, a batch is reported if and only if it lost all its attempts, and each lost attempt met a fault or another call's insert behind its read of the head |
| PipelineProgress.ConflictsAreLostRaces | packages/audit/infrastructure/persistence/batched-audit-writer.ts:353-364 | over every run `conflicts` counts exactly the attempts lost without a fault |
| PipelineProgress.LostRaceWasOvertaken | packages/audit/infrastructure/persistence/batched-audit-writer.ts:359-364 | and each of those was lost to another call's insert since it read the head, as the comment on the counter has it |
| ChainWalk.InspectPage | packages/audit/application/use-cases/verify-audit-chain.ts:262-280 | the inner loop counts every inspected entry and keeps the recomputed hash of each wanted one |
| ChainWalk.WalkCountsOrganization | packages/audit/application/use-cases/verify-audit-chain.ts:262-266 | what a walk counts for an organization are the inspected entries whose metadata names it |
| ChainWalk.RangeExactly | packages/audit/application/use-cases/verify-audit-chain.ts:245-251 | in a valid chain the range of a walk holds exactly the entries numbered from `from` to `to` |
| ChainWalk.PageStep | packages/audit/infrastructure/persistence/prisma-audit-repositories.ts:274-281 | a page is the next stretch of the log, and the page after it starts right behind its last entry |
| ChainWalk.SeedPrecedes | packages/audit/application/use-cases/verify-audit-chain.ts:234-240 | where the seed stands relative to the range, also when the entry before the range is missing |
| ChainWalk.Walk | packages/audit/application/use-cases/verify-audit-chain.ts:214-300 | over any stored log with increasing sequences, however tampered, and for every page size, the walk finds the break, the counts and the hashes that one-shot verification of the range finds, and the entry it reports as last is the last of the range, or after a break the last of the page that holds the broken entry; over a valid chain that grows it raises an alarm exactly when the range began beyond the head at the seed read and was reached by the next |
| ChainWalk.FalseAlarm | packages/audit/application/use-cases/verify-audit-chain.ts:126-128 | a walk from 2 over a log that is empty at the seed read and then gets two entries reports a break, though the chain is valid throughout |
| AnchoredLog.AnchorJob.Execute | packages/audit/application/use-cases/anchor-audit-log.ts:64-108 | the job's refusals, what it hands to the ledger and what it then saves |
| AnchoredLog.JobDoes | packages/audit/application/use-cases/anchor-audit-log.ts:64-108 | which outcome a job has and what it leaves behind: the ledger is asked only about a head the latest receipt does not cover, a receipt is saved only of what it took, and what it took stays taken when saving fails |
| AnchoredLog.RunOfJobs | packages/audit/application/use-cases/anchor-audit-log.ts:64-108 | over every run, with saves failing anywhere, no receipt is saved that the ledger does not hold, no two consecutive receipts are for one head, and `newlyCovered` adds up to what is covered |
| AnchoredLog.CheckAnchors | packages/audit/application/use-cases/verify-audit-chain.ts:302-340 | one check per receipt, in order, and the ledger is asked about exactly the receipts whose sequence was inspected |
| AnchoredLog.LookupsExactly | packages/audit/application/use-cases/verify-audit-chain.ts:310-330 | the ledger is asked once for each receipt whose sequence was inspected, and about nothing else |
| AnchoredLog.CheckSays | packages/audit/application/use-cases/verify-audit-chain.ts:310-336 | a check repeats the ledger's answer or its error, compares the recomputed hash, and says nothing of a sequence that was not inspected |
| AnchoredLog.LedgerConfirmsExactly | packages/audit/application/use-cases/verify-audit-chain.ts:310-336 | after any run of jobs the ledger they were made with confirms exactly the receipts whose hash and reference it has taken, every saved one among them |
| AnchoredLog.AnchoringCatchesRehash | packages/audit/application/use-cases/verify-audit-chain.ts:263-340 | a receipt made from a valid log matches a later clean walk exactly when the store still holds that log record for record, up to an exhibited digest collision |
| Conditions.OrderingLaws | packages/authorization/domain/services/policy-evaluation-engine.ts:43-62 | a sanity fact of the evaluator: the four ordering operators order numbers and instants, each the negation or the mirror of another, and none holds when NaN is involved |
| Conditions.InIsSomeEquality | packages/authorization/domain/services/policy-evaluation-engine.ts:63-68 | a sanity fact of the evaluator: for every scalar but NaN, membership in a list is equality with one of its items |
| Conditions.ContainsIsSomeEquality | packages/authorization/domain/services/policy-evaluation-engine.ts:69-74 | for every scalar but NaN, a list contains it exactly when a scalar element equals it |
| Conditions.ListsFindNaN | packages/authorization/domain/services/policy-evaluation-engine.ts:63-74 | NaN equals nothing, and yet `in` and `contains` find it in a list that holds it |
| Conditions.MismatchIsFalse | packages/authorization/domain/services/policy-evaluation-engine.ts:30-75 | values of the wrong type match no comparison but `neq`, which is the opposite of `eq` on every value there is |
| Conditions.MissingNeverMatches | packages/authorization/domain/services/policy-evaluation-engine.ts:26-29 | a missing attribute matches no comparison, `neq` included |
| Conditions.ResolveReads | packages/authorization/domain/value-objects/attribute-context.ts:153-161 | the bag is what stands before the first dot, and the key, dots and all, what stands behind it |
| Conditions.LogicLaws | packages/authorization/domain/services/policy-evaluation-engine.ts:92-105 | conditions obey contradiction, excluded middle and De Morgan over any number of operands |
| Conditions.DenyOverridesExactly | packages/authorization/domain/services/combining-algorithms.ts:29-44 | the decision is a denial exactly if the condition of some denying rule is true of the request, a permit exactly if only permitting rules match, and otherwise there is none |
| Conditions.PermitOverridesExactly | packages/authorization/domain/services/combining-algorithms.ts:46-55 | and the other way round |
| Conditions.FirstApplicableExactly | packages/authorization/domain/services/combining-algorithms.ts:57-64 | the matching rule with the least position decides, and without one there is no decision |
| Conditions.StrategiesAreOrdered | packages/authorization/domain/services/combining-algorithms.ts:29-64 | what deny-overrides permits first-applicable permits, and what that permits permit-overrides permits; for denials the other way round |
| Conditions.StrategiesAgree | packages/authorization/domain/services/combining-algorithms.ts:14-64 | the three combining algorithms agree exactly when rules of only one effect apply |
| PolicyLinter.ExtractConstraints | packages/authorization/application/services/policy-linter.ts:39-77 | the recursive loop flattens a conjunction into its constraints, or gives up |
| PolicyLinter.ExtractIsExact | packages/authorization/application/services/policy-linter.ts:39-77 | an analysed condition is true of a request exactly when all its constraints hold |
| PolicyLinter.AnalyzesExactly | packages/authorization/application/services/policy-linter.ts:39-77 | analysed are exactly the equalities and inequalities joined by `and` at any depth |
| PolicyLinter.CheckOverlaps | packages/authorization/application/services/policy-linter.ts:110-133 | the nested loop decides whether every constraint of one side is compatible with every one of the other |
| PolicyLinter.ImpliesIsSound | packages/authorization/application/services/policy-linter.ts:89-98 | what the broader conjunction requires holds on every request on which the narrower one does |
| PolicyLinter.SatisfiableExactly | packages/authorization/application/services/policy-linter.ts:110-133 | some request without dates meets a conjunction exactly when it is self-consistent, its equalities have scalar literals other than NaN, and its paths name a known bag |
| PolicyLinter.Lint | packages/authorization/application/services/policy-linter.ts:188-236 | the loops over rule pairs produce the findings, in order, and the count of unanalysed pairs |
| PolicyLinter.ReportsExactly | packages/authorization/application/services/policy-linter.ts:188-236 | a finding is reported exactly when some earlier and later rule have it, and no pair is unanalysed exactly when all are in the analysed shape |
| PolicyLinter.ReportedPairsExactly | packages/authorization/application/services/policy-linter.ts:188-236 | what a finding says: a conflict names two rules of opposite effect without incompatible constraints, a shadow an earlier rule all of whose constraints the later one has too, whatever their effects |
| PolicyLinter.UnanalyzedExactly | packages/authorization/application/services/policy-linter.ts:202-212 | the count of unanalysed pairs is the number of pairs of which a rule could not be analysed |
| PolicyLinter.ConflictHasWitness | packages/authorization/application/services/policy-linter.ts:161-166 | for self-consistent rules a reported conflict comes with a request that both rules match |
| PolicyLinter.DatelessConflictIsRealExactly | packages/authorization/application/services/policy-linter.ts:176-179 | a request without dates matches both rules of a reported conflict if and only if each rule is consistent by itself |
| PolicyLinter.CleanLintAgrees | packages/authorization/application/services/policy-linter.ts:188-236 | after a clean lint first-applicable, deny-overrides and permit-overrides agree on every request without dates |
| PolicyLinter.LintDecidesAgreement | packages/authorization/application/services/policy-linter.ts:188-236 | for analysable, self-consistent rules the lint is clean if and only if the three strategies agree on all requests without dates |
| PolicyLinter.DatesDefeatTheLint | packages/authorization/domain/services/policy-evaluation-engine.ts:35-39 | two spellings of one instant give a clean lint and a request on which the strategies differ |
| DatedRequests.MeetableExactly | packages/authorization/domain/services/policy-evaluation-engine.ts:30-42 | some request at all meets a conjunction exactly when every path names a known bag and its constraints can be met by one plain value or by one date |
| DatedRequests.ConflictIsRealExactly | packages/authorization/application/services/policy-linter.ts:176-179 | some request, dated or not, matches both rules of a reported conflict if and only if what they require together can be met path by path |
| DatedRequests.AgreementExactly | packages/authorization/domain/services/combining-algorithms.ts:14-64 | for analysable rules the three strategies agree on every request if and only if no two rules of opposite effect can be met together |
| DatedRequests.TwoTextsConflict | packages/authorization/application/services/policy-linter.ts:176-179 | a rule that asks one attribute to be two texts is reported against an opposite rule on another attribute; a request matches both exactly when the texts spell one instant, and none without dates does |
| PolicyLinter.ShadowedRulesAreDead | packages/authorization/application/services/policy-linter.ts:167-171 | deleting every shadowed rule at once changes no first-applicable decision, on any request |
| PolicyLinter.ReportedShadowsExactly | packages/authorization/application/services/policy-linter.ts:221-232 | when ids tell rules apart, the shadow findings name exactly the shadowed rules |
| PolicyLinter.DeletingReportedShadows | packages/authorization/application/services/policy-linter.ts:202-232 | deleting at once all rules that findings report as shadowed leaves every first-applicable decision as it was |
| PolicyMapper.EqualConditionsEvaluate | packages/authorization/domain/value-objects/condition.ts:133-174 | structurally equal conditions mean the same on every request |
| PolicyMapper.SavedCondition | packages/authorization/infrastructure/persistence/policy-mapper.ts:14-40 | a saved condition is accepted on loading exactly when its numeric literals are finite |
| PolicyMapper.ReloadedCondition | packages/authorization/infrastructure/persistence/policy-mapper.ts:14-62 | loading what was saved gives a structurally equal condition |
| PolicyMapper.SavedPolicyReloads | packages/authorization/infrastructure/persistence/policy-mapper.ts:65-104 | saving and loading preserves every field, rule and meaning of a policy if and only if its numeric literals are finite, and otherwise fails at the first rule with one that is not |
| PolicyMapper.LoadingFailsExactly | packages/authorization/infrastructure/persistence/policy-mapper.ts:42-81 | which of the errors a row fails with: actions that are no list of strings, rules that are no list, or the first entry of it that is no rule |
| PolicyMapper.KindsOf | packages/authorization/infrastructure/persistence/policy-mapper.ts:17-40 | the kind and the operands under which each form of condition is stored |
| PolicyMapper.OperatorsAreStoredAs | packages/authorization/infrastructure/persistence/policy-mapper.ts:19-23 | the names under which operators are stored |
| PolicyMapper.ColumnsHoldWhatTheyName | packages/authorization/infrastructure/persistence/policy-mapper.ts:84-104 | every column of a saved row holds what it is named after |
| PolicyMapper.LoadedIsFinite | packages/authorization/infrastructure/persistence/policy-mapper.ts:42-81 | a condition that has been loaded has only finite literals |
| PolicyMapper.LoadedPolicyReloads | packages/authorization/infrastructure/persistence/policy-mapper.ts:65-104 | a policy loaded from any row can be saved and loaded again unchanged |
| PolicyMapper.InfinityIsLost | packages/authorization/infrastructure/persistence/policy-mapper.ts:24-33 | a policy whose one rule compares with Infinity fails to load at rule 0 once saved |
| CacheKeys.TaggedExact | packages/authorization/infrastructure/cache/in-memory-policy-cache.ts:120-130 | a key text determines both generations, the type and the action, for two types neither of which is the other one followed by the separator |
| CacheKeys.ConfusedTags | packages/authorization/infrastructure/cache/in-memory-policy-cache.ts:128-130 | for any two types of which one is the other followed by the separator, two keys have one key text under the same generations |
| InMemoryPolicyCache.PolicyCache.Get | packages/authorization/infrastructure/cache/in-memory-policy-cache.ts:61-78 | a read answers with the entry under the current generations and drops it when its time is up |
| InMemoryPolicyCache.PolicyCache.Set | packages/authorization/infrastructure/cache/in-memory-policy-cache.ts:80-99 | a write files the entry under the current generations, and writes nothing for a lifetime that is not positive |
| InMemoryPolicyCache.PolicyCache.InvalidateResourceType | packages/authorization/infrastructure/cache/in-memory-policy-cache.ts:106-109 | only the type's counter moves; the entries stay |
| InMemoryPolicyCache.RemovesExactly | packages/authorization/infrastructure/cache/in-memory-policy-cache.ts:61-114 | a read removes the entry it finds expired, a narrow invalidation its own, and nothing else removes one |
| InMemoryPolicyCache.ReadsLikeDeletion | packages/authorization/infrastructure/cache/in-memory-policy-cache.ts:61-130 | over separable types, after any run with a clock that does not go back, a read answers with the last write that nothing invalidated since, if its time is not up: counting generations is deleting |
| InMemoryPolicyCache.LikeDeletionExactly | packages/authorization/infrastructure/cache/in-memory-policy-cache.ts:39-48 | for a set of resource types in use, every such run answers like deletion if and only if none of the types is another one followed by a bar |
| InMemoryPolicyCache.SupersededAnswers | packages/authorization/infrastructure/cache/in-memory-policy-cache.ts:39-48 | for any two types of which one is the other followed by a bar, what was written under the longer one answers a read under the shorter one after the longer one has been invalidated |
| InMemoryPolicyCache.SeparatorConfusesKeys | packages/authorization/infrastructure/cache/in-memory-policy-cache.ts:128-130 | an entry cached for the type a, a bar and b and then invalidated answers for the type `a`, though no longer for its own key |
| RedisPolicyCache.RedisCache.CurrentGenerations | packages/authorization/infrastructure/cache/redis-policy-cache.ts:147-153 | the first round trip remembers the generations the operation goes on with |
| RedisPolicyCache.RedisCache.FinishGet | packages/authorization/infrastructure/cache/redis-policy-cache.ts:88-97 | the second round trip looks under the remembered generations |
| RedisPolicyCache.RedisCache.FinishSet | packages/authorization/infrastructure/cache/redis-policy-cache.ts:110-132 | the second round trip of a write files the entry under the remembered generations, current or not |
| RedisPolicyCache.RedisCache.FinishInvalidate | packages/authorization/infrastructure/cache/redis-policy-cache.ts:134-137 | the narrow invalidation deletes one key under the remembered generations |
| RedisPolicyCache.RedisCache.InvalidateResourceType | packages/authorization/infrastructure/cache/redis-policy-cache.ts:139-141 | one increment, and nothing else changes |
| RedisPolicyCache.NoStaleAnswer | packages/authorization/infrastructure/cache/redis-policy-cache.ts:88-165 | over separable types and for every interleaving, a read answers only with a value written under its own key, and no covering invalidation lies between the moment that write read its generations and the moment the read began |
| RedisPolicyCache.NoStaleAnswerExactly | packages/authorization/infrastructure/cache/redis-policy-cache.ts:35-41 | for a set of resource types in use, every interleaving keeps to that if and only if none of the types is another one followed by a colon |
| RedisPolicyCache.SupersededAnswers | packages/authorization/infrastructure/cache/redis-policy-cache.ts:35-41 | for any two types of which one is the other followed by a colon, what was written under the longer one answers a read under the shorter one that began after the longer one was invalidated |
| RedisPolicyCache.DeletedIsNotAnswered | packages/authorization/infrastructure/cache/redis-policy-cache.ts:134-137 | after the narrow invalidation of a key has finished, a read that began after the invalidation did, with no covering invalidation in between, answers only with what a write finishing later has put there |
| RedisPolicyCache.WriteFollowsDeletion | packages/authorization/infrastructure/cache/redis-policy-cache.ts:134-137 | a write already under way when its key is invalidated can finish after the deletion and be answered |
| RedisPolicyCache.ReadFindsWrite | packages/authorization/infrastructure/cache/redis-policy-cache.ts:88-165 | and a finished write is found by a read with no covering invalidation since the write began, unless it was replaced, deleted or evicted |
| RateLimit.RateLimiterStore.Consume | apps/api/src/plugins/rate-limit.ts:75-98 | the reply and the store left behind are those of one limiter step, whose runs the next rows bound |
| RateLimit.WindowAllowsLimit | apps/api/src/plugins/rate-limit.ts:75-98 | over every run each counting window allows exactly the first `limit` of the requests it counts |
| RateLimit.LessThanTwiceTheLimit | apps/api/src/plugins/rate-limit.ts:75-98 | over every run any half-open interval one window long allows at most 2 * limit - 1 requests per key |
| RateLimit.ReplyIsHonest | apps/api/src/plugins/rate-limit.ts:75-98 | over every run `remaining` is the limit less what the window has counted, and waiting `retryAfterSeconds`, rounded up by less than a second, is enough for a new window |
| RateLimit.BoundIsReached | apps/api/src/plugins/rate-limit.ts:75-98 | for every limit a run reaches that bound |
| BalanceMonitor.AnchorBalanceMonitor.Check | packages/stellar-anchor/infrastructure/balance-monitor.ts:187-213 | a check's status, alert and memory are those of one monitor step, whose runs the rows below describe |
| BalanceMonitor.AnchorBalanceMonitor.BeforeAnchor | packages/stellar-anchor/infrastructure/balance-monitor.ts:244-264 | whatever the monitor remembers, an anchor may go out exactly on a reading that reaches both the threshold and the fee |
| BalanceMonitor.AnchorBalanceMonitor.ReportUnderfundedRejection | packages/stellar-anchor/infrastructure/balance-monitor.ts:274-287 | a refused transaction always alerts and is remembered as the unfundable condition |
| BalanceMonitor.MemoryIsHistory | packages/stellar-anchor/infrastructure/balance-monitor.ts:153-157 | the remembered alert kind is the last condition alerted, and the rejection flag says that the ledger refused and no reading since reached the threshold |
| BalanceMonitor.RejectionAlerts | packages/stellar-anchor/infrastructure/balance-monitor.ts:274-287 | after any run a refused transaction adds exactly one alert and is not taken for a reading |
| BalanceMonitor.RepeatsAreForced | packages/stellar-anchor/infrastructure/balance-monitor.ts:320-327 | two consecutive alerts of one kind are both forced and both report a refused transaction |
| BalanceMonitor.EpisodesAlternate | packages/stellar-anchor/infrastructure/balance-monitor.ts:297-327 | in the alerts of any run every recovery comes directly behind an alert of trouble: the first alert is never a recovery, no two recoveries are adjacent, and between two there is an alert of trouble |
| BalanceMonitor.CheckAlertsExactly | packages/stellar-anchor/infrastructure/balance-monitor.ts:297-318 | after any run a check, also the one before an anchor, alerts exactly when its condition is not the one last alerted, so an episode ends with one recovery at the first funded check, and only if there was an episode |
| BalanceMonitor.ClearingChangesNoAlert | packages/stellar-anchor/infrastructure/balance-monitor.ts:153 | a monitor that cleared the remembered kind on recovery, as the comment has it, would raise the same alerts and find the same conditions over every run |
| BalanceMonitor.RejectionHolds | packages/stellar-anchor/infrastructure/balance-monitor.ts:274-295 | after a refused transaction checks find the account unfundable until a reading reaches the threshold |
| CsvExport.BodyReadsBack | packages/audit/application/audit-export-encoding.ts:140-176 | a reader of section 2 of RFC 4180 finds the header and exactly one row of eight cells per entry, each the neutralized log field |
| CsvExport.ColumnsHoldWhatTheyName | packages/audit/domain/entities/audit-log-entry.ts:247-278 | under each heading of the export stands what it names, and action, actor and subject can be read back from their cells |
| CsvExport.CellsHoldNoBreak | packages/audit/domain/entities/audit-log-entry.ts:263-278 | no cell holds a raw CR or LF, given that dates, hashes and JSON text hold none |
| CsvExport.OneLinePerEntry | packages/audit/domain/entities/audit-log-entry.ts:247-278 | the body has one line per entry and one for the header |
| CsvExport.EncodeAuditExport | packages/audit/application/audit-export-encoding.ts:77-107 | the loop exports as many of the first entries as the limit allows, reads back as such, and says truncated exactly when there were more |
| Paging.FollowGivesAll | packages/audit/application/use-cases/query-audit-events.ts:94-113 | following cursors ends and concatenates to everything behind the first one |
| Paging.QueryPageExactly | packages/audit/application/use-cases/query-audit-events.ts:94-113 | a page holds as many of the remaining matches as the clamped limit allows, and has a next cursor exactly when that was not all |
| Paging.QueryFollowsExactly | packages/audit/application/use-cases/query-audit-events.ts:94-113 | for any requested limit the pages of a query add up to exactly the entries meeting the criteria, ascending, none lost or repeated |
| Paging.ReviewsNominateExactly | packages/audit/application/use-cases/apply-audit-retention-policy.ts:83-119 | resumed reviews at a pinned instant nominate exactly the entries in scope that are at least the window's days old |
| Paging.ReviewsCompleteExactly | packages/audit/application/use-cases/apply-audit-retention-policy.ts:83-119 | a run of reviews is complete exactly when its limit is one or more, or nothing is due |
| Paging.ReviewSays | packages/audit/application/use-cases/apply-audit-retention-policy.ts:83-119 | one review names the first entries due behind its cursor, as many as the limit allows, how far it has evaluated, whether more are due and where to go on |
| Paging.AgeExactly | packages/audit/application/ports/retention-policy.ts:89-91 | an entry is at or before the cutoff exactly when its age in whole days reaches the window |
| PeerSuffix.StripPeerSuffix | infra/ci/generate-sbom.ts:125-149 | the nested loops drop exactly the maximal run of balanced groups behind a key, and hand back unchanged a key that is not of that form |
| PeerSuffix.StripsOnlyGroups | infra/ci/generate-sbom.ts:125-149 | nothing but a maximal run of balanced groups is ever dropped |
| PeerSuffix.StripIsIdempotent | infra/ci/generate-sbom.ts:125-149 | stripping twice is stripping once |
| PeerSuffix.VariantSplits | infra/ci/generate-sbom.ts:152-160 | every peer variant of `name@version` splits into that name and version, scoped names included |
| PeerSuffix.SplitsExactly | infra/ci/generate-sbom.ts:152-160 | a key is split at the last `@` of what is left without its groups, and not at all if there is none behind the first character |
| PeerSuffix.VariantsSplitAlike | infra/ci/generate-sbom.ts:152-160 | all peer variants of a key split alike, or fail alike |

## Left out

Of the audit log:

- Digests, UUIDs, ISO dates, JSON text and base64: library code. The digest is an arbitrary function; dates are assumed to be written differently for different instants, and digests to be written without unpaired surrogates, only where a lemma says so.
- Entry ids: an id is not hashed, so records are compared without it. That ids are unique is the identifier library's promise.
- Metadata keys with a meaning to JavaScript (`__proto__`, integer-like keys, whose order `Object.keys` changes): the printer sorts its keys, so order has no effect, and prototype keys are not part of this model.
- Values that are not strings in the metadata of a batch, whose type forbids them and which the batch writers do not check; the single-event writer rejects them as the code does.
- The database's isolation level is not modelled beyond the interleaving of head read, comparison and indexed insert, each atomic; a transaction that fails has not committed.
- The batching writer's overflow and failure callbacks do not call back into it, and an append that throws has not committed.
- The flush timer, and `record` after `stop`, which the code allows, are not part of the model.
- ChainWalk.Walk: the log may grow between any two reads but not for ever.
- U+2028 and U+2029 in an action, actor or subject: the text escape does not cover them, so the CSV results speak of CR and LF.
- The JSON Lines export, the export's own log record, and streams that fail half way.
- The entry that every real query appends about itself, so the paged store does not change; also fractional and NaN limits.
- Negative limits of a retention review, which `take` and `slice` count from the end.

Of the policies:

- Attributes inherited from `Object.prototype` (a key such as `constructor` resolves to a function): bags hold their own properties only.
- Numbers are reals with NaN and the infinities; rounding does not matter to comparisons of given values, and the two zeroes are equal to every operator there is.
- The linter's messages; findings carry their kind and the two ids.
- PolicyMapper.SavedPolicyReloads: an operator stored as a one-element array would pass the loader's `String()`; the model takes operators that are strings. What the database does to a text it cannot store is left out.
- The policy text language, roles, permissions and the authorization service, which a decision table settles.

Of the rest:

- The rate limiter's Redis path, whose window is kept by the server's clock, its headers and its choice of key.
- Routes that share a rate-limit key with different limits: a run has one limit and one window length.
- Lifetimes in Redis: entries may be evicted at any time. A stored value that cannot be parsed counts as evicted. A write with a lifetime that is not positive does nothing and has no event.
- Overlapping checks and rejections of the balance monitor, an alerter that throws, metrics, messages and the poll timer.
- The rest of the bill of materials.
- The idempotency plugin, routes, GraphQL, configuration and the Horizon client: plumbing.
