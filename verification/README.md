# Verified model of Osoznanie

A Dafny model of the stateful core of Osoznanie, a memory and audit layer for agents kept in SQLite,
and proofs of what that core is for. `dafny verify dfyconfig.toml` checks everything.

Each SQLite transaction is one atomic step. It is a function from one committed state to the next,
and a method of a class that holds the tables as mutable fields and is proved equal to that function.
A refused transaction leaves all tables as they were. Theorems range over every run, that is, every
sequence of steps with arbitrary arguments: workers with stale rows, wrong clocks and expired leases,
writers with old heads, and processes that stop at any point are runs too.

## The components

| component | files | main results |
|---|---|---|
| Durable actions | `ActionRecords`, `ActionProtocol`, `ActionInvariants`, `ActionTheorems`, `QueueTheorems`, `ActionTables`, `DispatchProtocol`, `DispatchTheorems`, `DispatchOutcomes`, `ActionDispatcher` | evidence agrees with the queue; attempts never overlap; fencing; one success; replayable finalization; interleaved workers call an adapter once for each stored attempt; what each reply leaves in the row |
| Stored time | `TextOrder`, `InstantText` | ISO text compares as the instants do, although zero microseconds are omitted |
| Versioned memory | `MemoryRecords`, `RecordStore`, `RecordInvariants`, `RecordTheorems`, `RecordAnswers`, `RecordTables` | linear chains of one type; stale writers change nothing; provenance is closed and well-founded |
| Bitemporal view | `MemoryView`, `ViewTheorems`, `ViewMeaning` | one decision for each key; counters partition the history; past views are reproducible; a committed mutation decides every later view |
| Authorization | `AccessControl`, `AccessTheorems`, `AccessMeaning`, `AccessTables` | the restricted view is the full view on allowed keys; hidden commits are invisible; the SQL prefilter loses nothing |
| Decision traces | `DecisionTraces`, `TraceTheorems`, `TraceAnswers`, `TraceTables` | traces form disjoint simple paths; exactly when an outcome can be attached |
| Audited pipeline | `Orchestration`, `OrchestrationTheorems`, `PipelineMeaning`, `Orchestrator` | trace before action, at most once; each intent belongs to one trace |
| Lesson applications | `Applications`, `ApplicationTheorems`, `ApplicationAnswers`, `ApplicationTables` | causal order of evaluations, exactly when it holds; idempotency |
| Publication | `Publication`, `PublicationTheorems`, `PublicationMeaning`, `PublicationStore` | a stop in any filesystem step is safe; republishing never conflicts |
| Recall | `Recall`, `RecallTheorems`, `RecallMeaning`, `RecallEngine` | a partition into seven gates; deterministic ranking |

`*Theorems` and `*Invariants` hold the lemmas. `*Answers`, `*Meaning` and `DispatchOutcomes` say what
each operation accepts, answers and writes in the terms of the stored fields alone. `*Tables`,
`ActionDispatcher`, `Orchestrator` and `PublicationStore` hold the classes, and `RecallEngine` the reads
of the lesson store. `MemoryView`, `Recall`, `Publication` and `AccessControl` also hold the loops of the
source as methods that change nothing.

## Conventions

- An instant is an integer number of microseconds in UTC. Clocks, lease tokens, network replies and
  callback answers are arguments; lease tokens are fresh numbers.
- The id of an action attempt is its payload. Ids of memories, traces and intents are digests given as
  functions about which nothing is assumed, except where a lemma asks for a collision-free digest.
  File digests of published sets are their preimages, which is SHA-256 without collisions.
- Reference lists that the source normalises to sorted lists without repetition are sets. Text is
  trimmed already.
- `Base.Result` models a returned value or a raised exception.

## Results that differ from what one might expect

- The causal order of a stored evaluation can fail. `SQLiteExperienceStore.delete` looks for references
  in `records` only, not in `application_records`, so it can remove a cited query, and a later record
  can take its id. `CausalOrderCanFail` is such a run. `RunOrderedExactlyWhen` says for every run when
  the order holds: exactly when no step saves a missing cited record at a time outside its bounds.
- `LIKE` treats `_` and `%` in a requested prefix as wildcards and folds ASCII case, so the SQL
  prefilter admits too much (`PrefilterAloneIsTooWide`); the exact check after it is what restricts.
- The agreement of the restricted view with the full view needs one type for each key, which the
  commit checks establish; `AgreementNeedsTypeConstancy` shows the failure without it.
- `attach_outcome` refuses an outcome that precedes the decision, and a trace one of whose references is
  the provisional id `dtr_pending`. It does not look at the store, so the link it builds is accepted
  only on the tail of its chain and under a free id (`AttachExactlyWhen`).
- `enqueue` returns an intent, which `run` does not accept as a reply: with the plain callback `run`
  raises, and the intent is stored all the same (`EnqueueLeavesIntent`).
- A crash after an adapter call leaves the intent to a later attempt, so an adapter runs at most once for
  each attempt, not for each intent (`AdaptersRunOncePerStoredAttempt`).

## Model

| member | source | states |
|---|---|---|
| ActionTheorems.EvidenceMatchesQueue | src/osoznanie/action_finalizer.py:159-331 | In every reachable state a completed intent's last attempt is its succeeded attempt with the intent's outcome, and a failed or retried one points at the failed attempt of the current number with the same error code; every row has a legal shape |
| ActionTheorems.AttemptsNeverOverlap | src/osoznanie/action_finalizer.py:369-403 | For attempts i < j of one intent, start and finish of i are not later than the start of j, whatever clocks the workers use |
| ActionTheorems.ListingIsCausal | src/osoznanie/action_attempt_store.py:190-207 | The listing order of one intent's records is the order of attempt numbers and revisions, and is total |
| ActionTheorems.Fenced | src/osoznanie/action_finalizer.py:369-403 | Once a later attempt is claimed, an earlier one never gains terminal evidence |
| ActionTheorems.SingleSuccess | src/osoznanie/action_attempt_store.py:209-297 | An intent has at most one succeeded attempt, and it carries the highest number |
| ActionTheorems.TerminalIsAbsorbing | src/osoznanie/sqlite_action_outbox.py:146-207 | After completion or final failure no step changes the row or records another attempt for it |
| ActionTheorems.FinalizationReplays | src/osoznanie/action_finalizer.py:172-222 | Repeating a committed call returns the same attempt and changes nothing until the next claim; then it is refused; a call with any differing argument is refused and changes nothing |
| ActionTheorems.FinalizesExactlyWhen | src/osoznanie/action_finalizer.py:159-222 | A call writes fresh terminal evidence exactly when its started attempt is stored, the lease is live at the reported finish, the outcome is a stored Outcome and the retry time is not before the finish |
| ActionTheorems.ConstraintsNeverFire | src/osoznanie/action_finalizer.py:66-88 | The unique index on the last attempt never rejects a reachable finalization, and the row validation never rejects a reachable claim |
| ActionTheorems.ClaimTakesFirstReady | src/osoznanie/sqlite_action_outbox.py:163-176 | If an intent is ready, the claim picks it or one that precedes it by availability, creation and id |
| ActionTheorems.RunIsLater | src/osoznanie/sqlite_action_outbox.py:163-203 | Along every run identities stay, attempt counts grow, evidence is only added, cited records stay whatever is deleted, and rows outside a lease change only by a new claim |
| ActionInvariants.RunKeepsInv | src/osoznanie/action_outbox.py:143-170 | Every step of every interleaving keeps legal rows, attempt contracts, agreement of evidence and queue, and the order of attempts |
| ActionInvariants.FinalizeUnderLease | src/osoznanie/action_finalizer.py:265-331 | A finalization that changes a table does so under the live lease of the attempt that it ends |
| ActionRecords.BuildStarted | src/osoznanie/action_attempt.py:198-240 | A started attempt is built exactly from a live lease of the worker, and satisfies the attempt contract |
| ActionRecords.BuildTerminal | src/osoznanie/action_attempt.py:277-316 | A terminal revision is built exactly from a started one that is not later, copies its context, and satisfies the contract |
| ActionTables.ActionDatabase.Enqueue | src/osoznanie/sqlite_action_outbox.py:93-122 | The new tables and the answer of the intent part of enqueue |
| ActionTables.ActionDatabase.SelectNext | src/osoznanie/sqlite_action_outbox.py:163-176 | The loop finds the first ready row, and none exactly when no row is ready |
| ActionTables.ActionDatabase.DeleteRecord | src/osoznanie/storage.py:470-494 | The new tables and the answer of an unforced delete: a reported outcome and the trace of an intent stay |
| ActionTables.ActionDatabase.Claim | src/osoznanie/sqlite_action_outbox.py:146-207 | The new tables and the answer of claim; the invariant is kept |
| ActionTables.ActionDatabase.Start | src/osoznanie/action_attempt_store.py:82-180 | The new tables and the answer of storing a started attempt; the invariant is kept |
| ActionTables.ActionDatabase.Finalize | src/osoznanie/action_finalizer.py:159-222 | The new tables and the answer of complete and fail; the invariant is kept |
| QueueTheorems.EnqueuedWaitsUntilAvailable | src/osoznanie/sqlite_action_outbox.py:93-176 | Over every run, a first enqueue leaves a pending row with count 0, its identity and the availability it was given; it keeps them until its first claim, no earlier claim leases it, and from that time on a claim finds work |
| QueueTheorems.EnqueuesExactlyWhen | src/osoznanie/sqlite_action_outbox.py:81-122 | Which enqueues insert, which answer with a stored row, and which are refused, from the ids, traces and keys that rows hold |
| QueueTheorems.IntentsAreUnique | src/osoznanie/sqlite_action_outbox.py:29-63 | Over every run no two intents share a trace or an idempotency key |
| QueueTheorems.ClaimsExactlyWhen | src/osoznanie/sqlite_action_outbox.py:146-207 | In every reachable queue a claim leases the first due row under a new token for the given time, answers with nothing exactly when no row is due, and leaves all else alone |
| QueueTheorems.StartIsNewExactlyWhen | src/osoznanie/action_attempt_store.py:209-297 | A start is recorded anew exactly when both the held intent and the stored row show a live lease of this worker for the same attempt, with equal dispatch data and no record of it; it writes that record only |
| QueueTheorems.StartRefusalsMean | src/osoznanie/action_attempt_store.py:82-180 | Over every run, what a start that is not new is answered: its stored record, or the one cause of each refusal |
| QueueTheorems.FinalizationWrites | src/osoznanie/action_finalizer.py:224-331 | A fresh finalization writes exactly the terminal record, with latency and response hash, and the row freed and ended as the call says |
| QueueTheorems.FinalizationRefusalsMean | src/osoznanie/action_finalizer.py:159-331 | Over every run, a call is answered as already finalized exactly when its record is stored and the row is still as it left it; the one cause of each refusal; constraints cause none |
| QueueTheorems.DeletesExactlyWhen | src/osoznanie/storage.py:470-494 | A record is deleted exactly when it is stored and neither attempt nor row names it |
| DispatchProtocol.Execute | src/osoznanie/action_dispatcher.py:287-334 | A success is reported only when tool, input hash and payload passed every check and the adapter returned it; codes are never blank |
| DispatchTheorems.AdaptersRunOncePerStoredAttempt | src/osoznanie/action_dispatcher.py:262-334 | Over all workers and every interleaving of claims, starts, executions, finishes and crashes, each adapter call runs under a started attempt that was stored before, and no attempt of an intent reaches any adapter twice |
| DispatchTheorems.StartsExactlyWhen | src/osoznanie/action_dispatcher.py:262-275 | A worker records its start exactly when nobody has taken its row over since the claim; a refused start changes nothing and calls no adapter |
| DispatchTheorems.FinishesExactlyWhen | src/osoznanie/action_dispatcher.py:336-394 | A pass ends with its verdict in the row exactly when nobody has taken the row over, the finish lies inside the lease and a reported outcome is stored; a pass that was taken over ends refused and changes nothing |
| DispatchTheorems.RunKeepsInv | src/osoznanie/action_dispatcher.py:262-394 | Every step of every worker keeps claims apart, attempts stored and calls distinct |
| DispatchOutcomes.ReportFollowsReply | src/osoznanie/action_dispatcher.py:287-394 | In every reachable world, the row and the terminal record after a report, from the answers of resolver and adapter: permanent causes close the intent under their code, retryable ones put it back after their own delay or the default, any other exception after the default, an outcome completes it; the record bears the result's response hash |
| DispatchOutcomes.CallsAdapterExactlyWhen | src/osoznanie/action_dispatcher.py:287-318 | An execution calls the adapter, under its stored attempt, exactly when the tool is known and the resolved input has the captured hash and conforms |
| ActionDispatcher.Dispatcher.ClaimNext | src/osoznanie/action_dispatcher.py:262-266 | Leases the first ready row; no work exactly when no row is ready |
| ActionDispatcher.Dispatcher.RecordStart | src/osoznanie/action_dispatcher.py:268-276 | Stores the started attempt, or is refused, whatever happened since the claim |
| ActionDispatcher.Dispatcher.ExecuteAdapter | src/osoznanie/action_dispatcher.py:287-334 | The adapter is called only past the three checks, under the attempt that the worker holds |
| ActionDispatcher.Dispatcher.Finish | src/osoznanie/action_dispatcher.py:336-394 | In any valid database, whoever acted in between: fresh evidence is written exactly when the lease is live and a reported outcome is stored, and a refusal changes no table |
| ActionDispatcher.Dispatcher.DispatchOnce | src/osoznanie/action_dispatcher.py:262-285 | The four steps in their order, each error ending the pass |
| ActionDispatcher.UndisturbedPass | src/osoznanie/action_dispatcher.py:262-394 | What the four steps come to when nobody acts in between: evidence before the adapter, a verdict exactly for a finish inside the lease, and a refused report leaves the row leased |
| InstantText.TextOrderIsTimeOrder | src/osoznanie/action_outbox.py:55-58 | For all legal UTC date-times, the isoformat texts compare and coincide exactly as the instants do |
| InstantText.ReadinessByTextIsByTime | src/osoznanie/sqlite_action_outbox.py:127-176 | The text comparisons in the ready query and its order agree with those of the instants |
| InstantText.NextByTextIsNext | src/osoznanie/sqlite_action_outbox.py:163-176 | Over a whole table of stored texts, the query returns a row exactly when it is the next ready row over instants |
| InstantText.ClaimByTextIsClaim | src/osoznanie/sqlite_action_outbox.py:163-176 | In every reachable queue the query over text finds the row that the claim leases, and none exactly when no row is ready |
| InstantText.ListingByTextIsCausal | src/osoznanie/action_attempt_store.py:190-207 | The attempt listing, ordered by the stored text of the start, is the causal order of one intent's records |
| MemoryRecords.FindLatest | src/osoznanie/consolidation.py:183-195 | The loop over an unordered history finds the highest version, or refuses exactly when two records claim one version |
| MemoryRecords.ConsolidateHistory | src/osoznanie/consolidation.py:132-180 | The next version, or the error, for the relevant part of a history |
| MemoryRecords.ConsolidationIgnoresOrder | src/osoznanie/consolidation.py:132-195 | Order, repetitions and foreign records in the history do not influence the result |
| RecordInvariants.RunKeepsInv | src/osoznanie/storage.py:285-468 | Every step keeps references to earlier stored records, the index, and every chain with its head |
| RecordTheorems.ChainsAreLinear | src/osoznanie/storage.py:421-468 | The versions of a key are exactly 1 to the head's, each superseding exactly its predecessor, all of one type |
| RecordTheorems.StaleWriterChangesNothing | src/osoznanie/storage.py:307-330 | A commit against a head that has been replaced since leaves all tables as they are |
| RecordTheorems.ConsolidatedVersionCommits | src/osoznanie/storage.py:285-419 | A version consolidated from the full history at the current head always passes the progression checks, and becomes the head exactly when its references are stored and its id is free |
| RecordTheorems.LatestIsHead | src/osoznanie/consolidation.py:183-195 | The latest version found in the full history, in any order, is the stored head |
| RecordTheorems.ProvenanceIsClosed | src/osoznanie/storage.py:151-160 | Every reference of every stored record is stored |
| RecordTheorems.ReferencesAreWellFounded | src/osoznanie/storage.py:197-228 | A path along references meets no record twice and is no longer than the number of insertions |
| RecordTables.RecordDatabase.CommitMemory | src/osoznanie/storage.py:285-419 | The new tables and the answer of the compare-and-swap commit; the invariant is kept |
| RecordTables.RecordDatabase.Save | src/osoznanie/storage.py:197-228 | The new tables and the answer of save; later memory versions are refused |
| RecordTables.RecordDatabase.Delete | src/osoznanie/storage.py:470-494 | The new tables and the answer of an unforced delete; indexed and referenced records stay |
| RecordAnswers.CommitsExactlyWhen | src/osoznanie/storage.py:285-419 | Over every run, a commit changes the store exactly when the version continues its chain as the caller expects, its id is free and its references are stored; it repeats exactly the stored head; every other commit changes nothing |
| RecordAnswers.CommitRefusalsMean | src/osoznanie/storage.py:285-468 | Over every run, the one cause of each refusal of a commit: another memory under the id, a head that is not the expected one, a version that does not continue the chain, a missing reference |
| RecordAnswers.SavesExactlyWhen | src/osoznanie/storage.py:197-228 | Which saves succeed, for first memory versions and for other records, and what they add |
| RecordAnswers.SaveRefusalsMean | src/osoznanie/storage.py:197-228 | Later memory versions are refused as unsafe, other records for a missing reference or a taken id |
| RecordAnswers.DeletesExactlyWhen | src/osoznanie/storage.py:470-494 | A record is deleted exactly when it is stored and no version row and no other record names it |
| RecordAnswers.ConsolidationCarries | src/osoznanie/consolidation.py:132-180 | Every successful consolidation carries content, sources, confidence, importance, window and contradictions of its mutation, the status of its kind, and follows the last version of the key |
| RecordAnswers.ConsolidationRefuses | src/osoznanie/consolidation.py:132-180 | A valid mutation is refused exactly for an ambiguous history, a dispute or revoke without history, a changed type, or an id that breaks the memory contract |
| RecordAnswers.ResolvesHighest | src/osoznanie/memory.py:115-139 | The resolver looks at the highest effective memory of the key alone, by version, update and id, and answers with it exactly when it is active and not past its end |
| MemoryView.ValidateHistory | src/osoznanie/memory_view.py:265-278 | Accepts exactly the histories in which no two nodes claim one version of a key |
| MemoryView.GroupCandidates | src/osoznanie/memory_view.py:170-194 | The first loop counts each exclusion and groups exactly the candidates by key |
| MemoryView.DecideKeys | src/osoznanie/memory_view.py:195-250 | The second loop decides every key by its governing candidate |
| MemoryView.ProjectHistory | src/osoznanie/memory_view.py:158-263 | The view, or the refusal of an ambiguous history |
| ViewTheorems.EachKeyIsDecidedOnce | src/osoznanie/memory_view.py:195-250 | A key with candidates yields exactly one entry or one rejection, decided by its highest candidate version alone; a key without candidates yields nothing |
| ViewTheorems.CountsPartitionHistory | src/osoznanie/memory_view.py:170-263 | Filtered, not known, not yet, superseded, entries and rejections add up to the history; the gate counts add up to the rejections |
| ViewTheorems.ViewAgreesWithResolver | src/osoznanie/memory.py:115-139 | On every committed history, without cutoff and filter, the view admits for each key exactly what the simple resolver finds |
| ViewTheorems.PastViewsAreReproducible | src/osoznanie/memory_view.py:170-186 | Commits stamped after the cutoff leave entries and rejections as they were and move only two counters, by the number of added versions |
| ViewTheorems.ListingMembers | src/osoznanie/sqlite_memory_view.py:21-58 | The listing holds exactly the indexed versions with their knowledge times |
| ViewTheorems.CommittedIsUnambiguous | src/osoznanie/memory_view.py:265-278 | A listing of a reachable store always passes the ambiguity check |
| ViewMeaning.FiltersChooseVersions | src/osoznanie/memory_view.py:158-194 | Entries and rejections are those of the plain projection of exactly the versions that pass the filters and were committed by the cutoff |
| ViewMeaning.LateCutoffIsNoCutoff | src/osoznanie/memory_view.py:176-184 | Over every run, a cutoff not before any commit changes no entry and no rejection |
| ViewMeaning.CountersSayWhatTheyCount | src/osoznanie/memory_view.py:170-194 | The three exclusion counters are the numbers of versions filtered out, not yet known, and not yet valid, each described by its fields |
| ViewMeaning.GateCountersSayWhatTheyCount | src/osoznanie/memory_view.py:195-250 | The two gate counters are the numbers of rejections by status and by expiry |
| ViewMeaning.HighestDecides | src/osoznanie/memory_view.py:195-250 | A key is decided by its highest version in play alone, by version, commit and id: an entry when active and not expired, otherwise one rejection with its status or as expired |
| ViewMeaning.ListsAreByKey | src/osoznanie/memory_view.py:195-263 | Entries and rejections are listed by key, each key once at most |
| ViewMeaning.CommittedMutationDecides | src/osoznanie/consolidation.py:132-180 | Over every run, once a consolidated version is committed, every query that sees it is answered by it: a revoke or dispute leaves no entry of the key and one rejection with its status, an upsert is the entry inside its window |
| AccessControl.AllowsExactlyWhen | src/osoznanie/access_control.py:172-213 | A key is allowed exactly when it is no policy, is requested, and some matching allow rule is strictly more specific than every matching deny rule |
| AccessControl.NoPotentialAllowAllowsNothing | src/osoznanie/access_control.py:215-216 | Without an allow rule nothing is allowed, so the short cut skips nothing |
| AccessControl.CollectRules | src/osoznanie/access_control.py:284-293 | The loop over the policy view, with its refusal of a malformed policy |
| AccessControl.AuthorizeRequest | src/osoznanie/access_control.py:260-336 | The authorization that the policy history gives to a request |
| AccessTheorems.AuthorizedExactlyWhen | src/osoznanie/access_control.py:260-336 | The policies in force for requester and action decide: an unambiguous, well-formed policy view with a matching allow that is strictly more specific than every matching deny |
| AccessTheorems.ReasonExactlyWhen | src/osoznanie/access_control.py:267-336 | Each reason code of the audit trace is given exactly in its case |
| AccessTheorems.RestrictedViewAgrees | src/osoznanie/access_control.py:387-402 | Over every run, the authorized entries and rejections are those of the full non-policy projection on the allowed keys, in order, on the short cut too |
| AccessTheorems.ListedTypesConstant | src/osoznanie/storage.py:465-468 | All listed versions of a key are of one type |
| AccessTheorems.AgreementNeedsTypeConstancy | src/osoznanie/access_control.py:387-402 | A key whose type changed makes the two views disagree |
| AccessTheorems.HiddenCommitsAreInvisible | src/osoznanie/access_control.py:379-402 | Whatever is committed under keys that are not allowed, the authorized view does not change, not even in a counter |
| AccessMeaning.TypeNames | src/osoznanie/memory.py:16-25 | The nine type names, which type rules compare with |
| AccessMeaning.AllowsByResources | src/osoznanie/access_control.py:147-216 | Which keys the rules permit, from their resources: the exact key before every prefix, a longer prefix before a shorter one, any prefix before the type, denial before permission |
| AccessMeaning.AuthorizedByPolicies | src/osoznanie/access_control.py:260-336 | A request may see a key exactly when it is no policy, is selected, and the well-formed policies in force for requester and action permit it in that sense |
| AccessMeaning.MatchedAreInForce | src/osoznanie/access_control.py:290-336 | The audit trace lists exactly the policies in force for requester and action, in order of id |
| AccessMeaning.ReadersGetTheirRows | src/osoznanie/sqlite_access_control.py:17-118 | The restricted reader gets exactly the allowed versions, the policy reader exactly the policies |
| AccessTables.PrefixIsLike | src/osoznanie/sqlite_access_control.py:66-68 | Every key with a prefix matches the LIKE pattern, whatever wildcards the prefix holds |
| AccessTables.LiteralLike | src/osoznanie/sqlite_access_control.py:66-68 | For a prefix without wildcards the pattern admits exactly the prefix up to ASCII case |
| AccessTables.PrefilterAloneIsTooWide | src/osoznanie/sqlite_access_control.py:66-94 | The pattern also admits a key without the prefix |
| AccessTables.PrefilterLosesNothing | src/osoznanie/sqlite_access_control.py:58-76 | Every row that the scope allows satisfies the WHERE clause |
| AccessTables.BuildParts | src/osoznanie/sqlite_access_control.py:58-76 | The built clauses keep every allowed row, and there is none exactly when nothing specific is requested |
| AccessTables.ListingInOrder | src/osoznanie/sqlite_access_control.py:78-86 | The listing is strictly ordered by key and version |
| AccessTables.FetchedSuffice | src/osoznanie/sqlite_access_control.py:88-118 | Checking the fetched rows admits the same versions as checking every row |
| AccessTables.AuthorizedStore.ListAuthorized | src/osoznanie/sqlite_access_control.py:53-118 | Returns exactly the admitted versions in key and version order, and loads no other payload |
| AccessTables.AuthorizedStore.ListPolicies | src/osoznanie/sqlite_access_control.py:17-43 | Returns exactly the policy versions of the listing |
| AccessTables.AuthorizedStore.ProjectAuthorized | src/osoznanie/access_control.py:387-402 | The authorized view over the two adapters |
| DecisionTraces.Create | src/osoznanie/decision_trace_builder.py:138-142 | A built trace has a valid payload and the id derived from it |
| DecisionTraces.RunKeepsInv | src/osoznanie/decision_trace_store.py:35-48 | Every step keeps valid, indexed links with stored references and one successor at most |
| TraceTheorems.WalkReachesVersionOne | src/osoznanie/decision_trace_store.py:129-165 | From a stored trace of version n exactly n - 1 links lead to version 1, through stored traces of one captured context |
| TraceTheorems.SuccessorIsUnique | src/osoznanie/decision_trace_store.py:43-46 | No trace has two successors |
| TraceTheorems.PathsAreDisjoint | src/osoznanie/decision_trace_store.py:37-48 | Two paths that meet are one path |
| TraceTheorems.TracesAreForever | src/osoznanie/decision_trace_store.py:92-112 | A stored trace stays unchanged whatever is saved or deleted later |
| TraceTheorems.TraceReferencesExist | src/osoznanie/decision_trace_store.py:85-90 | Everything a stored trace refers to is stored |
| TraceTheorems.AttachExactlyWhen | src/osoznanie/decision_trace_builder.py:97-136 | For every stored trace and outcome: when a link is built, with which error it is refused otherwise, and when the store accepts it |
| TraceTheorems.AttachCanBeRefused | src/osoznanie/decision_trace_builder.py:113-116 | Two reachable refused inputs: an outcome before the decision, and a memory that bears the provisional id |
| TraceTheorems.AttachToTailSucceeds | src/osoznanie/decision_trace_builder.py:97-136 | With derived ids and a collision-free digest, a link is built on a tail exactly for an attachable outcome, is always accepted, and becomes the tail |
| TraceAnswers.SavesExactlyWhen | src/osoznanie/decision_trace_store.py:71-165 | Over every run, a trace is inserted exactly when its id is free, its references are stored, it starts a chain or follows its predecessor, and that has no successor; a stored one is answered without a change |
| TraceAnswers.RefusalsMean | src/osoznanie/decision_trace_store.py:71-165 | Over every run, the one cause of each refusal of a trace: a taken id or predecessor, a missing reference, no next link |
| TraceAnswers.SavesOtherExactlyWhen | src/osoznanie/storage.py:197-228 | Any other record is saved exactly under a free id with stored references |
| TraceAnswers.DeletesExactlyWhen | src/osoznanie/storage.py:470-494 | Exactly the stored records that are no trace and that no other record names can be deleted |
| TraceAnswers.LinkSays | src/osoznanie/decision_trace_builder.py:97-136 | A link keeps the captured context, names outcome and trace, is one version later and dated by the outcome |
| TraceTables.TraceDatabase.Save | src/osoznanie/decision_trace_store.py:71-112 | The new tables and the answer of save; the invariant is kept |
| TraceTables.TraceDatabase.ValidateProgression | src/osoznanie/decision_trace_store.py:129-164 | Passes exactly a first version, or the next version of a stored trace in its context with an outcome |
| TraceTables.TraceDatabase.Exists | src/osoznanie/decision_trace_store.py:50-57 | Finds an index row exactly for the stored traces |
| TraceTables.TraceDatabase.Delete | src/osoznanie/storage.py:470-494 | The new tables and the answer of an unforced delete, which never removes a trace |
| OrchestrationTheorems.ExecutedAtMostOnceAfterItsTrace | src/osoznanie/orchestration.py:292-318 | Over any sequence of runs, nested runs and failures included, an executor is invoked at most once for each trace id, and only when the trace is stored |
| OrchestrationTheorems.IntentsBelongToOneTrace | src/osoznanie/action_outbox.py:193-252 | Each intent belongs to one stored allow trace with equal requester, agent, action, tool, call id and input hash, and no other intent does |
| OrchestrationTheorems.ValidRequestsBuildTraces | src/osoznanie/decision_trace.py:106-128 | A valid request and proposal that are allowed always build a valid trace, except when a captured record bears the provisional id |
| OrchestrationTheorems.TraceCapturesAuthorizedView | src/osoznanie/orchestration.py:238-291 | The trace of a run names exactly the memories of the authorized view, and only policies in force |
| OrchestrationTheorems.ReportedTraceIsStored | src/osoznanie/orchestration.py:315-353 | Whatever fails after the save, the trace is stored; a traced outcome has a stored successor that names it |
| OrchestrationTheorems.EnqueueLeavesIntent | src/osoznanie/orchestration.py:315-328 | A run that completes with a wrapped enqueue leaves exactly one intent for its trace; with the plain callback it raises instead, with the same stores |
| OrchestrationTheorems.BuiltFromProposalMatches | src/osoznanie/action_outbox.py:193-252 | A proposal builds an intent from its own trace exactly when it names a tool and is not available before the decision |
| OrchestrationTheorems.RunKeepsInv | src/osoznanie/orchestration.py:232-353 | Every step keeps the trace store, the queue, the invocation log and the ownership of intents consistent |
| OrchestrationTheorems.PlannedTraceIsValid | src/osoznanie/orchestration.py:280-291 | A planned trace is a valid first version, each captured field of which is that of request, proposal or view |
| PipelineMeaning.StopsExactlyWhen | src/osoznanie/orchestration.py:232-291 | A run stops before any store exactly for its first obstacle: denial, ambiguous history, missing context, a malformed or foreign proposal, an invalid trace |
| PipelineMeaning.ActsExactlyWhen | src/osoznanie/decision_trace.py:106-128 | A run past those obstacles acts exactly when the trace contract is met, in the terms of request, proposal, matched policies and view |
| PipelineMeaning.ReportsExactlyWhen | src/osoznanie/orchestration.py:292-353 | In every reachable world, what a run that acts reports and stores: a repeated trace, a failed store, a missing executor, and each reply of an executor; it is invoked exactly for a new trace |
| PipelineMeaning.OutcomeTracedExactlyWhen | src/osoznanie/orchestration.py:329-353 | An outcome is reported as traced exactly when both stores work, its id and that of its link are free, its references are stored, it is not before the decision, and the trace has no successor; then exactly outcome and link are added |
| PipelineMeaning.NestedRunsInOrder | src/osoznanie/orchestration.py:315-318 | An executor that runs the pipeline again does so call by call, after its own invocation |
| PipelineMeaning.EffectsInOrder | src/osoznanie/orchestration.py:315-318 | An executor that uses the store does so step by step, after its own invocation |
| PipelineMeaning.BuildsExactlyWhen | src/osoznanie/action_outbox.py:193-252 | An intent is built exactly from an allow trace with a tool and a matching proposal, for a time not before the trace, and says what the trace says |
| PipelineMeaning.EnqueueMeans | src/osoznanie/sqlite_action_outbox.py:81-122 | Over every run, an accepted enqueue stores its trace, and finds its intent stored or leaves it waiting from the time asked for; a refused one changes nothing |
| Orchestrator.Pipeline.Enqueue | src/osoznanie/sqlite_action_outbox.py:81-122 | Trace and intent are stored together or not at all |
| Orchestrator.Pipeline.MakePlan | src/osoznanie/orchestration.py:238-291 | Authorize, project, decide and build, with every refusal |
| Orchestrator.Pipeline.Run | src/osoznanie/orchestration.py:232-353 | The new stores, the invocation log and the answer of run |
| ApplicationTheorems.KeysAndApplicationsCorrespond | src/osoznanie/application_store.py:426-470 | Idempotency keys and stored applications correspond one to one |
| ApplicationTheorems.SavedApplicationReplays | src/osoznanie/application_store.py:195-219 | A retry under the key returns the stored application and changes nothing; another payload under the key is refused |
| ApplicationTheorems.DeterminateIsObserved | src/osoznanie/application_store.py:366-392 | In every run a determinate evaluation has, for each of its applications, a cited observation between application and evaluation, under the application's own criterion |
| ApplicationTheorems.EvaluationsAreCausal | src/osoznanie/application_store.py:221-412 | In every run that deletes no cited experience record: criterion fixed, query, retrieval, application, observation, evaluation, in this order |
| ApplicationTheorems.EvaluationsStayInOrder | src/osoznanie/application_store.py:221-412 | In every run that saves no cited record out of bounds, whatever it deletes, the same order holds among the records that are present |
| ApplicationTheorems.StepKeepsOrderExactlyWhen | src/osoznanie/application_store.py:259-288 | A step keeps the order exactly unless it saves a missing cited record at a time outside its bounds |
| ApplicationTheorems.RunOrderedExactlyWhen | src/osoznanie/application_store.py:221-288 | The order holds after every prefix of a run exactly when no step does that |
| ApplicationTheorems.RunTimelyExactlyWhen | src/osoznanie/application_store.py:221-288 | Order and presence of the cited records hold after every prefix exactly when no step deletes a cited record |
| ApplicationTheorems.CausalOrderCanFail | src/osoznanie/storage.py:470-494 | A concrete run after which a stored determinate evaluation has a query later than its retrieval |
| ApplicationTheorems.RunKeepsInv | src/osoznanie/application_store.py:414-470 | Every step keeps contracts and idempotency, and only adds records |
| ApplicationAnswers.ApplicationAccepted | src/osoznanie/application_store.py:221-288 | An application passes exactly when all it names is stored and of its kind, in causal order; each refusal names its cause |
| ApplicationAnswers.ObservationAccepted | src/osoznanie/application_store.py:290-338 | An observation passes exactly when it is about stored applications of its own action, not before them, and corrects an observation of that action |
| ApplicationAnswers.EvaluationAccepted | src/osoznanie/application_store.py:340-412 | An evaluation passes exactly when it judges stored applications of its criterion, each observed by then, and corrects an evaluation of the same applications |
| ApplicationAnswers.SavesExactlyWhen | src/osoznanie/application_store.py:426-484 | Over every run, a save adds exactly its record, exactly when the record is in order, its id is free and no stored application bears its key; otherwise what it answers |
| ApplicationAnswers.SavesExperienceExactlyWhen | src/osoznanie/storage.py:197-228 | An experience record is saved exactly under a free id with stored references |
| ApplicationAnswers.DeletesExactlyWhen | src/osoznanie/storage.py:470-494 | An experience record is deleted exactly when no other one refers to it, whatever applications cite it |
| ApplicationTables.ApplicationDatabase.ValidateObservation | src/osoznanie/application_store.py:290-338 | The first error that the loops over an observation's references find |
| ApplicationTables.ApplicationDatabase.CoveredIds | src/osoznanie/application_store.py:375-379 | The set of applications that some observation covers |
| ApplicationTables.ApplicationDatabase.ValidateEvaluation | src/osoznanie/application_store.py:340-412 | The first error that the checks of an evaluation find |
| ApplicationTables.ApplicationDatabase.Save | src/osoznanie/application_store.py:426-484 | The new tables and the answer of save; the invariant is kept |
| Publication.VerifiesExactlyWhen | benchmarks/artifact_integrity.py:170-203 | Verification succeeds exactly on the trees whose files, sizes and digests are those of the index, with the manifest beside them and no link |
| Publication.VerifyIntegrityIndex | benchmarks/artifact_integrity.py:170-203 | The loops over tree and index find the first error in the order of the checks |
| Publication.ManifestDeterminesTree | benchmarks/artifact_integrity.py:228-236 | Two verified trees with one manifest digest are equal |
| PublicationTheorems.StopAnywhereIsSafe | benchmarks/audit_paths.py:319-364 | Stopped in any filesystem step, the pointer verifies to the old set, or after the last step to the new one; published sets never change; no conflict ever arises |
| PublicationTheorems.FailedCallIsSafe | benchmarks/audit_paths.py:361-364 | An error in any step, cleaned up completely or not, leaves the old set published |
| PublicationTheorems.PublishedForever | benchmarks/artifact_integrity.py:217-280 | Over any sequence of calls stopped or failing anywhere, the pointer is missing or verifies, and published sets stay |
| PublicationTheorems.PublishesExactlyWhen | benchmarks/audit_paths.py:319-360 | A call succeeds exactly for a publishable bundle, and leaves the pointer at a verified set of its files whose id depends on the bundle alone |
| PublicationTheorems.PublishedTextsAreRead | benchmarks/audit_paths.py:328-342 | Every entry of a published bundle reads back its three texts |
| PublicationTheorems.PublishIsGuarded | benchmarks/artifact_integrity.py:217-261 | Publishing a verified staged set never conflicts, renames only verified sets, and ends at a set of the staged content |
| PublicationTheorems.CurrentResolves | benchmarks/artifact_integrity.py:264-280 | In every safe state the pointer is missing, or resolves and verifies to the set it names |
| PublicationMeaning.SetVerifiesExactlyWhen | benchmarks/audit_paths.py:296-306 | A set verifies to a manifest exactly when it holds that manifest, exactly its artifacts under distinct paths beside it, no link, and an index that is complete, sorted and true |
| PublicationMeaning.PublishedVerifiesExactlyWhen | benchmarks/audit_paths.py:310-315 | On any disk, the published set verifies exactly when the current file points to it and it is such a set |
| PublicationMeaning.ErrorsMean | benchmarks/artifact_integrity.py:170-203 | Each refusal of a tree means that its own check fails and those before it pass |
| PublicationMeaning.MismatchIsFirst | benchmarks/artifact_integrity.py:198-203 | A size or hash mismatch is that of the first file of the index that differs |
| PublicationMeaning.IndexesExactlyWhen | benchmarks/artifact_integrity.py:146-167 | Indexing succeeds exactly on distinct paths of present files, and lists them in ascending order with size and digest |
| PublicationMeaning.FingerprintsTellTrees | benchmarks/artifact_integrity.py:206-214 | Two trees without links have equal fingerprints exactly when they are equal |
| PublicationMeaning.PublishesStagedExactlyWhen | benchmarks/artifact_integrity.py:217-261 | On any disk, publishing fails exactly without a manifest, at a link, or when the set of its id holds other files, and then only discards the staging; otherwise the current file points to the set of exactly the staged files |
| PublicationMeaning.ResolvesExactlyWhen | benchmarks/artifact_integrity.py:264-280 | The pointer resolves to a set exactly when it names it, and the set holds the named manifest with that digest |
| PublicationMeaning.LeavesNothingBehind | benchmarks/audit_paths.py:319-364 | A call that ends, or meets an I/O error anywhere and cleans up, leaves neither staging directory nor temporary file |
| PublicationStore.BuildIntegrityIndex | benchmarks/artifact_integrity.py:146-167 | The loop indexes every file in order, or refuses a missing file or a repeated path |
| PublicationStore.PublicationRoot.Verify | benchmarks/audit_paths.py:296-306 | The manifest of a verified set, or the error |
| PublicationStore.PublicationRoot.StageFiles | benchmarks/audit_paths.py:325-342 | The loop performs exactly the staging steps of the model |
| PublicationStore.PublicationRoot.PublishStagedSet | benchmarks/artifact_integrity.py:217-261 | Performs exactly the publishing steps, in order |
| PublicationStore.PublicationRoot.WriteAuditPathBundle | benchmarks/audit_paths.py:319-364 | Performs exactly the steps of the model, in order, with its result |
| RecallTheorems.CandidateExactlyWhen | src/osoznanie/recall.py:416-461 | A lesson is a candidate exactly when it passes the status, time, domain, overlap, access and score gates |
| RecallTheorems.ScopeGateMeansOverlap | src/osoznanie/recall.py:239-249 | Behind the domain gate, the scope gate admits exactly the lessons with the task type or a common tag |
| RecallTheorems.RecallPartitions | src/osoznanie/recall.py:405-461 | Every lesson is in exactly one of seven counters or is a candidate |
| RecallTheorems.ResultsAreFirst | src/osoznanie/recall.py:483-488 | The candidates are exactly the results of the stored lessons that pass, and the results are the first of them by bucket descending and id ascending, up to the limit |
| RecallTheorems.CodesTellTheMatch | src/osoznanie/recall.py:337-381 | A result says it matches the task, shares tags or has verified evidence exactly when it does, and it always has a match or a shared tag |
| RecallTheorems.RecallIgnoresStorageOrder | src/osoznanie/recall.py:416-488 | Results and counters do not depend on the order in which the store lists the lessons |
| RecallTheorems.LargerLimitExtends | src/osoznanie/recall.py:484-484 | A larger limit only extends the results |
| RecallTheorems.LowerRiskAdmitsMore | src/osoznanie/recall.py:227-231 | A candidate stays one, with the same score, at every lower risk threshold |
| RecallTheorems.ScoresAreInRange | src/osoznanie/recall.py:447-464 | A candidate's score and bucket stay within their bounds |
| RecallTheorems.BucketFollowsScore | src/osoznanie/recall.py:86-97 | Rounding is off by at most half a millionth and never reverses an order |
| RecallTheorems.EvidenceIsCited | src/osoznanie/recall.py:310-334 | The evidence of a lesson is exactly what hypotheses of its stored reflections cite |
| RecallTheorems.ProvenanceExactlyWhen | src/osoznanie/recall.py:294-335 | The provenance lists, each once, exactly the lesson, its reflections, their sources and evidence |
| RecallMeaning.GateExactlyWhen | src/osoznanie/recall.py:416-461 | Where a lesson stops, for each of the seven gates and the candidates, from status, times, domain, tags, cited evidence and score |
| RecallMeaning.ScoreSays | src/osoznanie/recall.py:239-255 | The score, from domain, task, shared tags, confidence, average trust and age |
| RecallMeaning.TrustIsAverage | src/osoznanie/recall.py:447-451 | Trust is the average over the cited records, each once, verified ones counting fully and reported ones by half |
| RecallMeaning.CountersSayWhatTheyCount | src/osoznanie/recall.py:405-461 | Each counter is the number of stored lessons that stop at its gate |
| RecallMeaning.ResultSays | src/osoznanie/recall.py:463-478 | A result has the score and its parts rounded to the nearest millionth, to the even one on a tie, and exactly the reason codes that apply, in order |
| RecallMeaning.ProvenanceNamesStored | src/osoznanie/recall.py:286-335 | The provenance starts with the lesson and lists, each once, exactly its reflections, their sources and evidence, each under its own kind |
| RecallMeaning.RankedByScore | src/osoznanie/recall.py:483-484 | Results come with the highest score first, equal scores by id |
| RecallMeaning.LeftOutIsBehind | src/osoznanie/recall.py:483-484 | A passing lesson is left out only at the limit, behind every result |
| Recall.LessonEvidence | src/osoznanie/recall.py:310-334 | The loops fill the dictionary with exactly the cited evidence, sorted by id |
| Recall.LessonProvenance | src/osoznanie/recall.py:294-335 | The loops list the references in order of first occurrence |
| Recall.JudgeLesson | src/osoznanie/recall.py:416-481 | The gate of a lesson, and its result with score parts, reason codes and provenance |
| RecallEngine.ListLessons | src/osoznanie/storage.py:234-246 | Lists every stored lesson once, by creation time and id |
| RecallEngine.RecallWithDiagnostics | src/osoznanie/recall.py:393-488 | The loop counts every exclusion and returns the ranked results of the stored lessons, the same for every listing of them |

## Left out

- SQLite itself: locking, WAL, busy timeouts, SQL parsing, schema migration and the LIKE length limit; transactions, rollback, uniqueness and foreign keys are taken as given.
- `SQLiteActionOutbox.complete/fail` and `SQLiteActionAttemptStore.succeed/fail`: a second path beside the finalizer that does not keep the evidence and the queue in agreement.
- Forced deletes, and saving a decision trace through the generic `SQLiteExperienceStore.save`, which bypasses the trace index.
- SHA-256, JSON canonicalisation, text trimming, case folding of identifiers, random tokens and ids.
- Floating point: scores are real numbers, and the recency share of an age is an argument; the latency of an attempt is an integer number of milliseconds.
- Liveness: a crash between the trace save and the enqueue is not retried; two concurrent `run` calls for one trace are not covered by the at-most-once result.
- Finish times outside UTC passed to the finalizer directly, and memory timestamps without a time zone.
- The outcome table of the action protocol and the record table of the trace store are two maps in `Orchestration`; no result there depends on their agreement.
- Each store model sees the `records` table as far as its own checks look at it; the action model has no references among other records, so its runs delete more than the source does.
- A delete of a committed memory version is refused by the source in the trace and application stores too; those two models allow it, so their runs include more than the source does.
- Path syntax of artifact files, directories, sizes beyond the length of the text, and fsync: a filesystem step is durable when it is done, and the order of a tree removal is any.
- Concurrent publishers; leftovers of earlier crashed ones are covered.
- The wording of recall explanations, the Playwright runner and adapter, HTTP pages, command-line entry points, JSON Schema generation, rendering and benchmark metrics.
