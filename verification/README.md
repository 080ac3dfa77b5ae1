# Verified model of the write-behind pipeline and of the key lifecycle

This project states and proves what four parts of the repository are for.

1. **Event pipeline.** A request stores an intent flag and appends a stream event; consumers deduplicate, insert in batches, commit, acknowledge with compare-and-delete of the intents, or dead-letter. `Pipeline` is a machine of atomic steps (emission, delivery, any number of consumers, reclaimers, crashes, lost replies, intent expiry). A run is any sequence of steps; a step that is not possible changes nothing. `PipelineSafety`, `PipelineView`, `PipelineSettled` and `PipelineCounts` prove the laws over all runs, `PipelineWitness` gives runs that go wrong as the code is written. `RedisCommands` has the Redis transactions command by command, `RoundOutcome` says of the stores alone what a commit and a whole round do to each event, `PipelinePlaces` that pending excludes dead-lettered, `Consumer` has the imperative code (retry loops, one round of the insertion consumer), proved to take only steps of the machine while the other participants move between any two of its transactions (`PipelineProgress` says what they cannot take back), and `Producer` the emission. `Association` and `BisectInsert` give the meaning of the upsert statement and of the bisecting insert, `PagedDecrements` the paging consumer, `Reclaim` the dead-event scan.
2. **Counter flush.** `Counters` is the machine of producers, flush workers and retry workers, without any lock. `CounterLadder` proves the retry ladder, `CounterTotals` conservation, `CounterWorkers` the imperative flush against the machine, with producers and other workers moving between its transactions. `RetryNames` and `Text` are the names.
3. **Signing keys and refresh tokens.** `KeyLifecycle` has each key operation as a function of table, JWKS list, PEM files and shared list, with its failure points; `KeyStore` proves the imperative operations against those functions, `KeyAgreement` proves what every operation keeps and exactly when it fails to, `KeyOutcomes` what each one replies and leaves in every store, row by row, `KeyRuns` what holds in all runs, with failures anywhere, and how far the files and the shared list can be from the table, `KeyOverlap` what happens when operations overlap, `KeyPolling` the convergence of a worker's local keys. `RefreshFamilies` is refresh-token rotation (section 4.14.2 of RFC 9700).
4. **Codecs.** `Base64Url` (section 5 of RFC 4648), with `Base64Numeral` for the text as a number, and `StreamIds` (flattening `ms-seq` to an integer), with `LastWriter` for what inverted ids do to the association table.

Environment choices (errors, lost replies, orders of listing, which rows a constraint rejects, fresh identifiers, times) are parameters of the operations and universally quantified.

## Differences between the code and the model

Where the code is unfinished, the model follows the evident intent.

- `tasks/consumer.py:154-206` acknowledges inside the connection block, before the commit; `email_worker/src/email_worker/tasks.py:82-86` commits first. The model commits first. The order as written is the step `AckEarly`; `PipelineView.EarlyAcknowledgement` and `PipelineWitness.AcknowledgedTooEarly` show what it loses.
- `event_processing/db_qos.py:31-39` rolls the dedup rows back with a failed attempt and retries without them. In the model every attempt inserts its dedup rows.
- `tasks/consumer.py:187-194` acknowledges `batch` where lines 182-186 compute `successful_events`. The model acknowledges the latter; `PipelineView.AcknowledgeRightIff` says when acknowledging a set of events is right. Stale events return no row, so they count as failed and are dead-lettered, as written.
- `event_processing/post_processing.py:23-34` adds to the dead-letter stream under the event's own id. Redis refuses an id at or below the top of the stream, while the XACK of the same transaction applies. The model keeps this: refused events are in `lost`, `PipelineSafety.NothingLostIffOrderly` says exactly when there are none, and a retry after a lost reply raises.
- `event_processing/post_processing.py:101-122` executes the increments of an event again when it is acknowledged, in the transaction that `qos.py:25-43` repeats after a lost reply. The model keeps both: `PipelineCounts.CountsOfRun` says what a run adds in all, `RedisCommands.RepeatedCounts` that an acknowledgement adds its deltas once exactly when it was executed once.
- A commit whose reply is lost after a constraint rejected an event makes the next attempt take the event for a duplicate and acknowledge it. `PipelineWitness.StrandedByLostReply` is such a run, `PipelineSettled.LawHoldsIffNothingStranded` says exactly which steps do this.
- `workers/database/counters.py:28-30` commits inside `conn.transaction()`, which psycopg refuses with an error that lines 35-37 take for unrecoverable, so that as written every flush is dead-lettered; and `utils/sql_templates.py:11-17` qualifies the column in `SET t.{column}`, which Postgres refuses. The model flushes and commits once.
- `workers/database/counters.py:28-37` takes every operational error for a failed flush, also one after the commit went through; the batch is then flushed again. `CounterTotals.ConservedIffNothingRecounted` says exactly when a counter is conserved all the same.
- XACK is given the flattened integer id, which Redis reads as `N-0`: `StreamIds.FlattenedIdNamesAnotherEntry`. The pipeline acknowledges the event's own entry.
- `event_processing/pre_processing.py:22-25` keeps every copy of a new id (`RedisCommands.CopiesSurviveTrimming`); batches of the machine have distinct ids.
- `templates/sql.py:40-46` formats the single-row dedup statement where the batch one is defined at 30-37; the model uses the batch one. The payload types of upserts omit the state and sequence columns of lines 77-79; rows of the model have both.
- `tasks/insertions.py:219-250` returns no id for strong entities, so all of them would be dead-lettered; `Consumer` models the association path.
- `utils/strings.py:49` swaps the receiver and argument of `split`; `tasks/counters.py:138` passes the retry batch name where the group name is needed, and line 96 lacks `.items()`; `workers/redis/declarations.py:36` passes its arguments in the wrong places. The model uses the intended ones. BLPOP's reply is taken as the name.
- `tasks/consumer.py:391-460` never clears `exception` after a transient error, so an event whose rows were all decremented on a later attempt is still declared dead, and with `MAX_RETRIES` 0 it is acknowledged without any decrement. The model keeps both; see `PagedDecrements.Downstream.Consume`. A lost reply to an emission decrements its page again (lines 423-425), and a redelivered event is acknowledged whatever a crash left undone (lines 395-397): `PagedDecrements.OnceIffNoReplyLost`, `PagedDecrements.Downstream.DeliverTwice`.
- `repositories/keydata.py:26-44` feeds the JWKS file newest first, `security/keygen.py:80-81` trims from the front. Oldest first the stores agree after bootup (`KeyAgreement.BootAgrees`), newest first exactly when there is at most one valid key (`KeyAgreement.NewestFirstAgreesIff`); `KeyAgreement.NewestFirstDisagrees` shows the wrong key being dropped.
- `routers/keys.py:174` raises after the commit when the serving worker still signs with the invalidated key, because it missed a rotation; the key then stays on the shared list. `KeyAgreement.InvalidateAgreesIff` gives the condition, `KeyRuns.RunsAgreeIff` what follows over all runs, `KeyPolling.LaggingWorkerInterrupts` the worker that does it.
- The locks of `routers/keys.py:86-87`, `222-224` and `364-366` exclude neither two invalidations of different keys nor operations of different kinds. The JWKS file is read at 102-103 and written at 145-148, so an update can be lost: `KeyOverlap.SerialIffIntact`.
- An error after the commit of a rotation is not undone (`KeyAgreement.RotateAgreesIff`). As written every rotation that commits meets one: `routers/keys.py:494-500` unlinks below the path of the JWKS file, which is not a directory, so the route ends there (the fault `AtPemUnlink`) before it updates the shared list. Workers that poll then go on signing with the rotated-out key (`KeyPolling.SignsWithRotatedKey`) until something repairs the list (`KeyRuns.SigningUnlistedIff`). Without that fault the model unlinks in the PEM directory.
- `security/token_manager.py:166-182` has no branch for a first issue, line 174 compares the text of a bytes object, line 289 dereferences an absent rotation time. The model has a first issue, compares identifiers, and has optional times.
- `workers/redis/helpers.py:4-16` joins the text of a generator; the model returns the two ids.
- Missing `await`s are read as present. The base64url decoder of the model refuses foreign symbols, which Python's skips.

## Model

| member | source | states |
|---|---|---|
| PipelineView.ViewIsLastAction | resource_server/src/resource_server/event_streamer.py:41-60 | In every run with any workers, crashes, redelivery, lost replies, rejections and dead-lettering, the stored intent, or else the association row, is the last action emitted for that user and resource, provided commits come before acknowledgements and no intent expires before its row covers it |
| Producer.EventStreamer.EmitUserEvent | resource_server/src/resource_server/event_streamer.py:41-60 | The emission appends the event, stores its intent and, at once, adds to each counter exactly the deltas that the event names for it; it is the pipeline's emission step |
| Producer.EmissionAdds | resource_server/src/resource_server/event_streamer.py:43-50 | The increments of an emission raise each counter's total by exactly its deltas, also when the event names a counter twice |
| Producer.EmissionAndAcknowledgements | resource_auxillary/src/resource_auxillary/event_processing/post_processing.py:101-122 | An emission and n executions of the event's acknowledgement add each of its deltas n + 1 times in all |
| PipelineCounts.CountsOfRun | resource_auxillary/src/resource_auxillary/event_processing/post_processing.py:91-98 | In every run each counter has grown by the deltas of all emitted events and, once per execution, by those of the acknowledged ones; so the emitted deltas are counted exactly once if and only if the executed acknowledgements sum to nothing for that counter |
| PipelineView.RunsKeepView | resource_auxillary/src/resource_auxillary/templates/sql.py:71-81 | The inductive invariant: an intent is always the last action's, and a key without intent has a row that covers the last action |
| PipelineView.CommitKeepsView | resource_database_workers/src/resource_database_workers/tasks/consumer.py:165-186 | Committing any part of a batch, with or without a reply, keeps the invariant |
| PipelineView.AckKeepsView | resource_auxillary/src/resource_auxillary/event_processing/post_processing.py:101-122 | Acknowledging applied events with compare-and-delete keeps the invariant although newer intents may have been stored meanwhile |
| PipelineView.ClearedHolds | resource_auxillary/src/resource_auxillary/templates/lua.py:3-12 | Compare-and-delete removes an intent only for an event that stored exactly it, and leaves none that an acknowledged event stored |
| PipelineView.AcknowledgeRightIff | resource_database_workers/src/resource_database_workers/tasks/consumer.py:182-194 | Acknowledging a set of events is right if and only if each one whose intent is still stored is covered by its row: true of applied, not of rejected events |
| PipelineView.ExpiryShowsIff | resource_server/src/resource_server/event_streamer.py:52-58 | After an intent expires the view is right if and only if the row has the same state |
| PipelineView.EarlyAcknowledgement | resource_database_workers/src/resource_database_workers/tasks/consumer.py:154-206 | Acknowledging before the commit and then dying leaves each event of the batch neither pending nor deduplicated, and its last action unseen unless the row agrees |
| PipelineWitness.AcknowledgedTooEarly | resource_database_workers/src/resource_database_workers/tasks/consumer.py:154-206 | A concrete run in which an early acknowledgement loses the only event and its view |
| PipelineWitness.BuriedOutOfOrder | resource_auxillary/src/resource_auxillary/event_processing/post_processing.py:23-34 | A concrete run in which dead-lettering two events newest first acknowledges the older one without adding it anywhere |
| PipelineSafety.EffectsAtMostOnce | resource_database_workers/src/resource_database_workers/tasks/consumer.py:150-170 | In every run committed transactions process no event id twice, and the processed ids are exactly those in the dedup table, whatever the effect of the transaction is |
| PipelineSafety.NoEventDropped | resource_auxillary/src/resource_auxillary/event_processing/qos.py:48-70 | In every run that commits first, each delivered event is pending, in the dedup table, dead-lettered, or recorded as refused by the dead-letter stream |
| PipelinePlaces.PendingIsUnsettled | resource_auxillary/src/resource_auxillary/event_processing/post_processing.py:23-46 | In every run a pending event was delivered and is neither in the dead-letter stream nor refused by it: dead-lettering and reclaiming acknowledge whatever they move |
| PipelineSettled.LawHoldsIffNothingStranded | resource_database_workers/src/resource_database_workers/tasks/consumer.py:165-206 | Every deduplicated event is covered by its row, dead-lettered, refused, or held as failed by the worker that committed it, all through a run, if and only if no step of the run is a commit without reply or a crash that strands an event |
| PipelineSettled.StepKeepsLawIff | resource_database_workers/src/resource_database_workers/tasks/consumer.py:165-206 | A single step keeps that law if and only if it strands nothing |
| PipelineWitness.StrandedByLostReply | resource_auxillary/src/resource_auxillary/event_processing/db_qos.py:28-39 | A run without crash and without early acknowledgement in which a rejected event ends in no row, not pending, not dead-lettered and not refused |
| PipelineSafety.StepAccounts | resource_auxillary/src/resource_auxillary/event_processing/qos.py:48-70 | A step lets an event leave the pending list only if its dedup row is committed, or it is in the dead-letter stream by the end of the step, or the step records the refusal |
| PipelineSafety.AddedIffAbove | resource_auxillary/src/resource_auxillary/event_processing/post_processing.py:23-34 | Burying a batch adds exactly the events that come above the stream's top and above every event buried before them |
| PipelineSafety.NothingLostIffOrderly | resource_auxillary/src/resource_auxillary/event_processing/post_processing.py:23-34 | No event of a run is refused if and only if each dead-lettered event was already in the stream or came above its top in increasing order |
| PipelineSafety.StepKeepsWorkers | resource_auxillary/src/resource_auxillary/event_processing/db_qos.py:62-86 | Open transactions hold disjoint events that are not in the dedup table yet, whatever the next step is |
| PipelineSafety.InsertedOnce | resource_database_workers/src/resource_database_workers/tasks/insertions.py:33-58 | Inserting a batch with distinct ids reports each id at most once and only ids of the batch |
| Pipeline.StatementInsertsEach | resource_auxillary/src/resource_auxillary/templates/sql.py:71-81 | One upsert statement that goes through leaves and returns what inserting its events one at a time does |
| Consumer.QueueConsumer.Round | resource_database_workers/src/resource_database_workers/tasks/consumer.py:136-206 | Unless the process dies, with the other participants moving all the time, no event of the batch is pending afterwards and each is covered by its row, dead-lettered, or was found deduplicated. When nobody else moves, no row is locked and every reply arrives: exactly the new events that no constraint rejects and that are newer than row and batch change their rows, lose their own intents and add their deltas once; exactly the other new ones are dead-lettered, those in increasing order above the top, and the round finishes if and only if that is all of them; duplicates are only acknowledged. If no attempt commits, all new events are dead-lettered and nothing else changes |
| Consumer.QueueConsumer.OthersMove | resource_database_workers/src/resource_database_workers/tasks/consumer.py:150-206 | Whatever the other participants do leaves this worker alone and takes back no dedup row, dead letter, acknowledgement or covering row |
| PipelineProgress.StepOnward | resource_database_workers/src/resource_database_workers/tasks/consumer.py:150-206 | No step of anyone makes a delivered event pending again, removes a dedup row or dead letter, or moves a row back |
| Consumer.QueueConsumer.InsertWithRetries | resource_auxillary/src/resource_auxillary/event_processing/db_qos.py:20-50 | The database retry loop ends with a committed batch, a failed one, nothing left, or a dead process; each event is then applied and covered, failed, still in the batch, or was found deduplicated and acknowledged. When nobody else moves, it ends with a commit if and only if an attempt that commits is reached through transient errors and some event is new, raises if and only if some event is new and a fatal error is reached or the attempts run out, and dies if and only if a trimming that is reached gets no answer |
| Consumer.QueueConsumer.AwaitRows | resource_auxillary/src/resource_auxillary/event_processing/db_qos.py:62-86 | The dedup insert waits while another transaction holds one of its rows, and gives up only when nobody moves any more |
| Consumer.QueueConsumer.InsertAndCommit | resource_database_workers/src/resource_database_workers/tasks/insertions.py:33-58 | The bisecting insert and the commit of rows and dedup rows: the rows hold the last events to take effect and are otherwise as before, and a worker that learns of it holds exactly these events as applied and the rest as failed, both in order |
| RoundOutcome.CommitHasOutcome | resource_database_workers/src/resource_database_workers/tasks/consumer.py:165-186 | A commit step writes rows and dedup rows and nothing else; applied are exactly the events that are not rejected and are newer than their row and than every earlier accepted event on their key, in order, and the rest have failed |
| RoundOutcome.CommitApplies | resource_database_workers/src/resource_database_workers/tasks/consumer.py:182-186 | In a batch without a repeated key an event is applied if and only if no constraint rejects it and the row before did not cover it |
| RoundOutcome.RoundSettles | resource_database_workers/src/resource_database_workers/tasks/consumer.py:165-206 | Deduplication, commit, acknowledgement and dead-lettering together, event by event: rows, intents, increments, pending list, dedup table and dead letters |
| RoundOutcome.InsertedOutcome | resource_database_workers/src/resource_database_workers/tasks/insertions.py:39-58 | Inserting one event at a time returns exactly the events that take effect and leaves each row to the last of them |
| Consumer.QueueConsumer.InsertDedupRows | resource_auxillary/src/resource_auxillary/event_processing/db_qos.py:62-86 | Deduplication splits the batch by the dedup table |
| Consumer.QueueConsumer.TrimBatch | resource_auxillary/src/resource_auxillary/event_processing/pre_processing.py:14-26 | Trimming acknowledges exactly the duplicates, and without an answer leaves the worker where it was |
| Consumer.QueueConsumer.ExecuteWithRedisRetries | resource_auxillary/src/resource_auxillary/event_processing/qos.py:18-45 | When nobody else moves, the outcome is that of exactly as many executions as were not lost before the server; each counter grows by that many times its deltas; the loop succeeds if and only if an attempt is reached by network errors alone and goes through, and then executed once if and only if no reply was lost before; in any case success means acknowledged and, for a dead-lettering, dead-lettered |
| Consumer.QueueConsumer.CommitProcessedEvents | resource_auxillary/src/resource_auxillary/event_processing/qos.py:48-70 | Acknowledgement with the dead-letter fallback: it returns normally if and only if an attempt of the acknowledgement gets an answer or one of the fallback goes through, of which there is one after network errors alone; then none of the events is pending and none is lost |
| Consumer.QueueConsumer.DeclareDead | resource_auxillary/src/resource_auxillary/event_processing/wrappers.py:21-36 | Dead-lettering returns normally if and only if an attempt goes through; then every event is in the dead-letter stream and none is pending |
| Consumer.QueueConsumer.AmortizeEvent | resource_auxillary/src/resource_auxillary/event_processing/post_processing.py:23-34 | The command pipeline built event by event has the effect of the burying step, and raises if and only if some id is not above the stream's top and all ids before it |
| Consumer.QueueConsumer.AtomicAckAndEmit | resource_auxillary/src/resource_auxillary/event_processing/post_processing.py:101-122 | All acknowledgements, then all compare-and-deletes, then all increments of all events have the effect of the acknowledging step |
| RedisCommands.RepeatedAcknowledge | resource_auxillary/src/resource_auxillary/event_processing/qos.py:25-43 | Repeating an acknowledgement repeats its increments and nothing else |
| RedisCommands.RepeatedCounts | resource_auxillary/src/resource_auxillary/event_processing/qos.py:25-43 | After n executions each counter has grown by n times its deltas: by exactly its deltas if and only if n is one or they sum to zero |
| RedisCommands.RepeatedBury | resource_auxillary/src/resource_auxillary/event_processing/qos.py:25-43 | Repeating a dead-lettering changes nothing more, but is refused |
| RedisCommands.TrimDuplicateEvents | resource_auxillary/src/resource_auxillary/event_processing/pre_processing.py:14-26 | Removing from the batch while looping over a copy keeps exactly the newly inserted events in order and queues an acknowledgement for exactly the others |
| RedisCommands.CopiesSurviveTrimming | resource_auxillary/src/resource_auxillary/event_processing/pre_processing.py:22-25 | Two copies of a new event both survive trimming |
| Association.StatementCovers | resource_auxillary/src/resource_auxillary/templates/sql.py:71-81 | After an upsert statement every staged event is covered by its row, rows never move back, and the returned events are what the rows hold |
| Association.DistinctKeysSucceed | resource_auxillary/src/resource_auxillary/templates/sql.py:71-81 | A batch without a repeated key never meets the error for changing a row twice |
| Association.AffectsRowTwiceIff | resource_auxillary/src/resource_auxillary/templates/sql.py:71-81 | The statement meets that error if and only if an event newer than its row is followed by another on the same key |
| Association.RunHoldsNewest | resource_auxillary/src/resource_auxillary/templates/sql.py:71-81 | After any sequence of statements each key holds the state of its greatest event id |
| Association.HistoryIrrelevant | resource_auxillary/src/resource_auxillary/templates/sql.py:71-81 | Two histories with the same set of events end in the same table, whatever their order, grouping and repetition |
| BisectInsert.Connection.InsertWithIsolation | resource_database_workers/src/resource_database_workers/tasks/insertions.py:33-58 | Same table and accepted ids as inserting one at a time and skipping rejected events; at most 2n - 1 transactions, exactly that many when all are rejected, and at most 1 + 2k ceil(log2 n) for k rejected |
| BisectInsert.Connection.Attempt | resource_database_workers/src/resource_database_workers/tasks/insertions.py:39-48 | One transaction inserts the whole slice if nothing in it is rejected and otherwise changes nothing |
| BisectInsert.SequentialConcat | resource_database_workers/src/resource_database_workers/tasks/insertions.py:52-58 | The reference processes a batch as its first half followed by its second, rejections caused by earlier events included |
| BisectInsert.CeilLog2Correct | resource_database_workers/src/resource_database_workers/tasks/insertions.py:49-58 | The logarithm of the cost bound is the base-two logarithm rounded up |
| PagedDecrements.Downstream.Consume | resource_database_workers/src/resource_database_workers/tasks/consumer.py:391-460 | For every pattern of failures and lost replies each row is decremented by its amount as often as its page was executed, rows not paged and other keys not at all; paging stops at the first turn that fails for another than a transient reason; acknowledged if and only if no turn failed, and then each row was decremented once and once more per lost reply of its page |
| PagedDecrements.OnceIffNoReplyLost | resource_database_workers/src/resource_database_workers/tasks/consumer.py:416-425 | An acknowledged event decremented every row exactly once if and only if no reply to the emission of a page with rows was lost |
| PagedDecrements.Downstream.Deliver | resource_database_workers/src/resource_database_workers/tasks/consumer.py:394-397 | An event whose dedup row exists is acknowledged without any decrement |
| PagedDecrements.Downstream.DeliverTwice | resource_database_workers/src/resource_database_workers/tasks/consumer.py:394-397 | Whatever became of the first delivery, the second is acknowledged without a decrement, so each row is decremented exactly once if and only if the first delivery did so |
| PagedDecrements.Downstream.PageThrough | resource_database_workers/src/resource_database_workers/tasks/consumer.py:398-424 | One attempt pages on from the offset, each page as often as its emission was executed, until a failing turn or exactly the first empty page; it terminates |
| PagedDecrements.EachRowTimes | resource_database_workers/src/resource_database_workers/workers/redis/downstream_post_processing.py:120-133 | With one row per key, each key is decremented by its own amount as often as its page was executed |
| PagedDecrements.EmissionsDecrement | resource_database_workers/src/resource_database_workers/tasks/consumer.py:398-425 | Turn by turn: the rows of the page that a turn got are decremented as often as that turn executed it, the last turn, failing or dying half-way, included |
| PagedDecrements.OtherKeysStay | resource_database_workers/src/resource_database_workers/workers/redis/downstream_post_processing.py:120-133 | No other key is touched |
| Reclaim.GetMinMax | resource_database_workers/src/resource_database_workers/workers/redis/helpers.py:4-16 | The single pass finds a least and a greatest id of the set |
| Reclaim.ScanIsDirectSelection | resource_database_workers/src/resource_database_workers/utils/coordination.py:99-111 | The range scan filtered by id is exactly the selection by delivery count of the entries still in the stream |
| Reclaim.NoEntryLost | resource_database_workers/src/resource_database_workers/utils/coordination.py:112-116 | The entries moved and the entries left are together the stream |
| Reclaim.MovedByPosition | resource_database_workers/src/resource_database_workers/utils/coordination.py:99-116 | Moved and remaining entries and pending records, position by position |
| Reclaim.Broker.ReclaimDeadEvents | resource_database_workers/src/resource_database_workers/utils/coordination.py:86-116 | Moves exactly the entries with a pending record, among those read, at the delivery limit to the dead-letter stream, in stream order, and leaves exactly the others, with their pending records, in theirs |
| CounterTotals.Conservation | resource_database_workers/src/resource_database_workers/tasks/counters.py:105-170 | In every interleaving, without any lock, row, waiting hashes, workers, dead letters and what crashes dropped add up to the start value, every delta added and the deltas of flushes that went through unseen, for keys whose row exists and whose group normalises injectively |
| CounterTotals.ConservedIffNothingRecounted | resource_database_workers/src/resource_database_workers/workers/database/counters.py:28-37 | A counter is conserved if and only if those recounted deltas sum to zero, as they do when every flush that goes through is seen to |
| CounterTotals.UnansweredConservesIff | resource_database_workers/src/resource_database_workers/workers/database/counters.py:28-37 | A flush that goes through although it reports an operational error conserves a key's total if and only if its row does not exist or its delta is zero |
| CounterTotals.NothingDroppedWithoutCrash | resource_database_workers/src/resource_database_workers/tasks/counters.py:120-170 | Runs without crashes drop nothing and orphan no retry name |
| CounterTotals.StepConserves | resource_database_workers/src/resource_database_workers/tasks/counters.py:120-170 | Every single step conserves the total, but for increments, which add exactly their delta, and unseen flushes, which recount theirs |
| CounterTotals.FlushConservesIff | resource_database_workers/src/resource_database_workers/utils/sql_templates.py:11-17 | A flush conserves a key's total if and only if its row exists or its delta is zero |
| CounterTotals.MergeConservesIff | resource_database_workers/src/resource_database_workers/workers/redis/counters.py:34-37 | Storing a retry batch under a taken name conserves a key's total if and only if the two hashes do not both count it |
| CounterTotals.FaithfulIffInjective | resource_database_workers/src/resource_database_workers/tasks/counters.py:99-102 | Normalisation keeps every delta, for all deltas and listing orders, if and only if no two keys have the same row id |
| CounterTotals.OneResourceIsInjective | resource_database_workers/src/resource_database_workers/tasks/counters.py:99-102 | Keys of a single resource normalise injectively |
| CounterTotals.TwoResourcesClash | resource_database_workers/src/resource_database_workers/tasks/counters.py:99-102 | The same id under two resource names does not |
| CounterLadder.AttemptsAreBounded | resource_database_workers/src/resource_database_workers/tasks/counters.py:140-161 | In every run a batch that reached the table or the dead letters took at most MAX_RETRIES + 1 flush attempts, a waiting one at most MAX_RETRIES |
| CounterLadder.NamesMatchHashes | resource_database_workers/src/resource_database_workers/workers/redis/counters.py:22-37 | In every run each registered name has its hash and each retry hash is registered or popped by a worker, unless that worker died |
| CounterLadder.NextNameIsNew | resource_database_workers/src/resource_database_workers/workers/redis/counters.py:31-37 | The next retry name is never taken, so no hash is overwritten |
| CounterLadder.StepKeepsLadder | resource_database_workers/src/resource_database_workers/tasks/counters.py:140-161 | Every step keeps one batch per identifier, one attempt per version and versions within MAX_RETRIES |
| CounterWorkers.CounterWorker.BatchUpdateCounterGroup | resource_database_workers/src/resource_database_workers/tasks/counters.py:105-170 | With producers and other workers moving between its transactions, its own steps are: none without the lock, or forgetting the popped retry name; taking the hash; a flush; then the next retry name, a dead letter, or an end of the process. The counters are returned exactly when the flush is seen to go through; otherwise they wait unmerged under the next name with one attempt more, are the latest dead letter, or are dropped over malformed keys or failing Redis. When nobody else moves, the whole new state is the one stated, and without the lock a live group is left untouched |
| CounterWorkers.CounterWorker.OthersMove | resource_database_workers/src/resource_database_workers/tasks/counters.py:112-131 | Whatever the others do leaves this worker alone and keeps the retry ladder |
| CounterWorkers.CounterWorker.DispatchToRetrier | resource_database_workers/src/resource_database_workers/workers/redis/counters.py:22-37 | Registers the next name and stores the hash under it in one step |
| CounterWorkers.CounterWorker.FlushCounterUpdates | resource_database_workers/src/resource_database_workers/workers/database/counters.py:19-37 | Adds the normalised deltas to existing rows, or classifies the failure and leaves the table, unless the commit went through unseen |
| CounterWorkers.CounterWorker.PopName | resource_database_workers/src/resource_database_workers/tasks/counters.py:45-49 | Takes the first registered name and leaves the rest of the registry in order |
| RetryNames.RoundTrip | resource_database_workers/src/resource_database_workers/utils/strings.py:34-51 | Extracting a generated name gives back group, identifier and version if and only if group and identifier hold no separator |
| RetryNames.LiveName | resource_database_workers/src/resource_database_workers/utils/strings.py:45-51 | A group's own name is read as version 0 without identifier |
| RetryNames.BumpGenerated | resource_database_workers/src/resource_database_workers/utils/strings.py:54-61 | Bumping a generated name is generating the next version |
| RetryNames.NamesAsText | resource_database_workers/src/resource_database_workers/utils/strings.py:34-43 | The names as they are written, separators included |
| RetryNames.RowIdOfCacheKey | resource_database_workers/src/resource_database_workers/tasks/counters.py:99-102 | The row id read from a cache key is the id it was made of |
| RetryNames.IntentValueInjective | resource_auxillary/src/resource_auxillary/events.py:43-52 | Intent values are equal if and only if flag and id are, for ids without separator |
| KeyRuns.TableAlwaysOk | auth_server/src/auth_server/routers/keys.py:405-468 | In every run, whatever fails in it, one key is active and unexpired and at most MAX_VALID_KEYS are unexpired |
| KeyRuns.ListedAllAlongIff | auth_server/src/auth_server/routers/keys.py:477-483 | All along a run the JWKS list is exactly the unexpired keys in rotation order if and only if no rotation of the run commits and then fails to write it |
| KeyRuns.RunsAgreeIff | auth_server/src/auth_server/routers/keys.py:405-530 | In every run the PEM files are those of the unexpired keys, but for files missing and left over, and the shared list is the unexpired keys, but for absent and stale ones, as the operations of the run tell; each agrees with the table if and only if there are none of these, and if no rotation missed the JWKS file all four stores agree if and only if there are none at all |
| KeyRuns.OperationHolds | auth_server/src/auth_server/routers/keys.py:139-530 | What each operation, failing anywhere, does to the missing, left-over, absent and stale keys |
| KeyRuns.SigningUnlistedIff | auth_server/src/auth_server/routers/keys.py:510-530 | After any run the shared list lacks the unrotated key if and only if a rotation committed and then failed, and no rotation, clean or invalidation of an absent key has repaired the list since |
| KeyRuns.WholeRunsMark | auth_server/src/auth_server/routers/keys.py:405-530 | Runs whose rotations do not fail after their commit leave stale keys on the shared list and nothing else |
| KeyAgreement.RunsAgree | auth_server/src/auth_server/routers/keys.py:405-468 | In particular, in every run whose rotations do not fail after their commit, with invalidations and cleans failing or interrupted anywhere, the JWKS list is exactly the unexpired keys in rotation order and the PEM files match it; the shared list holds these keys and those that interrupted operations left on it since the last rotation or clean, so all four stores agree if and only if there are none |
| KeyAgreement.RotateAgrees | auth_server/src/auth_server/security/keygen.py:73-85 | Trimming the file drops precisely the key that the database expires |
| KeyAgreement.RotateAgreesIff | auth_server/src/auth_server/routers/keys.py:477-530 | A rotation keeps the four stores in agreement if and only if it does not fail between its commit and its end |
| KeyAgreement.RotateKeeps | auth_server/src/auth_server/routers/keys.py:351-542 | Otherwise it makes the shared list exactly the valid keys, whatever was stale on it |
| KeyAgreement.InvalidateCompensates | auth_server/src/auth_server/routers/keys.py:154-171 | From any stores, a failed invalidation restores table, list and shared list, and the PEM files if and only if the file was there, and equal to the row's when the failure is the commit |
| KeyAgreement.InvalidateUndone | auth_server/src/auth_server/routers/keys.py:109-171 | From agreement, an invalidation that does not get past its commit leaves every store as it was |
| KeyAgreement.InvalidateAgreesIff | auth_server/src/auth_server/routers/keys.py:173-199 | From agreement, it leads to agreement if and only if it is not interrupted after the commit, which happens exactly when the shared list fails or the serving worker still signs with the key |
| KeyAgreement.InvalidateKeeps | auth_server/src/auth_server/routers/keys.py:139-199 | An invalidation with any outcome keeps the files in agreement and leaves at most its own key behind on the shared list |
| KeyAgreement.CleanCompensates | auth_server/src/auth_server/routers/keys.py:313-332 | From any stores, a failed clean, at any position of the deletion loop, restores the PEM files if and only if every deleted file belongs to a listed key |
| KeyAgreement.CleanUndone | auth_server/src/auth_server/routers/keys.py:235-332 | From agreement, a clean that does not get past its commit leaves every store as it was |
| KeyAgreement.CleanKeeps | auth_server/src/auth_server/routers/keys.py:235-340 | A clean with any outcome keeps the files in agreement; only an interrupted one leaves the keys it expired behind on the shared list |
| KeyOutcomes.InvalidateRepliesIff | auth_server/src/auth_server/routers/keys.py:109-174 | From agreement, an invalidation succeeds if and only if a row of its key is rotated out and not expired, nothing fails and the worker does not sign with it; it is not found, still active, already expired, failed or interrupted exactly as row, fault and signing key say |
| KeyOutcomes.InvalidatePurges | auth_server/src/auth_server/routers/keys.py:139-199 | From agreement, success expires the key's row at the time of the operation and takes exactly its entry, file and listing away, leaving everything of every other key as before; an interruption keeps the listing, any other outcome everything |
| KeyOutcomes.RotateCommitsIff | auth_server/src/auth_server/routers/keys.py:405-468 | From agreement, a rotation commits if and only if the database does not fail and the key is new |
| KeyOutcomes.RotateWrites | auth_server/src/auth_server/routers/keys.py:405-530 | From agreement, a rotation that commits rotates the last row out and, when the list is full, expires its first key, both now, adds the new row, and writes list, files and shared list, one after the other, up to the failing write |
| KeyOutcomes.CleanRepliesIff | auth_server/src/auth_server/routers/keys.py:235-340 | From agreement, a clean succeeds if and only if there are at least two keys and no query, write, commit or one of the unlinkings fails; a failure of the shared list interrupts it |
| KeyOutcomes.CleanLeaves | auth_server/src/auth_server/routers/keys.py:235-340 | From agreement, success expires every valid row but the last, now, and leaves list, files and shared list to that key alone |
| KeyAgreement.BootAgrees | auth_server/src/auth_server/security/keygen.py:30-48 | Initialised oldest first, the stores agree |
| KeyAgreement.NewestFirstAgreesIff | auth_server/src/auth_server/repositories/keydata.py:26-44 | Initialised newest first, the stores agree if and only if there is at most one valid key |
| KeyAgreement.NewestFirstDisagrees | auth_server/src/auth_server/repositories/keydata.py:26-44 | And the first rotation of a full list then drops the previously active key, still valid, and keeps the one the database expires |
| KeyAgreement.TrimDropsFirst | auth_server/src/auth_server/security/keygen.py:77-81 | Trimming a full list drops its first entry and keeps the last of the old ones |
| KeyOverlap.SerialIffIntact | auth_server/src/auth_server/routers/keys.py:102-163 | Invalidations of different listed keys among failed operations that write back what they had read, however they interleave, leave the file as if run one after the other if and only if the last writer missed no removal, nor did the last writer it had seen, and so on; exactly then no invalidated key stays listed |
| KeyOverlap.LostUpdateIff | auth_server/src/auth_server/routers/keys.py:102-148 | For invalidations alone: if and only if none writes between the reading and the writing of another |
| KeyOverlap.AloneMeansSerial | auth_server/src/auth_server/routers/keys.py:102-163 | For removals, appends, replacements and the writing back of failed operations alike, spans without a foreign write make the file serial |
| KeyOverlap.EditsOfOperations | auth_server/src/auth_server/routers/keys.py:139-515 | The edits that overlap are what the operations do to the list: removal, append with trimming, replacement, and writing back |
| KeyOverlap.LostUpdate | auth_server/src/auth_server/routers/keys.py:102-148 | Two overlapping invalidations bring the first key back |
| KeyOverlap.LostToPutBack | auth_server/src/auth_server/routers/keys.py:158-162 | So does a failed operation that overlaps one and writes back what it had read |
| KeyStore.KeyServer.RotateKeys | auth_server/src/auth_server/routers/keys.py:405-530 | The imperative rotation, stopped at any failing write, has the effect of the rotation function on all stores; from agreement it succeeds if and only if nothing fails and the key is new, and rows, entries, files and listings are then the ones stated one by one |
| KeyStore.KeyServer.InvalidateKey | auth_server/src/auth_server/routers/keys.py:98-199 | The imperative invalidation has the effect of the invalidation function; from agreement each reply is given exactly when row, fault and signing key call for it, success purges the key from all stores and touches no other, every failure before the commit leaves all stores as they were, and agreement is kept if and only if the reply is not an interruption |
| KeyStore.KeyServer.CleanKeystore | auth_server/src/auth_server/routers/keys.py:235-340 | The imperative clean, with its deletion loop and its restore, has the effect of the clean function; from agreement it succeeds exactly when there is something to clean and nothing fails, leaves the active key alone in every store, and a failure before the commit leaves all stores as they were |
| KeyPolling.TokenManager.Poll | auth_server/src/auth_server/security/token_manager.py:299-338 | One round keeps the signing key in the local map, finished or not, and every local key that is listed; what it adds is listed, not announced as invalid, and has PEM and rotation time of its row; over any list of keys of the table, with fetches that succeed, it finishes if and only if the list names the unrotated key or the one the worker signs with, and then it leaves exactly the listed keys and signs with the unrotated key if and only if that one is listed |
| KeyPolling.MissedOperations | auth_server/src/auth_server/security/token_manager.py:299-338 | However many key operations a worker misses, failing anywhere, it still signs with a known key and knows no wrong one |
| KeyPolling.CatchUp | auth_server/src/auth_server/security/token_manager.py:299-338 | After any number of missed operations, failing anywhere, one round whose fetches succeed finishes if and only if the unrotated key is on the list or the worker's own is; it then holds the listed keys, signs with the cluster's key if and only if no failed rotation left that key off the list, and holds the unexpired keys if and only if nothing is absent or stale; for runs whose rotations do not fail after their commit it always finishes with the cluster's key |
| KeyPolling.SignsWithRotatedKey | auth_server/src/auth_server/routers/keys.py:493-530 | A worker in step with a cluster in agreement polls after a rotation that failed between its commit and its end: the round finishes and the worker goes on signing with the rotated-out key |
| KeyPolling.LaggingWorkerInterrupts | auth_server/src/auth_server/routers/keys.py:173-174 | For every rotated valid key there is a lagging worker that commits its invalidation and then refuses to drop it, so that it stays shared |
| KeyPolling.UpToDateNeverInterrupts | auth_server/src/auth_server/security/token_manager.py:292-297 | A worker that signs with the unrotated key never does |
| KeyPolling.TokenManager.DropExpired | auth_server/src/auth_server/security/token_manager.py:329-338 | Dropping expired keys one by one, in any order, drops them all if and only if the signing key is not among them, and never the signing key |
| RefreshFamilies.TokenManager.ReissueTokenPair | auth_server/src/auth_server/security/token_manager.py:134-253 | Accepted if and only if the presented token is its family's head; the list is then the drawn token and the old list, all of it below capacity, and otherwise without its max(1, excess) oldest entries; any other decoded token destroys the family, and no other family changes |
| RefreshFamilies.ListsRefineNewest | auth_server/src/auth_server/security/token_manager.py:134-253 | In every run the lists behave as one acceptable token per family, and no list outgrows its window |
| RefreshFamilies.ListIsWindow | auth_server/src/auth_server/security/token_manager.py:234-245 | In every run a family's list is exactly the newest max(1, max_tokens - 1) of the tokens it was given since it was issued, newest first |
| RefreshFamilies.AcceptedMeansNewest | auth_server/src/auth_server/security/token_manager.py:157-177 | A presentation is accepted if and only if it is of the family's newest token |
| RefreshFamilies.AcceptedAtMostOnce | auth_server/src/auth_server/security/token_manager.py:157-177 | In every run no token is accepted twice |
| RefreshFamilies.RejectionIsFinal | auth_server/src/auth_server/security/token_manager.py:166-178 | After a rejected presentation no token handed out earlier is ever accepted in that family |
| StreamIds.FlattenTextIsFlatten | resource_auxillary/src/resource_auxillary/events.py:188-198 | The integer read from the id without its dash is the milliseconds shifted by the counter's digits plus the counter |
| StreamIds.FlattenInjective | resource_auxillary/src/resource_auxillary/events.py:188-198 | Ids whose millisecond parts have one width flatten to the same integer if and only if they are equal |
| StreamIds.FlattenOrder | resource_auxillary/src/resource_auxillary/events.py:188-198 | Flattening keeps the order of two such ids if and only if the later counter has at least as many digits |
| LastWriter.OlderActionWinsIff | resource_auxillary/src/resource_auxillary/templates/sql.py:71-81 | Of two actions on a key, in whatever order and batches they are applied, the association row ends with the state of the older one if and only if flattening inverts their order, that is if and only if the older id's counter has more digits |
| StreamIds.EqualWidthsSortAlike | resource_auxillary/src/resource_auxillary/events.py:188-198 | With equal widths in both parts integers and ids sort alike |
| StreamIds.OrderFailureWitness | resource_auxillary/src/resource_auxillary/events.py:188-198 | Two ids whose integers sort the other way round |
| StreamIds.CollisionWitness | resource_auxillary/src/resource_auxillary/events.py:188-198 | Two ids of different widths with the same integer |
| StreamIds.FlattenedIdNamesAnotherEntry | resource_auxillary/src/resource_auxillary/event_processing/post_processing.py:37-46 | An acknowledgement by the flattened integer never names the event's own entry |
| Base64Url.RoundTrip | auxillary/src/auxillary/utils.py:36-49 | For every length and integer, encoding succeeds if and only if the integer fits, and decoding the unpadded text gives it back |
| Base64Numeral.TextIsNumeral | auxillary/src/auxillary/utils.py:36-41 | The text spells, over the literal URL-safe alphabet, the base-64 number n times 1, 16 or 4 as the length leaves 0, 1 or 2 bytes over: symbols, byte order and zero pad bits |
| Base64Numeral.NumeralIsUnique | auxillary/src/auxillary/utils.py:36-41 | And it is the only text of that length that does |
| Base64Numeral.TextIsRead | auxillary/src/auxillary/utils.py:44-49 | Any text of letters, canonical or not, is read as its base-64 number without the spare bits, and refused if and only if its last group has a single letter |
| Base64Url.RestoreUndoesStrip | auxillary/src/auxillary/utils.py:44-47 | The padding formula restores exactly the stripped characters |
| Base64Url.DecodeEncode | auxillary/src/auxillary/utils.py:36-49 | Decoding undoes encoding on every byte sequence |
| Base64Url.EncodedLength | auxillary/src/auxillary/utils.py:36-41 | The length of the unpadded text depends on the number of bytes alone |

## Left out

- The deletion, orphan and downstream-deletion consumers: their protocol is the insertion consumer's with another effect.
- `reclaim_pending_events`: a claimed event may be taken by any worker at any time in the machine, whatever its idle time.
- Producer.EventStreamer.EmitUserEvent: one intent per event, as saves and votes have; the source allows any number.
- Consumer.QueueConsumer.AtomicAckAndEmit: leaves out the cache invalidations of the same transaction.
- Consumer.QueueConsumer.AwaitRows: a wait that never ends is taken for a failed attempt.
- KeyStore.KeyServer.RotateKeys: the serving worker's own key map, which the route updates last, is the one of KeyPolling; it is not part of these stores.
- KeyAgreement.RunsAgree: the runs are of operations that do not overlap, for which see KeyOverlap, and of rotations that do not fail after their commit, for which see KeyRuns.RunsAgreeIff.
- KeyRuns.RunsAgreeIff: the runs are of operations that do not overlap; a rollback whose own writes fail is not modelled.
- KeyOverlap.AloneMeansSerial: one direction, where appends and replacements overlap; the exact condition is for invalidations and failed operations.
- KeyPolling.CatchUp: assumes that no key of the shared list was announced as unknown; the announcement of an identifier before its key exists is not modelled.
- RefreshFamilies: pipelined LPUSH and EXPIREAT count as one step; concurrent presentations of one token are not modelled.
- The order of set elements in loops over sets (polling, minimum and maximum) is arbitrary in the model; Python's order is one of those.
- Private PEM files, which follow the public ones but are never read back.
- Vote score deltas, unsubscribe intents, paginated caching, overlay reflection after a flush: unsettled in the code.
- FastAPI routes of the resource server, configuration, bootup, e-mail, migrations: plumbing.
- Cryptography and clocks: keys are opaque values, times increase strictly, identifiers are fresh.
- `populate_events_batch_from_queue`: timing only.
