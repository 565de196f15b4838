# Verification of the knowledge-base backend

This project models the logic of the backend's retrieval-augmented knowledge bases, and of the algorithms beside them,
in Dafny and proves what they promise. `dafny verify dfyconfig.toml` checks all of it.

**The document lifecycle.** API calls, outbox dispatchers, duplicated task deliveries, crashing workers and a repair beat
all change the same document, chunk and event rows. `RagStore` defines the tables and what each transaction makes of
them, `DocumentService` contains the services and tasks as methods of a `Database` object that are proved against those
definitions, and `Lifecycle` puts the transactions together to a state machine: every
`async_db_session.begin()` block is one step, an index task is three steps with anything in between, messages form a
multiset and may be lost, duplicated, reordered or invented, and a worker may vanish between any two of its steps.
`RagInvariant` proves for each transaction what it keeps; `LifecycleSafety`, `LifecycleProgress` and
`LifecycleDispatch` draw the conclusions for all runs:

- at most one indexing is ever committed for each version of a document, a version is claimed again only after a recovery
  or a failed attempt, versions never decrease, and a removed document never comes back;
- a document's chunks are always a single generation, which is the current one if the document is ready, and hold the
  sections of its own file, each child with its own text, vector and section; retrieval sees exactly the children of
  ready documents that the user may read;
- a user who neither owns a knowledge base nor is an administrator changes nothing of it, whether it is public or not;
- an index message starts a worker only at the version that it asks for, and a stale one does nothing;
- a live document has exactly one index event for each of its versions, and a document being deleted a delete event;
- a deleted knowledge base stays dead with all its documents;
- from every reachable state the clock, the repair beat and the workers alone can make a waiting document ready if, and
  only if, its file has indexable content, and can remove a document that is being deleted;
- recovery and dispatch are fair, with explicit bounds on the number of rounds, and every event is settled within such a
  bound: dispatched, or dead after exactly the maximum number of attempts.

`SectionRows` says what the chunk rows hold, `Rights` who may do what, and `WorkerSteps` what workers, the repair beat and
the removal make of a document, case by case.

Some API calls read without a lock and write later. `UnlockedReads` says exactly which of these writes are harmless;
`OverlappingCalls` is the machine in which such calls overlap with each other and with everything else, and shows that
its runs are runs of `Lifecycle` exactly as long as every write is harmless; `AnyOverlap` proves what holds in any case.
`Outbox` holds the event table by itself, with its attempt bound and its bounded wait.

**The pipeline around it.** `Cleaning`, `Chunking`, `TextStructure` and `ChunkOrder` (text to paragraphs, chunks and
parent sections: what is kept, and how chunks follow one another), `Embedding`
(bisected batches), `RankFusion` and `StableSort` (weighted reciprocal rank fusion, reranking, selection), `Context`
(the token budget), `Metrics` (nDCG and percentiles).

**Infrastructure.** `Snowflake` and `Bits` (id generation under an arbitrary clock, with the bit operations of the
source), `NodeLeases` (node ids leased from Redis), `SnowflakeFleet` (both together with fixed node ids: ids over all
processes),
`PluginOrder` (dependency order), `Requirements` (the closure of installed requirements), `TreeBuilder` (two tree builders
on linked nodes).

## Assumptions

- `create`, `retry`, `delete`, and the deletion and renaming of a knowledge base read their rows without a lock
  (`backend/app/rag/crud/crud_rag.py:12-29`, `backend/app/rag/crud/crud_rag.py:46-52`). In `Lifecycle` a call either is
  one step, or writes later than it read if the write is timely (`UnlockedReads.IsTimely`). The statements about its runs
  hold for runs with overlapping calls exactly as long as every write is timely
  (`OverlappingCalls.RunIsOrderlyIffTimely`, `OverlappingCalls.TimelyRunIsRun`). An upload stores its object before its row
  is inserted, in a step of its own.
- The writes of one call, the lookup of its event and the commit are one step. The database refuses a taken storage key or
  name, and the update of a row that has been removed; the call is then rolled back.
- The answer to a query is any list of rows that satisfies the query: stale rows are the first ones in the order of
  activity and id that are not locked, at most the limit; the order of other queries is arbitrary. Locked rows are an
  arbitrary set in each round.
- What object storage, parsers, the embedding provider, brokers, clocks and Redis answer is arbitrary: it is a parameter
  of a step, or a function about which nothing is assumed. A storage key names its content, that is, SHA-256 is taken to
  be free of collisions.
- Retrieval metrics: the bounds on nDCG are stated for grades from 0 on, which is exact
  (`Metrics.NdcgBoundedIffGradesNonNegative`); the program takes any integer.
- The chunk size and the maximum number of dispatch attempts are at least 1, and headings have at least level 1
  (`RagStore.ValidSettings`).
- A PUT of an object outlives a failed insertion, as in the source; its removal is taken to be atomic with the removal of
  the row.

## Findings

- nDCG@K of a ranking stays within [0, 1] for all gradings from 0 on exactly if, for `k >= 0`, no document stands twice
  among its first k places, and for `k < 0`, the cut leaves at most one document (`Metrics.NdcgBoundedIff`). The program
  checks neither: a repeated document counts twice, a negative k cuts the ranking and the ideal list at different places,
  and a document of negative grade can make the result negative.
- The traversal tree builder keeps rows whose parent is missing as roots; the recursive one drops them. The two agree
  exactly if there is none (`TreeBuilder.TraversalToTree`). Rows that are their own ancestors vanish from both
  (`TreeBuilder.EveryNodeExactlyOnce`).
- While every live process owns its key, a node id can be shared by one registration after a step exactly if a live
  process let its key lapse in that step (`NodeLeases.ShareableIffUnpunctual`); a whole run is safe from this exactly if no
  process ever does (`NodeLeases.RunIsSafeIffPunctual`), that is, if the clock never reaches the time to live after a
  process's last heartbeat (`NodeLeases.RunIsSafeIffBeatsInTime`). `NodeLeases.LapseBreaksExclusion` is a run with two processes on
  one id, in which a later release even deletes the successor's key (`NodeLeases.LateReleaseDeletesSuccessorsKey`).
- Over every run of a fleet, whatever its leases and clocks, an id is repeated exactly if two processes with one node id
  issue ids within one millisecond (`SnowflakeFleet.IdsRepeatIffMillisecondShared`). A process that takes over a node id
  can do so within two calls exactly if its clock starts no later than the last id issued there
  (`SnowflakeFleet.TakeoverCollidesIff`). A process with fixed ids sets no key, so its node id can be leased by another
  one (`SnowflakeFleet.FixedPairIsLeased`), and a generator stays usable after the release of its node id
  (`SnowflakeFleet.ReleasedPairIsLeased`). If leases are renewed in time, no fixed node id is fixed twice or leased, no
  process generates after its release, and successors begin late enough, then no id is ever repeated
  (`SnowflakeFleet.FleetIdsAreUnique`).
- Calls that overlap. A late upload is harmless exactly if its knowledge base is still live and its object is still there:
  the removal of an older document with the same file can take the object away
  (`OverlappingCalls.UploadCanLoseItsObject`). A late retry can leave a document ready with the chunks of the version
  before (`OverlappingCalls.LateRetryKeepsOldChunks`), or reopen a version that has been claimed
  (`OverlappingCalls.LateRetryReopens`). The deletion of a knowledge base misses a document that it read as being deleted
  and that a retry revives (`OverlappingCalls.DropMissesRevived`). A late deletion of a document is always harmless, but
  is lost in the same situation (`OverlappingCalls.LateDeleteCanBeLost`).
- With distinct ids, the recursive tree builder does not end from a parent id that is its own ancestor, and does from every
  other one (`TreeBuilder.RecursionEndsIff`).
- Retrying a document that is being deleted revives it. Its delete event stays, so deleting it again adds no event
  (`RagInvariant.RevivedDeletionAddsNoEvent`). A dispatch can still send the deletion exactly if that event is claimable
  (`LifecycleDispatch.CanSendIffClaimable`); once it is dispatched or dead, none ever does
  (`LifecycleDispatch.SettledEventsAreNeverSent`), and the deletion depends on the repair beat, which suffices
  (`LifecycleProgress.NoStrandedDeletion`).
- A document whose file has no visible character, or cannot be parsed, never becomes ready, however often it is retried
  (`LifecycleProgress.ReadyMeansIndexable`).

## Model

| member | source | states |
|---|---|---|
| LifecycleSafety.ExactlyOnceIndexing | backend/app/rag/service/document_service.py:163-244 | Over every run, whenever a document becomes ready again it is at a strictly higher version: no version becomes ready twice, whatever is delivered, claimed, crashed, recovered or retried in between |
| LifecycleSafety.CommitsIncrease | backend/app/rag/service/document_service.py:197-207 | Of two commits of index tasks for a document, the later one is for a strictly higher version, also when several workers hold claims on the same version |
| LifecycleSafety.ClaimsAreSeparated | backend/app/rag/service/document_service.py:169-187 | Between two successful claims of the same version there is a recovery of the document or a failed attempt with a retry: duplicated messages alone never claim twice |
| LifecycleSafety.DeliveryDecides | backend/app/rag/service/document_service.py:163-187 | A delivered index message makes its document PROCESSING and starts a worker at its version exactly if the document is pending and the message asks for this version or for none; any other delivery, a stale one included, leaves tables and workers alone |
| LifecycleSafety.WorkersAreAskedFor | backend/app/task/tasks/rag/tasks.py:49-66 | In every reachable state each worker is at the version that its message asked for, if it asked for one |
| LifecycleSafety.ReadyByExactlyOneCommit | backend/app/task/tasks/rag/tasks.py:49-90 | A document that is ready at a version owes it to exactly one commit of an index task in the run so far |
| LifecycleSafety.VersionsNeverDecrease | backend/app/rag/service/document_service.py:274-284 | Along every run a document's version never decreases, and a document that was removed never comes back |
| LifecycleSafety.StepKeeps | backend/app/task/tasks/rag/tasks.py:49-138 | Every step of the protocol keeps the invariant of the tables, moves each document only forward, stamps each row it writes with the current time, and makes a document ready only by committing an indexing |
| LifecycleSafety.SingleGeneration | backend/app/rag/service/document_service.py:111-160 | In every reachable state all chunks of a document have one version, at most the document's; parents are numbered -1 to -m and children 0 to chunk_count - 1, each number once; every child has a vector and a parent of the same document; a ready document has the current version with at least one child |
| SectionRows.CommitStoresSections | backend/app/rag/service/document_service.py:111-160 | After a commit the chunk rows are the sections of the parsed file: parent -j holds the text and heading path of the j-th section, and the m-th child of a section, counted over all sections, has its own text, its own number, the vector at that place of the answer, and the row of its very section as parent |
| AnyOverlap.ReadyHoldsItsSections | backend/app/rag/service/document_service.py:111-160 | In every reachable state a ready document holds exactly the sections of its own file like this, at its current version |
| LifecycleSafety.ServedChunksAreCurrent | backend/app/rag/service/query_service.py:77-87 | Whatever the base query of retrieval can see lies in a requested knowledge base that is not deleted and that the user owns, administers or finds public; it has its document's current version, and has its parent chunk of the same version beside it |
| LifecycleSafety.ReadyDocumentsAreServed | backend/app/rag/service/query_service.py:72-87 | Conversely, each of the chunk_count children of a ready document in a requested knowledge base that the user owns, administers or finds public is seen |
| LifecycleSafety.RequestsAreConserved | backend/app/rag/service/outbox_service.py:17-60 | In every reachable state a document has an index event for exactly the versions 1 to its current one, a document being deleted has a delete event, no two events make the same request, and the attempts of an event agree with its status: none while pending, fewer than the maximum while failed, exactly the maximum when dead |
| LifecycleSafety.DeletedStaysDead | backend/app/rag/service/knowledge_base_service.py:43-51 | Once a knowledge base is deleted it stays deleted, and every document it has in any later state is being deleted |
| LifecycleSafety.DroppingKillsDocuments | backend/app/rag/service/knowledge_base_service.py:44-51 | Deleting a knowledge base marks it and exactly its own documents, leaving the status of all others |
| LifecycleProgress.NoStrandedDocument | backend/app/task/tasks/rag/tasks.py:49-138 | From every reachable state a schedule of clock, beat and worker steps alone makes a pending or processing document with indexable content ready at its current version |
| LifecycleProgress.ReadyMeansIndexable | backend/app/rag/service/document_service.py:95-100 | The condition is exact: a document that is ready in any run has a file that can be parsed and has a visible character |
| LifecycleProgress.NoStrandedDeletion | backend/app/task/tasks/rag/tasks.py:93-110 | From every state one round of the repair beat and one delivery remove a document that is being deleted, with its object and all its chunks |
| LifecycleProgress.RecoveryIsFair | backend/app/rag/crud/crud_rag.py:66-85 | Whatever else happens, a stale document with r older waiting ones is recovered within floor(r / 100) + 1 rounds of the repair beat that find its row unlocked, unless another step wrote to its row before |
| LifecycleProgress.RepairRequeues | backend/app/rag/service/document_service.py:231-244 | At most floor(r / 100) + 1 rounds put a stale document back to PENDING and send a message for its current version |
| LifecycleProgress.StaleSelectionExists | backend/app/rag/crud/crud_rag.py:73-84 | The query for stale documents has an answer for every limit and every set of locked rows |
| LifecycleDispatch.EventsAreAttempted | backend/app/task/tasks/rag/tasks.py:113-120 | From every reachable state, an event with k claimable events before it is attempted within floor(k * max / limit) + 1 dispatches that find its row unlocked, whatever other steps come between, and never more than max times |
| LifecycleDispatch.StepChangesEvents | backend/app/rag/service/outbox_service.py:17-60 | Each step changes the event table exactly by the requests it makes, or by one dispatch |
| LifecycleDispatch.DispatchedMeansSent | backend/app/task/tasks/rag/tasks.py:26-38 | An event becomes DISPATCHED only in a step that also sends its message |
| LifecycleDispatch.EventsAreSettled | backend/app/rag/service/outbox_service.py:63-104 | From every reachable state, whatever other steps come between: within floor(k * max / limit) + (max - attempts) dispatches that find its row unlocked, an event with k claimable events before it is dispatched, or dead after exactly max attempts; dispatched if the broker always accepts it, dead if it always refuses it |
| LifecycleDispatch.DispatchDecides | backend/app/rag/service/outbox_service.py:79-98 | An event that a dispatch claims makes one attempt: accepted, it is dispatched and its message sent; refused, it stays claimable below max attempts, and is dead exactly at max |
| LifecycleDispatch.OnlyDispatchedIsSent | backend/app/task/tasks/rag/tasks.py:26-38 | A dispatch sends only messages of events that it dispatches |
| Outbox.AttemptedWithinBound | backend/app/rag/service/outbox_service.py:63-104 | With batches of n, an event with k claimable events before it is attempted within floor(k * max / n) + 1 rounds even if all earlier ones always fail and later ones keep coming |
| Outbox.SettledWithinBound | backend/app/rag/service/outbox_service.py:63-104 | An event with k claimable events before it is dispatched, or dead after exactly max attempts, within floor(k * max / n) + (max - attempts) rounds, whichever of them are refused |
| Outbox.RefusalsDecide | backend/app/rag/service/outbox_service.py:79-98 | Over any changes: an event that no round refuses is dispatched by its first attempt; one that every round refuses is never dispatched, and claimable exactly below max attempts |
| Outbox.ApplyKeepsInvariants | backend/app/rag/service/outbox_service.py:79-104 | Enqueues and dispatches keep the attempts in agreement with the status (none while pending, 1 to max - 1 while failed, max when dead), never duplicate a request, and count each attempt |
| Outbox.LeftOutMeansFull | backend/app/rag/service/outbox_service.py:69-76 | An unlocked claimable event is left out of a batch only if the batch is full with events before it |
| Outbox.EnqueueAddsOne | backend/app/rag/service/outbox_service.py:20-36 | However often a request is enqueued, the table then has it and the requests it had before |
| RagInvariant.ClaimKeeps | backend/app/rag/service/document_service.py:163-187 | Claiming keeps the invariant and makes nothing ready |
| RagInvariant.IndexKeeps | backend/app/rag/service/document_service.py:190-207 | Indexing a claimed document keeps the invariant; only a committed one makes a document ready, and only this document at this version |
| RagInvariant.ReplaceKeeps | backend/app/rag/service/document_service.py:111-160 | Replacing the chunks of a document keeps the invariant, gives the document exactly the new rows, and leaves the chunks of every other document alone |
| RagInvariant.MarkFailureKeeps | backend/app/rag/service/document_service.py:210-228 | Marking a failure keeps the invariant: it never undoes a ready version or a deletion |
| RagInvariant.RecoverRowsKeeps | backend/app/rag/service/document_service.py:238-244 | Recovering any rows that are neither ready nor being deleted keeps the invariant |
| RagInvariant.RetryKeeps | backend/app/rag/service/document_service.py:274-284 | A retry opens a new version together with its one index event and keeps the invariant |
| RagInvariant.DeleteKeeps | backend/app/rag/service/document_service.py:287-292 | A delete request keeps the invariant: the mark comes with its event |
| RagInvariant.RevivedDeletionAddsNoEvent | backend/app/rag/service/outbox_service.py:42-51 | After a retry of a document that is being deleted, deleting it again marks it but adds no event |
| RagInvariant.DeletionAddsEventIff | backend/app/rag/service/outbox_service.py:40-60 | A deletion adds an event exactly if the table has no delete request for the document, whatever the state of that request |
| LifecycleDispatch.CanSendIffClaimable | backend/app/rag/service/outbox_service.py:69-76 | Some dispatch sends the message of a request exactly if an event with this request is pending or failed |
| LifecycleDispatch.SettledEventsAreNeverSent | backend/app/rag/service/outbox_service.py:66-67 | Over every run, an event that is dispatched or dead stays as it is, and no later dispatch sends its message again |
| LifecycleSafety.NamesAreUnique | backend/app/rag/model/knowledge_base.py:12 | In every reachable state, renaming and deletion included, no two knowledge bases of an owner agree in name and deletion mark, as the unique constraint asks: live names are unique, and each deleted one is marked with its own id |
| UnlockedReads.WriteIsHarmlessIffTimely | backend/app/rag/service/document_service.py:53-292 | A late write keeps the invariant and the order of versions, makes nothing ready and reopens nothing at the same version exactly if it is timely: one condition for each kind of call |
| UnlockedReads.LateInsertIsHarmlessIff | backend/app/rag/service/document_service.py:63-88 | The insertion after an earlier check and the storing of the object is harmless exactly if the knowledge base is still live and the object is still there |
| UnlockedReads.LateRetryIsHarmlessIff | backend/app/rag/service/document_service.py:274-284 | A retry that writes later than it read is harmless exactly if the version read is current and the document does not stay ready, or one retry came first and its status stays as it is; and the knowledge base lives or the deletion survives; or the row is gone |
| UnlockedReads.LateDeleteIsHarmless | backend/app/rag/service/document_service.py:287-292 | A deletion that writes later than it read is always harmless |
| UnlockedReads.LateDeleteTakesEffectIff | backend/app/rag/service/document_service.py:287-292 | It leaves the document being deleted exactly if it read another status, or the document is being deleted when it writes |
| UnlockedReads.LateDropIsHarmlessIff | backend/app/rag/service/knowledge_base_service.py:43-51 | A late deletion of a knowledge base is harmless exactly if each of its documents was read with another status than DELETING, and so is marked, or is being deleted when it writes |
| UnlockedReads.CurrentIsTimely | backend/app/rag/service/document_service.py:53-292 | A call whose reads still hold when it writes is timely while its knowledge base lives |
| UnlockedReads.CurrentWriteIsCall | backend/app/rag/service/document_service.py:53-292 | And its late write is what the call does in one step |
| OverlappingCalls.RunIsOrderlyIffTimely | backend/app/rag/service/document_service.py:53-292 | Over every run with overlapping calls: all steps keep the invariant and the order of versions, only commits make ready, and only recoveries and failed attempts reopen, exactly if every late write is timely |
| OverlappingCalls.TimelyRunIsRun | backend/app/task/tasks/rag/tasks.py:49-138 | Refinement: a run with overlapping calls whose writes are timely is a run of the protocol, so that all statements about runs hold for it |
| OverlappingCalls.UploadCanLoseItsObject | backend/app/rag/service/document_service.py:72-86 | From every state with a document being deleted, steps that upload its file again and leave a pending document of a live knowledge base without its object |
| OverlappingCalls.NothingIsIndexedWithoutObject | backend/app/rag/service/document_service.py:205 | Without its object a document never becomes ready |
| OverlappingCalls.UploadCanOutliveItsKnowledgeBase | backend/app/rag/service/document_service.py:63-88 | From every state, steps after which a pending document belongs to a deleted knowledge base |
| OverlappingCalls.LateRetryKeepsOldChunks | backend/app/rag/service/document_service.py:278-280 | From every state with an indexable pending document, a retry that overlaps its indexing leaves it ready at the next version with chunks of the one before |
| OverlappingCalls.LateRetryReopens | backend/app/rag/service/document_service.py:278-280 | From every state with a failed document, two overlapping retries after which a version that a worker has claimed can be claimed again, without a recovery or a failed attempt |
| OverlappingCalls.DropMissesRevived | backend/app/rag/service/knowledge_base_service.py:45-50 | From every state with a document being deleted, steps that revive it and leave it pending in its deleted knowledge base |
| OverlappingCalls.LateDeleteCanBeLost | backend/app/rag/service/document_service.py:287-292 | Likewise a deletion that is timely and has no effect |
| AnyOverlap.ChunksAreNeverMixed | backend/app/rag/service/document_service.py:111-160 | Over every run, timely or not, the chunks of a document hold the sections of its own file, at one version that is at most its own: numbered without gaps, each child with its text, its own vector and its own section as parent |
| AnyOverlap.TablesStayUnique | backend/app/rag/service/outbox_service.py:17-60 | Over every run, timely or not, storage keys and the names of knowledge bases are unique, no request has two events, and the attempts of every event agree with its status |
| AnyOverlap.NothingEverReturns | backend/app/task/tasks/rag/tasks.py:93-110 | Over every run, timely or not, a removed document never comes back and a deleted knowledge base stays deleted |
| RagInvariant.DeleteKnowledgeBaseKeeps | backend/app/rag/service/knowledge_base_service.py:43-51 | Deleting a knowledge base keeps the invariant, in particular that the documents of deleted ones are being deleted |
| RagInvariant.CreateKeeps | backend/app/rag/service/document_service.py:53-88 | An upload keeps the invariant: keys stay unique and a document's object is there as long as its row |
| Rights.StrangersTouchNothing | backend/app/rag/crud/crud_rag.py:12-29 | An API call of a user who is neither the owner of a knowledge base nor an administrator leaves its row, its documents, their chunks and its events as they were, be it public or not, and changes nothing at all if it is a call for this knowledge base |
| Rights.StrangersBeginNothing | backend/app/rag/crud/crud_rag.py:12-29 | Nor can such a user begin a call that writes later |
| Rights.OwnersRetryAndDelete | backend/app/rag/service/document_service.py:274-292 | Owners and administrators retry and delete every document of a live knowledge base: the row and the event afterwards, and nothing else changed |
| Rights.OwnersUpload | backend/app/rag/service/document_service.py:63-88 | They upload exactly files of the four formats up to the maximum size whose content is not there yet: the new row, its event and its object; a taken key leaves only the object |
| Rights.OwnersEdit | backend/app/rag/service/knowledge_base_service.py:33-40 | They rename and publish, unless another live knowledge base of its owner has the name |
| Rights.UsersAdd | backend/app/rag/service/knowledge_base_service.py:25-31 | Every user adds knowledge bases of his own under names that no live one of his has |
| Rights.OwnershipIsFixed | backend/app/rag/model/knowledge_base.py:12 | Over every run, whatever overlaps, a knowledge base keeps its owner |
| WorkerSteps.IndexingDecides | backend/app/rag/service/document_service.py:190-207 | A worker at a current processing version commits exactly if nothing fails; which failures are permanent (missing object, unparsable file, no text, refused for good, wrong number of vectors) and which temporary; a failure leaves the tables alone. A worker whose document has moved on never commits and gives up, unless the database fails it first |
| WorkerSteps.MarkingDecides | backend/app/task/tasks/rag/tasks.py:66-90 | After a failure the document is pending and its message is sent again as it came exactly if the failure is temporary and retries are left; otherwise it has failed; a ready document, one that is being deleted and one at another version stay as they are |
| WorkerSteps.RepairDecides | backend/app/rag/crud/crud_rag.py:66-85 | The repair beat puts exactly selected stale rows back to pending with the current time, never a locked or younger one, at most 100, and all of them when there is room |
| WorkerSteps.RepairSends | backend/app/task/tasks/rag/tasks.py:124-138 | It sends one message for each recovered row, with its version, and one for each document being deleted, in order |
| WorkerSteps.OnlyDeletingVanish | backend/app/task/tasks/rag/tasks.py:93-110 | A row vanishes exactly when its removal is delivered while it is being deleted; with it go its object and its chunks, and nothing else |
| RagInvariant.RemoveKeeps | backend/app/task/tasks/rag/tasks.py:99-110 | Removing a document keeps the invariant: no chunk is left behind and no other document loses its object |
| RagInvariant.DispatchKeeps | backend/app/task/tasks/rag/tasks.py:113-120 | A dispatch keeps the invariant and every request |
| DocumentService.Database.Create | backend/app/rag/service/document_service.py:53-88 | Which error an upload gives, and the new tables; a taken key leaves only the stored object |
| DocumentService.Database.ClaimIndex | backend/app/rag/service/document_service.py:163-187 | Which of the seven answers a claim gets, by presence, version and status of the row; the effective version, and the new tables |
| DocumentService.Database.InsertChunks | backend/app/rag/service/document_service.py:111-156 | The two loops replace the document's chunks by exactly the rows of one generation, or report that the vectors are too few or too many |
| DocumentService.Database.IndexContent | backend/app/rag/service/document_service.py:91-160 | For a document of any status: which errors are raised and whether they may be retried; without one, the tables after a commit |
| DocumentService.Database.IndexClaimedDocument | backend/app/rag/service/document_service.py:190-207 | Answers and new tables; every raised error leaves the tables as they were |
| DocumentService.Database.MarkIndexFailure | backend/app/rag/service/document_service.py:210-228 | Rejects other statuses, reports whether the failure was recorded, and gives the new tables |
| DocumentService.Database.RecoverStaleIndexes | backend/app/rag/service/document_service.py:231-244 | Recovers exactly the selected rows and returns each with its version, in order |
| DocumentService.Database.Retry | backend/app/rag/service/document_service.py:274-284 | A writable document gets a new version and its index event; anything else changes nothing |
| DocumentService.Database.Delete | backend/app/rag/service/document_service.py:287-292 | A writable document is marked with its delete event; anything else changes nothing |
| DocumentService.Database.IndexDocument | backend/app/task/tasks/rag/tasks.py:49-90 | Uninterrupted, an index task never leaves a claimed document in PROCESSING: it is ready, or pending with a retry, or failed, at the same version, and no other row changes |
| DocumentService.Database.RepairStuckDocument | backend/app/task/tasks/rag/tasks.py:124-138 | The recovered rows, and the messages for them and for the deletions, in order |
| DocumentService.Database.DeleteDocument | backend/app/task/tasks/rag/tasks.py:94-110 | Removes object, chunks and row of a document that is being deleted, and nothing else |
| DocumentService.Database.DispatchOutbox | backend/app/task/tasks/rag/tasks.py:113-120 | The loop attempts each claimed event once, and returns the accepted messages in order |
| DocumentService.Database.EnqueueDocumentIndex | backend/app/rag/service/outbox_service.py:17-37 | Appends a pending event unless the request is there |
| DocumentService.Database.EnqueueDocumentDelete | backend/app/rag/service/outbox_service.py:40-60 | Appends a pending event unless the request is there |
| DocumentService.Database.MarkDispatched | backend/app/rag/service/outbox_service.py:79-84 | One more attempt, and dispatched |
| DocumentService.Database.MarkFailed | backend/app/rag/service/outbox_service.py:87-98 | One more attempt; dead at the maximum, otherwise failed |
| DocumentService.Database.DeleteKnowledgeBase | backend/app/rag/service/knowledge_base_service.py:43-51 | The loop marks the knowledge base and all its documents, each with its delete event |
| DocumentService.Database.UpdateKnowledgeBase | backend/app/rag/service/knowledge_base_service.py:33-40 | Sets the given columns, the name stripped, or reports that the knowledge base is not writable or that its owner already uses the name, and then changes nothing |
| DocumentService.Database.CreateKnowledgeBase | backend/app/rag/service/knowledge_base_service.py:25-31 | Inserts a live knowledge base under a new id, which its owner may then write, or reports that the owner already uses the stripped name |
| Embedding.EmbedTextsInBatches | backend/app/rag/service/document_service.py:26-48 | Vector i is that of text i; between ceil(n / size) and 2n - ceil(n / size) provider calls; a provider that never rejects a single text alone, nor fails otherwise, always succeeds; a failure is due to a fatal call on a contiguous part |
| Embedding.BatchKeepsPositions | backend/app/rag/service/document_service.py:36-43 | Bisection neither loses nor repeats nor reorders a text |
| Embedding.BatchRaisesOnlyOnFatalCall | backend/app/rag/service/document_service.py:39-41 | Bisection raises only because of a call that is fatal by itself |
| Metrics.Rearrangement | backend/app/rag/evaluation/metrics.py:25-31 | Among all duplicate-free lists the one in descending order of grade has the greatest discounted sum over the first n places |
| Metrics.IdealIsMaximal | backend/app/rag/evaluation/metrics.py:30-31 | For grades from 0 on, no duplicate-free ranking has a larger DCG@K than the relevance-sorted one, for any positive decreasing discount |
| Metrics.NdcgInUnitInterval | backend/app/rag/evaluation/metrics.py:22-32 | nDCG@K of a duplicate-free ranking lies in [0, 1] for grades from 0 on and k >= 0, and is 1 for the ideal ranking |
| Metrics.GainDoubles | backend/app/rag/evaluation/metrics.py:27 | No gain at grade 0; each further grade doubles the gain and adds one, negative grades included |
| Metrics.NdcgOfSingle | backend/app/rag/evaluation/metrics.py:22-32 | With a single relevant document at rank r, nDCG@K is discount(r) / discount(1), and 0 if r > K |
| Metrics.NegativeCutoffExceedsOne | backend/app/rag/evaluation/metrics.py:27-31 | For every negative cutoff that leaves two documents of a ranking, a grading that gives the ranking more than 1 |
| Metrics.RepetitionExceedsOne | backend/app/rag/evaluation/metrics.py:26-31 | For every ranking with a document twice among its first k places, a grading that gives it more than 1 |
| Metrics.NdcgBoundedIff | backend/app/rag/evaluation/metrics.py:22-32 | A ranking lies in [0, 1] for all gradings from 0 on exactly if, for k >= 0, its first k places hold no document twice, and for k < 0, the cut leaves at most one document |
| Metrics.NegativeGradeBelowZero | backend/app/rag/evaluation/metrics.py:26-32 | For every negative grade and k >= 1, a duplicate-free ranking with nDCG below 0 |
| Metrics.NdcgBoundedIffGradesNonNegative | backend/app/rag/evaluation/metrics.py:22-32 | For k >= 1, duplicate-free rankings lie in [0, 1] for all gradings from a floor on exactly if the floor is not negative |
| Metrics.NdcgBoundedIffCutoffNonNegative | backend/app/rag/evaluation/metrics.py:22-32 | All duplicate-free rankings lie in [0, 1] for all gradings from 0 on exactly if the cutoff is not negative |
| Metrics.PercentileIsNearestRank | backend/app/rag/evaluation/metrics.py:57-65 | At least p percent of the samples do not exceed the result, and fewer than p percent lie below it |
| RankFusion.WeightedRrfScores | backend/app/rag/lexical.py:46-60 | Divides by zero exactly if the negated constant is a rank of either list; otherwise exactly the ids of both lists are scored, each with the sum over its places |
| RankFusion.MergeCandidates | backend/app/rag/service/query_service.py:117-139 | One candidate per id, in dictionary order, with its score and its dense similarity; or the division by zero |
| RankFusion.Fuse | backend/app/rag/service/query_service.py:117-141 | The candidates in stable descending order of score; or the division by zero |
| RankFusion.FusionIsPermutation | backend/app/rag/service/query_service.py:117-141 | The fused order holds every id of the two lists exactly once |
| RankFusion.FusionIsParetoConsistent | backend/app/rag/service/query_service.py:117-141 | A candidate that is ahead of another in every list that has the other precedes it in the fused order, equal scores included |
| RankFusion.ScoreByPlaces | backend/app/rag/lexical.py:46-60 | In duplicate-free lists an id scores weight / (rrf_k + rank) of the one list that has it, each list by its own weight, and the sum if both have it |
| RankFusion.FusionWeighsTheLists | backend/app/rag/service/query_service.py:117-141 | Of two candidates that one list each has found, at ranks p and q, the dense one precedes exactly if dense weight * (rrf_k + q) >= lexical weight * (rrf_k + p) |
| RankFusion.SimilarityIsOfLastRow | backend/app/rag/service/query_service.py:117-125 | The similarity of an id is one minus the distance of its last dense row, and 0 beyond distance 1 |
| StableSort.SortPlaces | backend/app/rag/service/query_service.py:141-155 | Larger keys first, equal keys as they stood |
| RankFusion.Rerank | backend/app/rag/service/query_service.py:148-155 | Reranking marks by position and sorts; without scores it changes nothing |
| RankFusion.RerankPlaces | backend/app/rag/service/query_service.py:149-155 | Scored candidates before unscored ones, by score; ties and unscored ones keep the fused order |
| RankFusion.LastScoreCounts | backend/app/rag/service/query_service.py:149-151 | An index that the reranker scores more than once has its last score; an index without a score has none |
| RankFusion.SelectContextResults | backend/app/rag/service/query_service.py:44-57 | The first top_k items, or the first top_k contexts |
| RankFusion.FirstByContextPositions | backend/app/rag/service/query_service.py:47-56 | Exactly the best-placed item of every context is kept, in order |
| RankFusion.SelectedContextsDistinct | backend/app/rag/service/query_service.py:50-54 | No context is represented twice |
| RankFusion.SiblingsAreFolded | backend/app/rag/service/query_service.py:47-56 | Where all items have parents, exactly one item of each parent is selected |
| Context.BuildBoundedContext | backend/app/rag/context.py:38-65 | The error for limits below one, and otherwise the chosen sources and their join |
| Context.TruncateToUnits | backend/app/rag/context.py:26-35 | The longest fitting prefix, stripped on the right |
| Context.GreedyCutIsMaximal | backend/app/rag/context.py:29-34 | No longer prefix fits the available units |
| Context.ContextIsBounded | backend/app/rag/context.py:38-65 | Parts total at most 4 * max_tokens units, the joined context at most 4 * max_tokens + 2 * (max_sources - 1); at most max_sources sources, in order, none twice, each a greedy stripped prefix |
| Context.ContextIsExhaustive | backend/app/rag/context.py:47-64 | If places are left, every source is covered up to one for which the budget is spent |
| Context.AllKeptIffAffordable | backend/app/rag/context.py:42-65 | Sources that differ in document or content, with places for all, are kept uncut exactly if their parts fit into 4 * max_tokens units |
| Context.UnitsCountCharacters | backend/app/rag/context.py:21-23 | A text costs one unit per character and three more per CJK character (U+3400 to U+9FFF) |
| Context.SourceStandsInContext | backend/app/rag/context.py:51-65 | Every chosen source stands in the context as its citation, a space and its content, after the earlier ones and apart from its neighbours by an empty line |
| PluginOrder.ResolvePluginOrder | backend/plugin/core.py:162-197 | For every list, equal names included: succeeds exactly if the plugins that the search chooses have no missing dependency and no cycle, and then orders exactly these, each once and after its dependencies; an error names a missing dependency or a cycle among them. For distinct names that is a permutation of the list |
| PluginOrder.ChosenIsChoice | backend/plugin/core.py:169-195 | Of plugins with equal names the first or the last one is chosen |
| PluginOrder.DistinctAreChosen | backend/plugin/core.py:169-195 | Of plugins with distinct names all are chosen |
| PluginOrder.Resolver.Visit | backend/plugin/core.py:174-192 | Appends a plugin after everything it depends on, or reports a genuine error; terminates on every graph |
| PluginOrder.Resolver.VisitDependencies | backend/plugin/core.py:184-188 | All dependencies are visited, or the error is genuine |
| PluginOrder.CompleteOrderIsAcyclic | backend/plugin/core.py:162-197 | An order with every plugin after its dependencies has no missing dependency and no cycle |
| PluginOrder.WalkDescends | backend/plugin/core.py:191-192 | Along every chain of dependencies the positions in the order strictly decrease |
| Requirements.Checker.RequirementSatisfied | backend/plugin/requirements.py:40-69 | A true answer leaves the search closed except for the open states; a false one is justified by a demanded requirement that is not installed; terminates on cyclic metadata |
| Requirements.CheckRequirements | backend/plugin/requirements.py:71 | True exactly if every requirement reachable through active markers and extras is installed at an accepted version |
| Requirements.SearchIsComplete | backend/plugin/requirements.py:54-69 | Marking a state visited before its children are checked loses nothing: a finished search has seen everything reachable |
| Requirements.RequirementsInstalled | backend/plugin/requirements.py:25-71 | The errors for malformed lines and metadata, and otherwise the exact answer for the file |
| Requirements.ParsedLinesAre | backend/plugin/requirements.py:27-33 | Exactly the lines whose first visible character exists and is no # are kept, in order |
| Requirements.PlainRequirementsDecide | backend/plugin/requirements.py:40-52 | Where no package needs anything itself: yes exactly if every requirement whose marker holds without an extra has its package at an accepted version |
| Requirements.ExtrasDecide | backend/plugin/requirements.py:54-69 | For a present package with extras: yes exactly if all its lines parse and each that counts under one of the extras, or under none if there are none, has its package |
| TreeBuilder.TraversalToTree | backend/utils/build_tree.py:25-50 | Links each node's children in order; the result is the recursive builder's forest exactly if no parent is missing |
| TreeBuilder.AttachAll | backend/utils/build_tree.py:35-48 | Every node ends up with exactly its child rows, in order, and the roots and orphans form the result |
| TreeBuilder.RecursiveToTree | backend/utils/build_tree.py:53-68 | From any parent id that is not its own ancestor, each node reached gets exactly its children; terminates for distinct ids |
| TreeBuilder.RecursiveForest | backend/utils/build_tree.py:53-68 | Below any such parent id, None or a missing one included, the linked nodes spell out the intended ordered forest |
| TreeBuilder.RecursionEndsIff | backend/utils/build_tree.py:61-64 | The depth of the recursion is bounded exactly from the parent ids that are not their own ancestors, and then by the number of rows |
| TreeBuilder.LinkedRepresents | backend/utils/build_tree.py:25-68 | Nodes linked to their child rows represent the forest, whichever builder linked them |
| TreeBuilder.OccursOnce | backend/utils/build_tree.py:61-68 | A row occurs in the forest once if a chain of parents leads from it to a root, otherwise never |
| TreeBuilder.RootedIffWellFormed | backend/utils/build_tree.py:33-48 | Every row has a chain to a root exactly if no parent is missing and no row is its own ancestor |
| TreeBuilder.EveryNodeExactlyOnce | backend/utils/build_tree.py:53-68 | The forest holds every row exactly once if and only if no parent is missing and no row is its own ancestor |
| TreeBuilder.PathIsUnique | backend/utils/build_tree.py:53-68 | With distinct ids there is only one chain of parents to a row |
| Bits.OrDisjoint | backend/utils/snowflake.py:209-212 | Or-ing a number into bits that are free adds it |
| Bits.AndMask | backend/utils/snowflake.py:223-226 | Masking with 2^k - 1 takes the remainder |
| Snowflake.PackAdds | backend/utils/snowflake.py:208-213 | The four fields occupy disjoint bits |
| Snowflake.ParseInvertsPack | backend/utils/snowflake.py:216-234 | Parsing an id gives back its four fields, before the epoch too |
| Snowflake.PackIsInjective | backend/utils/snowflake.py:208-213 | Equal ids have equal fields |
| Snowflake.PackFits63Bits | backend/utils/snowflake.py:18-40 | An id fits into 63 bits exactly if its time lies within 2^41 milliseconds after the epoch |
| Snowflake.Generator.Init | backend/utils/snowflake.py:125-161 | The generator becomes usable exactly if both ids are fixed, or neither is and a pair was acquired, within 0..31, and uses that pair; once usable it does not change |
| Snowflake.Generator.TillNextMs | backend/utils/snowflake.py:172-178 | Returns the first reading after the given millisecond |
| Snowflake.Generator.Generate | backend/utils/snowflake.py:180-213 | The outcome and the new state, for every sequence of clock readings |
| Snowflake.StepIncreases | backend/utils/snowflake.py:185-213 | An issued id is larger than all before it, over tolerated rollbacks and sequence wrap; a refusal, which happens exactly for a rollback beyond the tolerance, changes nothing |
| Snowflake.IssuedFieldsDecide | backend/utils/snowflake.py:180-213 | The fields of an issued id: the new millisecond with number 0, the next number in the same one, or after 4095 and after a tolerated rollback the first later reading with number 0; refused exactly beyond the tolerance |
| Snowflake.RunIncreases | backend/utils/snowflake.py:180-213 | The ids of one generator strictly increase over every run and every clock |
| Snowflake.RunsNeverCollide | backend/utils/snowflake.py:207-213 | Generators with different node ids never issue the same id |
| SnowflakeFleet.IdsRepeatIffMillisecondShared | backend/utils/snowflake.py:180-213 | Over every run of a fleet with leased, fixed and released node ids, and any clocks: an id is repeated exactly if two processes with one node id issue ids within one millisecond |
| SnowflakeFleet.ExclusionKeptIffPlaced | backend/utils/snowflake.py:66-107 | While leases are held and entitled processes have different pairs, a step keeps it so exactly if no lease lapses and no pair is fixed or leased that a process with a fixed or leased pair has |
| SnowflakeFleet.RunIsExclusiveIffPlaced | backend/utils/snowflake.py:53-161 | Over whole runs: exclusive in every state exactly if every step is placed like this |
| SnowflakeFleet.FleetIdsAreUnique | backend/utils/snowflake.py:125-213 | Over every run whose steps are placed, in which nobody generates after its release and each process that takes over a pair begins later than the last id issued on it, ids never repeat |
| SnowflakeFleet.TakeoverCollidesIff | backend/utils/snowflake.py:180-213 | In any state of any run without a repeated id, whatever its leases: a process whose clock shows t first can share a millisecond within two calls exactly if an id was issued on its pair at t or later |
| SnowflakeFleet.RunIsRecorded | backend/utils/snowflake.py:180-213 | Over every run, no process repeats an id of its own, and each of its milliseconds began with sequence number 0 |
| SnowflakeFleet.FixedPairIsLeased | backend/utils/snowflake.py:131-134 | A run in which a fixed pair is leased by another process, and both issue the same id |
| SnowflakeFleet.ReleasedPairIsLeased | backend/utils/snowflake.py:163-166 | A run in which a process generates after its release and repeats an id of its successor |
| NodeLeases.AcquireNodeId | backend/utils/snowflake.py:53-77 | The first pair in range that is neither seen occupied nor refused; fails only if each of the 1024 pairs is |
| NodeLeases.PunctualRunIsExclusive | backend/utils/snowflake.py:74-107 | If every holder acts before its key expires, no two live processes ever hold the same pair, and both fields stay in 0..31 |
| NodeLeases.OwnershipKeptIffPunctual | backend/utils/snowflake.py:79-107 | A step keeps every live process's ownership exactly if no live process lets its key lapse in it |
| NodeLeases.ShareableIffUnpunctual | backend/utils/snowflake.py:66-107 | While every live process owns its key, a step leaves the pairs exclusive, and one registration after it can share a pair exactly if a live process let its key lapse in the step |
| NodeLeases.ShareableIffKeyLost | backend/utils/snowflake.py:74-77 | In any exclusive state, one registration can share a pair exactly if a live process has no key |
| NodeLeases.RunIsSafeIffPunctual | backend/utils/snowflake.py:53-107 | A run from no live processes stays exclusive and out of reach of sharing exactly if no live process ever lets its key lapse |
| NodeLeases.KeysLiveFromBeats | backend/utils/snowflake.py:74-92 | In a punctual run every live process's key expires ttl after its last registration or heartbeat |
| NodeLeases.RunIsSafeIffBeatsInTime | backend/utils/snowflake.py:53-107 | A run from no live processes stays exclusive and out of reach of sharing exactly if the clock never reaches ttl after the last registration or heartbeat of a live process |
| NodeLeases.KeysVanishOnlyByLapseOrRelease | backend/utils/snowflake.py:96-107 | In any state, a key vanishes exactly by its expiry or by the release of a live process on its pair; that process is its owner while all own their keys |
| NodeLeases.LateReleaseDeletesSuccessorsKey | backend/utils/snowflake.py:105-107 | A run in which a release after a lapse deletes the key of the live successor |
| NodeLeases.LapseBreaksExclusion | backend/utils/snowflake.py:84-92 | A run in which a process outlives its key and shares its pair |
| Cleaning.CleanTextIsClean | backend/app/rag/chunking.py:6-9 | No control characters, no carriage returns, no three newlines in a row, no blanks at the ends |
| Cleaning.CleanTextIsIdempotent | backend/app/rag/chunking.py:6-9 | Cleaning twice is cleaning once |
| Cleaning.CleanTextKeepsVisible | backend/app/rag/chunking.py:6-9 | Cleaning keeps exactly the visible characters, in order |
| Cleaning.CleanTextLeavesClean | backend/app/rag/chunking.py:6-9 | A text that is clean already is left as it is, inner blanks included |
| TextStructure.CleanTextKeepsStructure | backend/app/rag/chunking.py:6-9 | Cleaning keeps, between any two visible characters, whether nothing, blanks, one line break or an empty line separates them; "\r\n" is one line break |
| TextStructure.ParagraphsBetweenEmptyLines | backend/app/rag/chunking.py:17 | The paragraphs are the parts of the cleaned text between its empty lines, stripped, without the blank ones; joined by empty lines the parts give the text back |
| Cleaning.ParagraphsKeepVisible | backend/app/rag/chunking.py:17 | The paragraphs hold exactly the visible characters, each stripped and not empty |
| Chunking.SplitText | backend/app/rag/chunking.py:12-36 | The loop computes the chunks about which the lemmas speak |
| Chunking.ChunksAreBounded | backend/app/rag/chunking.py:12-36 | No chunk exceeds chunk_size + overlap + 2 characters, and none is blank |
| Chunking.ChunksCoverText | backend/app/rag/chunking.py:20-36 | Every short paragraph stands whole in some chunk; every window of a long one that is not blank is a chunk, and the windows cover it without gaps |
| Chunking.WindowsCover | backend/app/rag/chunking.py:25-26 | The first step characters of each window concatenate back to the paragraph |
| ChunkOrder.ConsecutiveWindowsOverlap | backend/app/rag/chunking.py:25-26 | A window begins with what the one before it holds after size - overlap characters: its last overlap characters if it is full |
| ChunkOrder.ChunksFollowParagraphs | backend/app/rag/chunking.py:20-36 | A short paragraph after a short one stands in the same chunk, or that chunk has no room for it and the next one begins with its last overlap characters and the paragraph; after a long one it begins a chunk; the windows of a long one are neighbours |
| Chunking.ChunksExist | backend/app/rag/chunking.py:14-16 | There is a chunk exactly if the text has a visible character |
| Chunking.SplitParentChildText | backend/app/rag/chunking.py:54-85 | The loops compute the parent sections about which the lemmas speak |
| Chunking.ParentsHaveChildren | backend/app/rag/chunking.py:81-85 | Every parent section has text and at least one child |
| Chunking.SectionsPartitionLines | backend/app/rag/chunking.py:64-80 | The sections hold exactly the lines, in order |
| Chunking.DocumentIsCovered | backend/app/rag/chunking.py:54-85 | The parent sections hold exactly the visible characters of the document, in order, and there is one exactly if there is a visible character |
| ChunkOrder.DocumentIsChunked | backend/app/rag/chunking.py:54-85 | Of every document: each section with text has a parent with its heading path, and every paragraph of the section stands in the children of this parent, whole if it is short and by windows if it is long |
| ChunkOrder.ChildrenCoverParents | backend/app/rag/chunking.py:81-85 | The children of every parent cover each paragraph of its text, follow the order of the paragraphs with the configured overlap, are bounded by chunk_size + overlap + 2, and none is blank |
| TextStructure.SplitUndoesJoin | backend/app/rag/chunking.py:64-85 | Lines without breaks come back when they are joined and split again |
| TextStructure.LinesOfCleanText | backend/app/rag/chunking.py:64 | Where newlines are the only breaks, the lines joined are the cleaned text, and no line has a break inside |
| ChunkOrder.SectionsBeginAtHeadings | backend/app/rag/chunking.py:64-80 | Every section but an unheaded first one begins with a heading line, whose title replaces the path before it from its level on, skipped levels included |
| Chunking.PathIsAncestorChain | backend/app/rag/chunking.py:64-78 | Where no level is skipped, place l of the heading path is the last heading of level l |
| Chunking.SectionPathIsAncestorChain | backend/app/rag/chunking.py:67-80 | The path stored with each section is this chain at the section's end; only a section's first line may be a heading, which then ends its path at its level |
| Chunking.ParentPathIsAncestorChain | backend/app/rag/chunking.py:81-85 | So is the heading path of every parent section, for the section whose text it keeps |

## Left out

- Object storage that fails between the removal of an object and the commit: the file system is not transactional.
- Which further statements survive an untimely write besides those of `AnyOverlap`.
- The representation of `status` as a string or an enum member (`backend/app/rag/service/document_service.py:203`).
- Celery's counting of retries and its delays: whether retries are left is arbitrary in each step.
- Index profiles, file names beyond their suffix, contextual content, search text, tokens and hashes of chunks.
- Descriptions of knowledge bases, and listing knowledge bases and documents: nothing here depends on them.
- `last_error` and `dispatched_time` of events, and events of unknown type or with a damaged payload beyond their failing.
- Separate id sequences of the tables: one counter hands out all ids.
- `Chunk.deleted` and `Document.deleted`: nothing sets them, rows are removed.
- The line patterns for headings and page marks, and the parsers of PDF and DOCX files: both are functions about which
  only the level of headings is assumed.
- Markers, specifiers and the parsing of requirements: functions about which nothing is assumed; a distribution depends
  on the canonical name only.
- Rounding: scores, discounts and percentiles are real numbers.
- SQL ranking, tokenizing, the embedding, chat and rerank calls of `retrieve`: their answers are its inputs.
- Building the search query, looking up parent content for an answer, and the remaining evaluation metrics.
- Sanitizing of citations and the check of scope evidence.
- The `datetime` of a parsed id, and waiting: a clock is the list of its readings, and a call that runs out of them waits.
- Redis cache coherence, the code generator, administration, authentication, e-mail and everything around HTTP.
