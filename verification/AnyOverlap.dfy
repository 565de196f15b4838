/** What holds in every run with overlapping calls, also after untimely writes: the tables stay well formed, and the
    chunks of a document are never a mixture. */
module AnyOverlap {
  import opened Prelude
  import opened RagStore
  import opened RagInvariant
  import opened UnlockedReads
  import opened Lifecycle
  import opened LifecycleSafety
  import opened LifecycleDispatch
  import opened SectionRows
  import opened OverlappingCalls
  import opened Chunking
  import Embedding
  import Outbox

  /** The generation has the sections of the file. */
  ghost predicate IsFromFile(cfg: Settings, file: File, g: Generation) {
    cfg.parse(file).Some? && g.parents == SectionsOf(cfg, file)
  }

  /** The document's chunks are one whole generation from its file, of whatever version, or there are none. */
  ghost predicate IsWhole(cfg: Settings, db: Db, d: int)
    requires d in db.documents
  {
    || (ChunksOf(db.chunks, d) == map[] && db.documents[d].chunkCount == 0)
    || exists g :: IsGenerationOf(db, d, g) && IsFromFile(cfg, db.documents[d].storageKey.file, g)
  }

  /** Ids are not used yet from nextId on, and no chunk is without its document. */
  ghost predicate IdsFresh(db: Db) {
    && 1 <= db.nextId && (forall k :: k in db.knowledgeBases ==> 0 < k < db.nextId)
    && (forall d :: d in db.documents ==> d < db.nextId)
    && (forall c :: c in db.chunks ==> c < db.nextId && db.chunks[c].documentId in db.documents)
  }

  ghost predicate AllWhole(cfg: Settings, db: Db) {
    forall d :: d in db.documents ==> IsWhole(cfg, db, d)
  }

  ghost predicate IsWellFormed(cfg: Settings, db: Db) {
    IdsFresh(db) && KeysUnique(db) && EventsSound(cfg, db.events) && AllWhole(cfg, db)
  }

  /** Documents do not come back, nor do deleted knowledge bases. */
  ghost predicate NothingReturns(db: Db, after: Db) {
    && db.nextId <= after.nextId
    && (forall d :: d < db.nextId && d in after.documents ==> d in db.documents)
    && (forall k :: k in db.knowledgeBases ==>
          k in after.knowledgeBases && (db.knowledgeBases[k].deleted != 0 ==> after.knowledgeBases[k].deleted != 0))
  }

  // ----- steps that write no chunks -----

  predicate SameOrigin(before: Document, after: Document) {
    && after.knowledgeBaseId == before.knowledgeBaseId && after.storageKey == before.storageKey
    && after.chunkCount == before.chunkCount
  }

  /** Documents keep their columns about origin and chunks; a new one has a new id, a free key and no chunks. */
  ghost predicate KeepsDocuments(db: Db, after: Db) {
    && after.chunks == db.chunks && db.nextId <= after.nextId
    && (forall d :: d in db.documents ==> d in after.documents && SameOrigin(db.documents[d], after.documents[d]))
    && forall d :: d in after.documents && d !in db.documents ==>
         && d == db.nextId < after.nextId && after.documents[d].chunkCount == 0
         && !IsKeyTaken(db, after.documents[d].storageKey)
  }

  /** Names stay unique, ids of knowledge bases are new ones, and none is undeleted. */
  ghost predicate KeepsBases(db: Db, after: Db) {
    && (forall k :: k in after.knowledgeBases ==> k in db.knowledgeBases || k == db.nextId < after.nextId)
    && (forall k :: k in db.knowledgeBases ==>
          k in after.knowledgeBases && (db.knowledgeBases[k].deleted != 0 ==> after.knowledgeBases[k].deleted != 0))
    && (forall k, m :: k in after.knowledgeBases && m in after.knowledgeBases && k != m ==>
          !SameName(after.knowledgeBases[k], after.knowledgeBases[m]))
    && forall k :: k in after.knowledgeBases ==> after.knowledgeBases[k].deleted in {0, k}
  }

  lemma WholeStays(cfg: Settings, db: Db, after: Db, d: int)
    requires d in db.documents && d in after.documents && IsWhole(cfg, db, d)
    requires after.documents[d].knowledgeBaseId == db.documents[d].knowledgeBaseId
    requires after.documents[d].chunkCount == db.documents[d].chunkCount
    requires after.documents[d].storageKey == db.documents[d].storageKey
    requires ChunksOf(after.chunks, d) == ChunksOf(db.chunks, d)
    ensures IsWhole(cfg, after, d)
  {
    hide ValidGeneration, ChunksOf, IsFromFile;
    if g :| IsGenerationOf(db, d, g) && IsFromFile(cfg, db.documents[d].storageKey.file, g) {
      assert IsGenerationOf(after, d, g);
    }
  }

  lemma KeepingIsWellFormed(cfg: Settings, db: Db, after: Db)
    requires IsWellFormed(cfg, db) && KeepsDocuments(db, after) && KeepsBases(db, after)
    requires EventsSound(cfg, after.events)
    ensures IsWellFormed(cfg, after) && NothingReturns(db, after)
  {
    hide EventsSound, IsWhole, SameName;
    forall d | d in after.documents ensures IsWhole(cfg, after, d) {
      if d in db.documents {
        WholeStays(cfg, db, after, d);
      } else {
        NewIsWhole(cfg, db, after, d);
      }
    }
    assert KeysUnique(after) by {
      hide SameName;
      forall d, e | d in after.documents && e in after.documents && d != e
        ensures after.documents[d].storageKey != after.documents[e].storageKey
      {
        NewKeyDiffers(db, after, d, e);
      }
    }
  }

  lemma NewIsWhole(cfg: Settings, db: Db, after: Db, d: int)
    requires IdsFresh(db) && KeepsDocuments(db, after) && d in after.documents && d !in db.documents
    ensures IsWhole(cfg, after, d)
  {
    assert forall c :: c in db.chunks ==> db.chunks[c].documentId != d;
    assert ChunksOf(after.chunks, d) == map[];
  }

  lemma NewKeyDiffers(db: Db, after: Db, d: int, e: int)
    requires KeysUnique(db) && KeepsDocuments(db, after) && d in after.documents && e in after.documents && d != e
    ensures after.documents[d].storageKey != after.documents[e].storageKey
  {
    hide SameName;
  }

  // ----- the steps of the protocol -----

  lemma CallKeepsDocuments(cfg: Settings, s: System, a: Action)
    requires IdsFresh(s.db) && Enabled(cfg, s, a) && IsCall(a)
    ensures KeepsDocuments(s.db, Next(cfg, s, a).db)
  {
    hide RequestDeletes, Create, Retry, Delete, IsAuthorized, IsNameTaken, IsNameTakenBesides, KeepsDocuments;
    if a.Upload? {
      CreateKeepsDocuments(cfg, s.db, a.user, a.kb, a.file, s.now);
    } else if a.Reindex? {
      RetryKeepsDocuments(s.db, a.kb, a.d, a.user, s.now);
    } else if a.Discard? {
      DeleteKeepsDocuments(s.db, a.kb, a.d, a.user, s.now);
    } else {
      if a.DropKnowledgeBase? && IsAuthorized(s.db, a.kb, a.user, true) {
        DroppedIsKnown(s.db, a.kb, a.user);
        RequestDeletesAre(MarkDeleted(s.db, a.kb), a.rows, s.now);
      }
      RemarkedKeepsDocuments(s.db, Next(cfg, s, a).db);
    }
  }

  lemma RemarkedKeepsDocuments(db: Db, after: Db)
    requires after.chunks == db.chunks && db.nextId <= after.nextId && after.documents.Keys == db.documents.Keys
    requires forall d :: d in db.documents ==> IsRemarked(db.documents[d], after.documents[d])
    ensures KeepsDocuments(db, after)
  {}

  lemma CreateKeepsDocuments(cfg: Settings, db: Db, user: User, kb: int, file: File, now: int)
    requires IdsFresh(db)
    ensures KeepsDocuments(db, Create(cfg, db, user, kb, file, now))
  {
    hide IsAuthorized, IsSupported, Outbox.Enqueue;
  }

  lemma RetryKeepsDocuments(db: Db, kb: int, d: int, user: User, now: int)
    ensures KeepsDocuments(db, Retry(db, kb, d, user, now))
  {
    hide IsAuthorized, Outbox.Enqueue;
  }

  lemma DeleteKeepsDocuments(db: Db, kb: int, d: int, user: User, now: int)
    ensures KeepsDocuments(db, Delete(db, kb, d, user, now))
  {
    hide IsAuthorized, Outbox.Enqueue;
  }

  lemma OthersKeepDocuments(cfg: Settings, s: System, a: Action)
    requires Enabled(cfg, s, a) && !IsCall(a) && !a.Index? && !a.Remove? && !a.Write?
    ensures KeepsDocuments(s.db, Next(cfg, s, a).db)
  {
    hide RecoverRows, IsStaleSelection, ListsDeleting, RepairMessages, Accepted, Summary, Outbox.Dispatch;
    if a.RepairBeat? {
      StaleRowsExist(cfg, s, a);
      RecoverRowsAre(s.db, a.rows, s.now);
    }
  }

  lemma NextKeepsBases(cfg: Settings, s: System, a: Action)
    requires IdsFresh(s.db) && KeysUnique(s.db) && Enabled(cfg, s, a) && !a.Write?
    ensures KeepsBases(s.db, Next(cfg, s, a).db)
  {
    hide RequestDeletes, Outbox.Enqueue, RecoverRows, IsAuthorized, IsStaleSelection, ListsDeleting, RepairMessages;
    hide Accepted, IsNameTaken, IsNameTakenBesides, IsSupported, Summary, ClaimResultOf, IndexResultOf, WithoutChunksOf;
    hide Rows, SameName, IsKeyTaken, CreateKnowledgeBase, EditKnowledgeBase, MarkDeleted, KeepsBases, Outbox.Dispatch;
    hide UnlockedReads.IsTimely, UnlockedReads.IsKnown;
    BasesStay(s.db, Next(cfg, s, a).db);
    match a
    case AddKnowledgeBase(user, name, isPublic) => AddingKeepsBases(s.db, user, name, isPublic);
    case ChangeKnowledgeBase(_, kb, newName, newPublic) => EditingKeepsBases(s.db, kb, newName, newPublic);
    case DropKnowledgeBase(user, kb, rows) =>
      if IsAuthorized(s.db, kb, user, true) {
        DroppedIsKnown(s.db, kb, user);
        MarkDeletedLast(s.db, kb, rows, s.now);
        MarkingKeepsBases(s.db, kb);
        MarkingIs(s.db, kb);
        RequestDeletesAre(MarkDeleted(s.db, kb), rows, s.now);
        BasesAsIn(s.db, MarkDeleted(s.db, kb), Next(cfg, s, a).db);
      }
    case RepairBeat(rows, _, _, _) =>
      StaleRowsExist(cfg, s, a);
      RecoverRowsAre(s.db, rows, s.now);
    case _ =>
  }

  lemma BasesStay(db: Db, after: Db)
    requires KeysUnique(db)
    ensures after.knowledgeBases == db.knowledgeBases ==> KeepsBases(db, after)
  {}

  lemma BasesAsIn(db: Db, between: Db, after: Db)
    requires KeepsBases(db, between) && after.knowledgeBases == between.knowledgeBases
    requires between.nextId == db.nextId <= after.nextId
    ensures KeepsBases(db, after)
  {}

  lemma AddingKeepsBases(db: Db, user: User, name: string, isPublic: bool)
    requires IdsFresh(db) && KeysUnique(db)
    ensures KeepsBases(db, CreateKnowledgeBase(db, user, name, isPublic))
  {
    NewNameIsUnique(db, user, name, isPublic);
  }

  lemma EditingKeepsBases(db: Db, kb: int, name: Option<string>, isPublic: Option<bool>)
    requires KeysUnique(db)
    ensures KeepsBases(db, EditKnowledgeBase(db, kb, name, isPublic))
  {
    EditedNameIsUnique(db, kb, name, isPublic);
  }

  lemma MarkingKeepsBases(db: Db, kb: int)
    requires KeysUnique(db) && kb in db.knowledgeBases && kb != 0
    ensures KeepsBases(db, MarkDeleted(db, kb))
  {}

  lemma MarkingIs(db: Db, kb: int)
    requires kb in db.knowledgeBases
    ensures MarkDeleted(db, kb) == db.(knowledgeBases := MarkDeleted(db, kb).knowledgeBases)
  {}

  lemma NextKeepsEvents(cfg: Settings, s: System, a: Action)
    requires ValidSettings(cfg) && EventsSound(cfg, s.db.events) && Enabled(cfg, s, a)
    ensures EventsSound(cfg, Next(cfg, s, a).db.events)
  {
    hide Next, Enabled, ChangesOf, Outbox.ApplyAll, Outbox.NoDuplicates, Outbox.AttemptsBounded;
    StepChangesEvents(cfg, s, a);
    Outbox.ApplyAllKeeps(s.db.events, ChangesOf(cfg, s, a), cfg.maxDispatchAttempts);
  }

  // ----- indexing and removal -----

  lemma IndexIsWellFormed(cfg: Settings, db: Db, d: int, version: int, io: Io, now: int)
    requires ValidSettings(cfg) && IsWellFormed(cfg, db)
    ensures IsWellFormed(cfg, IndexClaimedDocument(cfg, db, d, version, io, now))
    ensures NothingReturns(db, IndexClaimedDocument(cfg, db, d, version, io, now))
  {
    hide IsWellFormed, NothingReturns, ReplaceChunks, ChildrenOf, ParentChildChunks, IsClassifier;
    if IndexResultOf(cfg, db, d, version, io) == Indexed {
      var text := cfg.parse(db.documents[d].storageKey.file).value;
      var g := NewGeneration(cfg, db, d, text, io.vectors);
      DocumentIsCovered(text, cfg.chunkSize, cfg.chunkOverlap, cfg.classify);
      assert g.parents[|g.parents| - 1] in g.parents;
      ParentsGiveChildren(g.parents);
      ReplacingIsWellFormed(cfg, db, d, text, g, now);
    } else {
      UnchangedIsWellFormed(cfg, db);
    }
  }

  lemma UnchangedIsWellFormed(cfg: Settings, db: Db)
    requires IsWellFormed(cfg, db)
    ensures NothingReturns(db, db)
  {}

  lemma ReplacingIsWellFormed(cfg: Settings, db: Db, d: int, text: string, g: Generation, now: int)
    requires IsWellFormed(cfg, db) && d in db.documents && ValidGeneration(g)
    requires g.base == db.nextId && g.documentId == d && g.knowledgeBaseId == db.documents[d].knowledgeBaseId
    requires IsFromFile(cfg, db.documents[d].storageKey.file, g)
    ensures IsWellFormed(cfg, ReplaceChunks(db, d, text, g, now))
    ensures NothingReturns(db, ReplaceChunks(db, d, text, g, now))
  {
    hide EventsSound, Rows, ChunksOf, WithoutChunksOf, ValidGeneration, ChildrenOf, IsWhole, SameName, IsFromFile;
    CountOfGeneration(g);
    var after := ReplaceChunks(db, d, text, g, now);
    NewRows(db, d, g);
    forall e | e in after.documents ensures IsWhole(cfg, after, e) {
      if e == d {
        GivenIsWhole(cfg, after, d, g);
      } else {
        WholeStays(cfg, db, after, e);
      }
    }
  }

  lemma GivenIsWhole(cfg: Settings, db: Db, d: int, g: Generation)
    requires d in db.documents && IsGenerationOf(db, d, g) && IsFromFile(cfg, db.documents[d].storageKey.file, g)
    ensures IsWhole(cfg, db, d)
  {
    hide IsGenerationOf, IsFromFile;
  }

  lemma NewRows(db: Db, d: int, g: Generation)
    requires IdsFresh(db) && d in db.documents
    requires |g.vectors| == |ChildrenOf(g.parents)| && g.base == db.nextId && g.documentId == d
    ensures var chunks := WithoutChunksOf(db.chunks, d) + Rows(g);
            && ChunksOf(chunks, d) == Rows(g)
            && (forall e :: e != d ==> ChunksOf(chunks, e) == ChunksOf(db.chunks, e))
            && (forall c :: c in chunks ==> chunks[c].documentId in db.documents)
            && (forall c :: c in chunks ==> c < db.nextId + |g.parents| + |ChildrenOf(g.parents)|)
  {
    hide ChildrenOf;
    assert forall id :: id in Rows(g) ==> Rows(g)[id].documentId == d && g.base <= id;
  }

  lemma RemovingIsWellFormed(cfg: Settings, db: Db, d: int)
    requires IsWellFormed(cfg, db)
    ensures IsWellFormed(cfg, RemoveDocument(db, d)) && NothingReturns(db, RemoveDocument(db, d))
  {
    hide EventsSound, IsWhole;
    var after := RemoveDocument(db, d);
    forall e | e in after.documents ensures IsWhole(cfg, after, e) {
      if IsRemovable(db, d) {
        assert ChunksOf(after.chunks, e) == ChunksOf(db.chunks, e);
        WholeStays(cfg, db, after, e);
      }
    }
  }

  lemma NextIsWellFormed(cfg: Settings, s: System, a: Action)
    requires ValidSettings(cfg) && IsWellFormed(cfg, s.db) && Enabled(cfg, s, a) && !a.Write?
    ensures IsWellFormed(cfg, Next(cfg, s, a).db) && NothingReturns(s.db, Next(cfg, s, a).db)
  {
    hide KeysUnique, EventsSound, AllWhole, ValidSettings, KeepsBases, KeepsDocuments, NothingReturns;
    if a.Index? {
      IndexIs(cfg, s, a);
      IndexIsWellFormed(cfg, s.db, s.workers[a.worker].documentId, s.workers[a.worker].indexVersion, a.io, s.now);
    } else if a.Remove? {
      RemoveIs(cfg, s, a);
      RemovingIsWellFormed(cfg, s.db, a.message.documentId);
    } else {
      if IsCall(a) {
        CallKeepsDocuments(cfg, s, a);
      } else {
        OthersKeepDocuments(cfg, s, a);
      }
      NextKeepsBases(cfg, s, a);
      NextKeepsEvents(cfg, s, a);
      KeepingIsWellFormed(cfg, s.db, Next(cfg, s, a).db);
    }
  }

  lemma IndexIs(cfg: Settings, s: System, a: Action)
    requires a.Index? && Enabled(cfg, s, a)
    ensures a.worker in s.workers && s.workers[a.worker].ToIndex?
    ensures var job := s.workers[a.worker];
            Next(cfg, s, a).db == IndexClaimedDocument(cfg, s.db, job.documentId, job.indexVersion, a.io, s.now)
  {
    hide IndexClaimedDocument, IndexResultOf;
  }

  lemma RemoveIs(cfg: Settings, s: System, a: Action)
    requires a.Remove? && Enabled(cfg, s, a)
    ensures Next(cfg, s, a).db == RemoveDocument(s.db, a.message.documentId)
  {
    hide RemoveDocument;
  }

  // ----- late writes, timely or not -----

  lemma WriteKeepsDocuments(db: Db, call: Call, now: int)
    requires IdsFresh(db)
    ensures KeepsDocuments(db, Written(db, call, now))
  {
    hide Outbox.Enqueue, LateDeletes, Marks, LosesOne, Stored;
    if call.ToDrop? && call.kb in db.knowledgeBases {
      LateDeletesAre(MarkDeleted(db, call.kb), call.rows, now);
    }
  }

  lemma WriteKeepsBases(db: Db, call: Call, now: int)
    requires IdsFresh(db) && KeysUnique(db)
    ensures KeepsBases(db, Written(db, call, now))
  {
    hide Outbox.Enqueue, LateDeletes, LosesOne, SameName, MarkDeleted, KeepsBases, IsKeyTaken, EditKnowledgeBase;
    BasesStay(db, Written(db, call, now));
    if call.ToEdit? {
      EditingKeepsBases(db, call.kb, call.name, call.isPublic);
    } else if call.ToDrop? && call.kb in db.knowledgeBases && !LosesOne(db, call.rows) {
      MarkingKeepsBases(db, call.kb);
      MarkingIs(db, call.kb);
      LateDeletesAre(MarkDeleted(db, call.kb), call.rows, now);
      BasesAsIn(db, MarkDeleted(db, call.kb), Written(db, call, now));
    }
  }

  lemma WriteIsWellFormed(cfg: Settings, db: Db, call: Call, now: int)
    requires ValidSettings(cfg) && IsWellFormed(cfg, db)
    ensures IsWellFormed(cfg, Written(db, call, now)) && NothingReturns(db, Written(db, call, now))
  {
    hide KeysUnique, AllWhole, KeepsBases, KeepsDocuments, NothingReturns, Written, IsClassifier, IdsFresh;
    hide Outbox.ApplyAll, Outbox.NoDuplicates, Outbox.AttemptsBounded, WriteRequests;
    WriteKeepsDocuments(db, call, now);
    WriteKeepsBases(db, call, now);
    WriteChangesEvents(cfg, db, call, now);
    Outbox.ApplyAllKeeps(db.events, WriteRequests(db, call), cfg.maxDispatchAttempts);
    KeepingIsWellFormed(cfg, db, Written(db, call, now));
  }

  // ----- runs -----

  lemma StepIsWellFormed(cfg: Settings, w: World, step: Step)
    requires ValidSettings(cfg) && IsWellFormed(cfg, w.system.db) && CanStep(cfg, w, step)
    ensures IsWellFormed(cfg, After(cfg, w, step).system.db)
    ensures NothingReturns(w.system.db, After(cfg, w, step).system.db)
  {
    hide IsWellFormed, NothingReturns, Written, Next, Enabled, ValidSettings, Reads;
    match step
    case Base(action) => NextIsWellFormed(cfg, w.system, action);
    case Finish(id) => WriteIsWellFormed(cfg, w.system.db, w.calls[id], w.system.now);
    case Begin(_, call) =>
      UnchangedIsWellFormed(cfg, w.system.db);
      if call.ToInsert? {
        var put := Put(StorageKey(call.kb, call.file));
        PutIs(cfg, w.system, put);
        NextIsWellFormed(cfg, w.system, put);
      }
    case Abandon(id) => UnchangedIsWellFormed(cfg, w.system.db);
  }

  lemma PutIs(cfg: Settings, s: System, a: Action)
    requires a.Put?
    ensures Enabled(cfg, s, a) && Next(cfg, s, a) == s.(db := Stored(s.db, a.key))
  {}

  lemma {:induction false} RunIsWellFormed(cfg: Settings, worlds: seq<World>, steps: seq<Step>, n: nat)
    requires ValidSettings(cfg) && IsOverlappingRun(cfg, worlds, steps) && n <= |steps|
    ensures |worlds| == |steps| + 1 && IsWellFormed(cfg, worlds[n].system.db)
  {
    hide IsWellFormed, ValidSettings, CanStep, IsOverlappingRun, NothingReturns;
    RunBegins(cfg, worlds, steps);
    if n == 0 {
      EmptyIsWellFormed(cfg, worlds, steps);
    } else {
      RunIsWellFormed(cfg, worlds, steps, n - 1);
      RunGoesOn(cfg, worlds, steps, n - 1);
      StepIsWellFormed(cfg, worlds[n - 1], steps[n - 1]);
    }
  }

  lemma EmptyIsWellFormed(cfg: Settings, worlds: seq<World>, steps: seq<Step>)
    requires IsOverlappingRun(cfg, worlds, steps)
    ensures IsWellFormed(cfg, worlds[0].system.db)
  {}

  /** Whatever overlaps: in every state a document has no chunks, or exactly the sections of its own file with all their
      children, of one version, each number once, each child with its vector and its section's row as parent. */
  lemma ChunksAreNeverMixed(cfg: Settings, worlds: seq<World>, steps: seq<Step>, n: nat, d: int)
      returns (version: int, vectors: seq<Embedding.Vector>)
    requires ValidSettings(cfg) && IsOverlappingRun(cfg, worlds, steps) && n < |worlds|
    requires d in worlds[n].system.db.documents
    ensures var db := worlds[n].system.db;
            if exists id :: IsChunkOf(db, d, id) then
              && cfg.parse(db.documents[d].storageKey.file).Some?
              && HoldsSections(db, d, version, SectionsOf(cfg, db.documents[d].storageKey.file), vectors)
            else db.documents[d].chunkCount == 0
  {
    hide IsOverlappingRun, ValidSettings, KeysUnique, EventsSound, IdsFresh;
    RunBegins(cfg, worlds, steps);
    RunIsWellFormed(cfg, worlds, steps, n);
    version, vectors := WholeHoldsSections(cfg, worlds[n].system.db, d);
  }

  lemma WholeHoldsSections(cfg: Settings, db: Db, d: int) returns (version: int, vectors: seq<Embedding.Vector>)
    requires d in db.documents && IsWhole(cfg, db, d)
    ensures if exists id :: IsChunkOf(db, d, id) then
              && cfg.parse(db.documents[d].storageKey.file).Some?
              && HoldsSections(db, d, version, SectionsOf(cfg, db.documents[d].storageKey.file), vectors)
            else db.documents[d].chunkCount == 0
  {
    hide IsGenerationOf, HoldsSections, ParentChildChunks;
    version, vectors := 0, [];
    if g :| IsGenerationOf(db, d, g) && IsFromFile(cfg, db.documents[d].storageKey.file, g) {
      version, vectors := g.indexVersion, g.vectors;
      GenerationHoldsSections(db, d, g);
      GenerationHasRow(db, d, g);
    } else {
      forall id ensures IsChunkOf(db, d, id) <==> id in ChunksOf(db.chunks, d) {}
    }
  }

  lemma GenerationHasRow(db: Db, d: int, g: Generation)
    requires d in db.documents && IsGenerationOf(db, d, g)
    ensures IsChunkOf(db, d, g.base)
  {
    hide ChildrenOf, Rows, ChunksOf;
    SectionRow(db, d, g, 0);
  }

  // ----- what ready documents hold -----

  lemma {:induction false} ReachableIsWellFormed(cfg: Settings, states: seq<System>, actions: seq<Action>, i: nat)
    requires ValidSettings(cfg) && IsRun(cfg, states, actions) && i < |states|
    ensures IsWellFormed(cfg, states[i].db)
  {
    hide IsWellFormed, ValidSettings, Next, Enabled, NothingReturns;
    if i == 0 {
      EmptySystemIsWellFormed(cfg, states[0]);
    } else {
      ReachableIsWellFormed(cfg, states, actions, i - 1);
      assert StepAt(cfg, states, actions, i - 1);
      ActionIsWellFormed(cfg, states[i - 1], actions[i - 1]);
    }
  }

  lemma EmptySystemIsWellFormed(cfg: Settings, s: System)
    requires Initial(s)
    ensures IsWellFormed(cfg, s.db)
  {}

  lemma ActionIsWellFormed(cfg: Settings, s: System, a: Action)
    requires ValidSettings(cfg) && IsWellFormed(cfg, s.db) && Enabled(cfg, s, a)
    ensures IsWellFormed(cfg, Next(cfg, s, a).db)
  {
    hide IsWellFormed, ValidSettings, Next, Enabled, NothingReturns, Written;
    if a.Write? {
      WriteIs(cfg, s, a);
      WriteIsWellFormed(cfg, s.db, a.call, s.now);
    } else {
      NextIsWellFormed(cfg, s, a);
    }
  }

  /** In every reachable state a ready document has exactly the sections of its file at its current version. */
  lemma ReadyHoldsItsSections(cfg: Settings, states: seq<System>, actions: seq<Action>, i: nat, d: int)
      returns (vectors: seq<Embedding.Vector>)
    requires ValidSettings(cfg) && IsRun(cfg, states, actions) && i < |states|
    requires d in states[i].db.documents && states[i].db.documents[d].status == READY
    ensures var db, document := states[i].db, states[i].db.documents[d];
            && cfg.parse(document.storageKey.file).Some?
            && HoldsSections(db, d, document.indexVersion, SectionsOf(cfg, document.storageKey.file), vectors)
  {
    hide IsRun, ValidSettings, KeysUnique, EventsSound, IdsFresh, IsWhole, IsSingleGeneration, HoldsSections, Inv;
    ReachableIsWellFormed(cfg, states, actions, i);
    RunIsSound(cfg, states, actions, i);
    var db := states[i].db;
    var chunk := ReadyHasChunk(cfg, db, d);
    assert IsChunkOf(db, d, chunk);
    var version;
    version, vectors := WholeHoldsSections(cfg, db, d);
    HeldVersion(db, d, version, SectionsOf(cfg, db.documents[d].storageKey.file), vectors, chunk);
  }

  lemma HeldVersion(db: Db, d: int, version: int, sections: seq<ParentChildren>,
                    vectors: seq<Embedding.Vector>, id: int)
    requires d in db.documents && HoldsSections(db, d, version, sections, vectors) && IsChunkOf(db, d, id)
    ensures db.chunks[id].indexVersion == version
  {}

  /** Whatever overlaps: storage keys and names are unique, no request has two events, and none is attempted too
      often. */
  lemma TablesStayUnique(cfg: Settings, worlds: seq<World>, steps: seq<Step>, n: nat)
    requires ValidSettings(cfg) && IsOverlappingRun(cfg, worlds, steps) && n < |worlds|
    ensures KeysUnique(worlds[n].system.db)
    ensures Outbox.NoDuplicates(worlds[n].system.db.events)
    ensures Outbox.AttemptsBounded(worlds[n].system.db.events, cfg.maxDispatchAttempts)
  {
    hide IsOverlappingRun, ValidSettings, KeysUnique, Outbox.NoDuplicates, Outbox.AttemptsBounded, IdsFresh, AllWhole;
    RunBegins(cfg, worlds, steps);
    RunIsWellFormed(cfg, worlds, steps, n);
  }

  /** Whatever overlaps: a removed document never comes back, and a deleted knowledge base stays deleted. */
  lemma {:induction false} NothingEverReturns(cfg: Settings, worlds: seq<World>, steps: seq<Step>, i: nat, j: nat)
    requires ValidSettings(cfg) && IsOverlappingRun(cfg, worlds, steps) && i <= j < |worlds|
    ensures NothingReturns(worlds[i].system.db, worlds[j].system.db)
    decreases j - i
  {
    hide IsWellFormed, ValidSettings, CanStep, IsOverlappingRun;
    RunBegins(cfg, worlds, steps);
    RunIsWellFormed(cfg, worlds, steps, i);
    if i < j {
      NothingEverReturns(cfg, worlds, steps, i, j - 1);
      RunIsWellFormed(cfg, worlds, steps, j - 1);
      RunGoesOn(cfg, worlds, steps, j - 1);
      StepIsWellFormed(cfg, worlds[j - 1], steps[j - 1]);
    }
  }
}
