/** What every transaction on the tables keeps. */
module RagInvariant {
  import opened Prelude
  import opened RagStore
  import opened Chunking
  import Outbox

  // ----- the invariant -----

  /** The document's chunks are exactly one generation. */
  ghost predicate IsGenerationOf(db: Db, d: int, g: Generation)
    requires d in db.documents
  {
    var document := db.documents[d];
    && ValidGeneration(g)
    && g.documentId == d && g.knowledgeBaseId == document.knowledgeBaseId
    && document.chunkCount == |ChildrenOf(g.parents)|
    && ChunksOf(db.chunks, d) == Rows(g)
  }

  /** It is not newer than the document, and current if the document is ready. */
  ghost predicate HasGeneration(db: Db, d: int, g: Generation)
    requires d in db.documents
  {
    var document := db.documents[d];
    && IsGenerationOf(db, d, g)
    && g.indexVersion <= document.indexVersion
    && (document.status == READY ==> g.indexVersion == document.indexVersion)
  }

  ghost predicate HasNoChunks(db: Db, d: int)
    requires d in db.documents
  {
    ChunksOf(db.chunks, d) == map[] && db.documents[d].chunkCount == 0 && db.documents[d].status != READY
  }

  ghost predicate ChunksSound(db: Db, d: int)
    requires d in db.documents
  {
    HasNoChunks(db, d) || exists g :: HasGeneration(db, d, g)
  }

  /** The index requests are those for versions 1 to the current one, and a document being deleted has a delete
      request. */
  ghost predicate RequestsSound(events: Outbox.Table, d: int, document: Document) {
    && (forall v :: Outbox.IsRequested(events, Outbox.IndexRequest(d, v)) <==> 1 <= v <= document.indexVersion)
    && (document.status == DELETING ==> Outbox.IsRequested(events, Outbox.DeleteRequest(d)))
  }

  /** The documents of a deleted knowledge base are all being deleted. */
  ghost predicate KnowledgeBaseSound(db: Db, document: Document) {
    && document.knowledgeBaseId in db.knowledgeBases
    && (db.knowledgeBases[document.knowledgeBaseId].deleted != 0 ==> document.status == DELETING)
  }

  ghost predicate DocumentSound(db: Db, d: int)
    requires d in db.documents
  {
    && KnowledgeBaseSound(db, db.documents[d])
    && db.documents[d].indexVersion >= 1
    && db.documents[d].storageKey in db.objects
    && RequestsSound(db.events, d, db.documents[d])
    && ChunksSound(db, d)
  }

  ghost predicate IdsBounded(db: Db) {
    && 1 <= db.nextId
    && (forall k :: k in db.knowledgeBases ==> 0 < k < db.nextId)
    && (forall d :: d in db.documents ==> 0 < d < db.nextId)
    && (forall c :: c in db.chunks ==> 0 < c < db.nextId && db.chunks[c].documentId in db.documents)
    && (forall i :: 0 <= i < |db.events| ==> db.events[i].request.documentId < db.nextId)
  }

  /** Storage keys are unique, and so are the names of an owner's knowledge bases that are not deleted. */
  ghost predicate KeysUnique(db: Db) {
    && (forall d, e :: d in db.documents && e in db.documents && d != e ==>
         db.documents[d].storageKey != db.documents[e].storageKey)
    && (forall k, m :: k in db.knowledgeBases && m in db.knowledgeBases && k != m ==>
         !SameName(db.knowledgeBases[k], db.knowledgeBases[m]))
    && forall k :: k in db.knowledgeBases ==> db.knowledgeBases[k].deleted in {0, k}
  }

  /** What the unique constraint compares. */
  predicate SameName(a: KnowledgeBase, b: KnowledgeBase) {
    a.ownerId == b.ownerId && a.name == b.name && a.deleted == b.deleted
  }

  ghost predicate EventsSound(cfg: Settings, events: Outbox.Table) {
    Outbox.NoDuplicates(events) && Outbox.AttemptsBounded(events, cfg.maxDispatchAttempts)
  }

  ghost predicate DocumentsSound(db: Db) {
    forall d :: d in db.documents ==> DocumentSound(db, d)
  }

  ghost predicate Inv(cfg: Settings, db: Db) {
    IdsBounded(db) && KeysUnique(db) && EventsSound(cfg, db.events) && DocumentsSound(db)
  }

  // ----- how a transaction may change the tables -----

  /** READY and DELETING: no indexing of this version can succeed any more. */
  predicate IsSettled(document: Document) {
    document.status == READY || document.status == DELETING
  }

  /** A document may vanish; otherwise its version does not decrease, and a settled version stays settled. */
  ghost predicate Moves(db: Db, after: Db, d: int) {
    d in after.documents ==>
      && d in db.documents
      && after.documents[d].knowledgeBaseId == db.documents[d].knowledgeBaseId
      && after.documents[d].storageKey == db.documents[d].storageKey
      && (|| after.documents[d].indexVersion > db.documents[d].indexVersion
          || (&& after.documents[d].indexVersion == db.documents[d].indexVersion
              && (IsSettled(db.documents[d]) ==> IsSettled(after.documents[d]))))
  }

  ghost predicate Advances(db: Db, after: Db) {
    && db.nextId <= after.nextId
    && (forall d :: d < db.nextId ==> Moves(db, after, d))
    && db.knowledgeBases.Keys <= after.knowledgeBases.Keys
    && (forall k :: k in db.knowledgeBases && db.knowledgeBases[k].deleted != 0 ==>
          after.knowledgeBases[k].deleted != 0)
  }

  /** Every row that changed carries the time of the change. */
  ghost predicate Stamps(db: Db, after: Db, now: int) {
    forall d :: d in after.documents ==>
      (d in db.documents && after.documents[d] == db.documents[d]) || after.documents[d].activity == now
  }

  ghost predicate NothingBecomesReady(db: Db, after: Db) {
    forall d :: d in after.documents && after.documents[d].status == READY ==>
      d in db.documents && db.documents[d].status == READY
          && db.documents[d].indexVersion == after.documents[d].indexVersion
  }

  ghost predicate Keeps(cfg: Settings, db: Db, after: Db, now: int) {
    Inv(cfg, after) && Advances(db, after) && Stamps(db, after, now)
  }

  lemma KeepsTwice(cfg: Settings, a: Db, b: Db, c: Db, now: int)
    requires Keeps(cfg, a, b, now) && Keeps(cfg, b, c, now)
    requires NothingBecomesReady(a, b) && NothingBecomesReady(b, c)
    ensures Keeps(cfg, a, c, now) && NothingBecomesReady(a, c)
  {
    hide Inv;
    AdvancesTwice(a, b, c);
  }

  lemma AdvancesTwice(a: Db, b: Db, c: Db)
    requires Advances(a, b) && Advances(b, c)
    ensures Advances(a, c)
  {
    forall d | d < a.nextId ensures Moves(a, c, d) {
      assert Moves(a, b, d) && Moves(b, c, d);
    }
  }

  lemma KeepsNothing(cfg: Settings, db: Db, now: int)
    requires Inv(cfg, db)
    ensures Keeps(cfg, db, db, now) && NothingBecomesReady(db, db)
  {
    hide DocumentSound;
  }

  // ----- updating one document -----

  /** Chunks are judged by the document's identity, version and readiness only. */
  lemma ChunksStaySound(db: Db, after: Db, d: int)
    requires d in db.documents && d in after.documents && ChunksSound(db, d)
    requires ChunksOf(after.chunks, d) == ChunksOf(db.chunks, d)
    requires after.documents[d].knowledgeBaseId == db.documents[d].knowledgeBaseId
    requires after.documents[d].chunkCount == db.documents[d].chunkCount
    requires after.documents[d].indexVersion >= db.documents[d].indexVersion
    requires after.documents[d].status == READY ==>
               db.documents[d].status == READY && after.documents[d].indexVersion == db.documents[d].indexVersion
    ensures ChunksSound(after, d)
  {
    hide ValidGeneration, ChunksOf;
    if !HasNoChunks(db, d) {
      var g :| HasGeneration(db, d, g);
      assert HasGeneration(after, d, g);
    }
  }

  /** The document as it may be updated outside of indexing. */
  ghost predicate IsUpdate(db: Db, d: int, document: Document, now: int)
    requires d in db.documents
  {
    var before := db.documents[d];
    && document.knowledgeBaseId == before.knowledgeBaseId && document.storageKey == before.storageKey
    && document.chunkCount == before.chunkCount
    && (document.indexVersion == before.indexVersion || document.indexVersion == before.indexVersion + 1)
    && (document.indexVersion == before.indexVersion && IsSettled(before) ==> IsSettled(document))
    && (document.status == READY ==> before.status == READY && document.indexVersion == before.indexVersion)
    && KnowledgeBaseSound(db, document)
    && (document == before || document.activity == now)
  }

  function Updated(db: Db, d: int, document: Document, events: Outbox.Table): Db {
    db.(documents := db.documents[d := document], events := events)
  }

  lemma UpdateKeeps(cfg: Settings, db: Db, d: int, document: Document, request: Option<Outbox.Request>, now: int)
    requires Inv(cfg, db) && d in db.documents && IsUpdate(db, d, document, now)
    requires request.Some? ==> request.value.documentId == d
    requires RequestsSound(if request.Some? then Outbox.Enqueue(db.events, request.value) else db.events, d, document)
    requires cfg.maxDispatchAttempts >= 1
    ensures var events := if request.Some? then Outbox.Enqueue(db.events, request.value) else db.events;
            var after := Updated(db, d, document, events);
            Keeps(cfg, db, after, now) && NothingBecomesReady(db, after)
  {
    hide DocumentSound, RequestsSound, EventsSound, Outbox.Enqueue;
    var events := if request.Some? then Outbox.Enqueue(db.events, request.value) else db.events;
    var after := Updated(db, d, document, events);
    EventsKeep(cfg, db, request);
    forall e | e in after.documents ensures DocumentSound(after, e) {
      UpdatedSound(db, d, document, request, now, e);
    }
  }

  lemma UpdatedSound(db: Db, d: int, document: Document, request: Option<Outbox.Request>, now: int, e: int)
    requires d in db.documents && IsUpdate(db, d, document, now) && e in db.documents
    requires DocumentSound(db, d) && DocumentSound(db, e)
    requires request.Some? ==> request.value.documentId == d
    requires RequestsSound(if request.Some? then Outbox.Enqueue(db.events, request.value) else db.events, d, document)
    ensures var events := if request.Some? then Outbox.Enqueue(db.events, request.value) else db.events;
            DocumentSound(Updated(db, d, document, events), e)
  {
    hide ChunksSound, RequestsSound, Outbox.Enqueue;
    var events := if request.Some? then Outbox.Enqueue(db.events, request.value) else db.events;
    var after := Updated(db, d, document, events);
    ChunksStaySound(db, after, e);
    if e != d {
      OtherRequestsStay(db.events, request, e, db.documents[e]);
    }
  }

  lemma EventsKeep(cfg: Settings, db: Db, request: Option<Outbox.Request>)
    requires EventsSound(cfg, db.events) && IdsBounded(db) && cfg.maxDispatchAttempts >= 1
    requires request.Some? ==> request.value.documentId < db.nextId
    ensures var events := if request.Some? then Outbox.Enqueue(db.events, request.value) else db.events;
            && EventsSound(cfg, events)
            && forall i :: 0 <= i < |events| ==> events[i].request.documentId < db.nextId
  {
    if request.Some? {
      Outbox.ApplyKeepsInvariants(db.events, Outbox.Append(request.value), cfg.maxDispatchAttempts);
    }
  }

  lemma OtherRequestsStay(events: Outbox.Table, request: Option<Outbox.Request>, e: int, document: Document)
    requires RequestsSound(events, e, document) && (request.Some? ==> request.value.documentId != e)
    ensures RequestsSound(if request.Some? then Outbox.Enqueue(events, request.value) else events, e, document)
  {
    if request.Some? {
      Outbox.EnqueueAddsOne(events, request.value);
    }
  }

  /** Writing back an unchanged row changes nothing. */
  lemma FlushIsUpdate(db: Db, d: int, document: Document, now: int) returns (row: Document)
    requires d in db.documents
    ensures row == (if document == db.documents[d] then document else document.(activity := now))
    ensures Flush(db, d, document, now) == Updated(db, d, row, db.events)
  {
    row := if document == db.documents[d] then document else document.(activity := now);
    assert db.documents[d := db.documents[d]] == db.documents;
  }

  // ----- the transactions -----

  lemma ClaimKeeps(cfg: Settings, db: Db, d: int, requested: Option<int>, now: int)
    requires ValidSettings(cfg) && Inv(cfg, db)
    ensures Keeps(cfg, db, ClaimIndex(db, d, requested, now), now)
    ensures NothingBecomesReady(db, ClaimIndex(db, d, requested, now))
  {
    hide Keeps, NothingBecomesReady, IdsBounded, KeysUnique, EventsSound, ChunksSound, Flush, IsClassifier;
    if ClaimResultOf(db, d, requested) == Claimed {
      assert DocumentSound(db, d);
      var row := FlushIsUpdate(db, d, db.documents[d].(status := PROCESSING, errorMessage := None), now);
      UpdateKeeps(cfg, db, d, row, None, now);
    } else {
      KeepsNothing(cfg, db, now);
    }
  }

  lemma MarkFailureKeeps(cfg: Settings, db: Db, d: int, version: int, status: Status, message: string, now: int)
    requires ValidSettings(cfg) && Inv(cfg, db)
    ensures Keeps(cfg, db, MarkIndexFailure(db, d, version, status, message, now), now)
    ensures NothingBecomesReady(db, MarkIndexFailure(db, d, version, status, message, now))
  {
    hide Keeps, NothingBecomesReady, IdsBounded, KeysUnique, EventsSound, ChunksSound, Flush, Summary, IsClassifier;
    if IsFailureMarked(db, d, version, status) {
      assert DocumentSound(db, d);
      var row := FlushIsUpdate(db, d, db.documents[d].(status := status, errorMessage := Some(Summary(message))), now);
      UpdateKeeps(cfg, db, d, row, None, now);
    } else {
      KeepsNothing(cfg, db, now);
    }
  }

  lemma RetryKeeps(cfg: Settings, db: Db, kb: int, d: int, user: User, now: int)
    requires ValidSettings(cfg) && Inv(cfg, db)
    ensures Keeps(cfg, db, Retry(db, kb, d, user, now), now)
    ensures NothingBecomesReady(db, Retry(db, kb, d, user, now))
  {
    hide Keeps, NothingBecomesReady, IdsBounded, KeysUnique, EventsSound, ChunksSound, Outbox.Enqueue, IsClassifier;
    if IsWritable(db, kb, d, user) {
      assert DocumentSound(db, d);
      var document := Retried(db.documents[d], now);
      var request := Outbox.IndexRequest(d, document.indexVersion);
      Outbox.EnqueueAddsOne(db.events, request);
      UpdateKeeps(cfg, db, d, document, Some(request), now);
    } else {
      KeepsNothing(cfg, db, now);
    }
  }

  lemma RequestDeleteKeeps(cfg: Settings, db: Db, d: int, now: int)
    requires ValidSettings(cfg) && Inv(cfg, db) && d in db.documents
    ensures Keeps(cfg, db, RequestDelete(db, d, now), now)
    ensures NothingBecomesReady(db, RequestDelete(db, d, now))
  {
    hide Keeps, NothingBecomesReady, IdsBounded, KeysUnique, EventsSound, ChunksSound, Outbox.Enqueue, Flush;
    hide IsClassifier;
    assert DocumentSound(db, d);
    var row := FlushIsUpdate(db, d, db.documents[d].(status := DELETING), now);
    var request := Outbox.DeleteRequest(d);
    Outbox.EnqueueAddsOne(db.events, request);
    UpdateKeeps(cfg, db, d, row, Some(request), now);
  }

  lemma DeleteKeeps(cfg: Settings, db: Db, kb: int, d: int, user: User, now: int)
    requires ValidSettings(cfg) && Inv(cfg, db)
    ensures Keeps(cfg, db, Delete(db, kb, d, user, now), now)
    ensures NothingBecomesReady(db, Delete(db, kb, d, user, now))
  {
    hide Keeps, NothingBecomesReady, Inv, RequestDelete;
    if IsWritable(db, kb, d, user) {
      RequestDeleteKeeps(cfg, db, d, now);
    } else {
      KeepsNothing(cfg, db, now);
    }
  }

  lemma RecoverRowKeeps(cfg: Settings, db: Db, d: int, now: int)
    requires ValidSettings(cfg) && Inv(cfg, db) && d in db.documents && !IsSettled(db.documents[d])
    ensures Keeps(cfg, db, RecoverRow(db, d, now), now)
    ensures NothingBecomesReady(db, RecoverRow(db, d, now))
  {
    hide Keeps, NothingBecomesReady, IdsBounded, KeysUnique, EventsSound, ChunksSound, IsClassifier;
    assert DocumentSound(db, d);
    UpdateKeeps(cfg, db, d, Recovered(db.documents[d], now), None, now);
    assert RecoverRow(db, d, now) == Updated(db, d, Recovered(db.documents[d], now), db.events);
  }

  /** Recovering touches exactly the given rows. */
  lemma {:induction false} RecoverRowsAre(db: Db, rows: seq<int>, now: int)
    requires forall d :: d in rows ==> d in db.documents
    ensures var after := RecoverRows(db, rows, now);
            && after == db.(documents := after.documents)
            && forall d :: d in db.documents ==>
                 after.documents[d] == if d in rows then Recovered(db.documents[d], now) else db.documents[d]
  {
    if rows != [] {
      var front := rows[..|rows| - 1];
      assert forall d :: d in front ==> d in rows;
      assert rows[|rows| - 1] in rows;
      assert forall d :: d in rows <==> d in front || d == rows[|rows| - 1];
      RecoverRowsAre(db, front, now);
    }
  }

  lemma {:induction false} RecoverRowsKeeps(cfg: Settings, db: Db, rows: seq<int>, now: int)
    requires ValidSettings(cfg) && Inv(cfg, db)
    requires forall d :: d in rows ==> d in db.documents && !IsSettled(db.documents[d])
    ensures Keeps(cfg, db, RecoverRows(db, rows, now), now)
    ensures NothingBecomesReady(db, RecoverRows(db, rows, now))
  {
    hide Inv, Advances, Stamps, NothingBecomesReady, RecoverRow;
    if rows != [] {
      var front := rows[..|rows| - 1];
      assert forall d :: d in front ==> d in rows;
      assert rows[|rows| - 1] in rows;
      RecoverRowsKeeps(cfg, db, front, now);
      RecoverRowsAre(db, front, now);
      RecoverRowKeeps(cfg, RecoverRows(db, front, now), rows[|rows| - 1], now);
      KeepsTwice(cfg, db, RecoverRows(db, front, now), RecoverRows(db, rows, now), now);
    } else {
      KeepsNothing(cfg, db, now);
    }
  }

  // ----- deleting a knowledge base -----

  lemma {:induction false} RequestDeletesKeeps(cfg: Settings, db: Db, rows: seq<int>, now: int)
    requires ValidSettings(cfg) && Inv(cfg, db)
    requires forall d :: d in rows ==> d in db.documents
    ensures Keeps(cfg, db, RequestDeletes(db, rows, now), now)
    ensures NothingBecomesReady(db, RequestDeletes(db, rows, now))
  {
    hide Inv, Advances, Stamps, NothingBecomesReady, RequestDelete;
    if rows != [] {
      var front := rows[..|rows| - 1];
      assert forall d :: d in front ==> d in rows;
      assert rows[|rows| - 1] in rows;
      RequestDeletesKeeps(cfg, db, front, now);
      RequestDeleteKeeps(cfg, RequestDeletes(db, front, now), rows[|rows| - 1], now);
      KeepsTwice(cfg, db, RequestDeletes(db, front, now), RequestDeletes(db, rows, now), now);
    } else {
      KeepsNothing(cfg, db, now);
    }
  }

  /** Only the status and its time may differ. */
  predicate IsRemarked(before: Document, after: Document) {
    after.(status := before.status, activity := before.activity) == before
  }

  /** Exactly the given documents are being deleted afterwards, besides those that were. */
  lemma {:induction false} RequestDeletesAre(db: Db, rows: seq<int>, now: int)
    requires forall d :: d in rows ==> d in db.documents
    ensures var after := RequestDeletes(db, rows, now);
            && after == db.(documents := after.documents, events := after.events)
            && forall d :: d in db.documents ==>
                 && IsRemarked(db.documents[d], after.documents[d])
                 && (after.documents[d].status == if d in rows then DELETING else db.documents[d].status)
  {
    hide Outbox.Enqueue;
    if rows != [] {
      var front := rows[..|rows| - 1];
      assert forall d :: d in front ==> d in rows;
      assert rows[|rows| - 1] in rows;
      assert forall d :: d in rows <==> d in front || d == rows[|rows| - 1];
      RequestDeletesAre(db, front, now);
    }
  }

  lemma {:induction false} MarkDeletedLast(db: Db, kb: int, rows: seq<int>, now: int)
    requires kb in db.knowledgeBases && forall d :: d in rows ==> d in db.documents
    ensures RequestDeletes(MarkDeleted(db, kb), rows, now).knowledgeBases == MarkDeleted(db, kb).knowledgeBases
    ensures kb in RequestDeletes(db, rows, now).knowledgeBases
    ensures RequestDeletes(MarkDeleted(db, kb), rows, now) == MarkDeleted(RequestDeletes(db, rows, now), kb)
  {
    hide Outbox.Enqueue;
    if rows != [] {
      var front := rows[..|rows| - 1];
      assert forall d :: d in front ==> d in rows;
      assert rows[|rows| - 1] in rows;
      MarkDeletedLast(db, kb, front, now);
    }
  }

  lemma MarkDeletedKeeps(cfg: Settings, db: Db, kb: int, now: int)
    requires Inv(cfg, db) && kb in db.knowledgeBases
    requires forall d :: d in db.documents && db.documents[d].knowledgeBaseId == kb ==>
        db.documents[d].status == DELETING
    ensures Keeps(cfg, db, MarkDeleted(db, kb), now)
    ensures NothingBecomesReady(db, MarkDeleted(db, kb))
  {
    hide ChunksSound, RequestsSound, EventsSound;
    var after := MarkDeleted(db, kb);
    forall d | d in after.documents ensures DocumentSound(after, d) {
      assert DocumentSound(db, d);
      ChunksStaySound(db, after, d);
    }
  }

  lemma DeleteKnowledgeBaseKeeps(cfg: Settings, db: Db, user: User, kb: int, rows: seq<int>, now: int)
    requires ValidSettings(cfg) && Inv(cfg, db) && ListsDocumentsOf(db, kb, rows)
    ensures Keeps(cfg, db, DeleteKnowledgeBase(db, user, kb, rows, now), now)
    ensures NothingBecomesReady(db, DeleteKnowledgeBase(db, user, kb, rows, now))
  {
    hide Inv, Advances, Stamps, NothingBecomesReady, RequestDeletes, MarkDeleted;
    if IsAuthorized(db, kb, user, true) {
      var between := RequestDeletes(db, rows, now);
      RequestDeletesKeeps(cfg, db, rows, now);
      RequestDeletesAre(db, rows, now);
      MarkDeletedLast(db, kb, rows, now);
      MarkDeletedKeeps(cfg, between, kb, now);
      KeepsTwice(cfg, db, between, MarkDeleted(between, kb), now);
    } else {
      KeepsNothing(cfg, db, now);
    }
  }

  // ----- adding rows -----

  lemma CreateKnowledgeBaseKeeps(cfg: Settings, db: Db, user: User, name: string, isPublic: bool, now: int)
    requires Inv(cfg, db)
    ensures Keeps(cfg, db, CreateKnowledgeBase(db, user, name, isPublic), now)
    ensures NothingBecomesReady(db, CreateKnowledgeBase(db, user, name, isPublic))
  {
    hide ChunksSound, RequestsSound, EventsSound, KeysUnique;
    var after := CreateKnowledgeBase(db, user, name, isPublic);
    NewNameIsUnique(db, user, name, isPublic);
    forall d | d in after.documents ensures DocumentSound(after, d) {
      assert DocumentSound(db, d);
      ChunksStaySound(db, after, d);
    }
  }

  lemma EditKnowledgeBaseKeeps(cfg: Settings, db: Db, kb: int, name: Option<string>, isPublic: Option<bool>, now: int)
    requires Inv(cfg, db)
    ensures Keeps(cfg, db, EditKnowledgeBase(db, kb, name, isPublic), now)
    ensures NothingBecomesReady(db, EditKnowledgeBase(db, kb, name, isPublic))
  {
    hide ChunksSound, RequestsSound, EventsSound, KeysUnique;
    var after := EditKnowledgeBase(db, kb, name, isPublic);
    EditedNameIsUnique(db, kb, name, isPublic);
    forall d | d in after.documents ensures DocumentSound(after, d) {
      assert DocumentSound(db, d);
      ChunksStaySound(db, after, d);
    }
  }

  lemma UpdateKnowledgeBaseKeeps(cfg: Settings, db: Db, user: User, kb: int, name: Option<string>,
                                 isPublic: Option<bool>, now: int)
    requires Inv(cfg, db)
    ensures Keeps(cfg, db, UpdateKnowledgeBase(db, user, kb, name, isPublic), now)
    ensures NothingBecomesReady(db, UpdateKnowledgeBase(db, user, kb, name, isPublic))
  {
    hide Keeps, Inv, NothingBecomesReady, EditKnowledgeBase;
    EditKnowledgeBaseKeeps(cfg, db, kb, name, isPublic, now);
    KeepsNothing(cfg, db, now);
  }

  lemma EditedNameIsUnique(db: Db, kb: int, name: Option<string>, isPublic: Option<bool>)
    requires KeysUnique(db)
    ensures KeysUnique(EditKnowledgeBase(db, kb, name, isPublic))
  {}

  lemma NewNameIsUnique(db: Db, user: User, name: string, isPublic: bool)
    requires KeysUnique(db)
    ensures KeysUnique(CreateKnowledgeBase(db, user, name, isPublic))
  {}

  /** A new document has its first index request and no chunks. */
  lemma NewDocumentSound(cfg: Settings, db: Db, kb: int, file: File, now: int)
    requires IdsBounded(db) && kb in db.knowledgeBases && db.knowledgeBases[kb].deleted == 0
    requires StorageKey(kb, file) in db.objects
    ensures DocumentSound(InsertRow(db, db.nextId, NewDocument(kb, file, now)), db.nextId)
  {
    hide HasGeneration, Outbox.Enqueue;
    var d := db.nextId;
    var document := NewDocument(kb, file, now);
    var after := InsertRow(db, d, document);
    Outbox.EnqueueAddsOne(db.events, Outbox.IndexRequest(d, 1));
    assert forall v :: !Outbox.IsRequested(db.events, Outbox.IndexRequest(d, v));
    assert RequestsSound(after.events, d, document);
    assert forall c :: c in db.chunks ==> db.chunks[c].documentId != d;
    assert ChunksOf(after.chunks, d) == map[];
    assert HasNoChunks(after, d);
  }

  lemma InsertKeeps(cfg: Settings, db: Db, kb: int, file: File, now: int)
    requires ValidSettings(cfg) && Inv(cfg, db)
    requires kb in db.knowledgeBases && db.knowledgeBases[kb].deleted == 0 && !IsKeyTaken(db, StorageKey(kb, file))
    requires StorageKey(kb, file) in db.objects
    ensures var after := InsertRow(db, db.nextId, NewDocument(kb, file, now));
            Keeps(cfg, db, after, now) && NothingBecomesReady(db, after)
  {
    hide ChunksSound, RequestsSound, EventsSound, Outbox.Enqueue, IsClassifier;
    var d := db.nextId;
    var request := Outbox.IndexRequest(d, 1);
    var after := InsertRow(db, d, NewDocument(kb, file, now));
    InsertKeepsEvents(cfg, db, request);
    NewDocumentSound(cfg, db, kb, file, now);
    forall e | e in after.documents ensures DocumentSound(after, e) {
      if e != d {
        assert DocumentSound(db, e);
        ChunksStaySound(db, after, e);
        OtherRequestsStay(db.events, Some(request), e, db.documents[e]);
      }
    }
  }

  lemma InsertKeepsEvents(cfg: Settings, db: Db, request: Outbox.Request)
    requires cfg.maxDispatchAttempts >= 1 && IdsBounded(db) && EventsSound(cfg, db.events)
    requires request.documentId == db.nextId
    ensures EventsSound(cfg, Outbox.Enqueue(db.events, request))
    ensures forall i :: 0 <= i < |Outbox.Enqueue(db.events, request)| ==>
              Outbox.Enqueue(db.events, request)[i].request.documentId < db.nextId + 1
  {
    Outbox.ApplyKeepsInvariants(db.events, Outbox.Append(request), cfg.maxDispatchAttempts);
  }

  lemma StoringKeeps(cfg: Settings, db: Db, key: StorageKey, now: int)
    requires Inv(cfg, db)
    ensures Keeps(cfg, db, Stored(db, key), now)
    ensures NothingBecomesReady(db, Stored(db, key))
  {
    hide ChunksSound, RequestsSound, EventsSound;
    var after := Stored(db, key);
    forall d | d in after.documents ensures DocumentSound(after, d) {
      assert DocumentSound(db, d);
      ChunksStaySound(db, after, d);
    }
  }

  lemma CreateKeeps(cfg: Settings, db: Db, user: User, kb: int, file: File, now: int)
    requires ValidSettings(cfg) && Inv(cfg, db)
    ensures Keeps(cfg, db, Create(cfg, db, user, kb, file, now), now)
    ensures NothingBecomesReady(db, Create(cfg, db, user, kb, file, now))
  {
    hide Advances, Stamps, NothingBecomesReady, Inv, InsertRow, ValidSettings, IsSupported;
    match CreateResultOf(cfg, db, user, kb, file)
    case Created(_) =>
      var stored := Stored(db, StorageKey(kb, file));
      StoringKeeps(cfg, db, StorageKey(kb, file), now);
      InsertKeeps(cfg, stored, kb, file, now);
      KeepsTwice(cfg, db, stored, Create(cfg, db, user, kb, file, now), now);
    case IntegrityError => StoringKeeps(cfg, db, StorageKey(kb, file), now);
    case _ => KeepsNothing(cfg, db, now);
  }

  // ----- replacing and removing chunks -----

  /** Fresh ids: the new rows are those of the document, and no other document's chunks change. */
  lemma ReplacedChunks(db: Db, d: int, g: Generation)
    requires IdsBounded(db) && |g.vectors| == |ChildrenOf(g.parents)| && g.base == db.nextId && g.documentId == d
    ensures var chunks := WithoutChunksOf(db.chunks, d) + Rows(g);
            && ChunksOf(chunks, d) == Rows(g)
            && (forall e :: e != d ==> ChunksOf(chunks, e) == ChunksOf(db.chunks, e))
            && (forall c :: c in chunks ==> chunks[c].documentId == d || chunks[c].documentId in db.documents)
            && (forall c :: c in chunks ==> 0 < c < db.nextId + |g.parents| + |ChildrenOf(g.parents)|)
  {
    hide ChildrenOf;
    assert forall id :: id in Rows(g) ==> Rows(g)[id].documentId == d && g.base <= id;
  }

  /** The only document that an indexing makes ready is its own. */
  ghost predicate OnlyBecomesReady(db: Db, after: Db, d: int, version: int) {
    && d in after.documents && after.documents[d].status == READY && after.documents[d].indexVersion == version
    && (forall e :: e in after.documents && e != d && after.documents[e].status == READY ==>
         e in db.documents && db.documents[e].status == READY
             && db.documents[e].indexVersion == after.documents[e].indexVersion)
  }

  /** Replacing the chunks of a document gives it exactly the new rows and leaves every other document's chunks
      alone. */
  lemma ReplaceKeeps(cfg: Settings, db: Db, d: int, text: string, g: Generation, now: int)
    requires Inv(cfg, db) && d in db.documents && db.documents[d].status == PROCESSING && ValidGeneration(g)
    requires g.base == db.nextId && g.documentId == d && g.knowledgeBaseId == db.documents[d].knowledgeBaseId
    requires g.indexVersion == db.documents[d].indexVersion
    ensures Keeps(cfg, db, ReplaceChunks(db, d, text, g, now), now)
    ensures OnlyBecomesReady(db, ReplaceChunks(db, d, text, g, now), d, db.documents[d].indexVersion)
    ensures ChunksOf(ReplaceChunks(db, d, text, g, now).chunks, d) == Rows(g)
    ensures forall e :: e != d ==> ChunksOf(ReplaceChunks(db, d, text, g, now).chunks, e) == ChunksOf(db.chunks, e)
  {
    hide DocumentSound, EventsSound, Rows, ChunksOf, WithoutChunksOf, KnowledgeBaseSound, ValidGeneration, ChildrenOf;
    CountOfGeneration(g);
    var after := ReplaceChunks(db, d, text, g, now);
    ReplacedChunks(db, d, g);
    ReplacedIsSound(db, d, text, g, now);
    forall e | e in after.documents ensures DocumentSound(after, e) {
      if e != d {
        OtherStaysSound(db, d, text, g, now, e);
      }
    }
  }

  lemma CountOfGeneration(g: Generation)
    requires ValidGeneration(g)
    ensures |g.vectors| == |ChildrenOf(g.parents)| >= 1
  {}

  lemma ReplacedIsSound(db: Db, d: int, text: string, g: Generation, now: int)
    requires d in db.documents && DocumentSound(db, d) && db.documents[d].status == PROCESSING && ValidGeneration(g)
    requires g.documentId == d && g.knowledgeBaseId == db.documents[d].knowledgeBaseId
    requires g.indexVersion == db.documents[d].indexVersion
    requires ChunksOf(ReplaceChunks(db, d, text, g, now).chunks, d) == Rows(g)
    ensures DocumentSound(ReplaceChunks(db, d, text, g, now), d)
  {
    hide RequestsSound, Rows, ChunksOf, WithoutChunksOf, HasNoChunks, ChildrenOf;
    var after := ReplaceChunks(db, d, text, g, now);
    RequestsOfReady(db, d, text, g, now);
    assert HasGeneration(after, d, g);
  }

  lemma OtherStaysSound(db: Db, d: int, text: string, g: Generation, now: int, e: int)
    requires d in db.documents && |g.vectors| == |ChildrenOf(g.parents)|
    requires e in db.documents && e != d && DocumentSound(db, e)
    requires ChunksOf(ReplaceChunks(db, d, text, g, now).chunks, e) == ChunksOf(db.chunks, e)
    ensures DocumentSound(ReplaceChunks(db, d, text, g, now), e)
  {
    hide RequestsSound, ChunksSound, Rows, ChunksOf, WithoutChunksOf, ChildrenOf;
    ChunksStaySound(db, ReplaceChunks(db, d, text, g, now), e);
  }

  lemma RequestsOfReady(db: Db, d: int, text: string, g: Generation, now: int)
    requires d in db.documents && RequestsSound(db.events, d, db.documents[d])
    ensures RequestsSound(db.events, d, Ready(db.documents[d], text, g, now))
  {}

  lemma IndexKeeps(cfg: Settings, db: Db, d: int, version: int, io: Io, now: int)
    requires ValidSettings(cfg) && Inv(cfg, db)
    ensures var after := IndexClaimedDocument(cfg, db, d, version, io, now);
            && Keeps(cfg, db, after, now)
            && (if IndexResultOf(cfg, db, d, version, io) == Indexed then OnlyBecomesReady(db, after, d, version)
                else NothingBecomesReady(db, after))
  {
    hide Keeps, NothingBecomesReady, OnlyBecomesReady, Inv, ReplaceChunks, ChildrenOf, ParentChildChunks, IsClassifier;
    if IndexResultOf(cfg, db, d, version, io) == Indexed {
      var text := cfg.parse(db.documents[d].storageKey.file).value;
      var g := NewGeneration(cfg, db, d, text, io.vectors);
      DocumentIsCovered(text, cfg.chunkSize, cfg.chunkOverlap, cfg.classify);
      assert g.parents[|g.parents| - 1] in g.parents;
      ParentsGiveChildren(g.parents);
      ReplaceKeeps(cfg, db, d, text, g, now);
    } else {
      KeepsNothing(cfg, db, now);
    }
  }

  lemma RemoveKeeps(cfg: Settings, db: Db, d: int, now: int)
    requires Inv(cfg, db)
    ensures Keeps(cfg, db, RemoveDocument(db, d), now)
    ensures NothingBecomesReady(db, RemoveDocument(db, d))
  {
    hide RequestsSound, EventsSound, ChunksSound;
    var after := RemoveDocument(db, d);
    forall e | e in after.documents ensures DocumentSound(after, e) {
      assert DocumentSound(db, e);
      if IsRemovable(db, d) {
        assert ChunksOf(after.chunks, e) == ChunksOf(db.chunks, e);
        ChunksStaySound(db, after, e);
      }
    }
  }

  lemma DispatchKeeps(cfg: Settings, db: Db, limit: nat, locked: set<nat>, failing: set<nat>, now: int)
    requires ValidSettings(cfg) && Inv(cfg, db)
    ensures Keeps(cfg, db, DispatchEvents(cfg, db, limit, locked, failing), now)
    ensures NothingBecomesReady(db, DispatchEvents(cfg, db, limit, locked, failing))
  {
    hide ChunksSound, Outbox.NoDuplicates, Outbox.AttemptsBounded, Outbox.Dispatch, IsClassifier, Outbox.IsRequested;
    var after := DispatchEvents(cfg, db, limit, locked, failing);
    var round := Outbox.Round(limit, locked, failing);
    Outbox.ApplyKeepsInvariants(db.events, round, cfg.maxDispatchAttempts);
    Outbox.DispatchKeepsRequests(db.events, limit, locked, failing, cfg.maxDispatchAttempts);
    forall d | d in after.documents ensures DocumentSound(after, d) {
      assert DocumentSound(db, d);
      ChunksStaySound(db, after, d);
    }
  }

  /** A retry revives a document that is being deleted. Deleting it again adds no event: the delete request is still
      there, dispatched or not. */
  lemma RevivedDeletionAddsNoEvent(cfg: Settings, db: Db, kb: int, d: int, user: User, retried: int, deleted: int)
    requires Inv(cfg, db) && IsWritable(db, kb, d, user) && db.documents[d].status == DELETING
    ensures var revived := Retry(db, kb, d, user, retried);
            var again := Delete(revived, kb, d, user, deleted);
            && revived.documents[d].status == PENDING
            && revived.documents[d].indexVersion == db.documents[d].indexVersion + 1
            && again.documents[d].status == DELETING && again.events == revived.events
  {
    hide IdsBounded, KeysUnique, EventsSound, ChunksSound, Outbox.IsRequested;
    assert DocumentSound(db, d);
    Outbox.EnqueueAddsOne(db.events, Outbox.IndexRequest(d, db.documents[d].indexVersion + 1));
    var revived := Retry(db, kb, d, user, retried);
    assert Outbox.IsRequested(revived.events, Outbox.DeleteRequest(d));
  }

  /** A deletion adds an event exactly if the document has no delete event yet, and then a pending one at the end. */
  lemma DeletionAddsEventIff(db: Db, d: int, now: int)
    requires d in db.documents
    ensures var after := RequestDelete(db, d, now).events;
            && (after != db.events <==> !Outbox.IsRequested(db.events, Outbox.DeleteRequest(d)))
            && (after != db.events ==> after == db.events + [Outbox.Event(Outbox.DeleteRequest(d), Outbox.PENDING, 0)])
  {}
}
