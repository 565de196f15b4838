/** The API calls that read without a lock and write later: exactly which changes in between are harmless. A write is
    harmless if it keeps the invariant, moves its documents only forward, makes nothing ready, and reopens nothing at
    the same version. */
module UnlockedReads {
  import opened Prelude
  import opened RagStore
  import opened RagInvariant
  import opened Chunking
  import Outbox

  /** A row as it was when it was read. */
  datatype Read = Read(documentId: int, document: Document)

  /** What a call holds between its reads and its writes. An upload has already stored its object. */
  datatype Call = ToInsert(kb: int, file: File)
                | ToRetry(read: Read)
                | ToDelete(read: Read)
                | ToDrop(kb: int, rows: seq<Read>)
                | ToEdit(kb: int, name: Option<string>, isPublic: Option<bool>)

  // ----- the writes -----

  /** Only the columns that differ from what was read are written; the version is one more than the one read. */
  function LateRetried(current: Document, read: Document, now: int): Document {
    current.(status := if read.status != PENDING then PENDING else current.status,
             errorMessage := if read.errorMessage != None then None else current.errorMessage,
             indexVersion := read.indexVersion + 1,
             activity := now)
  }

  function LateRetry(db: Db, d: int, read: Document, now: int): Db
    requires d in db.documents
  {
    Updated(db, d, LateRetried(db.documents[d], read, now),
            Outbox.Enqueue(db.events, Outbox.IndexRequest(d, read.indexVersion + 1)))
  }

  /** A status read as DELETING is not written again; the event is enqueued in any case. */
  function LateDelete(db: Db, read: Read, now: int): Db {
    if read.document.status == DELETING || read.documentId !in db.documents then
      db.(events := Outbox.Enqueue(db.events, Outbox.DeleteRequest(read.documentId)))
    else RequestDelete(db, read.documentId, now)
  }

  function LateDeletes(db: Db, rows: seq<Read>, now: int): Db {
    if rows == [] then db
    else LateDelete(LateDeletes(db, rows[..|rows| - 1], now), rows[|rows| - 1], now)
  }

  /** The update of a row that has been removed fails, and the call is rolled back. */
  predicate IsLost(db: Db, read: Read) {
    read.documentId !in db.documents && read.document.status != DELETING
  }

  predicate LosesOne(db: Db, rows: seq<Read>) {
    exists i :: 0 <= i < |rows| && IsLost(db, rows[i])
  }

  /** What the call makes of the tables as it finds them when it writes. */
  function Written(db: Db, call: Call, now: int): Db {
    match call
    case ToInsert(kb, file) =>
      if IsKeyTaken(db, StorageKey(kb, file)) then db else InsertRow(db, db.nextId, NewDocument(kb, file, now))
    case ToRetry(read) =>
      if read.documentId in db.documents then LateRetry(db, read.documentId, read.document, now) else db
    case ToDelete(read) => if IsLost(db, read) then db else LateDelete(db, read, now)
    case ToDrop(kb, rows) =>
      if kb !in db.knowledgeBases || LosesOne(db, rows) then db else LateDeletes(MarkDeleted(db, kb), rows, now)
    case ToEdit(kb, name, isPublic) => EditKnowledgeBase(db, kb, name, isPublic)
  }

  // ----- when they are harmless -----

  predicate IsKnownRow(db: Db, read: Read) {
    read.documentId < db.nextId && read.document.indexVersion >= 1
  }

  /** The rows that the call has read were there once. */
  predicate IsKnown(db: Db, call: Call) {
    match call
    case ToInsert(kb, file) => kb in db.knowledgeBases
    case ToRetry(read) => IsKnownRow(db, read)
    case ToDelete(read) => IsKnownRow(db, read)
    case ToDrop(kb, rows) => kb in db.knowledgeBases && forall i :: 0 <= i < |rows| ==> IsKnownRow(db, rows[i])
    case ToEdit(kb, name, isPublic) => kb in db.knowledgeBases
  }

  /** No document waits again at a version at which it did not wait. */
  ghost predicate NothingReopens(db: Db, after: Db) {
    forall d :: d in db.documents && d in after.documents && db.documents[d].status != PENDING
                && after.documents[d].status == PENDING ==>
      after.documents[d].indexVersion != db.documents[d].indexVersion
  }

  ghost predicate IsHarmless(cfg: Settings, db: Db, after: Db, now: int) {
    Keeps(cfg, db, after, now) && NothingBecomesReady(db, after) && NothingReopens(db, after)
  }

  predicate IsLive(db: Db, kb: int) {
    kb in db.knowledgeBases && db.knowledgeBases[kb].deleted == 0
  }

  /** The version read is still current, and the document does not stay ready; or another retry came first, and the
      status stays as it is. In a deleted knowledge base the deletion must survive. */
  predicate IsTimelyRetry(db: Db, d: int, read: Document) {
    d in db.documents ==>
      var current := db.documents[d];
      var status := LateRetried(current, read, 0).status;
      && current.knowledgeBaseId in db.knowledgeBases
      && (db.knowledgeBases[current.knowledgeBaseId].deleted == 0 || status == DELETING)
      && (|| (read.indexVersion == current.indexVersion && status != READY)
          || (read.indexVersion + 1 == current.indexVersion && status == current.status))
  }

  predicate MarksRow(row: Read, d: int) {
    row.documentId == d && row.document.status != DELETING
  }

  /** The call writes DELETING to the document. */
  predicate Marks(rows: seq<Read>, d: int) {
    exists i :: 0 <= i < |rows| && MarksRow(rows[i], d)
  }

  /** For an upload: the knowledge base lives and the object is still there. For a deletion: nothing. For the deletion
      of a knowledge base: each of its documents is marked, or is being deleted anyway. A call that is rolled back is
      timely. */
  predicate IsTimely(db: Db, call: Call) {
    match call
    case ToInsert(kb, file) =>
      || IsKeyTaken(db, StorageKey(kb, file))
      || (IsLive(db, kb) && StorageKey(kb, file) in db.objects)
    case ToRetry(read) => IsTimelyRetry(db, read.documentId, read.document)
    case ToDelete(read) => true
    case ToDrop(kb, rows) =>
      || LosesOne(db, rows)
      || forall d :: d in db.documents && db.documents[d].knowledgeBaseId == kb && !Marks(rows, d) ==>
           db.documents[d].status == DELETING
    case ToEdit(kb, name, isPublic) => true
  }

  lemma WriteIsHarmlessIffTimely(cfg: Settings, db: Db, call: Call, now: int)
    requires ValidSettings(cfg) && Inv(cfg, db) && IsKnown(db, call)
    ensures IsHarmless(cfg, db, Written(db, call, now), now) <==> IsTimely(db, call)
  {
    hide IsHarmless, Inv, ValidSettings, InsertRow, LateRetry, LateDelete, LateDeletes, IsKeyTaken, IsTimelyRetry;
    hide EditKnowledgeBase;
    UnchangedIsHarmless(cfg, db, now);
    match call
    case ToInsert(kb, file) =>
      if !IsKeyTaken(db, StorageKey(kb, file)) {
        LateInsertIsHarmlessIff(cfg, db, kb, file, now);
      }
    case ToRetry(read) =>
      LateRetryIsHarmlessIff(cfg, db, read, now);
    case ToDelete(read) =>
      LateDeleteIsHarmless(cfg, db, read, now);
    case ToDrop(kb, rows) =>
      if !LosesOne(db, rows) {
        LateDropIsHarmlessIff(cfg, db, kb, rows, now);
      }
    case ToEdit(kb, name, isPublic) =>
      LateEditIsHarmless(cfg, db, kb, name, isPublic, now);
  }

  /** Renaming a knowledge base late is always harmless: its documents do not depend on it. */
  lemma LateEditIsHarmless(cfg: Settings, db: Db, kb: int, name: Option<string>, isPublic: Option<bool>, now: int)
    requires Inv(cfg, db)
    ensures IsHarmless(cfg, db, EditKnowledgeBase(db, kb, name, isPublic), now)
  {
    hide Keeps, Inv, NothingBecomesReady;
    EditKnowledgeBaseKeeps(cfg, db, kb, name, isPublic, now);
  }

  lemma UnchangedIsHarmless(cfg: Settings, db: Db, now: int)
    requires Inv(cfg, db)
    ensures IsHarmless(cfg, db, db, now)
  {
    hide Keeps, Inv;
    KeepsNothing(cfg, db, now);
  }

  // ----- create: the knowledge base is checked and the object stored, the row is inserted later -----

  /** The unique storage key is checked at the insertion. It is harmless exactly if the knowledge base is still not
      deleted and no removal of an older document has taken the object away. */
  lemma LateInsertIsHarmlessIff(cfg: Settings, db: Db, kb: int, file: File, now: int)
    requires ValidSettings(cfg) && Inv(cfg, db) && kb in db.knowledgeBases && !IsKeyTaken(db, StorageKey(kb, file))
    ensures IsHarmless(cfg, db, InsertRow(db, db.nextId, NewDocument(kb, file, now)), now)
       <==> db.knowledgeBases[kb].deleted == 0 && StorageKey(kb, file) in db.objects
  {
    hide KeysUnique, EventsSound, ChunksSound, RequestsSound, Advances, Stamps, Outbox.Enqueue, IsClassifier;
    var after := InsertRow(db, db.nextId, NewDocument(kb, file, now));
    if db.knowledgeBases[kb].deleted == 0 && StorageKey(kb, file) in db.objects {
      InsertKeeps(cfg, db, kb, file, now);
    } else {
      assert db.nextId in after.documents && after.documents[db.nextId].status == PENDING;
      assert !DocumentSound(after, db.nextId);
    }
  }

  // ----- retry: the row is read, its changed columns are written later -----

  lemma LateRetryIsHarmlessIff(cfg: Settings, db: Db, read: Read, now: int)
    requires ValidSettings(cfg) && Inv(cfg, db) && IsKnownRow(db, read)
    ensures IsHarmless(cfg, db, Written(db, ToRetry(read), now), now)
       <==> IsTimelyRetry(db, read.documentId, read.document)
  {
    hide Inv, Outbox.Enqueue, IsClassifier, IsTimelyRetry, IsHarmless, LateRetry;
    var d := read.documentId;
    if d !in db.documents {
      UnchangedIsHarmless(cfg, db, now);
      RemovedIsTimely(db, d, read.document);
    } else {
      if IsTimelyRetry(db, d, read.document) {
        TimelyRetryIsHarmless(cfg, db, d, read.document, now);
      }
      if IsHarmless(cfg, db, LateRetry(db, d, read.document, now), now) {
        HarmlessRetryIsTimely(cfg, db, d, read.document, now);
      }
    }
  }

  lemma RemovedIsTimely(db: Db, d: int, read: Document)
    requires d !in db.documents
    ensures IsTimelyRetry(db, d, read)
  {}

  lemma TimelyRetryIsHarmless(cfg: Settings, db: Db, d: int, read: Document, now: int)
    requires ValidSettings(cfg) && Inv(cfg, db) && d in db.documents && IsTimelyRetry(db, d, read)
    ensures IsHarmless(cfg, db, LateRetry(db, d, read, now), now)
  {
    hide Keeps, IdsBounded, KeysUnique, EventsSound, ChunksSound, Outbox.Enqueue, IsClassifier, NothingBecomesReady;
    assert DocumentSound(db, d);
    var request := Outbox.IndexRequest(d, read.indexVersion + 1);
    Outbox.EnqueueAddsOne(db.events, request);
    UpdateKeeps(cfg, db, d, LateRetried(db.documents[d], read, now), Some(request), now);
  }

  lemma HarmlessRetryIsTimely(cfg: Settings, db: Db, d: int, read: Document, now: int)
    requires Inv(cfg, db) && d in db.documents && read.indexVersion >= 1
    requires IsHarmless(cfg, db, LateRetry(db, d, read, now), now)
    ensures IsTimelyRetry(db, d, read)
  {
    hide KeysUnique, EventsSound, Stamps, Outbox.Enqueue, ChunksSound;
    var after := LateRetry(db, d, read, now);
    assert DocumentSound(db, d) && DocumentSound(after, d) && Moves(db, after, d);
    VersionsFit(db, after, d, read.indexVersion + 1);
  }

  /** The events allow one new version at most. */
  lemma VersionsFit(db: Db, after: Db, d: int, version: int)
    requires d in db.documents && d in after.documents && version >= 1
    requires RequestsSound(db.events, d, db.documents[d]) && RequestsSound(after.events, d, after.documents[d])
    requires after.events == Outbox.Enqueue(db.events, Outbox.IndexRequest(d, version))
    requires after.documents[d].indexVersion == version && db.documents[d].indexVersion >= 1
    ensures version == db.documents[d].indexVersion || version == db.documents[d].indexVersion + 1
  {
    hide Outbox.Enqueue, Outbox.IsRequested;
    Outbox.EnqueueAddsOne(db.events, Outbox.IndexRequest(d, version));
    var c := db.documents[d].indexVersion;
    assert Outbox.IsRequested(db.events, Outbox.IndexRequest(d, c));
    assert Outbox.IsRequested(after.events, Outbox.IndexRequest(d, c));
    assert version > c + 1 ==> Outbox.IsRequested(after.events, Outbox.IndexRequest(d, c + 1));
  }

  // ----- delete -----

  /** A late deletion is always harmless. */
  lemma LateDeleteIsHarmless(cfg: Settings, db: Db, read: Read, now: int)
    requires ValidSettings(cfg) && Inv(cfg, db) && read.documentId < db.nextId
    ensures IsHarmless(cfg, db, LateDelete(db, read, now), now)
  {
    hide Keeps, Inv, Outbox.Enqueue, IsClassifier, NothingBecomesReady;
    if read.document.status == DELETING || read.documentId !in db.documents {
      DeleteEventKeeps(cfg, db, read.documentId, now);
    } else {
      RequestDeleteKeeps(cfg, db, read.documentId, now);
    }
  }

  lemma DeleteEventKeeps(cfg: Settings, db: Db, d: int, now: int)
    requires ValidSettings(cfg) && Inv(cfg, db) && d < db.nextId
    ensures var after := db.(events := Outbox.Enqueue(db.events, Outbox.DeleteRequest(d)));
            Keeps(cfg, db, after, now) && NothingBecomesReady(db, after)
  {
    hide ChunksSound, EventsSound, Outbox.Enqueue, Outbox.IsRequested, IsClassifier;
    var request := Outbox.DeleteRequest(d);
    var after := db.(events := Outbox.Enqueue(db.events, request));
    EventsKeep(cfg, db, Some(request));
    Outbox.EnqueueAddsOne(db.events, request);
    forall e | e in after.documents ensures DocumentSound(after, e) {
      assert DocumentSound(db, e);
      ChunksStaySound(db, after, e);
    }
  }

  /** But it deletes only if the status was read as something else, or is DELETING anyway. */
  lemma LateDeleteTakesEffectIff(db: Db, read: Read, now: int)
    requires read.documentId in db.documents
    ensures read.documentId in Written(db, ToDelete(read), now).documents
    ensures Written(db, ToDelete(read), now).documents[read.documentId].status == DELETING
       <==> read.document.status != DELETING || db.documents[read.documentId].status == DELETING
  {
    hide Outbox.Enqueue;
  }

  // ----- deleting a knowledge base -----

  lemma {:induction false} LateDeletesAreHarmless(cfg: Settings, db: Db, rows: seq<Read>, now: int)
    requires ValidSettings(cfg) && Inv(cfg, db) && forall i :: 0 <= i < |rows| ==> rows[i].documentId < db.nextId
    ensures Keeps(cfg, db, LateDeletes(db, rows, now), now) && NothingBecomesReady(db, LateDeletes(db, rows, now))
  {
    hide Inv, Stamps, NothingBecomesReady, LateDelete, Moves, IsClassifier;
    if rows == [] {
      KeepsNothing(cfg, db, now);
    } else {
      var front := rows[..|rows| - 1];
      LateDeletesAreHarmless(cfg, db, front, now);
      var between := LateDeletes(db, front, now);
      LateDeleteIsHarmless(cfg, between, rows[|rows| - 1], now);
      KeepsTwice(cfg, db, between, LateDeletes(db, rows, now), now);
    }
  }

  /** Exactly the marked documents are being deleted afterwards, besides those that were. */
  lemma {:induction false} LateDeletesAre(db: Db, rows: seq<Read>, now: int)
    ensures var after := LateDeletes(db, rows, now);
            && after == db.(documents := after.documents, events := after.events)
            && after.documents.Keys == db.documents.Keys
            && forall d :: d in db.documents ==>
                 && IsRemarked(db.documents[d], after.documents[d])
                 && (after.documents[d].status == if Marks(rows, d) then DELETING else db.documents[d].status)
  {
    hide Outbox.Enqueue;
    if rows != [] {
      var front := rows[..|rows| - 1];
      LateDeletesAre(db, front, now);
      forall d ensures Marks(rows, d) <==> Marks(front, d) || MarksRow(rows[|rows| - 1], d) {
        MarksSplit(rows, d);
      }
    }
  }

  lemma MarksSplit(rows: seq<Read>, d: int)
    requires rows != []
    ensures Marks(rows, d) <==> Marks(rows[..|rows| - 1], d) || MarksRow(rows[|rows| - 1], d)
  {
    var front := rows[..|rows| - 1];
    if Marks(front, d) {
      var i :| 0 <= i < |front| && MarksRow(front[i], d);
      assert rows[i] == front[i];
    }
    if Marks(rows, d) {
      var i :| 0 <= i < |rows| && MarksRow(rows[i], d);
      assert i < |front| ==> front[i] == rows[i];
    }
  }

  lemma {:induction false} MarkDeletedLateLast(db: Db, kb: int, rows: seq<Read>, now: int)
    requires kb in db.knowledgeBases
    ensures kb in LateDeletes(db, rows, now).knowledgeBases
    ensures LateDeletes(MarkDeleted(db, kb), rows, now) == MarkDeleted(LateDeletes(db, rows, now), kb)
  {
    hide Outbox.Enqueue;
    if rows != [] {
      MarkDeletedLateLast(db, kb, rows[..|rows| - 1], now);
    }
  }

  /** The deletion of a knowledge base is harmless exactly if it marks every document that is not being deleted anyway.
      A document read as DELETING is not marked, although it may have been revived. */
  lemma LateDropIsHarmlessIff(cfg: Settings, db: Db, kb: int, rows: seq<Read>, now: int)
    requires ValidSettings(cfg) && Inv(cfg, db) && kb in db.knowledgeBases
    requires forall i :: 0 <= i < |rows| ==> IsKnownRow(db, rows[i])
    ensures IsHarmless(cfg, db, LateDeletes(MarkDeleted(db, kb), rows, now), now)
       <==> forall d :: d in db.documents && db.documents[d].knowledgeBaseId == kb && !Marks(rows, d) ==>
              db.documents[d].status == DELETING
  {
    hide KeysUnique, EventsSound, RequestsSound, ChunksSound, Advances, Stamps, NothingBecomesReady, LateDeletes;
    hide IsClassifier, Marks;
    var between, after := LateDeletes(db, rows, now), LateDeletes(MarkDeleted(db, kb), rows, now);
    LateDeletesAreHarmless(cfg, db, rows, now);
    LateDeletesAre(db, rows, now);
    MarkDeletedLateLast(db, kb, rows, now);
    if forall d :: d in db.documents && db.documents[d].knowledgeBaseId == kb && !Marks(rows, d) ==>
        db.documents[d].status == DELETING {
      MarkDeletedKeeps(cfg, between, kb, now);
      KeepsTwice(cfg, db, between, after, now);
    }
    if Inv(cfg, after) {
      forall d | d in db.documents && db.documents[d].knowledgeBaseId == kb && !Marks(rows, d)
        ensures db.documents[d].status == DELETING
      {
        assert DocumentSound(after, d);
      }
    }
  }

  // ----- calls that nothing overlaps -----

  /** The knowledge base that the call needs the right to write. */
  function BaseOf(call: Call): int {
    match call
    case ToInsert(kb, _) => kb
    case ToRetry(read) => read.document.knowledgeBaseId
    case ToDelete(read) => read.document.knowledgeBaseId
    case ToDrop(kb, _) => kb
    case ToEdit(kb, _, _) => kb
  }

  /** What the call has read is what the tables say. */
  ghost predicate IsCurrent(db: Db, call: Call) {
    match call
    case ToInsert(kb, file) => kb in db.knowledgeBases && StorageKey(kb, file) in db.objects
    case ToRetry(read) => IsCurrentRow(db, read)
    case ToDelete(read) => IsCurrentRow(db, read)
    case ToDrop(kb, rows) =>
      && kb in db.knowledgeBases && ListsDocumentsOf(db, kb, Ids(rows))
      && forall i :: 0 <= i < |rows| ==> IsCurrentRow(db, rows[i])
    case ToEdit(kb, _, _) => kb in db.knowledgeBases
  }

  predicate IsCurrentRow(db: Db, read: Read) {
    read.documentId in db.documents && read.document == db.documents[read.documentId]
  }

  function Ids(rows: seq<Read>): (ids: seq<int>)
    ensures |ids| == |rows| && forall i :: 0 <= i < |rows| ==> ids[i] == rows[i].documentId
  {
    seq(|rows|, i requires 0 <= i < |rows| => rows[i].documentId)
  }

  /** The write of a call that the tables still agree with is timely while the knowledge base lives. */
  lemma CurrentIsTimely(db: Db, call: Call)
    requires IsCurrent(db, call)
    requires call.ToInsert? ==> IsLive(db, call.kb)
    requires call.ToRetry? ==> IsLive(db, call.read.document.knowledgeBaseId)
    ensures IsTimely(db, call)
  {
    if call.ToDrop? {
      forall d | d in db.documents && db.documents[d].knowledgeBaseId == call.kb && !Marks(call.rows, d)
        ensures db.documents[d].status == DELETING
      {
        assert d in Ids(call.rows);
        var i :| 0 <= i < |call.rows| && Ids(call.rows)[i] == d;
        assert IsCurrentRow(db, call.rows[i]);
      }
    }
  }

  /** And it is what the call does at once. */
  lemma CurrentWriteIsCall(cfg: Settings, db: Db, call: Call, user: User, now: int)
    requires IsCurrent(db, call)
    ensures match call
            case ToInsert(kb, file) =>
              CreateResultOf(cfg, db, user, kb, file).Created?
              || CreateResultOf(cfg, db, user, kb, file).IntegrityError? ==>
                Written(db, call, now) == Create(cfg, db, user, kb, file, now)
            case ToRetry(read) =>
              IsWritable(db, read.document.knowledgeBaseId, read.documentId, user) ==>
                Written(db, call, now) == Retry(db, read.document.knowledgeBaseId, read.documentId, user, now)
            case ToDelete(read) =>
              IsWritable(db, read.document.knowledgeBaseId, read.documentId, user) ==>
                Written(db, call, now) == Delete(db, read.document.knowledgeBaseId, read.documentId, user, now)
            case ToDrop(kb, rows) =>
              IsAuthorized(db, kb, user, true) ==>
                Written(db, call, now) == DeleteKnowledgeBase(db, user, kb, Ids(rows), now)
            case ToEdit(kb, name, isPublic) =>
              IsAuthorized(db, kb, user, true) ==>
                Written(db, call, now) == UpdateKnowledgeBase(db, user, kb, name, isPublic)
  {
    hide Outbox.Enqueue, IsSupported;
    match call
    case ToInsert(kb, file) =>
      assert Stored(db, StorageKey(kb, file)) == db by {
        assert db.objects + {StorageKey(kb, file)} == db.objects;
      }
    case ToDrop(kb, rows) =>
      assert !LosesOne(db, rows);
      CurrentDeletesAre(db, MarkDeleted(db, kb), rows, now);
    case _ =>
  }

  lemma {:induction false} CurrentDeletesAre(db: Db, marked: Db, rows: seq<Read>, now: int)
    requires marked.documents == db.documents
    requires forall i :: 0 <= i < |rows| ==> IsCurrentRow(db, rows[i])
    requires forall i, j :: 0 <= i < j < |rows| ==> rows[i].documentId != rows[j].documentId
    ensures forall d :: d in Ids(rows) ==> d in marked.documents
    ensures LateDeletes(marked, rows, now) == RequestDeletes(marked, Ids(rows), now)
    ensures forall d :: d in db.documents && d !in Ids(rows) ==>
              d in RequestDeletes(marked, Ids(rows), now).documents
              && RequestDeletes(marked, Ids(rows), now).documents[d] == db.documents[d]
  {
    hide Outbox.Enqueue;
    if rows != [] {
      var front, last := rows[..|rows| - 1], rows[|rows| - 1];
      CurrentDeletesAre(db, marked, front, now);
      assert Ids(rows)[..|rows| - 1] == Ids(front);
      assert last.documentId !in Ids(front);
      assert IsCurrentRow(db, last);
    }
  }
}
