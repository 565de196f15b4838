/** The services and tasks as they run: each method is one transaction on the tables. */
module DocumentService {
  import opened Prelude
  import opened RagStore
  import opened Chunking
  import Embedding
  import Lifecycle
  import Text
  import Outbox

  lemma {:induction false} NextRow(g: Generation, k: nat)
    requires k < |g.parents| + |ChildrenOf(g.parents)|
    requires k < |g.parents| || |g.vectors| == |ChildrenOf(g.parents)|
    ensures FirstRows(g, k + 1) ==
            FirstRows(g, k)[g.base + k := if k < |g.parents| then ParentRow(g, k) else ChildRow(g, k - |g.parents|)]
  {
    hide ChildrenOf;
    assert forall id :: IsRowId(g, k + 1, id) <==> IsRowId(g, k, id) || id == g.base + k;
  }

  /** The events after the first attempts of a dispatch. */
  function Attempted(cfg: Settings, events: Outbox.Table, done: seq<nat>, failing: set<nat>): Outbox.Table {
    seq(|events|, i requires 0 <= i < |events| =>
      if i in done then Outbox.Attempt(events[i], i in failing, cfg.maxDispatchAttempts) else events[i])
  }

  datatype UpdateResult = Changed | NoSuchBase | NameTaken

  function StrippedName(name: Option<string>): Option<string> {
    if name.Some? then Some(Text.Strip(name.value)) else None
  }

  class Database {
    var knowledgeBases: map<int, KnowledgeBase>
    var documents: map<int, Document>
    var chunks: map<int, Chunk>
    var events: Outbox.Table
    var objects: set<StorageKey>
    var nextId: int

    function State(): Db
      reads this
    {
      Db(knowledgeBases, documents, chunks, events, objects, nextId)
    }

    constructor ()
      ensures State() == Db(map[], map[], map[], [], {}, 1)
    {
      knowledgeBases, documents, chunks, events, objects, nextId := map[], map[], map[], [], {}, 1;
    }

    /** Leaving a transaction by an exception restores the tables. */
    method Rollback(before: Db)
      modifies this
      ensures State() == before
    {
      knowledgeBases, documents, chunks := before.knowledgeBases, before.documents, before.chunks;
      events, objects, nextId := before.events, before.objects, before.nextId;
    }

    /** Write a row back: updated_time changes only with another column. */
    method FlushDocument(d: int, before: Document, now: int)
      requires d in documents
      modifies `documents
      ensures documents
          == old(documents)[d := if old(documents)[d] == before then before else old(documents)[d].(activity := now)]
    {
      if documents[d] != before {
        documents := documents[d := documents[d].(activity := now)];
      }
    }

    // ----- outbox -----

    method EnqueueDocumentIndex(documentId: int, indexVersion: int)
      modifies `events
      ensures events == Outbox.Enqueue(old(events), Outbox.IndexRequest(documentId, indexVersion))
    {
      var request := Outbox.IndexRequest(documentId, indexVersion);
      if Outbox.IsRequested(events, request) {
        return;
      }
      events := events + [Outbox.Event(request, Outbox.PENDING, 0)];
    }

    method EnqueueDocumentDelete(documentId: int)
      modifies `events
      ensures events == Outbox.Enqueue(old(events), Outbox.DeleteRequest(documentId))
    {
      var request := Outbox.DeleteRequest(documentId);
      if Outbox.IsRequested(events, request) {
        return;
      }
      events := events + [Outbox.Event(request, Outbox.PENDING, 0)];
    }

    method MarkDispatched(event: nat)
      requires event < |events|
      modifies `events
      ensures events == old(events)[event := Outbox.MarkDispatched(old(events)[event])]
    {
      events := events[event := events[event].(status := Outbox.DISPATCHED)];
      events := events[event := events[event].(attempts := events[event].attempts + 1)];
    }

    method MarkFailed(event: nat, maxAttempts: nat)
      requires event < |events|
      modifies `events
      ensures events == old(events)[event := Outbox.MarkFailed(old(events)[event], maxAttempts)]
    {
      events := events[event := events[event].(attempts := events[event].attempts + 1)];
      events := events[event :=
          events[event].(status := if events[event].attempts >= maxAttempts then Outbox.DEAD else Outbox.FAILED)];
    }

    /** The broker refuses the failing events. The accepted messages are returned in the order of sending. */
    method DispatchOutbox(cfg: Settings, limit: nat, locked: set<nat>, failing: set<nat>)
        returns (sent: seq<Lifecycle.Message>)
      modifies `events
      ensures State() == DispatchEvents(cfg, old(State()), limit, locked, failing)
      ensures sent == Lifecycle.Accepted(old(events), Outbox.Claim(old(events), limit, locked), failing)
    {
      ghost var before := events;
      var claimed := Outbox.Claim(events, limit, locked);
      Outbox.ClaimedAreEligible(events, 0, limit, locked);
      sent := [];
      for i := 0 to |claimed|
        invariant events == Attempted(cfg, before, claimed[..i], failing)
        invariant sent == Lifecycle.Accepted(before, claimed[..i], failing)
      {
        hide Outbox.Claim, Outbox.Attempt;
        var event := claimed[i];
        assert claimed[i] in claimed;
        assert claimed[..i + 1][..i] == claimed[..i];
        NotYetAttempted(before, limit, locked, i);
        if event !in failing {
          sent := sent + [Lifecycle.MessageOf(events[event].request)];
          MarkDispatched(event);
        } else {
          MarkFailed(event, cfg.maxDispatchAttempts);
        }
        AttemptNext(cfg, before, claimed, i, failing);
      }
      assert claimed[..|claimed|] == claimed;
    }

    // ----- knowledge bases and uploads -----

    /** Returns None for the IntegrityError of a name that the owner already uses. */
    method CreateKnowledgeBase(user: User, name: string, isPublic: bool) returns (kb: Option<int>)
      modifies this
      ensures State() == RagStore.CreateKnowledgeBase(old(State()), user, Text.Strip(name), isPublic)
      ensures kb == if IsNameTaken(old(State()), user, Text.Strip(name)) then None else Some(old(nextId))
      ensures kb.Some? ==> IsAuthorized(State(), kb.value, user, true)
    {
      hide Text.Strip;
      var stripped := Text.Strip(name);
      if IsNameTaken(State(), user, stripped) {
        return None;
      }
      kb := Some(nextId);
      knowledgeBases := knowledgeBases[nextId := KnowledgeBase(user.id, stripped, isPublic, 0)];
      nextId := nextId + 1;
    }

    /** Sets the given columns. A name that is given is stripped; a taken one is an integrity error. */
    method UpdateKnowledgeBase(user: User, kb: int, name: Option<string>, isPublic: Option<bool>)
        returns (r: UpdateResult)
      modifies `knowledgeBases
      ensures r.NoSuchBase? <==> !IsAuthorized(old(State()), kb, user, true)
      ensures State() == RagStore.UpdateKnowledgeBase(old(State()), user, kb, StrippedName(name), isPublic)
      ensures r.NameTaken? <==>
                && IsAuthorized(old(State()), kb, user, true)
                && IsNameTakenBesides(old(State()), kb,
                                      Edited(old(knowledgeBases)[kb], StrippedName(name), isPublic))
    {
      hide Text.Strip;
      if !IsAuthorized(State(), kb, user, true) {
        return NoSuchBase;
      }
      var edited := Edited(knowledgeBases[kb], StrippedName(name), isPublic);
      if IsNameTakenBesides(State(), kb, edited) {
        return NameTaken;
      }
      knowledgeBases := knowledgeBases[kb := edited];
      r := Changed;
    }

    /** document.status = DELETING and the delete request. */
    method MarkDeleting(d: int, now: int)
      requires d in documents
      modifies `documents, `events
      ensures State() == RequestDelete(old(State()), d, now)
    {
      var before := documents[d];
      documents := documents[d := before.(status := DELETING)];
      FlushDocument(d, before, now);
      EnqueueDocumentDelete(d);
      assert old(documents)[d := before] == old(documents);
    }

    /** Returns whether the knowledge base was found. The rows are those of the query, in its order. */
    method DeleteKnowledgeBase(user: User, kb: int, rows: seq<int>, now: int) returns (found: bool)
      requires ListsDocumentsOf(State(), kb, rows)
      modifies this
      ensures found == IsAuthorized(old(State()), kb, user, true)
      ensures State() == RagStore.DeleteKnowledgeBase(old(State()), user, kb, rows, now)
    {
      hide RequestDelete;
      if !IsAuthorized(State(), kb, user, true) {
        return false;
      }
      knowledgeBases := knowledgeBases[kb := knowledgeBases[kb].(deleted := kb)];
      ghost var marked := State();
      for i := 0 to |rows|
        invariant forall d :: d in rows[..i] ==> d in marked.documents
        invariant State() == RequestDeletes(marked, rows[..i], now)
      {
        assert rows[i] in rows;
        assert rows[..i + 1][..i] == rows[..i];
        MarkDeleting(rows[i], now);
      }
      assert rows[..|rows|] == rows;
      return true;
    }

    method Create(cfg: Settings, user: User, kb: int, file: File, now: int) returns (result: CreateResult)
      modifies this
      ensures result == CreateResultOf(cfg, old(State()), user, kb, file)
      ensures State() == RagStore.Create(cfg, old(State()), user, kb, file, now)
    {
      if !IsAuthorized(State(), kb, user, true) {
        return NotFoundError;
      }
      if !IsSupported(file.suffix) || |file.data| > cfg.maxFileSize {
        return RequestError;
      }
      var key := StorageKey(kb, file);
      objects := objects + {key};
      if IsKeyTaken(State(), key) {
        return IntegrityError;
      }
      var d := nextId;
      documents := documents[d := Document(kb, key, PENDING, None, 0, 1, None, now)];
      nextId := nextId + 1;
      EnqueueDocumentIndex(d, documents[d].indexVersion);
      return Created(d);
    }

    method Retry(kb: int, d: int, user: User, now: int) returns (found: bool)
      modifies this
      ensures found == IsWritable(old(State()), kb, d, user)
      ensures State() == RagStore.Retry(old(State()), kb, d, user, now)
    {
      if !IsWritable(State(), kb, d, user) {
        return false;
      }
      var before := documents[d];
      documents := documents[d := before.(status := PENDING, errorMessage := None)];
      documents := documents[d := documents[d].(indexVersion := documents[d].indexVersion + 1)];
      FlushDocument(d, before, now);
      EnqueueDocumentIndex(d, documents[d].indexVersion);
      return true;
    }

    method Delete(kb: int, d: int, user: User, now: int) returns (found: bool)
      modifies this
      ensures found == IsWritable(old(State()), kb, d, user)
      ensures State() == RagStore.Delete(old(State()), kb, d, user, now)
    {
      if !IsWritable(State(), kb, d, user) {
        return false;
      }
      MarkDeleting(d, now);
      return true;
    }

    // ----- indexing -----

    method ClaimIndex(d: int, requested: Option<int>, now: int) returns (result: ClaimResult, effective: Option<int>)
      modifies this
      ensures result == ClaimResultOf(old(State()), d, requested)
      ensures result == DocumentNotFound <==> d !in old(documents)
      ensures result == StaleIndexRequest <==>
                d in old(documents) && requested.Some? && requested.value != old(documents)[d].indexVersion
      ensures d in old(documents) && (requested.None? || requested.value == old(documents)[d].indexVersion) ==>
                var status := old(documents)[d].status;
                && (result == AlreadyReady <==> status == READY)
                && (result == AlreadyProcessing <==> status == PROCESSING)
                && (result == DeleteRequested <==> status == DELETING)
                && (result == IndexFailed <==> status == FAILED)
                && (result == Claimed <==> status == PENDING)
      ensures result != Claimed ==> State() == old(State())
      ensures effective == if d in old(documents) then Some(old(documents)[d].indexVersion) else None
      ensures State() == RagStore.ClaimIndex(old(State()), d, requested, now)
    {
      if d !in documents {
        return DocumentNotFound, None;
      }
      var document := documents[d];
      effective := Some(document.indexVersion);
      if requested.Some? && document.indexVersion != requested.value {
        return StaleIndexRequest, effective;
      }
      if document.status == READY {
        return AlreadyReady, effective;
      }
      if document.status == PROCESSING {
        return AlreadyProcessing, effective;
      }
      if document.status == DELETING {
        return DeleteRequested, effective;
      }
      if document.status == FAILED {
        return IndexFailed, effective;
      }
      documents := documents[d := document.(status := PROCESSING, errorMessage := None)];
      FlushDocument(d, document, now);
      return Claimed, effective;
    }

    /** Delete the document's chunks and add the parents, then the children. Returns whether the vectors sufficed. */
    method InsertChunks(d: int, document: Document, parentChildren: seq<ParentChildren>, vectors: seq<Embedding.Vector>)
        returns (ok: bool)
      modifies `chunks, `nextId
      ensures ok == (|vectors| == |ChildrenOf(parentChildren)|)
      ensures ok ==>
                (var g := Generation(old(nextId), d, document.knowledgeBaseId, document.indexVersion, parentChildren,
                                     vectors);
                 chunks == WithoutChunksOf(old(chunks), d) + Rows(g))
      ensures ok ==> nextId == old(nextId) + |parentChildren| + |ChildrenOf(parentChildren)|
    {
      hide ChildrenOf, FirstRows, WithoutChunksOf;
      ghost var g := Generation(nextId, d, document.knowledgeBaseId, document.indexVersion, parentChildren, vectors);
      var children := ChildrenOf(parentChildren);
      chunks := WithoutChunksOf(chunks, d);
      ghost var kept := chunks;
      var firstParent := nextId;
      NoRows(g, kept);
      for j := 0 to |parentChildren|
        invariant nextId == g.base + j && chunks == kept + FirstRows(g, j)
      {
        var parent := parentChildren[j];
        NextRow(g, j);
        chunks := chunks[nextId := Chunk(document.knowledgeBaseId, d, -(j + 1), parent.parentContent, None,
                                         document.indexVersion, None, true, parent.headingPath)];
        nextId := nextId + 1;
      }
      if |children| != |vectors| {
        return false;
      }
      for i := 0 to |children|
        invariant nextId == g.base + |parentChildren| + i && chunks == kept + FirstRows(g, |parentChildren| + i)
      {
        NextRow(g, |parentChildren| + i);
        ChildrenBelong(parentChildren);
        assert children[i] in children;
        chunks := chunks[nextId := Chunk(document.knowledgeBaseId, d, i, children[i].content, Some(vectors[i]),
                                         document.indexVersion, Some(firstParent + children[i].parent), false,
                                         parentChildren[children[i].parent].headingPath)];
        nextId := nextId + 1;
      }
      return true;
    }

    /** Index a document of any status. Returns the error it raises, if any, by whether it may be retried. */
    method IndexContent(cfg: Settings, d: int, io: Io, now: int) returns (raised: Option<bool>)
      requires ValidSettings(cfg) && d in documents
      modifies this
      ensures ContentResultOf(cfg, old(documents)[d].storageKey.file, io)
           == if raised.Some? then Raised(raised.value) else Indexed
      ensures raised.None? ==> State() == RagStore.IndexContent(cfg, old(State()), d, io, now)
    {
      hide ChildrenOf, ParentChildChunks, Rows, WithoutChunksOf, IsClassifier;
      var document := documents[d];
      documents := documents[d := document.(status := PROCESSING)];
      if io.DatabaseFault? || io.StorageFault? {
        return Some(true);
      }
      var parsed := cfg.parse(document.storageKey.file);
      if parsed.None? {
        return Some(false);
      }
      var text := parsed.value;
      var parentChildren := SplitParentChildText(text, cfg.chunkSize, cfg.chunkOverlap, cfg.classify);
      if parentChildren == [] {
        return Some(false);
      }
      if io.EmbeddingFault? {
        return Some(io.retryable);
      }
      var ok := InsertChunks(d, document, parentChildren, io.vectors);
      if !ok {
        return Some(false);
      }
      FlushDocument(d, document, now);
      var flushed := documents[d];
      documents := documents[d := flushed.(parsedContent := Some(text), chunkCount := |ChildrenOf(parentChildren)|)];
      documents := documents[d := documents[d].(status := READY, errorMessage := None)];
      FlushDocument(d, flushed, now);
      ghost var g := NewGeneration(cfg, old(State()), d, text, io.vectors);
      assert documents == old(documents)[d := Ready(document, text, g, now)];
      return None;
    }

    method IndexClaimedDocument(cfg: Settings, d: int, version: int, io: Io, now: int) returns (result: IndexResult)
      requires ValidSettings(cfg)
      modifies this
      ensures result == IndexResultOf(cfg, old(State()), d, version, io)
      ensures State() == RagStore.IndexClaimedDocument(cfg, old(State()), d, version, io, now)
    {
      hide ChildrenOf, ParentChildChunks, ReplaceChunks, IsClassifier;
      if io.DatabaseFault? {
        return Raised(true);
      }
      if d !in documents {
        return NotFound;
      }
      if documents[d].indexVersion != version {
        return StaleRequest;
      }
      if documents[d].status != PROCESSING {
        return NotProcessing(documents[d].status);
      }
      if documents[d].storageKey !in objects {
        return Raised(false);
      }
      var before := State();
      var raised := IndexContent(cfg, d, io, now);
      if raised.Some? {
        Rollback(before);
        return Raised(raised.value);
      }
      return Indexed;
    }

    /** Returns None for the ValueError about the status, otherwise whether the failure was recorded. */
    method MarkIndexFailure(d: int, version: int, status: Status, message: string, now: int)
        returns (marked: Option<bool>)
      modifies this
      ensures marked.None? <==> status != PENDING && status != FAILED
      ensures marked.Some? ==> marked.value == IsFailureMarked(old(State()), d, version, status)
      ensures State() == RagStore.MarkIndexFailure(old(State()), d, version, status, message, now)
    {
      if status != PENDING && status != FAILED {
        return None;
      }
      if d !in documents || documents[d].indexVersion != version {
        return Some(false);
      }
      if documents[d].status == READY || documents[d].status == DELETING {
        return Some(false);
      }
      var before := documents[d];
      documents := documents[d := before.(status := status, errorMessage := Some(Summary(message)))];
      FlushDocument(d, before, now);
      return Some(true);
    }

    /** A whole index task when nothing comes between its transactions: a claimed document is never left in PROCESSING.
        It becomes ready, goes back to PENDING with a new message, or fails. */
    method IndexDocument(cfg: Settings, d: int, requested: Option<int>, io: Io, retriesLeft: bool, summary: string,
                         now: int)
        returns (claim: ClaimResult, result: Option<IndexResult>, retried: bool)
      requires ValidSettings(cfg)
      modifies this
      ensures claim == ClaimResultOf(old(State()), d, requested)
      ensures claim != Claimed ==> result.None? && !retried && State() == old(State())
      ensures claim == Claimed ==> result.Some? && (result.value.Indexed? || result.value.Raised?) && d in documents
      ensures claim == Claimed ==>
                && retried == (result.value.Raised? && result.value.retryable && retriesLeft)
                && documents[d].status == (if result.value.Indexed? then READY else if retried then PENDING else FAILED)
                && documents[d].indexVersion == old(documents)[d].indexVersion
      ensures events == old(events) && objects == old(objects) && knowledgeBases == old(knowledgeBases)
      ensures documents == old(documents) || (d in documents && documents == old(documents)[d := documents[d]])
      ensures (result.Some? && result.value.Indexed?) || chunks == old(chunks)
    {
      hide ChildrenOf, ParentChildChunks, Rows, WithoutChunksOf, IsClassifier, Summary;
      var effective;
      claim, effective := ClaimIndex(d, requested, now);
      if claim != Claimed || effective.None? {
        return claim, None, false;
      }
      var outcome := IndexClaimedDocument(cfg, d, effective.value, io, now);
      if !outcome.Raised? {
        return claim, Some(outcome), false;
      }
      retried := outcome.retryable && retriesLeft;
      var marked := MarkIndexFailure(d, effective.value, if retried then PENDING else FAILED, summary, now);
      return claim, Some(outcome), retried;
    }

    // ----- repair and removal -----

    /** The rows are those of the query. Returns each with its version. */
    method RecoverStaleIndexes(cfg: Settings, rows: seq<int>, limit: nat, locked: set<int>, now: int)
        returns (recovered: seq<(int, int)>)
      requires IsStaleSelection(State(), now - cfg.staleSeconds, limit, locked, rows)
      modifies this
      ensures State() == RecoverRows(old(State()), rows, now)
      ensures |recovered| == |rows|
      ensures forall i :: 0 <= i < |rows| ==>
          rows[i] in old(documents) && recovered[i] == (rows[i], old(documents)[rows[i]].indexVersion)
    {
      hide IsEligible, Precedes;
      assert forall d :: d in rows ==> d in documents by {
        EligibleExist(State(), now - cfg.staleSeconds, limit, locked, rows);
      }
      ghost var before := State();
      recovered := [];
      for i := 0 to |rows|
        invariant forall d :: d in rows[..i] ==> d in before.documents
        invariant State() == RecoverRows(before, rows[..i], now)
        invariant |recovered| == i
        invariant forall j :: 0 <= j < i ==>
            rows[j] in before.documents && recovered[j] == (rows[j], before.documents[rows[j]].indexVersion)
      {
        assert rows[i] in rows;
        assert rows[..i + 1][..i] == rows[..i];
        RecoveredVersion(before, rows[..i], now, rows[i]);
        recovered := recovered + [(rows[i], documents[rows[i]].indexVersion)];
        documents := documents[rows[i] :=
            documents[rows[i]].(status := PENDING, errorMessage := Some(TIMEOUT_MESSAGE), activity := now)];
      }
      assert rows[..|rows|] == rows;
    }

    method RepairStuckDocument(cfg: Settings, rows: seq<int>, deleting: seq<int>, locked: set<int>, now: int)
        returns (messages: seq<Lifecycle.Message>)
      requires IsStaleSelection(State(), now - cfg.staleSeconds, Lifecycle.REPAIR_LIMIT, locked, rows)
      requires ListsDeleting(State(), deleting)
      modifies this
      ensures State() == RecoverRows(old(State()), rows, now)
      ensures (forall d :: d in rows ==> d in old(documents))
          && messages == Lifecycle.RepairMessages(old(State()), rows, deleting)
    {
      hide IsStaleSelection, ListsDeleting, RecoverRows;
      EligibleExist(State(), now - cfg.staleSeconds, Lifecycle.REPAIR_LIMIT, locked, rows);
      ghost var before := State();
      var recovered := RecoverStaleIndexes(cfg, rows, Lifecycle.REPAIR_LIMIT, locked, now);
      messages := [];
      for i := 0 to |recovered|
        invariant forall d :: d in rows[..i] ==> d in before.documents
        invariant messages == Lifecycle.IndexMessages(before, rows[..i])
      {
        assert rows[i] in rows;
        assert rows[..i + 1][..i] == rows[..i];
        messages := messages + [Lifecycle.IndexMessage(recovered[i].0, Some(recovered[i].1))];
      }
      assert rows[..|rows|] == rows;
      ghost var indexing := messages;
      for i := 0 to |deleting|
        invariant messages == indexing + seq(i, j requires 0 <= j < i => Lifecycle.DeleteMessage(deleting[j]))
      {
        messages := messages + [Lifecycle.DeleteMessage(deleting[i])];
      }
    }

    method DeleteDocument(d: int) returns (deleted: bool)
      modifies this
      ensures deleted == IsRemovable(old(State()), d)
      ensures State() == RemoveDocument(old(State()), d)
    {
      if d !in documents {
        return false;
      }
      if documents[d].status != DELETING {
        return false;
      }
      objects := objects - {documents[d].storageKey};
      chunks := WithoutChunksOf(chunks, d);
      documents := documents - {d};
      return true;
    }
  }

  // ----- small facts for the loops -----

  lemma NoRows(g: Generation, kept: map<int, Chunk>)
    ensures kept + FirstRows(g, 0) == kept
  {
    hide ChildrenOf;
    assert FirstRows(g, 0) == map[];
  }

  lemma EligibleExist(db: Db, staleBefore: int, limit: nat, locked: set<int>, rows: seq<int>)
    requires IsStaleSelection(db, staleBefore, limit, locked, rows)
    ensures forall d :: d in rows ==> d in db.documents
  {
    assert forall d :: d in rows ==> IsEligible(db, staleBefore, locked, d);
  }

  lemma RecoveredVersion(db: Db, rows: seq<int>, now: int, d: int)
    requires (forall e :: e in rows ==> e in db.documents) && d in db.documents
    ensures RecoverRows(db, rows, now).documents[d].indexVersion == db.documents[d].indexVersion
  {
    if rows != [] {
      var front := rows[..|rows| - 1];
      assert forall e :: e in front ==> e in rows;
      RecoveredVersion(db, front, now, d);
    }
  }

  lemma NotYetAttempted(events: Outbox.Table, limit: nat, locked: set<nat>, i: nat)
    requires i < |Outbox.Claim(events, limit, locked)|
    ensures Outbox.Claim(events, limit, locked)[i] < |events|
    ensures Outbox.Claim(events, limit, locked)[i] !in Outbox.Claim(events, limit, locked)[..i]
  {
    Outbox.ClaimedAreEligible(events, 0, limit, locked);
    var claimed := Outbox.Claim(events, limit, locked);
    assert claimed[i] in claimed;
    hide Outbox.ClaimFrom;
  }

  lemma AttemptNext(cfg: Settings, events: Outbox.Table, claimed: seq<nat>, i: nat, failing: set<nat>)
    requires i < |claimed| && claimed[i] < |events| && claimed[i] !in claimed[..i]
    ensures Attempted(cfg, events, claimed[..i + 1], failing)
         == Attempted(cfg, events, claimed[..i], failing)[claimed[i] :=
             Outbox.Attempt(events[claimed[i]], claimed[i] in failing, cfg.maxDispatchAttempts)]
  {
    assert claimed[..i + 1] == claimed[..i] + [claimed[i]];
  }
}
