/** The tables behind the document lifecycle, and what each transaction makes of them. */
module RagStore {
  import opened Prelude
  import opened Chunking
  import Embedding
  import Outbox

  datatype Status = PENDING | PROCESSING | READY | FAILED | DELETING

  /** An uploaded file: its lower-case suffix and its bytes. */
  datatype File = File(suffix: string, data: string)

  /** '{kb.id}/{sha256 of the data}.{suffix}', taking equal digests for equal data: the key names its content. */
  datatype StorageKey = StorageKey(knowledgeBaseId: int, file: File)

  datatype KnowledgeBase = KnowledgeBase(ownerId: int, name: string, isPublic: bool, deleted: int)

  /** activity is coalesce(updated_time, created_time). */
  datatype Document = Document(knowledgeBaseId: int, storageKey: StorageKey, status: Status,
                               errorMessage: Option<string>, chunkCount: int, indexVersion: int,
                               parsedContent: Option<string>, activity: int)

  datatype Chunk = Chunk(knowledgeBaseId: int, documentId: int, chunkIndex: int, content: string,
                         embedding: Option<Embedding.Vector>, indexVersion: int, parentChunkId: Option<int>,
                         isParent: bool, headingPath: seq<string>)

  /** The tables by id, the object store, and the next id to hand out. */
  datatype Db = Db(knowledgeBases: map<int, KnowledgeBase>, documents: map<int, Document>, chunks: map<int, Chunk>,
                   events: Outbox.Table, objects: set<StorageKey>, nextId: int)

  datatype User = User(id: int, isAdmin: bool)

  /** The settings, and what the parsers and the heading patterns make of their input. */
  datatype Settings = Settings(chunkSize: nat, chunkOverlap: nat, staleSeconds: nat, maxFileSize: nat,
                               maxDispatchAttempts: nat, parse: File -> Option<string>, classify: Classifier)

  ghost predicate ValidSettings(cfg: Settings) {
    cfg.chunkSize >= 1 && cfg.maxDispatchAttempts >= 1 && IsClassifier(cfg.classify)
  }

  /** An UPDATE is written only if the row changed, and then stamps updated_time. */
  function Flush(db: Db, d: int, document: Document, now: int): Db
    requires d in db.documents
  {
    if document == db.documents[d] then db
    else db.(documents := db.documents[d := document.(activity := now)])
  }

  // ----- knowledge bases -----

  /** get_authorized: the knowledge base is not deleted, and the user may read or write it. */
  predicate IsAuthorized(db: Db, kb: int, user: User, write: bool) {
    && kb in db.knowledgeBases
    && db.knowledgeBases[kb].deleted == 0
    && (|| user.isAdmin
        || db.knowledgeBases[kb].ownerId == user.id
        || (!write && db.knowledgeBases[kb].isPublic))
  }

  /** The unique constraint on owner, name and deleted refuses a new knowledge base. */
  predicate IsNameTaken(db: Db, user: User, name: string) {
    exists k :: k in db.knowledgeBases && db.knowledgeBases[k].ownerId == user.id
                && db.knowledgeBases[k].name == name && db.knowledgeBases[k].deleted == 0
  }

  function CreateKnowledgeBase(db: Db, user: User, name: string, isPublic: bool): Db {
    if IsNameTaken(db, user, name) then db
    else
      var created := KnowledgeBase(user.id, name, isPublic, 0);
      db.(knowledgeBases := db.knowledgeBases[db.nextId := created], nextId := db.nextId + 1)
  }

  /** Other live knowledge bases of the owner have the name. */
  predicate IsNameTakenBesides(db: Db, kb: int, edited: KnowledgeBase) {
    exists k :: k in db.knowledgeBases && k != kb && db.knowledgeBases[k].ownerId == edited.ownerId
                && db.knowledgeBases[k].name == edited.name && db.knowledgeBases[k].deleted == 0
  }

  /** The columns that were set; the unique constraint refuses a name that is taken. */
  function Edited(base: KnowledgeBase, name: Option<string>, isPublic: Option<bool>): KnowledgeBase {
    base.(name := if name.Some? then name.value else base.name,
          isPublic := if isPublic.Some? then isPublic.value else base.isPublic)
  }

  function EditKnowledgeBase(db: Db, kb: int, name: Option<string>, isPublic: Option<bool>): Db {
    if kb !in db.knowledgeBases then db
    else
      var edited := Edited(db.knowledgeBases[kb], name, isPublic);
      if edited.deleted == 0 && IsNameTakenBesides(db, kb, edited) then db
      else db.(knowledgeBases := db.knowledgeBases[kb := edited])
  }

  function UpdateKnowledgeBase(db: Db, user: User, kb: int, name: Option<string>, isPublic: Option<bool>): Db {
    if IsAuthorized(db, kb, user, true) then EditKnowledgeBase(db, kb, name, isPublic) else db
  }

  /** The answer to the query for the documents of a knowledge base, in any order. */
  ghost predicate ListsDocumentsOf(db: Db, kb: int, rows: seq<int>) {
    && (forall i, j :: 0 <= i < j < |rows| ==> rows[i] != rows[j])
    && (forall d :: d in rows <==> d in db.documents && db.documents[d].knowledgeBaseId == kb)
  }

  /** Set the status to DELETING and enqueue the delete request. */
  function RequestDelete(db: Db, d: int, now: int): Db
    requires d in db.documents
  {
    var marked := Flush(db, d, db.documents[d].(status := DELETING), now);
    marked.(events := Outbox.Enqueue(db.events, Outbox.DeleteRequest(d)))
  }

  function RequestDeletes(db: Db, rows: seq<int>, now: int): (r: Db)
    requires forall d :: d in rows ==> d in db.documents
    ensures r.documents.Keys == db.documents.Keys
  {
    if rows == [] then db
    else
      var front := rows[..|rows| - 1];
      assert forall d :: d in front ==> d in rows;
      assert rows[|rows| - 1] in rows;
      RequestDelete(RequestDeletes(db, front, now), rows[|rows| - 1], now)
  }

  function MarkDeleted(db: Db, kb: int): Db
    requires kb in db.knowledgeBases
  {
    db.(knowledgeBases := db.knowledgeBases[kb := db.knowledgeBases[kb].(deleted := kb)])
  }

  function DeleteKnowledgeBase(db: Db, user: User, kb: int, rows: seq<int>, now: int): Db
    requires forall d :: d in rows ==> d in db.documents
  {
    if IsAuthorized(db, kb, user, true) then RequestDeletes(MarkDeleted(db, kb), rows, now) else db
  }

  // ----- uploads, retries and deletions -----

  predicate IsSupported(suffix: string) {
    suffix == "txt" || suffix == "md" || suffix == "docx" || suffix == "pdf"
  }

  predicate IsKeyTaken(db: Db, key: StorageKey) {
    exists d :: d in db.documents && db.documents[d].storageKey == key
  }

  datatype CreateResult = Created(documentId: int) | NotFoundError | RequestError | IntegrityError

  function CreateResultOf(cfg: Settings, db: Db, user: User, kb: int, file: File): CreateResult {
    if !IsAuthorized(db, kb, user, true) then NotFoundError
    else if !IsSupported(file.suffix) || |file.data| > cfg.maxFileSize then RequestError
    else if IsKeyTaken(db, StorageKey(kb, file)) then IntegrityError
    else Created(db.nextId)
  }

  function NewDocument(kb: int, file: File, now: int): Document {
    Document(kb, StorageKey(kb, file), PENDING, None, 0, 1, None, now)
  }

  /** storage.put: at once, whatever becomes of the transaction. */
  function Stored(db: Db, key: StorageKey): Db {
    db.(objects := db.objects + {key})
  }

  /** The row and its index request. */
  function InsertRow(db: Db, d: int, document: Document): Db {
    db.(documents := db.documents[d := document],
        events := Outbox.Enqueue(db.events, Outbox.IndexRequest(d, document.indexVersion)),
        nextId := db.nextId + 1)
  }

  function InsertDocument(db: Db, d: int, document: Document): Db {
    InsertRow(Stored(db, document.storageKey), d, document)
  }

  /** The object is stored before the row is inserted, and stays when the key turns out to be taken. */
  function Create(cfg: Settings, db: Db, user: User, kb: int, file: File, now: int): Db {
    match CreateResultOf(cfg, db, user, kb, file)
    case Created(d) => InsertDocument(db, d, NewDocument(kb, file, now))
    case IntegrityError => Stored(db, StorageKey(kb, file))
    case _ => db
  }

  /** DocumentService.get with write=True finds the document. */
  predicate IsWritable(db: Db, kb: int, d: int, user: User) {
    IsAuthorized(db, kb, user, true) && d in db.documents && db.documents[d].knowledgeBaseId == kb
  }

  function Retried(document: Document, now: int): Document {
    document.(status := PENDING, errorMessage := None, indexVersion := document.indexVersion + 1, activity := now)
  }

  function Retry(db: Db, kb: int, d: int, user: User, now: int): Db {
    if !IsWritable(db, kb, d, user) then db
    else
      var document := Retried(db.documents[d], now);
      db.(documents := db.documents[d := document],
          events := Outbox.Enqueue(db.events, Outbox.IndexRequest(d, document.indexVersion)))
  }

  function Delete(db: Db, kb: int, d: int, user: User, now: int): Db {
    if IsWritable(db, kb, d, user) then RequestDelete(db, d, now) else db
  }

  // ----- claiming -----

  datatype ClaimResult = DocumentNotFound | StaleIndexRequest | AlreadyReady | AlreadyProcessing | DeleteRequested
                       | IndexFailed | Claimed

  function ClaimResultOf(db: Db, d: int, requested: Option<int>): ClaimResult {
    if d !in db.documents then DocumentNotFound
    else
      var document := db.documents[d];
      if requested.Some? && requested.value != document.indexVersion then StaleIndexRequest
      else
        match document.status
        case READY => AlreadyReady
        case PROCESSING => AlreadyProcessing
        case DELETING => DeleteRequested
        case FAILED => IndexFailed
        case PENDING => Claimed
  }

  function ClaimIndex(db: Db, d: int, requested: Option<int>, now: int): Db {
    if ClaimResultOf(db, d, requested) != Claimed then db
    else Flush(db, d, db.documents[d].(status := PROCESSING, errorMessage := None), now)
  }

  // ----- indexing -----

  /** A child chunk's text and the position of its parent. */
  datatype Child = Child(parent: nat, content: string)

  /** The children of all parents, in order. */
  function ChildrenOf(parents: seq<ParentChildren>): seq<Child> {
    if parents == [] then []
    else
      var last := parents[|parents| - 1];
      ChildrenOf(parents[..|parents| - 1])
      + seq(|last.children|, i requires 0 <= i < |last.children| => Child(|parents| - 1, last.children[i]))
  }

  lemma {:induction false} ChildrenBelong(parents: seq<ParentChildren>)
    ensures forall c :: c in ChildrenOf(parents) ==> c.parent < |parents| && c.content in parents[c.parent].children
  {
    if parents != [] {
      var front := parents[..|parents| - 1];
      ChildrenBelong(front);
      assert forall k :: 0 <= k < |front| ==> front[k] == parents[k];
    }
  }

  lemma ParentsGiveChildren(parents: seq<ParentChildren>)
    requires parents != [] && parents[|parents| - 1].children != []
    ensures ChildrenOf(parents) != []
  {}

  /** The chunk rows of one indexing: parents get the ids from base on, then the children theirs. */
  datatype Generation = Generation(base: int, documentId: int, knowledgeBaseId: int, indexVersion: int,
                                   parents: seq<ParentChildren>, vectors: seq<Embedding.Vector>)

  ghost predicate ValidGeneration(g: Generation) {
    g.parents != [] && |g.vectors| == |ChildrenOf(g.parents)| >= 1
  }

  function ParentRow(g: Generation, j: nat): Chunk
    requires j < |g.parents|
  {
    Chunk(g.knowledgeBaseId, g.documentId, -(j + 1), g.parents[j].parentContent, None, g.indexVersion, None, true,
          g.parents[j].headingPath)
  }

  function ChildRow(g: Generation, i: nat): Chunk
    requires i < |ChildrenOf(g.parents)| && i < |g.vectors|
  {
    var child := ChildrenOf(g.parents)[i];
    ChildrenBelong(g.parents);
    Chunk(g.knowledgeBaseId, g.documentId, i, child.content, Some(g.vectors[i]), g.indexVersion,
          Some(g.base + child.parent), false, g.parents[child.parent].headingPath)
  }

  /** id is one of the first k ids of the generation. */
  predicate IsRowId(g: Generation, k: nat, id: int) {
    g.base <= id < g.base + k
  }

  /** The first k rows of the generation. */
  function FirstRows(g: Generation, k: nat): map<int, Chunk>
    requires k <= |g.parents| + |ChildrenOf(g.parents)|
    requires k <= |g.parents| || |g.vectors| == |ChildrenOf(g.parents)|
  {
    map id: int | g.base <= id < g.base + k && IsRowId(g, k, id) ::
      if id < g.base + |g.parents| then ParentRow(g, id - g.base) else ChildRow(g, id - g.base - |g.parents|)
  }

  function Rows(g: Generation): map<int, Chunk>
    requires |g.vectors| == |ChildrenOf(g.parents)|
  {
    FirstRows(g, |g.parents| + |ChildrenOf(g.parents)|)
  }

  function ChunksOf(chunks: map<int, Chunk>, d: int): map<int, Chunk> {
    map id | id in chunks && chunks[id].documentId == d :: chunks[id]
  }

  function WithoutChunksOf(chunks: map<int, Chunk>, d: int): map<int, Chunk> {
    map id | id in chunks && chunks[id].documentId != d :: chunks[id]
  }

  /** How the calls outside the database went: object storage, the embedding provider, or the database itself. */
  datatype Io = StorageFault | EmbeddingFault(retryable: bool) | DatabaseFault
              | Embedded(vectors: seq<Embedding.Vector>)

  datatype IndexResult = NotFound | StaleRequest | NotProcessing(status: Status) | Indexed | Raised(retryable: bool)

  function ParentsIn(cfg: Settings, text: string): seq<ParentChildren> {
    ParentChildChunks(text, cfg.chunkSize, cfg.chunkOverlap, cfg.classify)
  }

  /** index_content: a file that cannot be parsed, a text without chunks and a wrong number of vectors are permanent
      errors. */
  function ContentResultOf(cfg: Settings, file: File, io: Io): IndexResult {
    if io.DatabaseFault? || io.StorageFault? then Raised(true)
    else
      match cfg.parse(file)
      case None => Raised(false)
      case Some(text) =>
        if ParentsIn(cfg, text) == [] then Raised(false)
        else if io.EmbeddingFault? then Raised(io.retryable)
        else if |io.vectors| != |ChildrenOf(ParentsIn(cfg, text))| then Raised(false)
        else Indexed
  }

  /** A missing object is a permanent error, too. */
  function IndexResultOf(cfg: Settings, db: Db, d: int, version: int, io: Io): IndexResult {
    if io.DatabaseFault? then Raised(true)
    else if d !in db.documents then NotFound
    else
      var document := db.documents[d];
      if document.indexVersion != version then StaleRequest
      else if document.status != PROCESSING then NotProcessing(document.status)
      else if document.storageKey !in db.objects then Raised(false)
      else ContentResultOf(cfg, document.storageKey.file, io)
  }

  /** The generation a document is about to get. */
  function NewGeneration(cfg: Settings, db: Db, d: int, text: string, vectors: seq<Embedding.Vector>): Generation
    requires d in db.documents
  {
    Generation(db.nextId, d, db.documents[d].knowledgeBaseId, db.documents[d].indexVersion, ParentsIn(cfg, text),
               vectors)
  }

  function Ready(document: Document, text: string, g: Generation, now: int): Document {
    document.(parsedContent := Some(text), chunkCount := |ChildrenOf(g.parents)|, status := READY, errorMessage := None,
              activity := now)
  }

  /** Replace the document's chunks by the generation and mark the document as ready. */
  function ReplaceChunks(db: Db, d: int, text: string, g: Generation, now: int): Db
    requires d in db.documents && |g.vectors| == |ChildrenOf(g.parents)|
  {
    db.(chunks := WithoutChunksOf(db.chunks, d) + Rows(g),
        documents := db.documents[d := Ready(db.documents[d], text, g, now)],
        nextId := db.nextId + |g.parents| + |ChildrenOf(g.parents)|)
  }

  /** index_content on a document of any status; a raised error rolls everything back. */
  function IndexContent(cfg: Settings, db: Db, d: int, io: Io, now: int): Db
    requires d in db.documents
  {
    if ContentResultOf(cfg, db.documents[d].storageKey.file, io) != Indexed then db
    else
      var text := cfg.parse(db.documents[d].storageKey.file).value;
      ReplaceChunks(db, d, text, NewGeneration(cfg, db, d, text, io.vectors), now)
  }

  /** Only a successful indexing of a claimed document is committed. */
  function IndexClaimedDocument(cfg: Settings, db: Db, d: int, version: int, io: Io, now: int): Db {
    if IndexResultOf(cfg, db, d, version, io) != Indexed then db else IndexContent(cfg, db, d, io, now)
  }

  // ----- failures and recovery -----

  predicate IsFailureMarked(db: Db, d: int, version: int, status: Status) {
    && (status == PENDING || status == FAILED)
    && d in db.documents && db.documents[d].indexVersion == version
    && db.documents[d].status != READY && db.documents[d].status != DELETING
  }

  /** message[:512] */
  function Summary(message: string): string {
    if |message| <= 512 then message else message[..512]
  }

  function MarkIndexFailure(db: Db, d: int, version: int, status: Status, message: string, now: int): Db {
    if !IsFailureMarked(db, d, version, status) then db
    else Flush(db, d, db.documents[d].(status := status, errorMessage := Some(Summary(message))), now)
  }

  predicate IsStale(document: Document, staleBefore: int) {
    (document.status == PENDING || document.status == PROCESSING) && document.activity < staleBefore
  }

  /** ORDER BY last_activity, id */
  predicate Precedes(db: Db, a: int, b: int) {
    && a in db.documents && b in db.documents
    && (|| db.documents[a].activity < db.documents[b].activity
        || (db.documents[a].activity == db.documents[b].activity && a < b))
  }

  predicate IsEligible(db: Db, staleBefore: int, locked: set<int>, d: int) {
    d in db.documents && IsStale(db.documents[d], staleBefore) && d !in locked
  }

  /** The answer to the query for stale documents: the first ones in order, at most limit, without locked rows. */
  ghost predicate IsStaleSelection(db: Db, staleBefore: int, limit: nat, locked: set<int>, rows: seq<int>) {
    && |rows| <= limit
    && (forall d :: d in rows ==> IsEligible(db, staleBefore, locked, d))
    && (forall i, j :: 0 <= i < j < |rows| ==> Precedes(db, rows[i], rows[j]))
    && (forall d :: IsEligible(db, staleBefore, locked, d) && d !in rows ==>
          |rows| == limit && forall r :: r in rows ==> Precedes(db, r, d))
  }

  const TIMEOUT_MESSAGE := "indexing timed out and was queued again"

  function Recovered(document: Document, now: int): Document {
    document.(status := PENDING, errorMessage := Some(TIMEOUT_MESSAGE), activity := now)
  }

  function RecoverRow(db: Db, d: int, now: int): Db
    requires d in db.documents
  {
    db.(documents := db.documents[d := Recovered(db.documents[d], now)])
  }

  function RecoverRows(db: Db, rows: seq<int>, now: int): (r: Db)
    requires forall d :: d in rows ==> d in db.documents
    ensures r.documents.Keys == db.documents.Keys
  {
    if rows == [] then db
    else
      var front := rows[..|rows| - 1];
      assert forall d :: d in front ==> d in rows;
      assert rows[|rows| - 1] in rows;
      RecoverRow(RecoverRows(db, front, now), rows[|rows| - 1], now)
  }

  /** The answer to the query for documents waiting to be deleted, in any order. */
  ghost predicate ListsDeleting(db: Db, rows: seq<int>) {
    && (forall i, j :: 0 <= i < j < |rows| ==> rows[i] != rows[j])
    && (forall d :: d in rows <==> d in db.documents && db.documents[d].status == DELETING)
  }

  // ----- removal -----

  predicate IsRemovable(db: Db, d: int) {
    d in db.documents && db.documents[d].status == DELETING
  }

  function RemoveDocument(db: Db, d: int): Db {
    if !IsRemovable(db, d) then db
    else db.(objects := db.objects - {db.documents[d].storageKey},
             chunks := WithoutChunksOf(db.chunks, d),
             documents := db.documents - {d})
  }

  // ----- dispatch -----

  function DispatchEvents(cfg: Settings, db: Db, limit: nat, locked: set<nat>, failing: set<nat>): Db {
    db.(events := Outbox.Dispatch(db.events, limit, locked, failing, cfg.maxDispatchAttempts))
  }

  // ----- retrieval -----

  /** The rows the search starts from: child chunks of ready documents in accessible knowledge bases. */
  predicate IsServed(db: Db, user: User, requested: set<int>, id: int) {
    && id in db.chunks
    && db.chunks[id].knowledgeBaseId in requested
    && IsAuthorized(db, db.chunks[id].knowledgeBaseId, user, false)
    && !db.chunks[id].isParent
    && db.chunks[id].documentId in db.documents
    && db.documents[db.chunks[id].documentId].status == READY
  }
}
