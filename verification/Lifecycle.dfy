/** The whole protocol as a state machine: API calls, dispatchers, duplicated deliveries, crashing workers and the
    repair beat, one committed transaction at a time. A call of the API is one step, or its timely late write. */
module Lifecycle {
  import opened Prelude
  import opened RagStore
  import Outbox
  import UnlockedReads

  datatype Message = IndexMessage(documentId: int, requested: Option<int>) | DeleteMessage(documentId: int)

  /** A worker between two of its transactions: it has claimed the document, or it has to mark a failure. */
  datatype Job = ToIndex(documentId: int, indexVersion: int, requested: Option<int>)
               | ToMark(documentId: int, indexVersion: int, requested: Option<int>, retryable: bool)

  datatype System = System(db: Db, messages: multiset<Message>, workers: map<nat, Job>, nextWorker: nat, now: int)

  /** API calls; the object that an upload stores and the write of a call that has read its rows some time before; the
      dispatcher and the repair beat; a worker's steps; and what the broker and the clock do.
      Stray is any delivery nobody accounts for: a redelivery, or a message whose dispatch was rolled back. */
  datatype Action = AddKnowledgeBase(user: User, name: string, isPublic: bool)
                  | ChangeKnowledgeBase(user: User, kb: int, newName: Option<string>, newPublic: Option<bool>)
                  | DropKnowledgeBase(user: User, kb: int, rows: seq<int>)
                  | Upload(user: User, kb: int, file: File)
                  | Reindex(user: User, kb: int, d: int)
                  | Discard(user: User, kb: int, d: int)
                  | Put(key: StorageKey)
                  | Write(call: UnlockedReads.Call)
                  | DispatchBeat(limit: nat, lockedEvents: set<nat>, failing: set<nat>)
                  | RepairBeat(rows: seq<int>, deleting: seq<int>, locked: set<int>, sent: nat)
                  | Claim(message: Message)
                  | Index(worker: nat, io: Io)
                  | MarkFailure(worker: nat, retriesLeft: bool, summary: string)
                  | Crash(worker: nat)
                  | Remove(message: Message)
                  | Lose(message: Message)
                  | Stray(message: Message)
                  | Tick(seconds: nat)

  const REPAIR_LIMIT: nat := 100

  /** A call of the API in one step. */
  predicate IsCall(a: Action) {
    || a.AddKnowledgeBase? || a.ChangeKnowledgeBase? || a.DropKnowledgeBase? || a.Upload? || a.Reindex? || a.Discard?
    || a.Put?
  }

  function MessageOf(request: Outbox.Request): Message {
    match request
    case IndexRequest(d, version) => IndexMessage(d, Some(version))
    case DeleteRequest(d) => DeleteMessage(d)
  }

  /** The messages of the claimed events that the broker accepted. */
  function Accepted(events: Outbox.Table, claimed: seq<nat>, failing: set<nat>): seq<Message> {
    if claimed == [] then []
    else
      var last := claimed[|claimed| - 1];
      Accepted(events, claimed[..|claimed| - 1], failing)
      + (if last in failing || last >= |events| then [] else [MessageOf(events[last].request)])
  }

  /** Index messages for the recovered rows, each with its current version. */
  function IndexMessages(db: Db, rows: seq<int>): (r: seq<Message>)
    requires forall d :: d in rows ==> d in db.documents
    ensures |r| == |rows|
  {
    if rows == [] then []
    else
      var front, last := rows[..|rows| - 1], rows[|rows| - 1];
      assert forall d :: d in front ==> d in rows;
      assert last in rows;
      IndexMessages(db, front) + [IndexMessage(last, Some(db.documents[last].indexVersion))]
  }

  /** What the repair beat sends after its commit, in order. A crash may cut it short. */
  function RepairMessages(db: Db, rows: seq<int>, deleting: seq<int>): (r: seq<Message>)
    requires forall d :: d in rows ==> d in db.documents
    ensures |r| == |rows| + |deleting|
  {
    IndexMessages(db, rows) + seq(|deleting|, i requires 0 <= i < |deleting| => DeleteMessage(deleting[i]))
  }

  /** The step can happen, the rows it works on are an answer to its queries, and a late write is harmless. */
  ghost predicate Enabled(cfg: Settings, s: System, a: Action) {
    match a
    case DropKnowledgeBase(_, kb, rows) => ListsDocumentsOf(s.db, kb, rows)
    case Write(call) => UnlockedReads.IsKnown(s.db, call) && UnlockedReads.IsTimely(s.db, call)
    case RepairBeat(rows, deleting, locked, sent) =>
      && IsStaleSelection(s.db, s.now - cfg.staleSeconds, REPAIR_LIMIT, locked, rows)
      && ListsDeleting(s.db, deleting)
      && sent <= |rows| + |deleting|
    case Claim(message) => message in s.messages && message.IndexMessage?
    case Remove(message) => message in s.messages && message.DeleteMessage?
    case Lose(message) => message in s.messages
    case Index(worker, _) => worker in s.workers && s.workers[worker].ToIndex?
    case MarkFailure(worker, _, _) => worker in s.workers && s.workers[worker].ToMark?
    case Crash(worker) => worker in s.workers
    case _ => true
  }

  /** index_document up to its first commit: go on only if the document was claimed. */
  function AfterClaim(cfg: Settings, s: System, message: Message): System
    requires message.IndexMessage?
  {
    var d, requested := message.documentId, message.requested;
    var claimed := s.(db := ClaimIndex(s.db, d, requested, s.now), messages := s.messages - multiset{message});
    if ClaimResultOf(s.db, d, requested) == Claimed then
      claimed.(workers := s.workers[s.nextWorker := ToIndex(d, s.db.documents[d].indexVersion, requested)],
               nextWorker := s.nextWorker + 1)
    else claimed
  }

  function AfterIndex(cfg: Settings, s: System, worker: nat, io: Io): System
    requires worker in s.workers && s.workers[worker].ToIndex?
  {
    var job := s.workers[worker];
    var result := IndexResultOf(cfg, s.db, job.documentId, job.indexVersion, io);
    s.(db := IndexClaimedDocument(cfg, s.db, job.documentId, job.indexVersion, io, s.now),
       workers := if result.Raised? then
                    s.workers[worker := ToMark(job.documentId, job.indexVersion, job.requested, result.retryable)]
                  else s.workers - {worker})
  }

  /** The third transaction. A retried task is sent again with its original arguments, whatever the marking did. */
  function AfterMark(s: System, worker: nat, retriesLeft: bool, summary: string): System
    requires worker in s.workers && s.workers[worker].ToMark?
  {
    var job := s.workers[worker];
    var retry := job.retryable && retriesLeft;
    var status := if retry then PENDING else FAILED;
    s.(db := MarkIndexFailure(s.db, job.documentId, job.indexVersion, status, summary, s.now),
       workers := s.workers - {worker},
       messages := if retry then s.messages + multiset{IndexMessage(job.documentId, job.requested)} else s.messages)
  }

  function AfterRepair(s: System, rows: seq<int>, deleting: seq<int>, sent: nat): System
    requires forall d :: d in rows ==> d in s.db.documents
    requires sent <= |rows| + |deleting|
  {
    s.(db := RecoverRows(s.db, rows, s.now),
       messages := s.messages + multiset(RepairMessages(s.db, rows, deleting)[..sent]))
  }

  function Next(cfg: Settings, s: System, a: Action): System
    requires Enabled(cfg, s, a)
  {
    match a
    case AddKnowledgeBase(user, name, isPublic) => s.(db := CreateKnowledgeBase(s.db, user, name, isPublic))
    case ChangeKnowledgeBase(user, kb, name, isPublic) =>
      s.(db := UpdateKnowledgeBase(s.db, user, kb, name, isPublic))
    case DropKnowledgeBase(user, kb, rows) => s.(db := DeleteKnowledgeBase(s.db, user, kb, rows, s.now))
    case Upload(user, kb, file) => s.(db := Create(cfg, s.db, user, kb, file, s.now))
    case Reindex(user, kb, d) => s.(db := Retry(s.db, kb, d, user, s.now))
    case Discard(user, kb, d) => s.(db := Delete(s.db, kb, d, user, s.now))
    case Put(key) => s.(db := Stored(s.db, key))
    case Write(call) => s.(db := UnlockedReads.Written(s.db, call, s.now))
    case DispatchBeat(limit, lockedEvents, failing) =>
      s.(db := DispatchEvents(cfg, s.db, limit, lockedEvents, failing),
         messages := s.messages
             + multiset(Accepted(s.db.events, Outbox.Claim(s.db.events, limit, lockedEvents), failing)))
    case RepairBeat(rows, deleting, _, sent) => AfterRepair(s, rows, deleting, sent)
    case Claim(message) => AfterClaim(cfg, s, message)
    case Index(worker, io) => AfterIndex(cfg, s, worker, io)
    case MarkFailure(worker, retriesLeft, summary) => AfterMark(s, worker, retriesLeft, summary)
    case Crash(worker) => s.(workers := s.workers - {worker})
    case Remove(message) =>
      s.(db := RemoveDocument(s.db, message.documentId), messages := s.messages - multiset{message})
    case Lose(message) => s.(messages := s.messages - multiset{message})
    case Stray(message) => s.(messages := s.messages + multiset{message})
    case Tick(seconds) => s.(now := s.now + seconds)
  }

  // ----- runs -----

  ghost predicate Initial(s: System) {
    && s.db == Db(map[], map[], map[], [], {}, 1)
    && s.messages == multiset{} && s.workers == map[]
  }

  ghost predicate Steps(cfg: Settings, s: System, a: Action, t: System) {
    Enabled(cfg, s, a) && t == Next(cfg, s, a)
  }

  ghost predicate StepAt(cfg: Settings, states: seq<System>, actions: seq<Action>, i: int) {
    0 <= i < |actions| < |states| && Steps(cfg, states[i], actions[i], states[i + 1])
  }

  /** A stretch of a run: states[i] becomes states[i + 1] by actions[i]. */
  ghost predicate IsPath(cfg: Settings, states: seq<System>, actions: seq<Action>) {
    |states| == |actions| + 1 && forall i :: 0 <= i < |actions| ==> StepAt(cfg, states, actions, i)
  }

  ghost predicate IsRun(cfg: Settings, states: seq<System>, actions: seq<Action>) {
    IsPath(cfg, states, actions) && Initial(states[0])
  }

  /** The step commits an indexing of this version of the document. */
  predicate Commits(cfg: Settings, s: System, a: Action, d: int, version: int) {
    && a.Index? && a.worker in s.workers && s.workers[a.worker].ToIndex?
    && s.workers[a.worker].documentId == d && s.workers[a.worker].indexVersion == version
    && IndexResultOf(cfg, s.db, d, version, a.io) == Indexed
  }
}
