/** What holds in every state of every run. */
module LifecycleSafety {
  import opened Prelude
  import opened RagStore
  import opened RagInvariant
  import opened Lifecycle
  import opened Chunking
  import Outbox
  import UnlockedReads

  // ----- one step -----

  /** Only the commit of an indexing makes a document ready. */
  ghost predicate ReadyOnlyByCommit(cfg: Settings, s: System, a: Action, after: Db) {
    forall d :: d in after.documents && after.documents[d].status == READY ==>
      || Commits(cfg, s, a, d, after.documents[d].indexVersion)
      || (d in s.db.documents && s.db.documents[d].status == READY
            && s.db.documents[d].indexVersion == after.documents[d].indexVersion)
  }

  lemma StepKeeps(cfg: Settings, s: System, a: Action)
    requires ValidSettings(cfg) && Inv(cfg, s.db) && Enabled(cfg, s, a)
    ensures Keeps(cfg, s.db, Next(cfg, s, a).db, s.now)
    ensures ReadyOnlyByCommit(cfg, s, a, Next(cfg, s, a).db)
  {
    hide Keeps, Inv, ValidSettings;
    hide CreateKnowledgeBase, DeleteKnowledgeBase, Create, Retry, Delete, DispatchEvents, RecoverRows, ClaimIndex;
    hide ClaimResultOf, UpdateKnowledgeBase, Stored, UnlockedReads.Written, UnlockedReads.IsTimely;
    hide UnlockedReads.IsKnown;
    hide IndexClaimedDocument, IndexResultOf, MarkIndexFailure, RemoveDocument, RepairMessages, Accepted;
    match a
    case AddKnowledgeBase(user, name, isPublic) => CreateKnowledgeBaseKeeps(cfg, s.db, user, name, isPublic, s.now);
    case ChangeKnowledgeBase(user, kb, name, isPublic) =>
      UpdateKnowledgeBaseKeeps(cfg, s.db, user, kb, name, isPublic, s.now);
    case DropKnowledgeBase(user, kb, rows) => DeleteKnowledgeBaseKeeps(cfg, s.db, user, kb, rows, s.now);
    case Upload(user, kb, file) => CreateKeeps(cfg, s.db, user, kb, file, s.now);
    case Reindex(user, kb, d) => RetryKeeps(cfg, s.db, kb, d, user, s.now);
    case Discard(user, kb, d) => DeleteKeeps(cfg, s.db, kb, d, user, s.now);
    case Put(key) => StoringKeeps(cfg, s.db, key, s.now);
    case Write(call) => UnlockedReads.WriteIsHarmlessIffTimely(cfg, s.db, call, s.now);
    case DispatchBeat(limit, locked, failing) => DispatchKeeps(cfg, s.db, limit, locked, failing, s.now);
    case RepairBeat(rows, deleting, locked, sent) => RecoverRowsKeeps(cfg, s.db, rows, s.now);
    case Claim(message) => ClaimKeeps(cfg, s.db, message.documentId, message.requested, s.now);
    case Index(worker, io) =>
      IndexKeeps(cfg, s.db, s.workers[worker].documentId, s.workers[worker].indexVersion, io, s.now);
    case MarkFailure(worker, retriesLeft, summary) =>
      var job := s.workers[worker];
      var status := if job.retryable && retriesLeft then PENDING else FAILED;
      MarkFailureKeeps(cfg, s.db, job.documentId, job.indexVersion, status, summary, s.now);
    case Remove(message) => RemoveKeeps(cfg, s.db, message.documentId, s.now);
    case _ => KeepsNothing(cfg, s.db, s.now);
  }

  // ----- runs -----

  lemma {:induction false} RunIsSound(cfg: Settings, states: seq<System>, actions: seq<Action>, i: nat)
    requires ValidSettings(cfg) && IsRun(cfg, states, actions) && i < |states|
    ensures Inv(cfg, states[i].db)
  {
    hide Inv, Steps, ValidSettings, Next, Enabled;
    if i == 0 {
      EmptyIsSound(cfg, states[0]);
    } else {
      RunIsSound(cfg, states, actions, i - 1);
      assert StepAt(cfg, states, actions, i - 1);
      StepIsSound(cfg, states[i - 1], actions[i - 1], states[i]);
    }
  }

  ghost predicate Reachable(cfg: Settings, s: System) {
    exists states, actions :: IsRun(cfg, states, actions) && states[|actions|] == s
  }

  lemma ReachableIsSound(cfg: Settings, s: System)
    requires ValidSettings(cfg) && Reachable(cfg, s)
    ensures Inv(cfg, s.db)
  {
    hide Inv, ValidSettings;
    var states, actions :| IsRun(cfg, states, actions) && states[|actions|] == s;
    RunIsSound(cfg, states, actions, |actions|);
  }

  lemma EmptyIsSound(cfg: Settings, s: System)
    requires Initial(s)
    ensures Inv(cfg, s.db)
  {}

  lemma StepIsSound(cfg: Settings, s: System, a: Action, t: System)
    requires ValidSettings(cfg) && Inv(cfg, s.db) && Steps(cfg, s, a, t)
    ensures Keeps(cfg, s.db, t.db, s.now) && Inv(cfg, t.db) && Advances(s.db, t.db)
        && ReadyOnlyByCommit(cfg, s, a, t.db)
  {
    hide Inv, ValidSettings, Next, Enabled, Advances, Stamps, ReadyOnlyByCommit;
    StepKeeps(cfg, s, a);
  }

  lemma {:induction false} RunAdvances(cfg: Settings, states: seq<System>, actions: seq<Action>, i: nat, j: nat)
    requires ValidSettings(cfg) && IsRun(cfg, states, actions) && i <= j < |states|
    ensures Advances(states[i].db, states[j].db)
    decreases j - i
  {
    hide Inv, Steps, ValidSettings, Next, Enabled, Advances, Keeps, ReadyOnlyByCommit;
    if i == j {
      AdvancesItself(states[i].db);
    } else {
      RunAdvances(cfg, states, actions, i, j - 1);
      RunIsSound(cfg, states, actions, j - 1);
      assert StepAt(cfg, states, actions, j - 1);
      StepIsSound(cfg, states[j - 1], actions[j - 1], states[j]);
      AdvancesTwice(states[i].db, states[j - 1].db, states[j].db);
    }
  }

  lemma AdvancesItself(db: Db)
    ensures Advances(db, db)
  {}

  // ----- exactly-once indexing -----

  /** This version of the document is over: no indexing of it can be committed any more. */
  ghost predicate IsOver(db: Db, d: int, version: int) {
    && d < db.nextId
    && (d in db.documents ==>
          || db.documents[d].indexVersion > version
          || (db.documents[d].indexVersion == version && IsSettled(db.documents[d])))
  }

  lemma OverStaysOver(db: Db, after: Db, d: int, version: int)
    requires Advances(db, after) && IsOver(db, d, version)
    ensures IsOver(after, d, version)
  {
    assert Moves(db, after, d);
  }

  lemma CommitEndsVersion(cfg: Settings, s: System, a: Action, t: System, d: int, version: int)
    requires Inv(cfg, s.db) && Steps(cfg, s, a, t) && Commits(cfg, s, a, d, version)
    ensures IsOver(t.db, d, version) && !IsOver(s.db, d, version)
    ensures forall w :: w > version ==> !IsOver(s.db, d, w)
  {
    hide ParentChildChunks, ChildrenOf, Rows, DocumentsSound, EventsSound, KeysUnique;
  }

  /** A later commit for a document is always for a higher version. */
  lemma CommitsIncrease(cfg: Settings, states: seq<System>, actions: seq<Action>, i: nat, j: nat, d: int, v: int,
                        w: int)
    requires ValidSettings(cfg) && IsRun(cfg, states, actions) && i < j < |actions|
    ensures Commits(cfg, states[i], actions[i], d, v) && Commits(cfg, states[j], actions[j], d, w) ==> v < w
  {
    hide Inv, Steps, ValidSettings, Next, Enabled, Advances, Commits, IsOver;
    if Commits(cfg, states[i], actions[i], d, v) && Commits(cfg, states[j], actions[j], d, w) {
      assert StepAt(cfg, states, actions, i) && StepAt(cfg, states, actions, j);
      RunIsSound(cfg, states, actions, i);
      RunIsSound(cfg, states, actions, j);
      CommitEndsVersion(cfg, states[i], actions[i], states[i + 1], d, v);
      CommitEndsVersion(cfg, states[j], actions[j], states[j + 1], d, w);
      RunAdvances(cfg, states, actions, i + 1, j);
      OverStaysOver(states[i + 1].db, states[j].db, d, v);
    }
  }

  predicate IsReadyAt(db: Db, d: int, version: int) {
    d in db.documents && db.documents[d].status == READY && db.documents[d].indexVersion == version
  }

  /** Over all interleavings of uploads, duplicated deliveries, claims, commits, failures, crashes, recoveries, retries
      and deletions: whenever a document becomes ready again, it is at a higher version. */
  lemma ExactlyOnceIndexing(cfg: Settings, states: seq<System>, actions: seq<Action>, i: nat, j: nat, d: int, v: int,
                            w: int)
    requires ValidSettings(cfg) && IsRun(cfg, states, actions) && i < j < |actions|
    requires !IsReadyAt(states[i].db, d, v) && IsReadyAt(states[i + 1].db, d, v)
    requires !IsReadyAt(states[j].db, d, w) && IsReadyAt(states[j + 1].db, d, w)
    ensures v < w
  {
    hide Inv, ValidSettings, Next, Enabled, Advances, Commits, Steps, Keeps;
    forall k | k == i || k == j ensures Inv(cfg, states[k].db) && Steps(cfg, states[k], actions[k], states[k + 1]) {
      RunIsSound(cfg, states, actions, k);
      assert StepAt(cfg, states, actions, k);
    }
    StepIsSound(cfg, states[i], actions[i], states[i + 1]);
    StepIsSound(cfg, states[j], actions[j], states[j + 1]);
    CommitsIncrease(cfg, states, actions, i, j, d, v, w);
  }

  /** A document that is ready at a version owes it to exactly one commit. */
  lemma {:induction false} ReadyByExactlyOneCommit(cfg: Settings, states: seq<System>, actions: seq<Action>, j: nat,
                                                   d: int)
      returns (i: nat)
    requires ValidSettings(cfg) && IsRun(cfg, states, actions) && j < |states|
    requires d in states[j].db.documents && states[j].db.documents[d].status == READY
    ensures i < j && Commits(cfg, states[i], actions[i], d, states[j].db.documents[d].indexVersion)
    ensures forall k ::
        0 <= k < |actions| && Commits(cfg, states[k], actions[k], d, states[j].db.documents[d].indexVersion) ==> k == i
  {
    i := ReadyByCommit(cfg, states, actions, j, d);
    var version := states[j].db.documents[d].indexVersion;
    forall k | 0 <= k < |actions| && Commits(cfg, states[k], actions[k], d, version) ensures k == i {
      OneCommit(cfg, states, actions, i, k, d, version);
    }
  }

  lemma OneCommit(cfg: Settings, states: seq<System>, actions: seq<Action>, i: nat, k: nat, d: int, v: int)
    requires ValidSettings(cfg) && IsRun(cfg, states, actions) && i < |actions| && k < |actions|
    requires Commits(cfg, states[i], actions[i], d, v) && Commits(cfg, states[k], actions[k], d, v)
    ensures i == k
  {
    hide ValidSettings, IsRun, Commits;
    if i < k {
      CommitsIncrease(cfg, states, actions, i, k, d, v, v);
    } else if k < i {
      CommitsIncrease(cfg, states, actions, k, i, d, v, v);
    }
  }

  lemma {:induction false} ReadyByCommit(cfg: Settings, states: seq<System>, actions: seq<Action>, j: nat, d: int)
      returns (i: nat)
    requires ValidSettings(cfg) && IsRun(cfg, states, actions) && j < |states|
    requires d in states[j].db.documents && states[j].db.documents[d].status == READY
    ensures i < j && Commits(cfg, states[i], actions[i], d, states[j].db.documents[d].indexVersion)
  {
    hide Inv, Steps, ValidSettings, Next, Enabled, Advances, Keeps, Commits;
    if j > 0 {
      RunIsSound(cfg, states, actions, j - 1);
      assert StepAt(cfg, states, actions, j - 1);
      StepIsSound(cfg, states[j - 1], actions[j - 1], states[j]);
      if Commits(cfg, states[j - 1], actions[j - 1], d, states[j].db.documents[d].indexVersion) {
        i := j - 1;
      } else {
        i := ReadyByCommit(cfg, states, actions, j - 1, d);
      }
    }
  }

  /** A document's version never decreases, and a removed document never comes back. */
  lemma VersionsNeverDecrease(cfg: Settings, states: seq<System>, actions: seq<Action>, i: nat, j: nat, d: int)
    requires ValidSettings(cfg) && IsRun(cfg, states, actions) && i <= j < |states|
    requires d < states[i].db.nextId && d in states[j].db.documents
    ensures d in states[i].db.documents
    ensures states[i].db.documents[d].indexVersion <= states[j].db.documents[d].indexVersion
  {
    RunAdvances(cfg, states, actions, i, j);
    assert Moves(states[i].db, states[j].db, d);
  }

  // ----- exclusive claims -----

  /** The step puts the document back to PENDING: a recovery, or a worker's failure with a retry for this version. */
  predicate Requeues(s: System, a: Action, d: int, version: int) {
    || (a.RepairBeat? && d in a.rows)
    || (&& a.MarkFailure? && a.worker in s.workers && s.workers[a.worker].ToMark?
        && s.workers[a.worker].documentId == d && s.workers[a.worker].indexVersion == version
        && s.workers[a.worker].retryable && a.retriesLeft)
  }

  predicate ClaimsVersion(s: System, a: Action, d: int, version: int) {
    && a.Claim? && a.message.IndexMessage? && a.message.documentId == d
    && ClaimResultOf(s.db, d, a.message.requested) == Claimed && s.db.documents[d].indexVersion == version
  }

  lemma PendingAgain(cfg: Settings, s: System, a: Action, t: System, d: int)
    requires ValidSettings(cfg) && Inv(cfg, s.db) && Steps(cfg, s, a, t) && d in s.db.documents && d in t.db.documents
    requires s.db.documents[d].status != PENDING && t.db.documents[d].status == PENDING
    requires t.db.documents[d].indexVersion == s.db.documents[d].indexVersion
    ensures Requeues(s, a, d, s.db.documents[d].indexVersion)
  {
    hide Next, Enabled, Requeues, ValidSettings, Inv;
    if a.Write? {
      WriteIs(cfg, s, a);
      LateWriteReopensNothing(cfg, s, a.call, d);
    } else if IsCall(a) {
      IdsAreBounded(cfg, s.db);
      CallReopensNothing(cfg, s, a, d);
    } else {
      OnlyRequeued(cfg, s, a, d);
    }
  }

  lemma IdsAreBounded(cfg: Settings, db: Db)
    requires Inv(cfg, db)
    ensures forall d :: d in db.documents ==> d < db.nextId
  {}

  lemma WriteIs(cfg: Settings, s: System, a: Action)
    requires a.Write? && Enabled(cfg, s, a)
    ensures UnlockedReads.IsKnown(s.db, a.call) && UnlockedReads.IsTimely(s.db, a.call)
    ensures Next(cfg, s, a).db == UnlockedReads.Written(s.db, a.call, s.now)
  {
    hide UnlockedReads.Written, UnlockedReads.IsTimely, UnlockedReads.IsKnown;
  }

  /** A call moves a document back to PENDING with a new version only. */
  lemma CallReopensNothing(cfg: Settings, s: System, a: Action, d: int)
    requires Enabled(cfg, s, a) && IsCall(a) && d in s.db.documents && d < s.db.nextId
    ensures var t := Next(cfg, s, a);
            d in t.db.documents && s.db.documents[d].status != PENDING && t.db.documents[d].status == PENDING ==>
              t.db.documents[d].indexVersion != s.db.documents[d].indexVersion
  {
    hide RequestDeletes, Outbox.Enqueue, IsAuthorized, IsKeyTaken, IsNameTaken, IsNameTakenBesides, IsSupported;
    hide NewDocument;
    match a
    case DropKnowledgeBase(user, kb, rows) =>
      if IsAuthorized(s.db, kb, user, true) {
        DroppedIsKnown(s.db, kb, user);
        RequestDeletesAre(MarkDeleted(s.db, kb), rows, s.now);
      }
    case Upload(user, kb, file) => CreatedIsNext(cfg, s.db, user, kb, file);
    case _ =>
  }

  lemma OnlyRequeued(cfg: Settings, s: System, a: Action, d: int)
    requires Enabled(cfg, s, a) && !IsCall(a) && !a.Write? && d in s.db.documents
    ensures var t := Next(cfg, s, a);
            d in t.db.documents && s.db.documents[d].status != PENDING && t.db.documents[d].status == PENDING
            && t.db.documents[d].indexVersion == s.db.documents[d].indexVersion ==>
              Requeues(s, a, d, s.db.documents[d].indexVersion)
  {
    hide RecoverRows, IndexResultOf, ChildrenOf, Rows, WithoutChunksOf, IsStaleSelection, ListsDeleting, Summary;
    hide RepairMessages, Accepted, IsRemovable, Outbox.Dispatch;
    if a.RepairBeat? {
      StaleRowsExist(cfg, s, a);
      RecoverRowsAre(s.db, a.rows, s.now);
    }
  }

  lemma LateWriteReopensNothing(cfg: Settings, s: System, call: UnlockedReads.Call, d: int)
    requires ValidSettings(cfg) && Inv(cfg, s.db) && d in s.db.documents
    requires UnlockedReads.IsKnown(s.db, call) && UnlockedReads.IsTimely(s.db, call)
    ensures var after := UnlockedReads.Written(s.db, call, s.now);
            d in after.documents && s.db.documents[d].status != PENDING && after.documents[d].status == PENDING ==>
              after.documents[d].indexVersion != s.db.documents[d].indexVersion
  {
    hide ValidSettings, Inv, Keeps, NothingBecomesReady;
    hide UnlockedReads.Written, UnlockedReads.IsTimely, UnlockedReads.IsKnown;
    UnlockedReads.WriteIsHarmlessIffTimely(cfg, s.db, call, s.now);
  }

  lemma DroppedIsKnown(db: Db, kb: int, user: User)
    requires IsAuthorized(db, kb, user, true)
    ensures kb in db.knowledgeBases
  {}

  lemma CreatedIsNext(cfg: Settings, db: Db, user: User, kb: int, file: File)
    ensures CreateResultOf(cfg, db, user, kb, file).Created? ==>
        CreateResultOf(cfg, db, user, kb, file).documentId == db.nextId
  {}

  lemma StaleRowsExist(cfg: Settings, s: System, a: Action)
    requires a.RepairBeat? && Enabled(cfg, s, a)
    ensures forall d :: d in a.rows ==> d in s.db.documents
  {
    assert forall d :: d in a.rows ==> IsEligible(s.db, s.now - cfg.staleSeconds, a.locked, d);
  }

  lemma {:induction false} RequeuedBetween(cfg: Settings, states: seq<System>, actions: seq<Action>, i: nat, j: nat,
                                           d: int)
      returns (k: nat)
    requires ValidSettings(cfg) && IsRun(cfg, states, actions) && i <= j < |states|
    requires d in states[i].db.documents && d in states[j].db.documents
    requires states[i].db.documents[d].indexVersion == states[j].db.documents[d].indexVersion
    requires states[i].db.documents[d].status != PENDING && states[j].db.documents[d].status == PENDING
    ensures i <= k < j && Requeues(states[k], actions[k], d, states[i].db.documents[d].indexVersion)
    decreases j - i
  {
    hide Steps, ValidSettings, Next, Enabled, Initial, Requeues, KeysUnique, EventsSound, DocumentsSound;
    var s, t := states[j - 1], states[j];
    RunIsSound(cfg, states, actions, i);
    RunAdvances(cfg, states, actions, i, j - 1);
    VersionsNeverDecrease(cfg, states, actions, j - 1, j, d);
    VersionsNeverDecrease(cfg, states, actions, i, j - 1, d);
    if s.db.documents[d].status == PENDING {
      k := RequeuedBetween(cfg, states, actions, i, j - 1, d);
    } else {
      k := j - 1;
      assert StepAt(cfg, states, actions, k);
      RunIsSound(cfg, states, actions, k);
      PendingAgain(cfg, s, actions[k], t, d);
    }
  }

  /** A claim is exclusive: however often its message is delivered, the same version of a document is claimed a second
      time only after a recovery or a failed attempt put it back. */
  lemma ClaimsAreSeparated(cfg: Settings, states: seq<System>, actions: seq<Action>, i: nat, j: nat, d: int,
                           version: int)
      returns (k: nat)
    requires ValidSettings(cfg) && IsRun(cfg, states, actions) && i < j < |actions|
    requires ClaimsVersion(states[i], actions[i], d, version) && ClaimsVersion(states[j], actions[j], d, version)
    ensures i < k < j && Requeues(states[k], actions[k], d, version)
  {
    hide ValidSettings, Initial, Requeues, KeysUnique, EventsSound, DocumentsSound;
    assert StepAt(cfg, states, actions, i);
    k := RequeuedBetween(cfg, states, actions, i + 1, j, d);
  }

  /** What a delivery of an index message does. It claims the document, and a worker starts, only if the document is
      pending at the version asked for; otherwise the tables and the workers stay as they are. */
  lemma DeliveryDecides(cfg: Settings, s: System, a: Action)
    requires a.Claim? && Enabled(cfg, s, a)
    ensures var d, requested, t := a.message.documentId, a.message.requested, Next(cfg, s, a);
            && t.messages == s.messages - multiset{a.message} && t.now == s.now
            && (if d in s.db.documents && s.db.documents[d].status == PENDING
                   && (requested.None? || requested.value == s.db.documents[d].indexVersion) then
                  && d in t.db.documents && t.db.documents[d].status == PROCESSING
                  && t.db.documents[d].errorMessage == None
                  && t.db.documents[d].indexVersion == s.db.documents[d].indexVersion
                  && t.db.documents[d].activity == s.now
                  && t.db == s.db.(documents := s.db.documents[d := t.db.documents[d]])
                  && t.workers == s.workers[s.nextWorker := ToIndex(d, s.db.documents[d].indexVersion, requested)]
                else t.db == s.db && t.workers == s.workers)
  {}

  /** A redelivered message for an old version does nothing, whatever the document's status. */
  lemma StaleDeliveryDoesNothing(cfg: Settings, s: System, a: Action)
    requires a.Claim? && Enabled(cfg, s, a) && a.message.requested.Some? && a.message.documentId in s.db.documents
    requires a.message.requested.value != s.db.documents[a.message.documentId].indexVersion
    ensures Next(cfg, s, a).db == s.db && Next(cfg, s, a).workers == s.workers
  {}

  /** The version the worker is at is the one that its message asked for, if it asked for one. */
  predicate IsAskedFor(job: Job) {
    job.requested.None? || job.requested.value == job.indexVersion
  }

  ghost predicate JobsAskedFor(s: System) {
    forall worker :: worker in s.workers ==> IsAskedFor(s.workers[worker])
  }

  lemma StepKeepsJobs(cfg: Settings, s: System, a: Action)
    requires Enabled(cfg, s, a) && JobsAskedFor(s)
    ensures JobsAskedFor(Next(cfg, s, a))
  {
    hide CreateKnowledgeBase, DeleteKnowledgeBase, Create, Retry, Delete, DispatchEvents, RecoverRows, ClaimIndex;
    hide UpdateKnowledgeBase, Stored, UnlockedReads.Written, UnlockedReads.IsTimely, UnlockedReads.IsKnown;
    hide IndexClaimedDocument, IndexResultOf, MarkIndexFailure, RemoveDocument, RepairMessages, Accepted;
    hide IsStaleSelection, ListsDeleting, ListsDocumentsOf;
  }

  /** In every reachable state every worker works at the version that its message asked for. */
  lemma {:induction false} WorkersAreAskedFor(cfg: Settings, states: seq<System>, actions: seq<Action>, i: nat)
    requires IsRun(cfg, states, actions) && i < |states|
    ensures JobsAskedFor(states[i])
  {
    hide JobsAskedFor, Next, Enabled;
    if i == 0 {
      NoJobs(states[0]);
    } else {
      WorkersAreAskedFor(cfg, states, actions, i - 1);
      assert StepAt(cfg, states, actions, i - 1);
      StepKeepsJobs(cfg, states[i - 1], actions[i - 1]);
    }
  }

  lemma NoJobs(s: System)
    requires Initial(s)
    ensures JobsAskedFor(s)
  {}

  // ----- conservation of requests -----

  /** For every document there is exactly one index event for each version from 1 to its current one and none for any
      other, and a document being deleted has exactly one delete event. */
  lemma RequestsAreConserved(cfg: Settings, states: seq<System>, actions: seq<Action>, i: nat, d: int)
    requires ValidSettings(cfg) && IsRun(cfg, states, actions) && i < |states| && d in states[i].db.documents
    ensures var events, document := states[i].db.events, states[i].db.documents[d];
            && (forall v :: 1 <= v <= document.indexVersion <==> Outbox.IsRequested(events, Outbox.IndexRequest(d, v)))
            && (document.status == DELETING ==> Outbox.IsRequested(events, Outbox.DeleteRequest(d)))
            && (forall j, k :: 0 <= j < |events| && 0 <= k < |events| && events[j].request == events[k].request ==>
                  j == k)
            && (forall j :: 0 <= j < |events| ==>
                    && events[j].attempts <= cfg.maxDispatchAttempts
                    && (events[j].status == Outbox.PENDING <==> events[j].attempts == 0)
                    && (events[j].status == Outbox.FAILED ==> 1 <= events[j].attempts < cfg.maxDispatchAttempts)
                    && (events[j].status == Outbox.DEAD ==> events[j].attempts == cfg.maxDispatchAttempts))
  {
    hide IsRun, IsClassifier, ChunksSound;
    RunIsSound(cfg, states, actions, i);
    assert DocumentSound(states[i].db, d);
  }

  // ----- deleted knowledge bases -----

  /** Once a knowledge base is deleted, every document that it still has in any later state is being deleted. */
  lemma DeletedStaysDead(cfg: Settings, states: seq<System>, actions: seq<Action>, i: nat, j: nat, kb: int, d: int)
    requires ValidSettings(cfg) && IsRun(cfg, states, actions) && i <= j < |states|
    requires kb in states[i].db.knowledgeBases && states[i].db.knowledgeBases[kb].deleted != 0
    requires d in states[j].db.documents && states[j].db.documents[d].knowledgeBaseId == kb
    ensures kb in states[j].db.knowledgeBases && states[j].db.knowledgeBases[kb].deleted != 0
    ensures states[j].db.documents[d].status == DELETING
  {
    hide IsRun, IsClassifier, ChunksSound, RequestsSound, Moves;
    RunAdvances(cfg, states, actions, i, j);
    RunIsSound(cfg, states, actions, j);
    assert DocumentSound(states[j].db, d);
  }

  /** Deleting a knowledge base takes effect at once, for it and for all its documents. */
  lemma DroppingKillsDocuments(cfg: Settings, s: System, user: User, kb: int, rows: seq<int>, d: int)
    requires ValidSettings(cfg) && Inv(cfg, s.db) && Enabled(cfg, s, DropKnowledgeBase(user, kb, rows))
    requires IsAuthorized(s.db, kb, user, true)
    ensures var after := Next(cfg, s, DropKnowledgeBase(user, kb, rows)).db;
            && kb in after.knowledgeBases && after.knowledgeBases[kb].deleted != 0
            && (d in s.db.documents <==> d in after.documents)
            && (d in after.documents ==>
                  after.documents[d].status
                  == if s.db.documents[d].knowledgeBaseId == kb then DELETING else s.db.documents[d].status)
  {
    hide RequestDeletes, EventsSound, KeysUnique, DocumentsSound, IsClassifier;
    var marked := MarkDeleted(s.db, kb);
    MarkDeletedLast(s.db, kb, rows, s.now);
    RequestDeletesAre(marked, rows, s.now);
  }

  /** In every reachable state the live knowledge bases of an owner have different names, and no deletion ever
      violates the constraint, which includes the deleted ones: each of them is marked with its own id. */
  lemma NamesAreUnique(cfg: Settings, states: seq<System>, actions: seq<Action>, i: nat, k: int, m: int)
    requires ValidSettings(cfg) && IsRun(cfg, states, actions) && i < |states|
    requires k in states[i].db.knowledgeBases && m in states[i].db.knowledgeBases
    ensures SameName(states[i].db.knowledgeBases[k], states[i].db.knowledgeBases[m]) ==> k == m
    ensures states[i].db.knowledgeBases[k].deleted in {0, k}
  {
    hide IsRun, IsClassifier, DocumentsSound, EventsSound, IdsBounded;
    RunIsSound(cfg, states, actions, i);
  }

  // ----- one generation of chunks -----

  predicate IsChunkOf(db: Db, d: int, id: int) {
    id in db.chunks && db.chunks[id].documentId == d
  }

  ghost predicate HasIndex(db: Db, d: int, k: int) {
    exists id :: IsChunkOf(db, d, id) && db.chunks[id].chunkIndex == k
  }

  /** A chunk of the given version: a parent without vector, or a child with a vector and a parent of the same
      document. */
  ghost predicate IsWellPlaced(db: Db, d: int, version: int, parents: int, children: int, id: int)
    requires id in db.chunks
  {
    var chunk := db.chunks[id];
    && chunk.indexVersion == version
    && (if chunk.isParent then
          -parents <= chunk.chunkIndex < 0 && chunk.embedding.None? && chunk.parentChunkId.None?
        else
          && 0 <= chunk.chunkIndex < children && chunk.embedding.Some? && chunk.parentChunkId.Some?
          && IsChunkOf(db, d, chunk.parentChunkId.value) && db.chunks[chunk.parentChunkId.value].isParent)
  }

  /** All chunks of the document have one version; its parents are numbered -1 to -parents and its children from 0 to
      chunk_count - 1, each number once. */
  ghost predicate IsSingleGeneration(db: Db, d: int, version: int, parents: int)
    requires d in db.documents
  {
    var children := db.documents[d].chunkCount;
    && (forall id :: IsChunkOf(db, d, id) ==>
          IsWellPlaced(db, d, version, parents, children, id)
          && db.chunks[id].knowledgeBaseId == db.documents[d].knowledgeBaseId)
    && (forall k :: -parents <= k < children ==> HasIndex(db, d, k))
    && (forall a, b ::
          IsChunkOf(db, d, a) && IsChunkOf(db, d, b) && db.chunks[a].chunkIndex == db.chunks[b].chunkIndex ==> a == b)
  }

  lemma RowsAre(g: Generation, id: int)
    requires |g.vectors| == |ChildrenOf(g.parents)| && g.base <= id < g.base + |g.parents| + |ChildrenOf(g.parents)|
    ensures id in Rows(g)
    ensures Rows(g)[id]
        == if id < g.base + |g.parents| then ParentRow(g, id - g.base) else ChildRow(g, id - g.base - |g.parents|)
  {
    hide ChildrenOf;
    assert IsRowId(g, |g.parents| + |ChildrenOf(g.parents)|, id);
  }

  lemma RowsOnly(g: Generation, id: int)
    requires |g.vectors| == |ChildrenOf(g.parents)| && id in Rows(g)
    ensures g.base <= id < g.base + |g.parents| + |ChildrenOf(g.parents)|
  {}

  lemma GenerationIsNumbered(db: Db, d: int, g: Generation)
    requires d in db.documents && IsGenerationOf(db, d, g)
    ensures IsSingleGeneration(db, d, g.indexVersion, |g.parents|)
  {
    hide ChildrenOf, Rows;
    var m, n := |g.parents|, |ChildrenOf(g.parents)|;
    forall id | IsChunkOf(db, d, id)
      ensures g.base <= id < g.base + m + n && db.chunks[id] == Rows(g)[id]
    {
      assert id in ChunksOf(db.chunks, d);
      RowsOnly(g, id);
    }
    forall id | g.base <= id < g.base + m + n
      ensures IsChunkOf(db, d, id)
    {
      RowsAre(g, id);
      assert id in ChunksOf(db.chunks, d);
    }
    forall id | IsChunkOf(db, d, id)
      ensures IsWellPlaced(db, d, g.indexVersion, m, n, id) && db.chunks[id].knowledgeBaseId == g.knowledgeBaseId
    {
      RowsAre(g, id);
      if id >= g.base + m {
        var child := ChildrenOf(g.parents)[id - g.base - m];
        ChildrenBelong(g.parents);
        assert child in ChildrenOf(g.parents);
        RowsAre(g, g.base + child.parent);
      }
    }
    forall k | -m <= k < n
      ensures HasIndex(db, d, k)
    {
      var id := if k < 0 then g.base - k - 1 else g.base + m + k;
      RowsAre(g, id);
      assert IsChunkOf(db, d, id) && db.chunks[id].chunkIndex == k;
    }
    forall a, b | IsChunkOf(db, d, a) && IsChunkOf(db, d, b) && db.chunks[a].chunkIndex == db.chunks[b].chunkIndex
      ensures a == b
    {
      RowsAre(g, a);
      RowsAre(g, b);
    }
  }

  /** In every reachable state a document's chunks are a single generation, at most as new as the document. A ready
      document has the current one, with at least one child. */
  lemma SingleGeneration(cfg: Settings, states: seq<System>, actions: seq<Action>, i: nat, d: int)
      returns (version: int, parents: int)
    requires ValidSettings(cfg) && IsRun(cfg, states, actions) && i < |states| && d in states[i].db.documents
    ensures IsSingleGeneration(states[i].db, d, version, parents)
    ensures version <= states[i].db.documents[d].indexVersion
    ensures states[i].db.documents[d].status == READY ==>
              && version == states[i].db.documents[d].indexVersion
              && states[i].db.documents[d].chunkCount >= 1 && parents >= 1
  {
    hide IsRun, IsClassifier, IsSingleGeneration, Rows, ChildrenOf, RequestsSound;
    RunIsSound(cfg, states, actions, i);
    var db := states[i].db;
    assert DocumentSound(db, d);
    if HasNoChunks(db, d) {
      version, parents := db.documents[d].indexVersion, 0;
      NoChunksAreNumbered(db, d, version);
    } else {
      var g :| HasGeneration(db, d, g);
      version, parents := g.indexVersion, |g.parents|;
      GenerationIsNumbered(db, d, g);
    }
  }

  lemma NoChunksAreNumbered(db: Db, d: int, version: int)
    requires d in db.documents && ChunksOf(db.chunks, d) == map[] && db.documents[d].chunkCount == 0
    ensures IsSingleGeneration(db, d, version, 0)
  {
    forall id ensures IsChunkOf(db, d, id) <==> id in ChunksOf(db.chunks, d) {}
  }

  /** Retrieval starts from current chunks only: what it can see belongs to a ready document of a requested knowledge
      base that is not deleted and that the user owns, administers or finds public; it has the document's current
      version, and has its parent beside it. */
  lemma ServedChunksAreCurrent(cfg: Settings, states: seq<System>, actions: seq<Action>, i: nat,
                               user: User, requested: set<int>, id: int)
    requires ValidSettings(cfg) && IsRun(cfg, states, actions) && i < |states|
    requires IsServed(states[i].db, user, requested, id)
    ensures var db := states[i].db;
            var chunk := db.chunks[id];
            var document := db.documents[chunk.documentId];
            && chunk.indexVersion == document.indexVersion && chunk.embedding.Some?
            && chunk.knowledgeBaseId == document.knowledgeBaseId && chunk.knowledgeBaseId in requested
            && (var base := db.knowledgeBases[chunk.knowledgeBaseId];
                base.deleted == 0 && (user.isAdmin || base.ownerId == user.id || base.isPublic))
            && chunk.parentChunkId.Some? && IsChunkOf(db, chunk.documentId, chunk.parentChunkId.value)
            && db.chunks[chunk.parentChunkId.value].isParent
            && db.chunks[chunk.parentChunkId.value].indexVersion == document.indexVersion
  {
    hide IsRun, ValidSettings;
    var d := states[i].db.chunks[id].documentId;
    var version, parents := SingleGeneration(cfg, states, actions, i, d);
    assert IsChunkOf(states[i].db, d, id);
  }

  /** And it misses none of them: a ready document that the user may read is served with all its children. */
  lemma ReadyDocumentsAreServed(cfg: Settings, states: seq<System>, actions: seq<Action>, i: nat,
                                user: User, requested: set<int>, d: int, k: int) returns (id: int)
    requires ValidSettings(cfg) && IsRun(cfg, states, actions) && i < |states|
    requires d in states[i].db.documents && states[i].db.documents[d].status == READY
    requires states[i].db.documents[d].knowledgeBaseId in requested
    requires states[i].db.documents[d].knowledgeBaseId in states[i].db.knowledgeBases
    requires var base := states[i].db.knowledgeBases[states[i].db.documents[d].knowledgeBaseId];
             user.isAdmin || base.ownerId == user.id || base.isPublic
    requires 0 <= k < states[i].db.documents[d].chunkCount
    ensures IsServed(states[i].db, user, requested, id)
    ensures states[i].db.chunks[id].documentId == d && states[i].db.chunks[id].chunkIndex == k
  {
    hide IsRun, ValidSettings;
    var db := states[i].db;
    var version, parents := SingleGeneration(cfg, states, actions, i, d);
    assert HasIndex(db, d, k);
    RunIsSound(cfg, states, actions, i);
    assert DocumentSound(db, d);
    id :| IsChunkOf(db, d, id) && db.chunks[id].chunkIndex == k;
  }
}
