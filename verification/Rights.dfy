/** Who may do what: the effects of API calls, and what retrieval serves, by ownership, administration and publicity. */
module Rights {
  import opened Prelude
  import opened RagStore
  import opened RagInvariant
  import opened UnlockedReads
  import opened Lifecycle
  import opened LifecycleSafety
  import opened OverlappingCalls
  import opened AnyOverlap
  import Outbox

  /** The step is a call of the user. */
  predicate IsCallOf(a: Action, user: User) {
    && (|| a.AddKnowledgeBase? || a.ChangeKnowledgeBase? || a.DropKnowledgeBase? || a.Upload? || a.Reindex?
        || a.Discard?)
    && a.user == user
  }

  // ----- what strangers cannot do -----

  /** The knowledge base, its documents, their chunks and their events are as they were. */
  ghost predicate IsUntouched(db: Db, after: Db, kb: int)
    requires kb in db.knowledgeBases
  {
    && kb in after.knowledgeBases && after.knowledgeBases[kb] == db.knowledgeBases[kb]
    && (forall d :: d in db.documents && db.documents[d].knowledgeBaseId == kb ==>
          d in after.documents && after.documents[d] == db.documents[d])
    && (forall d :: d in after.documents && after.documents[d].knowledgeBaseId == kb ==> d in db.documents)
    && after.chunks == db.chunks
    && |db.events| <= |after.events| && after.events[..|db.events|] == db.events
    && forall i :: |db.events| <= i < |after.events| && after.events[i].request.documentId in db.documents ==>
         db.documents[after.events[i].request.documentId].knowledgeBaseId != kb
  }

  /** One more event for another document, or none. */
  lemma EnqueueLeaves(events: Outbox.Table, request: Outbox.Request)
    ensures |events| <= |Outbox.Enqueue(events, request)| && Outbox.Enqueue(events, request)[..|events|] == events
    ensures forall i :: |events| <= i < |Outbox.Enqueue(events, request)| ==>
              Outbox.Enqueue(events, request)[i].request == request
  {}

  lemma {:induction false} DeletesLeave(db: Db, rows: seq<int>, now: int)
    requires forall d :: d in rows ==> d in db.documents
    ensures var after := RequestDeletes(db, rows, now);
            && |db.events| <= |after.events| && after.events[..|db.events|] == db.events
            && (forall i :: |db.events| <= i < |after.events| ==> after.events[i].request.documentId in rows)
            && forall d :: d in db.documents && d !in rows ==> after.documents[d] == db.documents[d]
  {
    hide Outbox.Enqueue;
    if rows != [] {
      var front, last := rows[..|rows| - 1], rows[|rows| - 1];
      assert forall d :: d in front ==> d in rows;
      assert last in rows;
      DeletesLeave(db, front, now);
      EnqueueLeaves(RequestDeletes(db, front, now).events, Outbox.DeleteRequest(last));
    }
  }

  ghost predicate IsStranger(db: Db, kb: int, user: User) {
    kb in db.knowledgeBases && !user.isAdmin && db.knowledgeBases[kb].ownerId != user.id
  }

  lemma AddingLeaves(db: Db, user: User, name: string, isPublic: bool, kb: int)
    requires IdsFresh(db) && IsStranger(db, kb, user)
    ensures IsUntouched(db, CreateKnowledgeBase(db, user, name, isPublic), kb)
  {}

  lemma EditingLeaves(db: Db, user: User, other: int, name: Option<string>, isPublic: Option<bool>, kb: int)
    requires IsStranger(db, kb, user)
    ensures IsUntouched(db, UpdateKnowledgeBase(db, user, other, name, isPublic), kb)
    ensures other == kb ==> UpdateKnowledgeBase(db, user, other, name, isPublic) == db
  {}

  lemma DroppingLeaves(db: Db, user: User, other: int, rows: seq<int>, now: int, kb: int)
    requires IsStranger(db, kb, user) && ListsDocumentsOf(db, other, rows)
    ensures IsUntouched(db, DeleteKnowledgeBase(db, user, other, rows, now), kb)
    ensures other == kb ==> DeleteKnowledgeBase(db, user, other, rows, now) == db
  {
    hide RequestDeletes;
    if IsAuthorized(db, other, user, true) {
      RequestDeletesAre(MarkDeleted(db, other), rows, now);
      DeletesLeave(MarkDeleted(db, other), rows, now);
    }
  }

  lemma UploadLeaves(cfg: Settings, db: Db, user: User, other: int, file: File, now: int, kb: int)
    requires IdsFresh(db) && IsStranger(db, kb, user)
    ensures IsUntouched(db, Create(cfg, db, user, other, file, now), kb)
    ensures other == kb ==> Create(cfg, db, user, other, file, now) == db
  {
    hide Outbox.Enqueue, IsSupported, IsKeyTaken;
    EnqueueLeaves(db.events, Outbox.IndexRequest(db.nextId, 1));
  }

  lemma RetryLeaves(db: Db, other: int, d: int, user: User, now: int, kb: int)
    requires IsStranger(db, kb, user)
    ensures IsUntouched(db, Retry(db, other, d, user, now), kb)
    ensures other == kb ==> Retry(db, other, d, user, now) == db
  {
    hide Outbox.Enqueue;
    if d in db.documents {
      EnqueueLeaves(db.events, Outbox.IndexRequest(d, db.documents[d].indexVersion + 1));
    }
  }

  lemma DeleteLeaves(db: Db, other: int, d: int, user: User, now: int, kb: int)
    requires IsStranger(db, kb, user)
    ensures IsUntouched(db, Delete(db, other, d, user, now), kb)
    ensures other == kb ==> Delete(db, other, d, user, now) == db
  {
    hide Outbox.Enqueue;
    EnqueueLeaves(db.events, Outbox.DeleteRequest(d));
  }

  /** A call of a user who neither owns a knowledge base nor is an administrator leaves it untouched, public or not; and
      leaves everything as it is if the call is for this knowledge base. */
  lemma StrangersTouchNothing(cfg: Settings, s: System, a: Action, user: User, kb: int)
    requires IdsFresh(s.db) && Enabled(cfg, s, a) && IsCallOf(a, user) && kb in s.db.knowledgeBases
    requires !user.isAdmin && s.db.knowledgeBases[kb].ownerId != user.id
    ensures IsUntouched(s.db, Next(cfg, s, a).db, kb)
    ensures !a.AddKnowledgeBase? && a.kb == kb ==> Next(cfg, s, a) == s
    ensures Next(cfg, s, a).messages == s.messages && Next(cfg, s, a).workers == s.workers
  {
    hide UpdateKnowledgeBase, DeleteKnowledgeBase, Create, Retry, Delete, CreateKnowledgeBase, IsUntouched;
    match a
    case AddKnowledgeBase(_, name, isPublic) => AddingLeaves(s.db, user, name, isPublic, kb);
    case ChangeKnowledgeBase(_, other, name, isPublic) => EditingLeaves(s.db, user, other, name, isPublic, kb);
    case DropKnowledgeBase(_, other, rows) => DroppingLeaves(s.db, user, other, rows, s.now, kb);
    case Upload(_, other, file) => UploadLeaves(cfg, s.db, user, other, file, s.now, kb);
    case Reindex(_, other, d) => RetryLeaves(s.db, other, d, user, s.now, kb);
    case Discard(_, other, d) => DeleteLeaves(s.db, other, d, user, s.now, kb);
  }

  /** Nor can he begin a call that would write later. */
  lemma StrangersBeginNothing(cfg: Settings, w: World, user: User, call: Call)
    requires BaseOf(call) in w.system.db.knowledgeBases
    requires !user.isAdmin && w.system.db.knowledgeBases[BaseOf(call)].ownerId != user.id
    ensures !CanStep(cfg, w, Begin(user, call))
  {}

  // ----- what owners and administrators can do -----

  ghost predicate OnlyChanges(db: Db, after: Db, d: int) {
    && d in after.documents && after == db.(documents := db.documents[d := after.documents[d]], events := after.events)
  }

  /** An administrator or the owner of a live knowledge base deletes and retries its documents. */
  lemma OwnersRetryAndDelete(cfg: Settings, s: System, a: Action, user: User)
    requires Enabled(cfg, s, a) && IsCallOf(a, user) && (a.Reindex? || a.Discard?)
    requires IsLive(s.db, a.kb) && (user.isAdmin || s.db.knowledgeBases[a.kb].ownerId == user.id)
    requires a.d in s.db.documents && s.db.documents[a.d].knowledgeBaseId == a.kb
    ensures var t, before := Next(cfg, s, a), s.db.documents[a.d];
            && OnlyChanges(s.db, t.db, a.d) && t == s.(db := t.db)
            && (a.Reindex? ==>
                  && t.db.documents[a.d]
                     == before.(status := PENDING, errorMessage := None, indexVersion := before.indexVersion + 1,
                                activity := s.now)
                  && Outbox.IsRequested(t.db.events, Outbox.IndexRequest(a.d, before.indexVersion + 1)))
            && (a.Discard? ==>
                  && t.db.documents[a.d]
                     == (if before.status == DELETING then before else before.(status := DELETING, activity := s.now))
                  && Outbox.IsRequested(t.db.events, Outbox.DeleteRequest(a.d)))
  {
    hide Outbox.Enqueue, Outbox.IsRequested;
    if a.Reindex? {
      Outbox.EnqueueAddsOne(s.db.events, Outbox.IndexRequest(a.d, s.db.documents[a.d].indexVersion + 1));
      assert Outbox.IsRequested(Next(cfg, s, a).db.events,
                                Outbox.IndexRequest(a.d, s.db.documents[a.d].indexVersion + 1));
    } else {
      Outbox.EnqueueAddsOne(s.db.events, Outbox.DeleteRequest(a.d));
      assert s.db.documents[a.d := s.db.documents[a.d]] == s.db.documents;
      assert Outbox.IsRequested(Next(cfg, s, a).db.events, Outbox.DeleteRequest(a.d));
    }
  }

  /** He uploads files of the four formats up to the maximum size, whose content the knowledge base does not
      have yet. */
  lemma OwnersUpload(cfg: Settings, s: System, a: Action, user: User)
    requires Enabled(cfg, s, a) && a.Upload? && a.user == user
    requires IsLive(s.db, a.kb) && (user.isAdmin || s.db.knowledgeBases[a.kb].ownerId == user.id)
    ensures var t, key, d := Next(cfg, s, a), StorageKey(a.kb, a.file), s.db.nextId;
            if a.file.suffix !in {"txt", "md", "docx", "pdf"} || |a.file.data| > cfg.maxFileSize then t == s
            else if exists e :: e in s.db.documents && s.db.documents[e].storageKey == key then
              t == s.(db := s.db.(objects := s.db.objects + {key}))
            else
              && t == s.(db := t.db) && t.db.objects == s.db.objects + {key}
              && t.db.chunks == s.db.chunks && t.db.knowledgeBases == s.db.knowledgeBases
              && t.db.documents == s.db.documents[d := Document(a.kb, key, PENDING, None, 0, 1, None, s.now)]
              && t.db.nextId == d + 1 && Outbox.IsRequested(t.db.events, Outbox.IndexRequest(d, 1))
  {
    hide Outbox.Enqueue, Outbox.IsRequested;
    Outbox.EnqueueAddsOne(s.db.events, Outbox.IndexRequest(s.db.nextId, 1));
    assert Outbox.IsRequested(Outbox.Enqueue(s.db.events, Outbox.IndexRequest(s.db.nextId, 1)),
                              Outbox.IndexRequest(s.db.nextId, 1));
  }

  /** He renames it and makes it public, unless another live knowledge base of its owner has the name. */
  lemma OwnersEdit(cfg: Settings, s: System, a: Action, user: User)
    requires Enabled(cfg, s, a) && a.ChangeKnowledgeBase? && a.user == user
    requires IsLive(s.db, a.kb) && (user.isAdmin || s.db.knowledgeBases[a.kb].ownerId == user.id)
    ensures var t, base := Next(cfg, s, a), s.db.knowledgeBases[a.kb];
            var name := if a.newName.Some? then a.newName.value else base.name;
            if exists k :: k in s.db.knowledgeBases && k != a.kb && s.db.knowledgeBases[k].deleted == 0
                           && s.db.knowledgeBases[k].ownerId == base.ownerId && s.db.knowledgeBases[k].name == name then
              t == s
            else
              && t == s.(db := s.db.(knowledgeBases := t.db.knowledgeBases))
              && a.kb in t.db.knowledgeBases
              && t.db.knowledgeBases == s.db.knowledgeBases[a.kb := t.db.knowledgeBases[a.kb]]
              && t.db.knowledgeBases[a.kb]
                 == KnowledgeBase(base.ownerId, name,
                                  if a.newPublic.Some? then a.newPublic.value else base.isPublic, 0)
  {}

  /** Everybody adds knowledge bases of his own, except under the name of a live one that he has. */
  lemma UsersAdd(cfg: Settings, s: System, a: Action)
    requires Enabled(cfg, s, a) && a.AddKnowledgeBase?
    ensures var t := Next(cfg, s, a);
            if exists k :: k in s.db.knowledgeBases && s.db.knowledgeBases[k].ownerId == a.user.id
                           && s.db.knowledgeBases[k].name == a.name && s.db.knowledgeBases[k].deleted == 0 then t == s
            else
              t == s.(db := s.db.(knowledgeBases := s.db.knowledgeBases[s.db.nextId :=
                                    KnowledgeBase(a.user.id, a.name, a.isPublic, 0)],
                                  nextId := s.db.nextId + 1))
  {}

  // ----- ownership over runs -----

  ghost predicate OwnersStay(db: Db, after: Db) {
    forall k :: k in db.knowledgeBases ==>
      k in after.knowledgeBases && after.knowledgeBases[k].ownerId == db.knowledgeBases[k].ownerId
  }

  lemma StepKeepsOwners(cfg: Settings, w: World, step: Step)
    requires IdsFresh(w.system.db) && CanStep(cfg, w, step)
    ensures OwnersStay(w.system.db, After(cfg, w, step).system.db)
  {
    hide Outbox.Enqueue, RequestDeletes, LateDeletes, Marks, LosesOne, IsKeyTaken, IsNameTaken, IsNameTakenBesides;
    match step
    case Base(action) => NextKeepsOwners(cfg, w.system, action);
    case Finish(id) =>
      var call := w.calls[id];
      if call.ToDrop? && call.kb in w.system.db.knowledgeBases {
        LateDeletesAre(MarkDeleted(w.system.db, call.kb), call.rows, w.system.now);
      }
    case _ =>
  }

  lemma NextKeepsOwners(cfg: Settings, s: System, a: Action)
    requires IdsFresh(s.db) && Enabled(cfg, s, a) && !a.Write?
    ensures OwnersStay(s.db, Next(cfg, s, a).db)
  {
    hide RequestDeletes, Outbox.Enqueue, RecoverRows, IsAuthorized, IsStaleSelection, ListsDeleting, RepairMessages;
    hide Accepted, IsNameTaken, IsNameTakenBesides, IsSupported, Summary, ClaimResultOf, IndexResultOf, WithoutChunksOf;
    hide Rows, IsKeyTaken, Outbox.Dispatch;
    if a.DropKnowledgeBase? && IsAuthorized(s.db, a.kb, a.user, true) {
      DroppedIsKnown(s.db, a.kb, a.user);
      RequestDeletesAre(MarkDeleted(s.db, a.kb), a.rows, s.now);
    } else if a.RepairBeat? {
      StaleRowsExist(cfg, s, a);
      RecoverRowsAre(s.db, a.rows, s.now);
    }
  }

  /** Over every run, whatever overlaps, a knowledge base keeps its owner; so the right to write does not change. */
  lemma {:induction false} OwnershipIsFixed(cfg: Settings, worlds: seq<World>, steps: seq<Step>, i: nat, j: nat)
    requires ValidSettings(cfg) && IsOverlappingRun(cfg, worlds, steps) && i <= j < |worlds|
    ensures OwnersStay(worlds[i].system.db, worlds[j].system.db)
    decreases j - i
  {
    hide IsWellFormed, ValidSettings, CanStep, IsOverlappingRun, NothingReturns;
    RunBegins(cfg, worlds, steps);
    if i < j {
      OwnershipIsFixed(cfg, worlds, steps, i, j - 1);
      RunIsWellFormed(cfg, worlds, steps, j - 1);
      WellFormedIdsFresh(cfg, worlds[j - 1].system.db);
      RunGoesOn(cfg, worlds, steps, j - 1);
      StepKeepsOwners(cfg, worlds[j - 1], steps[j - 1]);
    }
  }

  lemma WellFormedIdsFresh(cfg: Settings, db: Db)
    requires IsWellFormed(cfg, db)
    ensures IdsFresh(db)
  {}
}
