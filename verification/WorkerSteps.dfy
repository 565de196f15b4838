/** What the workers, the repair beat and the removal make of a document, case by case. */
module WorkerSteps {
  import opened Prelude
  import opened RagStore
  import opened RagInvariant
  import opened Chunking
  import opened Lifecycle
  import opened LifecycleSafety
  import opened SectionRows
  import Outbox

  /** Why an attempt to index a document fails for good: its object is missing, its file cannot be parsed or has no
      sections, the provider refuses for good, or answers with a wrong number of vectors. */
  ghost predicate FailsForGood(cfg: Settings, db: Db, document: Document, io: Io) {
    !io.DatabaseFault?
    && (|| document.storageKey !in db.objects
        || (!io.StorageFault?
            && (|| cfg.parse(document.storageKey.file).None?
                || SectionsOf(cfg, document.storageKey.file) == []
                || (if io.EmbeddingFault? then !io.retryable
                    else |io.vectors| != Offset(SectionsOf(cfg, document.storageKey.file),
                                                |SectionsOf(cfg, document.storageKey.file)|)))))
  }

  /** And why it fails for the time being. */
  ghost predicate FailsForNow(cfg: Settings, db: Db, document: Document, io: Io) {
    || io.DatabaseFault?
    || (document.storageKey in db.objects
        && (|| io.StorageFault?
            || (&& io.EmbeddingFault? && io.retryable && cfg.parse(document.storageKey.file).Some?
                && SectionsOf(cfg, document.storageKey.file) != [])))
  }

  /** The worker's document is there, at its version, and still being processed. */
  ghost predicate IsCurrentJob(s: System, job: Job) {
    && job.documentId in s.db.documents
    && s.db.documents[job.documentId].indexVersion == job.indexVersion
    && s.db.documents[job.documentId].status == PROCESSING
  }

  /** A worker commits exactly if its version is current and processing and nothing fails; a failure leaves the tables
      as they are, and the worker has to mark it. A worker whose document has moved on gives up, unless the database
      fails it first. */
  lemma IndexingDecides(cfg: Settings, s: System, a: Action)
    requires a.Index? && Enabled(cfg, s, a)
    ensures var job, t := s.workers[a.worker], Next(cfg, s, a);
            var failed := ToMark(job.documentId, job.indexVersion, job.requested, true);
            if IsCurrentJob(s, job) then
              var document := s.db.documents[job.documentId];
              && (FailsForGood(cfg, s.db, document, a.io) ==>
                    t == s.(workers := s.workers[a.worker := failed.(retryable := false)]))
              && (FailsForNow(cfg, s.db, document, a.io) ==> t == s.(workers := s.workers[a.worker := failed]))
              && (Commits(cfg, s, a, job.documentId, job.indexVersion)
                  <==> !FailsForGood(cfg, s.db, document, a.io) && !FailsForNow(cfg, s.db, document, a.io))
              && (Commits(cfg, s, a, job.documentId, job.indexVersion) ==> t.workers == s.workers - {a.worker})
            else
              && !Commits(cfg, s, a, job.documentId, job.indexVersion)
              && t == s.(workers := if a.io.DatabaseFault? then s.workers[a.worker := failed]
                                    else s.workers - {a.worker})
  {
    hide ChildrenOf, ParentChildChunks, ReplaceChunks, Offset;
    if IsCurrentJob(s, s.workers[a.worker]) {
      var file := s.db.documents[s.workers[a.worker].documentId].storageKey.file;
      if cfg.parse(file).Some? {
        ChildrenCount(SectionsOf(cfg, file));
      }
    }
  }

  /** Marking a failure: the document waits for another attempt exactly if the failure is retryable and retries are
      left, and then its message is sent again as it came; otherwise it has failed. A version that is over, ready or
      being deleted is not marked. */
  lemma MarkingDecides(cfg: Settings, s: System, a: Action)
    requires a.MarkFailure? && Enabled(cfg, s, a)
    ensures var job, t := s.workers[a.worker], Next(cfg, s, a);
            var d, retry := job.documentId, job.retryable && a.retriesLeft;
            && t.workers == s.workers - {a.worker} && t.now == s.now
            && t.messages
               == (if retry then s.messages + multiset{IndexMessage(d, job.requested)} else s.messages)
            && (if d in s.db.documents && s.db.documents[d].indexVersion == job.indexVersion
                   && s.db.documents[d].status != READY && s.db.documents[d].status != DELETING then
                  && t.db == s.db.(documents := t.db.documents)
                  && t.db.documents.Keys == s.db.documents.Keys
                  && (forall e :: e in s.db.documents && e != d ==> t.db.documents[e] == s.db.documents[e])
                  && t.db.documents[d].(activity := s.db.documents[d].activity)
                     == s.db.documents[d].(status := if retry then PENDING else FAILED,
                                           errorMessage := Some(if |a.summary| <= 512 then a.summary
                                                                else a.summary[..512]))
                else t.db == s.db)
  {}

  /** The repair beat puts stale documents back to waiting, at their versions and with the time of their recovery, and
      no others: those that wait or are worked on and whose last activity is too long ago. With room in the batch it
      recovers all of them whose rows are not locked. */
  lemma RepairDecides(cfg: Settings, s: System, a: Action)
    requires a.RepairBeat? && Enabled(cfg, s, a)
    ensures var t := Next(cfg, s, a);
            && t.db == s.db.(documents := t.db.documents) && t.db.documents.Keys == s.db.documents.Keys
            && forall d :: d in s.db.documents ==>
                 var before, after := s.db.documents[d], t.db.documents[d];
                 if d in a.rows then
                   && after.errorMessage.Some?
                   && after == before.(status := PENDING, activity := s.now, errorMessage := after.errorMessage)
                 else after == before
    ensures forall d :: d in a.rows ==>
              && d in s.db.documents && s.db.documents[d].status in {PENDING, PROCESSING}
              && s.db.documents[d].activity < s.now - cfg.staleSeconds && d !in a.locked
    ensures |a.rows| < 100 ==>
              forall d :: (&& d in s.db.documents && s.db.documents[d].status in {PENDING, PROCESSING}
                           && s.db.documents[d].activity < s.now - cfg.staleSeconds && d !in a.locked) ==> d in a.rows
    ensures |a.rows| <= 100
  {
    hide RepairMessages, ListsDeleting;
    StaleRowsExist(cfg, s, a);
    RecoverRowsAre(s.db, a.rows, s.now);
    forall d | d in a.rows ensures IsEligible(s.db, s.now - cfg.staleSeconds, a.locked, d) {}
    forall d | d in s.db.documents && s.db.documents[d].status in {PENDING, PROCESSING}
               && s.db.documents[d].activity < s.now - cfg.staleSeconds && d !in a.locked && |a.rows| < 100
      ensures d in a.rows
    {
      assert IsEligible(s.db, s.now - cfg.staleSeconds, a.locked, d);
    }
  }

  /** The messages of a repair beat: for each recovered document one with its version, then for each document that is
      being deleted one, in order. */
  lemma {:induction false} RepairSends(db: Db, rows: seq<int>, deleting: seq<int>)
    requires forall d :: d in rows ==> d in db.documents
    ensures forall i :: 0 <= i < |rows| ==>
              && rows[i] in db.documents
              && RepairMessages(db, rows, deleting)[i]
                 == IndexMessage(rows[i], Some(db.documents[rows[i]].indexVersion))
    ensures forall i :: 0 <= i < |deleting| ==>
              RepairMessages(db, rows, deleting)[|rows| + i] == DeleteMessage(deleting[i])
  {
    hide IndexMessages;
    forall i: nat | i < |rows|
      ensures rows[i] in db.documents
      ensures IndexMessages(db, rows)[i] == IndexMessage(rows[i], Some(db.documents[rows[i]].indexVersion))
    {
      IndexMessageAt(db, rows, i);
    }
  }

  lemma {:induction false} IndexMessageAt(db: Db, rows: seq<int>, i: nat)
    requires (forall d :: d in rows ==> d in db.documents) && i < |rows|
    ensures rows[i] in db.documents
    ensures IndexMessages(db, rows)[i] == IndexMessage(rows[i], Some(db.documents[rows[i]].indexVersion))
  {
    var front, last := rows[..|rows| - 1], rows[|rows| - 1];
    assert rows[i] in rows;
    assert forall d :: d in front ==> d in rows;
    if i < |front| {
      IndexMessageAt(db, front, i);
    }
  }

  /** A row vanishes only because its removal was asked for while it was being deleted; its chunks and its object go
      with it, and nothing else. */
  lemma OnlyDeletingVanish(cfg: Settings, s: System, a: Action, d: int)
    requires ValidSettings(cfg) && Inv(cfg, s.db) && Enabled(cfg, s, a) && d in s.db.documents
    ensures d !in Next(cfg, s, a).db.documents
       <==> a.Remove? && a.message.documentId == d && s.db.documents[d].status == DELETING
    ensures d !in Next(cfg, s, a).db.documents ==>
              Next(cfg, s, a).db
              == s.db.(documents := s.db.documents - {d}, objects := s.db.objects - {s.db.documents[d].storageKey},
                       chunks := map id | id in s.db.chunks && s.db.chunks[id].documentId != d :: s.db.chunks[id])
  {
    hide Inv, ValidSettings;
    if a.Remove? {
      RemovalIs(cfg, s, a, d);
    } else {
      RowsStay(cfg, s, a, d);
    }
  }

  lemma RemovalIs(cfg: Settings, s: System, a: Action, d: int)
    requires a.Remove? && Enabled(cfg, s, a) && d in s.db.documents
    ensures d !in Next(cfg, s, a).db.documents <==> a.message.documentId == d && s.db.documents[d].status == DELETING
    ensures d !in Next(cfg, s, a).db.documents ==>
              Next(cfg, s, a).db
              == s.db.(documents := s.db.documents - {d}, objects := s.db.objects - {s.db.documents[d].storageKey},
                       chunks := map id | id in s.db.chunks && s.db.chunks[id].documentId != d :: s.db.chunks[id])
  {}

  lemma RowsStay(cfg: Settings, s: System, a: Action, d: int)
    requires Enabled(cfg, s, a) && d in s.db.documents && !a.Remove?
    ensures d in Next(cfg, s, a).db.documents
  {
    hide Outbox.Enqueue, RequestDeletes, RecoverRows, IsAuthorized, IsStaleSelection, ListsDeleting, RepairMessages;
    hide Accepted, IsNameTaken, IsNameTakenBesides, IsSupported, Summary, IndexResultOf, WithoutChunksOf, Rows;
    hide IsKeyTaken, Outbox.Dispatch, UnlockedReads.LateDeletes, UnlockedReads.LosesOne, UnlockedReads.IsTimely;
    if a.Write? && a.call.ToDrop? && a.call.kb in s.db.knowledgeBases {
      UnlockedReads.LateDeletesAre(MarkDeleted(s.db, a.call.kb), a.call.rows, s.now);
    }
    if a.RepairBeat? {
      StaleRowsExist(cfg, s, a);
    }
    if a.DropKnowledgeBase? && IsAuthorized(s.db, a.kb, a.user, true) {
      DroppedIsKnown(s.db, a.kb, a.user);
    }
  }
}
