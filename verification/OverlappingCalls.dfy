/** Whole runs in which API calls read at one time and write at another, with anything in between: they are runs of the
    protocol exactly as long as every write is timely. */
module OverlappingCalls {
  import opened Prelude
  import opened RagStore
  import opened RagInvariant
  import opened UnlockedReads
  import opened Lifecycle
  import opened LifecycleSafety
  import opened LifecycleProgress
  import Outbox

  /** The system, and the calls that have read and not yet written. */
  datatype World = World(system: System, calls: map<nat, Call>, nextCall: nat)

  /** Any step of the protocol but a late write; a call's reads; its writes; or its end without them. */
  datatype Step = Base(action: Action) | Begin(user: User, call: Call) | Finish(id: nat) | Abandon(id: nat)

  /** What a call holds is what it reads. An upload stores its object in this step. Its knowledge base was checked
      before, and may have been deleted by now; the same goes for the check of every other call. The right to write does
      not change. */
  ghost predicate Reads(db: Db, call: Call) {
    match call
    case ToInsert(kb, file) => kb in db.knowledgeBases
    case _ => IsCurrent(db, call)
  }

  /** Administrators and the owner. */
  predicate HasWriteRight(db: Db, kb: int, user: User) {
    kb in db.knowledgeBases && (user.isAdmin || db.knowledgeBases[kb].ownerId == user.id)
  }

  ghost predicate CanStep(cfg: Settings, w: World, step: Step) {
    match step
    case Base(action) => !action.Write? && Enabled(cfg, w.system, action)
    case Begin(user, call) => HasWriteRight(w.system.db, BaseOf(call), user) && Reads(w.system.db, call)
    case Finish(id) => id in w.calls
    case Abandon(id) => id in w.calls
  }

  function AfterBegin(w: World, call: Call): World {
    var db := w.system.db;
    w.(calls := w.calls[w.nextCall := call], nextCall := w.nextCall + 1,
       system := if call.ToInsert? then w.system.(db := Stored(db, StorageKey(call.kb, call.file))) else w.system)
  }

  function AfterFinish(w: World, id: nat): World
    requires id in w.calls
  {
    w.(calls := w.calls - {id}, system := w.system.(db := Written(w.system.db, w.calls[id], w.system.now)))
  }

  function After(cfg: Settings, w: World, step: Step): World
    requires CanStep(cfg, w, step)
  {
    match step
    case Base(action) => w.(system := Next(cfg, w.system, action))
    case Begin(_, call) => AfterBegin(w, call)
    case Finish(id) => AfterFinish(w, id)
    case Abandon(id) => w.(calls := w.calls - {id})
  }

  /** The step of the protocol that the step is, if it may be one. */
  function ActionOf(w: World, step: Step): Action {
    match step
    case Base(action) => action
    case Begin(_, ToInsert(kb, file)) => Put(StorageKey(kb, file))
    case Finish(id) => if id in w.calls then Write(w.calls[id]) else Tick(0)
    case _ => Tick(0)
  }

  predicate IsTimelyStep(w: World, step: Step) {
    step.Finish? && step.id in w.calls ==> IsTimely(w.system.db, w.calls[step.id])
  }

  // ----- one step -----

  ghost predicate CallsKnown(w: World) {
    forall id :: id in w.calls ==> IsKnown(w.system.db, w.calls[id])
  }

  lemma KnownStaysKnown(db: Db, after: Db, call: Call)
    requires Advances(db, after) && IsKnown(db, call)
    ensures IsKnown(after, call)
  {}

  lemma ReadIsKnown(cfg: Settings, db: Db, call: Call)
    requires Inv(cfg, db) && Reads(db, call)
    ensures IsKnown(db, call)
  {
    hide KeysUnique, EventsSound, ListsDocumentsOf, RequestsSound, ChunksSound;
    match call
    case ToRetry(read) => assert DocumentSound(db, read.documentId);
    case ToDelete(read) => assert DocumentSound(db, read.documentId);
    case ToDrop(kb, rows) =>
      forall i | 0 <= i < |rows| ensures IsKnownRow(db, rows[i]) {
        assert IsCurrentRow(db, rows[i]) && DocumentSound(db, rows[i].documentId);
      }
    case _ =>
  }

  /** A timely step is a step of the protocol. */
  lemma TimelyStepIsStep(cfg: Settings, w: World, step: Step)
    requires ValidSettings(cfg) && Inv(cfg, w.system.db) && CallsKnown(w) && CanStep(cfg, w, step)
    requires IsTimelyStep(w, step)
    ensures Steps(cfg, w.system, ActionOf(w, step), After(cfg, w, step).system)
    ensures Inv(cfg, After(cfg, w, step).system.db) && CallsKnown(After(cfg, w, step))
  {
    hide Inv, Enabled, Next, IsKnown, Reads, IsTimely, Advances, ValidSettings;
    var next := After(cfg, w, step);
    ActionHappens(cfg, w, step);
    StepIsSound(cfg, w.system, ActionOf(w, step), next.system);
    forall id | id in next.calls ensures IsKnown(next.system.db, next.calls[id]) {
      if id !in w.calls || next.calls[id] != w.calls[id] {
        ReadIsKnown(cfg, w.system.db, step.call);
      }
      KnownStaysKnown(w.system.db, next.system.db, next.calls[id]);
    }
  }

  lemma ActionHappens(cfg: Settings, w: World, step: Step)
    requires CallsKnown(w) && CanStep(cfg, w, step) && IsTimelyStep(w, step)
    ensures Steps(cfg, w.system, ActionOf(w, step), After(cfg, w, step).system)
  {
    hide IsKnown, IsTimely, Reads, Written;
    assert w.system.(now := w.system.now + 0) == w.system;
  }

  // ----- runs -----

  ghost predicate GoesOn(cfg: Settings, worlds: seq<World>, steps: seq<Step>, i: int) {
    0 <= i < |steps| < |worlds| && CanStep(cfg, worlds[i], steps[i]) && worlds[i + 1] == After(cfg, worlds[i], steps[i])
  }

  /** A stretch of a run. */
  ghost predicate IsStretch(cfg: Settings, worlds: seq<World>, steps: seq<Step>) {
    |worlds| == |steps| + 1 && forall i :: 0 <= i < |steps| ==> GoesOn(cfg, worlds, steps, i)
  }

  /** A run from the empty system, without calls. */
  ghost predicate IsOverlappingRun(cfg: Settings, worlds: seq<World>, steps: seq<Step>) {
    IsStretch(cfg, worlds, steps) && Initial(worlds[0].system) && worlds[0].calls == map[]
  }

  ghost predicate IsTimelyUpTo(worlds: seq<World>, steps: seq<Step>, n: nat)
    requires n <= |steps| <= |worlds|
  {
    forall i :: 0 <= i < n ==> IsTimelyStep(worlds[i], steps[i])
  }

  function SystemsOf(worlds: seq<World>): (states: seq<System>)
    ensures |states| == |worlds| && forall i :: 0 <= i < |worlds| ==> states[i] == worlds[i].system
  {
    seq(|worlds|, i requires 0 <= i < |worlds| => worlds[i].system)
  }

  function ActionsOf(worlds: seq<World>, steps: seq<Step>): (actions: seq<Action>)
    requires |steps| <= |worlds|
    ensures |actions| == |steps| && forall i :: 0 <= i < |steps| ==> actions[i] == ActionOf(worlds[i], steps[i])
  {
    seq(|steps|, i requires 0 <= i < |steps| => ActionOf(worlds[i], steps[i]))
  }

  lemma RunGoesOn(cfg: Settings, worlds: seq<World>, steps: seq<Step>, i: nat)
    requires IsOverlappingRun(cfg, worlds, steps) && i < |steps|
    ensures CanStep(cfg, worlds[i], steps[i]) && worlds[i + 1] == After(cfg, worlds[i], steps[i])
  {
    hide CanStep, After;
    assert GoesOn(cfg, worlds, steps, i);
  }

  lemma ActionAt(cfg: Settings, worlds: seq<World>, steps: seq<Step>, i: nat)
    requires |worlds| == |steps| + 1 && i < |steps|
    requires Steps(cfg, worlds[i].system, ActionOf(worlds[i], steps[i]), worlds[i + 1].system)
    ensures StepAt(cfg, SystemsOf(worlds), ActionsOf(worlds, steps), i)
  {
    hide Steps;
  }

  lemma RunBegins(cfg: Settings, worlds: seq<World>, steps: seq<Step>)
    requires IsOverlappingRun(cfg, worlds, steps)
    ensures |worlds| == |steps| + 1 && Inv(cfg, worlds[0].system.db) && CallsKnown(worlds[0])
  {
    EmptyIsSound(cfg, worlds[0].system);
  }

  lemma {:induction false} TimelyPrefix(cfg: Settings, worlds: seq<World>, steps: seq<Step>, n: nat)
    requires ValidSettings(cfg) && IsOverlappingRun(cfg, worlds, steps)
    requires n <= |steps| && IsTimelyUpTo(worlds, steps, n)
    ensures |worlds| == |steps| + 1 && Inv(cfg, worlds[n].system.db) && CallsKnown(worlds[n])
  {
    hide Inv, ValidSettings, CanStep, CallsKnown, IsTimelyStep, Steps, IsOverlappingRun;
    RunBegins(cfg, worlds, steps);
    if n > 0 {
      TimelyPrefix(cfg, worlds, steps, n - 1);
      RunGoesOn(cfg, worlds, steps, n - 1);
      TimelyStepIsStep(cfg, worlds[n - 1], steps[n - 1]);
    }
  }

  /** Refinement: a run in which every write is timely is a run of the protocol, so everything said about its runs holds
      for it. */
  lemma TimelyRunIsRun(cfg: Settings, worlds: seq<World>, steps: seq<Step>)
    requires ValidSettings(cfg) && IsOverlappingRun(cfg, worlds, steps) && IsTimelyUpTo(worlds, steps, |steps|)
    ensures IsRun(cfg, SystemsOf(worlds), ActionsOf(worlds, steps))
  {
    hide Inv, ValidSettings, CanStep, CallsKnown, IsTimelyStep, Steps, StepAt, IsOverlappingRun;
    RunBegins(cfg, worlds, steps);
    forall i | 0 <= i < |steps| ensures StepAt(cfg, SystemsOf(worlds), ActionsOf(worlds, steps), i) {
      assert IsTimelyUpTo(worlds, steps, i);
      TimelyPrefix(cfg, worlds, steps, i);
      RunGoesOn(cfg, worlds, steps, i);
      TimelyStepIsStep(cfg, worlds[i], steps[i]);
      ActionAt(cfg, worlds, steps, i);
    }
    RunStartsEmpty(cfg, worlds, steps);
  }

  lemma RunStartsEmpty(cfg: Settings, worlds: seq<World>, steps: seq<Step>)
    requires IsOverlappingRun(cfg, worlds, steps)
    ensures Initial(worlds[0].system)
  {}

  /** What the statements about runs rest on: the step keeps the invariant and the order of versions, only a commit
      makes a document ready, and only a recovery or a failed attempt reopens a version. */
  ghost predicate IsOrderly(cfg: Settings, s: System, a: Action, after: Db) {
    && Keeps(cfg, s.db, after, s.now) && ReadyOnlyByCommit(cfg, s, a, after)
    && forall d :: d in s.db.documents && d in after.documents && s.db.documents[d].status != PENDING
                   && after.documents[d].status == PENDING
                   && after.documents[d].indexVersion == s.db.documents[d].indexVersion ==>
         Requeues(s, a, d, s.db.documents[d].indexVersion)
  }

  ghost predicate IsOrderlyAt(cfg: Settings, worlds: seq<World>, steps: seq<Step>, i: int) {
    && 0 <= i < |steps| < |worlds|
    && IsOrderly(cfg, worlds[i].system, ActionOf(worlds[i], steps[i]), worlds[i + 1].system.db)
  }

  lemma SoundStepIsOrderly(cfg: Settings, s: System, a: Action, t: System)
    requires ValidSettings(cfg) && Inv(cfg, s.db) && Steps(cfg, s, a, t)
    ensures IsOrderly(cfg, s, a, t.db)
  {
    hide Inv, ValidSettings, Steps, Keeps, ReadyOnlyByCommit, Requeues;
    StepIsSound(cfg, s, a, t);
    forall d | d in s.db.documents && d in t.db.documents && s.db.documents[d].status != PENDING
               && t.db.documents[d].status == PENDING
               && t.db.documents[d].indexVersion == s.db.documents[d].indexVersion
      ensures Requeues(s, a, d, s.db.documents[d].indexVersion)
    {
      PendingAgain(cfg, s, a, t, d);
    }
  }

  lemma OrderlyWriteIsHarmless(cfg: Settings, s: System, call: Call, after: Db)
    requires IsOrderly(cfg, s, Write(call), after)
    ensures IsHarmless(cfg, s.db, after, s.now)
  {
    hide Keeps;
  }

  /** The steps of a run with overlapping calls are all orderly exactly if its writes are all timely. */
  lemma RunIsOrderlyIffTimely(cfg: Settings, worlds: seq<World>, steps: seq<Step>)
    requires ValidSettings(cfg) && IsOverlappingRun(cfg, worlds, steps)
    ensures (forall i :: 0 <= i < |steps| ==> IsOrderlyAt(cfg, worlds, steps, i))
       <==> IsTimelyUpTo(worlds, steps, |steps|)
  {
    hide Inv, ValidSettings, CanStep, CallsKnown, IsTimelyStep, Steps, IsOverlappingRun, IsOrderly, StepAt;
    RunBegins(cfg, worlds, steps);
    if IsTimelyUpTo(worlds, steps, |steps|) {
      forall i | 0 <= i < |steps| ensures IsOrderlyAt(cfg, worlds, steps, i) {
        assert IsTimelyUpTo(worlds, steps, i);
        TimelyPrefix(cfg, worlds, steps, i);
        RunGoesOn(cfg, worlds, steps, i);
        TimelyStepIsStep(cfg, worlds[i], steps[i]);
        SoundStepIsOrderly(cfg, worlds[i].system, ActionOf(worlds[i], steps[i]), worlds[i + 1].system);
      }
    }
    if forall i :: 0 <= i < |steps| ==> IsOrderlyAt(cfg, worlds, steps, i) {
      OrderlyIsTimely(cfg, worlds, steps, |steps|);
    }
  }

  lemma {:induction false} OrderlyIsTimely(cfg: Settings, worlds: seq<World>, steps: seq<Step>, n: nat)
    requires ValidSettings(cfg) && IsOverlappingRun(cfg, worlds, steps) && n <= |steps|
    requires forall i :: 0 <= i < |steps| ==> IsOrderlyAt(cfg, worlds, steps, i)
    ensures |worlds| == |steps| + 1 && IsTimelyUpTo(worlds, steps, n)
  {
    hide Inv, ValidSettings, CallsKnown, IsTimelyStep, IsOverlappingRun, IsOrderlyAt;
    RunBegins(cfg, worlds, steps);
    if n > 0 {
      OrderlyIsTimely(cfg, worlds, steps, n - 1);
      TimelyPrefix(cfg, worlds, steps, n - 1);
      OrderlyAtIsTimely(cfg, worlds, steps, n - 1);
    }
  }

  lemma OrderlyAtIsTimely(cfg: Settings, worlds: seq<World>, steps: seq<Step>, i: nat)
    requires ValidSettings(cfg) && IsOverlappingRun(cfg, worlds, steps) && IsOrderlyAt(cfg, worlds, steps, i)
    requires Inv(cfg, worlds[i].system.db) && CallsKnown(worlds[i])
    ensures IsTimelyStep(worlds[i], steps[i])
  {
    hide Inv, ValidSettings, CanStep, CallsKnown, IsTimelyStep, IsOverlappingRun, IsOrderly, After, ActionOf;
    RunGoesOn(cfg, worlds, steps, i);
    OrderlyStepIsTimely(cfg, worlds[i], steps[i]);
  }

  lemma OrderlyStepIsTimely(cfg: Settings, w: World, step: Step)
    requires ValidSettings(cfg) && Inv(cfg, w.system.db) && CallsKnown(w) && CanStep(cfg, w, step)
    requires IsOrderly(cfg, w.system, ActionOf(w, step), After(cfg, w, step).system.db)
    ensures IsTimelyStep(w, step)
  {
    hide Inv, ValidSettings, IsKnown, IsTimely, Written, IsOrderly, IsHarmless, Enabled, Next, Reads;
    if step.Finish? {
      OrderlyWriteIsHarmless(cfg, w.system, w.calls[step.id], After(cfg, w, step).system.db);
      WriteIsHarmlessIffTimely(cfg, w.system.db, w.calls[step.id], w.system.now);
    }
  }

  // ----- what untimely writes do -----

  lemma ThreeSteps(cfg: Settings, w: World, a: Step, b: Step, c: Step) returns (worlds: seq<World>)
    requires CanStep(cfg, w, a)
    requires CanStep(cfg, After(cfg, w, a), b)
    requires CanStep(cfg, After(cfg, After(cfg, w, a), b), c)
    ensures IsStretch(cfg, worlds, [a, b, c])
    ensures worlds == [w, After(cfg, w, a), After(cfg, After(cfg, w, a), b),
                       After(cfg, After(cfg, After(cfg, w, a), b), c)]
  {
    hide CanStep, After;
    var w1 := After(cfg, w, a);
    var w2 := After(cfg, w1, b);
    worlds := [w, w1, w2, After(cfg, w2, c)];
  }

  /** A document with the same file is being deleted when the file is uploaded again. If its removal comes between the
      storing of the object and the insertion of the row, a pending document is left without its object. */
  lemma UploadCanLoseItsObject(cfg: Settings, w: World, user: User, d: int, kb: int, file: File)
      returns (worlds: seq<World>, steps: seq<Step>)
    requires ValidSettings(cfg) && Inv(cfg, w.system.db)
    requires IsLive(w.system.db, kb) && HasWriteRight(w.system.db, kb, user)
    requires d in w.system.db.documents && w.system.db.documents[d].status == DELETING
    requires w.system.db.documents[d].storageKey == StorageKey(kb, file) && DeleteMessage(d) in w.system.messages
    ensures IsStretch(cfg, worlds, steps) && worlds[0] == w
    ensures steps == [Begin(user, ToInsert(kb, file)), Base(Remove(DeleteMessage(d))), Finish(w.nextCall)]
    ensures var last := worlds[3].system.db;
            && w.system.db.nextId in last.documents && IsLive(last, kb)
            && last.documents[w.system.db.nextId].status == PENDING
            && last.documents[w.system.db.nextId].storageKey == StorageKey(kb, file)
            && StorageKey(kb, file) !in last.objects
  {
    hide DocumentsSound, EventsSound, WithoutChunksOf, Outbox.Enqueue;
    steps := [Begin(user, ToInsert(kb, file)), Base(Remove(DeleteMessage(d))), Finish(w.nextCall)];
    worlds := ThreeSteps(cfg, w, steps[0], steps[1], steps[2]);
    assert !IsKeyTaken(worlds[2].system.db, StorageKey(kb, file));
  }

  /** Such a document cannot become ready until its object is stored again. */
  lemma NothingIsIndexedWithoutObject(cfg: Settings, db: Db, d: int, version: int, io: Io)
    requires d in db.documents && db.documents[d].storageKey !in db.objects
    ensures IndexResultOf(cfg, db, d, version, io) != Indexed
  {}

  /** An upload that was checked before its knowledge base was deleted leaves a pending document in the dead one. */
  lemma UploadCanOutliveItsKnowledgeBase(cfg: Settings, w: World, user: User, kb: int, rows: seq<int>, file: File)
      returns (worlds: seq<World>, steps: seq<Step>)
    requires ValidSettings(cfg) && Inv(cfg, w.system.db) && IsAuthorized(w.system.db, kb, user, true)
    requires ListsDocumentsOf(w.system.db, kb, rows) && !IsKeyTaken(w.system.db, StorageKey(kb, file))
    ensures IsStretch(cfg, worlds, steps) && worlds[0] == w
    ensures steps == [Begin(user, ToInsert(kb, file)), Base(DropKnowledgeBase(user, kb, rows)), Finish(w.nextCall)]
    ensures var last, d := worlds[3].system.db, worlds[2].system.db.nextId;
            && kb in last.knowledgeBases && last.knowledgeBases[kb].deleted != 0
            && d in last.documents && last.documents[d].knowledgeBaseId == kb && last.documents[d].status == PENDING
  {
    hide DocumentsSound, EventsSound, KeysUnique, Outbox.Enqueue, Stamps, NothingBecomesReady, RequestDeletes;
    hide ValidSettings;
    steps := [Begin(user, ToInsert(kb, file)), Base(DropKnowledgeBase(user, kb, rows)), Finish(w.nextCall)];
    var stored := Stored(w.system.db, StorageKey(kb, file));
    StoringKeeps(cfg, w.system.db, StorageKey(kb, file), w.system.now);
    DeleteKnowledgeBaseKeeps(cfg, stored, user, kb, rows, w.system.now);
    MarkDeletedLast(stored, kb, rows, w.system.now);
    worlds := ThreeSteps(cfg, w, steps[0], steps[1], steps[2]);
    var dropped := worlds[2].system.db;
    forall d | d in dropped.documents ensures dropped.documents[d].storageKey != StorageKey(kb, file) {
      assert Moves(stored, dropped, d);
    }
  }

  /** A retry that overlaps the indexing of a waiting document leaves it ready at the next version with the chunks of
      the one before. */
  lemma LateRetryKeepsOldChunks(cfg: Settings, w: World, user: User, d: int)
      returns (worlds: seq<World>, steps: seq<Step>, chunk: int)
    requires ValidSettings(cfg) && Inv(cfg, w.system.db)
    requires d in w.system.db.documents && w.system.db.documents[d].status == PENDING
    requires HasWriteRight(w.system.db, w.system.db.documents[d].knowledgeBaseId, user)
    requires IsIndexable(cfg, w.system.db.documents[d].storageKey.file)
    requires IndexMessage(d, Some(w.system.db.documents[d].indexVersion)) in w.system.messages
    ensures IsStretch(cfg, worlds, steps) && worlds[0] == w && |steps| == 4
    ensures steps[0] == Begin(user, ToRetry(Read(d, w.system.db.documents[d]))) && steps[3] == Finish(w.nextCall)
    ensures steps[1].Base? && steps[1].action.Claim? && steps[2].Base? && steps[2].action.Index?
    ensures var last, version := worlds[4].system.db, w.system.db.documents[d].indexVersion;
            && d in last.documents && last.documents[d].status == READY && last.documents[d].indexVersion == version + 1
            && chunk in last.chunks && last.chunks[chunk].documentId == d && last.chunks[chunk].indexVersion == version
  {
    hide Inv, ValidSettings, Next, Enabled, IsIndexable, CanStep, After, Written;
    var read := Read(d, w.system.db.documents[d]);
    var claim, index, claimed, ready := IndexedMeanwhile(cfg, w.system, d);
    chunk := ReadyHasChunk(cfg, ready.db, d);
    var begin, finish := Begin(user, ToRetry(read)), Finish(w.nextCall);
    var w1 := BeginRetry(cfg, w, user, read);
    var w2 := BaseStep(cfg, w1, claim);
    var w3 := BaseStep(cfg, w2, index);
    var w4 := FinishStep(cfg, w3, w.nextCall);
    ReadyStaysReady(ready.db, read, ready.now);
    worlds, steps := [w, w1, w2, w3, w4], [begin, Base(claim), Base(index), finish];
  }

  lemma BeginRetry(cfg: Settings, w: World, user: User, read: Read) returns (v: World)
    requires IsCurrentRow(w.system.db, read) && HasWriteRight(w.system.db, read.document.knowledgeBaseId, user)
    ensures CanStep(cfg, w, Begin(user, ToRetry(read))) && v == After(cfg, w, Begin(user, ToRetry(read)))
    ensures v == World(w.system, w.calls[w.nextCall := ToRetry(read)], w.nextCall + 1)
  {
    v := After(cfg, w, Begin(user, ToRetry(read)));
  }

  lemma BaseStep(cfg: Settings, w: World, a: Action) returns (v: World)
    requires !a.Write? && Enabled(cfg, w.system, a)
    ensures CanStep(cfg, w, Base(a)) && v == After(cfg, w, Base(a))
    ensures v == World(Next(cfg, w.system, a), w.calls, w.nextCall)
  {
    hide Enabled, Next;
    v := After(cfg, w, Base(a));
  }

  lemma FinishStep(cfg: Settings, w: World, id: nat) returns (v: World)
    requires id in w.calls
    ensures CanStep(cfg, w, Finish(id)) && v == After(cfg, w, Finish(id))
    ensures v == World(w.system.(db := Written(w.system.db, w.calls[id], w.system.now)), w.calls - {id}, w.nextCall)
  {
    hide Written;
    v := After(cfg, w, Finish(id));
  }

  lemma IndexedMeanwhile(cfg: Settings, s: System, d: int)
      returns (claim: Action, index: Action, claimed: System, ready: System)
    requires ValidSettings(cfg) && Inv(cfg, s.db) && d in s.db.documents && s.db.documents[d].status == PENDING
    requires IsIndexable(cfg, s.db.documents[d].storageKey.file)
    requires IndexMessage(d, Some(s.db.documents[d].indexVersion)) in s.messages
    ensures claim.Claim? && Enabled(cfg, s, claim) && claimed == Next(cfg, s, claim)
    ensures index.Index? && Enabled(cfg, claimed, index) && ready == Next(cfg, claimed, index)
    ensures Inv(cfg, ready.db) && d in ready.db.documents && ready.db.documents[d].status == READY
    ensures ready.db.documents[d].indexVersion == s.db.documents[d].indexVersion
  {
    hide Inv, ValidSettings, Next, Enabled, IsIndexable;
    claim := ClaimPending(cfg, s, d);
    claimed := Next(cfg, s, claim);
    index := IndexProcessing(cfg, claimed, s.nextWorker, d);
    ready := Next(cfg, claimed, index);
    StepIsSound(cfg, claimed, index, ready);
  }

  lemma ReadyStaysReady(db: Db, read: Read, now: int)
    requires read.document.status == PENDING && read.documentId in db.documents
    ensures var after := Written(db, ToRetry(read), now);
            && read.documentId in after.documents && after.chunks == db.chunks
            && after.documents[read.documentId].status == db.documents[read.documentId].status
            && after.documents[read.documentId].indexVersion == read.document.indexVersion + 1
  {
    hide Outbox.Enqueue;
  }

  lemma ReadyHasChunk(cfg: Settings, db: Db, d: int) returns (chunk: int)
    requires Inv(cfg, db) && d in db.documents && db.documents[d].status == READY
    ensures chunk in db.chunks && db.chunks[chunk].documentId == d
    ensures db.chunks[chunk].indexVersion == db.documents[d].indexVersion
  {
    hide ChildrenOf, Rows, KeysUnique, EventsSound, IdsBounded, RequestsSound;
    assert DocumentSound(db, d);
    var g :| HasGeneration(db, d, g);
    chunk := g.base;
    RowsAre(g, chunk);
    assert chunk in ChunksOf(db.chunks, d);
  }

  /** Two retries of a failed document that overlap: the later write reopens the version that the first one opened and a
      worker has claimed, so that it can be claimed twice although no attempt failed and nothing was recovered. */
  lemma LateRetryReopens(cfg: Settings, w: World, user: User, d: int) returns (worlds: seq<World>, steps: seq<Step>)
    requires d in w.system.db.documents && w.system.db.documents[d].status == FAILED
    requires HasWriteRight(w.system.db, w.system.db.documents[d].knowledgeBaseId, user)
    ensures IsStretch(cfg, worlds, steps) && worlds[0] == w
    ensures var call := ToRetry(Read(d, w.system.db.documents[d]));
            var message := IndexMessage(d, Some(w.system.db.documents[d].indexVersion + 1));
            steps == [Begin(user, call), Begin(user, call), Finish(w.nextCall), Base(Stray(message)),
                      Base(Claim(message)),
                      Finish(w.nextCall + 1)]
    ensures var version := w.system.db.documents[d].indexVersion + 1;
            && ClaimsVersion(worlds[4].system, steps[4].action, d, version)
            && d in worlds[6].system.db.documents && worlds[6].system.db.documents[d].indexVersion == version
            && ClaimResultOf(worlds[6].system.db, d, Some(version)) == Claimed
  {
    hide Outbox.Enqueue, CanStep, After;
    var read := Read(d, w.system.db.documents[d]);
    var call := ToRetry(read);
    var message := IndexMessage(d, Some(w.system.db.documents[d].indexVersion + 1));
    var w1 := BeginRetry(cfg, w, user, read);
    var w2 := BeginRetry(cfg, w1, user, read);
    var w3 := FinishStep(cfg, w2, w.nextCall);
    var w4 := BaseStep(cfg, w3, Stray(message));
    var w5 := BaseStep(cfg, w4, Claim(message));
    var w6 := FinishStep(cfg, w5, w.nextCall + 1);
    worlds := [w, w1, w2, w3, w4, w5, w6];
    steps := [Begin(user, call), Begin(user, call), Finish(w.nextCall), Base(Stray(message)),
                      Base(Claim(message)),
              Finish(w.nextCall + 1)];
  }

  /** A document that was being deleted when its knowledge base was read, and is revived before that is deleted, is
      missed: it is pending in a dead knowledge base. */
  lemma DropMissesRevived(cfg: Settings, w: World, user: User, kb: int, d: int, rows: seq<Read>)
      returns (worlds: seq<World>, steps: seq<Step>)
    requires IsWritable(w.system.db, kb, d, user) && w.system.db.documents[d].status == DELETING
    requires IsCurrent(w.system.db, ToDrop(kb, rows))
    ensures IsStretch(cfg, worlds, steps) && worlds[0] == w
    ensures steps == [Begin(user, ToDrop(kb, rows)), Base(Reindex(user, kb, d)), Finish(w.nextCall)]
    ensures var last := worlds[3].system.db;
            && kb in last.knowledgeBases && last.knowledgeBases[kb].deleted == kb
            && d in last.documents && last.documents[d].knowledgeBaseId == kb && last.documents[d].status == PENDING
  {
    hide Outbox.Enqueue, LateDeletes, ListsDocumentsOf;
    steps := [Begin(user, ToDrop(kb, rows)), Base(Reindex(user, kb, d)), Finish(w.nextCall)];
    worlds := ThreeSteps(cfg, w, steps[0], steps[1], steps[2]);
    var revived := worlds[2].system.db;
    assert !LosesOne(revived, rows);
    assert !Marks(rows, d);
    MarkDeletedLateLast(revived, kb, rows, w.system.now);
    LateDeletesAre(revived, rows, w.system.now);
  }

  /** A deletion of a document that was being deleted already writes no status: a retry in between wins, and the
      deletion is lost, although the write is timely. */
  lemma LateDeleteCanBeLost(cfg: Settings, w: World, user: User, kb: int, d: int)
      returns (worlds: seq<World>, steps: seq<Step>)
    requires IsWritable(w.system.db, kb, d, user) && w.system.db.documents[d].status == DELETING
    ensures IsStretch(cfg, worlds, steps) && worlds[0] == w
    ensures steps
         == [Begin(user, ToDelete(Read(d, w.system.db.documents[d]))), Base(Reindex(user, kb, d)), Finish(w.nextCall)]
    ensures IsTimelyStep(worlds[2], steps[2])
    ensures d in worlds[3].system.db.documents && worlds[3].system.db.documents[d].status == PENDING
  {
    hide Outbox.Enqueue;
    steps := [Begin(user, ToDelete(Read(d, w.system.db.documents[d]))), Base(Reindex(user, kb, d)), Finish(w.nextCall)];
    worlds := ThreeSteps(cfg, w, steps[0], steps[1], steps[2]);
  }
}
