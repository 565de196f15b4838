/** What can always still happen: no document is stranded, and recovery is fair. */
module LifecycleProgress {
  import opened Prelude
  import opened Arithmetic
  import opened RagStore
  import opened RagInvariant
  import opened Lifecycle
  import opened LifecycleSafety
  import opened Chunking
  import opened Cleaning

  predicate IsWaiting(db: Db, d: int) {
    d in db.documents && (db.documents[d].status == PENDING || db.documents[d].status == PROCESSING)
  }

  /** The waiting documents that the stale query orders before d. */
  function Older(db: Db, d: int): set<int> {
    set e | e in db.documents && IsWaiting(db, e) && Precedes(db, e, d)
  }

  // ----- one step of waiting -----

  /** d is stale, and stays so as long as its row does not change. */
  ghost predicate IsStaleAt(cfg: Settings, s: System, d: int) {
    IsWaiting(s.db, d) && s.db.documents[d].activity < s.now - cfg.staleSeconds
  }

  /** The step removed the row or wrote to it. */
  ghost predicate IsTouched(s: System, t: System, d: int) {
    d in s.db.documents ==> d !in t.db.documents || t.db.documents[d] != s.db.documents[d]
  }

  /** Written rows carry the current time, so they go behind d: nothing ever overtakes it. */
  lemma NothingOvertakes(cfg: Settings, s: System, a: Action, t: System, d: int)
    requires ValidSettings(cfg) && Inv(cfg, s.db) && Steps(cfg, s, a, t) && IsStaleAt(cfg, s, d) && !IsTouched(s, t, d)
    ensures Older(t.db, d) <= Older(s.db, d) && IsStaleAt(cfg, t, d) && Inv(cfg, t.db)
  {
    hide Inv, Enabled, ValidSettings, Advances, ReadyOnlyByCommit;
    StepIsSound(cfg, s, a, t);
    ClockAdvances(cfg, s, a, t);
    forall e | e in Older(t.db, d) ensures e in Older(s.db, d) {
      assert t.db.documents[e].activity <= s.db.documents[d].activity < s.now;
    }
  }

  lemma ClockAdvances(cfg: Settings, s: System, a: Action, t: System)
    requires Steps(cfg, s, a, t)
    ensures s.now <= t.now
  {
    hide CreateKnowledgeBase, DeleteKnowledgeBase, Create, Retry, Delete, DispatchEvents, RecoverRows, ClaimIndex;
    hide ClaimResultOf;
    hide IndexClaimedDocument, IndexResultOf, MarkIndexFailure, RemoveDocument, RepairMessages, Accepted;
    hide IsStaleSelection, ListsDeleting, ListsDocumentsOf;
  }

  lemma {:induction false} ElementsCount(db: Db, rows: seq<int>)
    requires forall i, j :: 0 <= i < j < |rows| ==> Precedes(db, rows[i], rows[j])
    ensures |Elements(rows)| == |rows|
  {
    if rows != [] {
      var front, last := rows[..|rows| - 1], rows[|rows| - 1];
      ElementsCount(db, front);
      assert Elements(rows) == Elements(front) + {last};
      assert last !in Elements(front);
    }
  }

  /** A full batch of older documents goes first, and then goes behind d. */
  lemma RepairMakesRoom(cfg: Settings, s: System, a: Action, t: System, d: int)
    requires ValidSettings(cfg) && Inv(cfg, s.db) && Steps(cfg, s, a, t) && IsStaleAt(cfg, s, d)
    requires a.RepairBeat? && d !in a.locked && d !in a.rows
    ensures !IsTouched(s, t, d) && |Older(t.db, d)| + REPAIR_LIMIT <= |Older(s.db, d)|
  {
    hide Inv, ValidSettings, RepairMessages, ListsDeleting;
    var rows := a.rows;
    assert IsEligible(s.db, s.now - cfg.staleSeconds, a.locked, d);
    RecoverRowsAre(s.db, rows, s.now);
    ElementsCount(s.db, rows);
    assert Elements(rows) <= Older(s.db, d);
    NothingOvertakes(cfg, s, a, t, d);
    assert Elements(rows) !! Older(t.db, d);
    CardinalityOfParts(Elements(rows), Older(t.db, d), Older(s.db, d));
  }

  lemma CardinalityOfParts(a: set<int>, b: set<int>, whole: set<int>)
    requires a !! b && a <= whole && b <= whole
    ensures |a| + |b| <= |whole|
  {
    assert |a + b| == |a| + |b|;
    SubsetSize(a + b, whole);
  }

  lemma SubsetSize(a: set<int>, b: set<int>)
    requires a <= b
    ensures |a| <= |b|
  {
    assert b == a + (b - a);
  }

  // ----- fairness of recovery -----

  function CountRepairs(actions: seq<Action>): nat {
    if actions == [] then 0
    else CountRepairs(actions[..|actions| - 1]) + (if actions[|actions| - 1].RepairBeat? then 1 else 0)
  }

  /** Either d was touched within the first k steps, and i is the first of them, or every repair beat made room. */
  lemma {:induction false} WaitingMakesRoom(cfg: Settings, states: seq<System>, actions: seq<Action>, d: int, k: nat)
      returns (i: nat)
    requires ValidSettings(cfg) && IsPath(cfg, states, actions) && Inv(cfg, states[0].db) && k <= |actions|
    requires IsStaleAt(cfg, states[0], d)
    requires forall j :: 0 <= j < |actions| && actions[j].RepairBeat? ==> d !in actions[j].locked
    ensures i <= k && Inv(cfg, states[i].db) && IsStaleAt(cfg, states[i], d)
        && states[i].db.documents[d] == states[0].db.documents[d]
    ensures i < k ==> IsTouched(states[i], states[i + 1], d)
    ensures i == k ==> |Older(states[k].db, d)| + REPAIR_LIMIT * CountRepairs(actions[..k]) <= |Older(states[0].db, d)|
  {
    hide Inv, ValidSettings, Steps, Older, IsTouched;
    if k == 0 {
      i := 0;
    } else {
      i := WaitingMakesRoom(cfg, states, actions, d, k - 1);
      if i == k - 1 {
        var s, a, t := states[k - 1], actions[k - 1], states[k];
        assert StepAt(cfg, states, actions, k - 1);
        assert actions[..k][..k - 1] == actions[..k - 1];
        if !IsTouched(s, t, d) {
          i := k;
          NothingOvertakes(cfg, s, a, t, d);
          UntouchedIsSame(s, t, d);
          SubsetSize(Older(t.db, d), Older(s.db, d));
          if a.RepairBeat? {
            RepairTouchesItsRows(cfg, s, a, t, d);
            RepairMakesRoom(cfg, s, a, t, d);
          }
        }
      }
    }
  }

  lemma EnoughRounds(rounds: nat, n: nat, total: nat)
    requires n >= 1 && rounds >= total / n + 1
    ensures n * rounds > total
  {
    if rounds * n <= total {
      RoundsBound(rounds, n, total);
    }
  }

  lemma UntouchedIsSame(s: System, t: System, d: int)
    requires d in s.db.documents && !IsTouched(s, t, d)
    ensures d in t.db.documents && t.db.documents[d] == s.db.documents[d]
  {}

  lemma RepairTouchesItsRows(cfg: Settings, s: System, a: Action, t: System, d: int)
    requires Steps(cfg, s, a, t) && a.RepairBeat? && IsStaleAt(cfg, s, d)
    ensures IsTouched(s, t, d) <==> d in a.rows
    ensures d in a.rows ==> d in t.db.documents && t.db.documents[d] == Recovered(s.db.documents[d], s.now)
  {
    hide RepairMessages, ListsDeleting;
    RecoverRowsAre(s.db, a.rows, s.now);
  }

  /** Recovery is fair: whatever else happens, a stale document with r older waiting ones is recovered by the repair
      beat within floor(r / limit) + 1 rounds that find its row unlocked, unless another step wrote to it before. */
  lemma RecoveryIsFair(cfg: Settings, states: seq<System>, actions: seq<Action>, from: nat, d: int) returns (i: nat)
    requires ValidSettings(cfg) && IsRun(cfg, states, actions) && from < |states|
    requires IsStaleAt(cfg, states[from], d)
    requires forall j :: from <= j < |actions| && actions[j].RepairBeat? ==> d !in actions[j].locked
    requires CountRepairs(actions[from..]) >= |Older(states[from].db, d)| / REPAIR_LIMIT + 1
    ensures from <= i < |actions| && d in states[i].db.documents
        && states[i].db.documents[d] == states[from].db.documents[d]
    ensures IsTouched(states[i], states[i + 1], d)
    ensures actions[i].RepairBeat? ==>
              && d in actions[i].rows && d in states[i + 1].db.documents
              && states[i + 1].db.documents[d] == Recovered(states[from].db.documents[d], states[i].now)
  {
    hide Inv, ValidSettings, Steps, Older, IsTouched, Initial;
    RunIsSound(cfg, states, actions, from);
    var later, steps := states[from..], actions[from..];
    forall j | 0 <= j < |steps| ensures StepAt(cfg, later, steps, j) {
      assert StepAt(cfg, states, actions, from + j);
    }
    var k := WaitingMakesRoom(cfg, later, steps, d, |steps|);
    assert steps[..|steps|] == steps;
    EnoughRounds(CountRepairs(steps), REPAIR_LIMIT, |Older(states[from].db, d)|);
    i := from + k;
    assert StepAt(cfg, states, actions, i);
    if actions[i].RepairBeat? {
      RepairTouchesItsRows(cfg, states[i], actions[i], states[i + 1], d);
    }
  }

  // ----- the queries have answers -----

  lemma {:induction false} EnumerationExists(elements: set<int>) returns (rows: seq<int>)
    ensures forall d :: d in rows <==> d in elements
    ensures forall i, j :: 0 <= i < j < |rows| ==> rows[i] != rows[j]
    decreases |elements|
  {
    rows := [];
    if elements != {} {
      var d := SomeElement(elements);
      var rest := EnumerationExists(elements - {d});
      rows := rest + [d];
      forall i, j | 0 <= i < j < |rows| ensures rows[i] != rows[j] {
        assert rows[i] in rest;
      }
    }
  }

  /** The first of some documents in the order of the stale query. */
  lemma {:induction false} FirstExists(db: Db, some: set<int>) returns (first: int)
    requires some != {} && some <= db.documents.Keys
    ensures first in some && forall e :: e in some && e != first ==> Precedes(db, first, e)
    decreases |some|
  {
    var one := SomeElement(some);
    first := one;
    var rest := some - {one};
    assert forall e :: e in some && e != one ==> e in rest;
    if rest != {} {
      var other := FirstExists(db, rest);
      if Precedes(db, other, one) {
        first := other;
      }
      forall e | e in some && e != first ensures Precedes(db, first, e) {
        assert e == one || e in rest;
      }
    }
  }

  lemma {:induction false} StaleSelectionExists(db: Db, staleBefore: int, limit: nat, locked: set<int>)
      returns (rows: seq<int>)
    ensures IsStaleSelection(db, staleBefore, limit, locked, rows)
  {
    rows := [];
    if limit > 0 {
      var front := StaleSelectionExists(db, staleBefore, limit - 1, locked);
      var rest := set d | d in db.documents && IsEligible(db, staleBefore, locked, d) && d !in front;
      rows := front;
      if rest != {} {
        var first := FirstExists(db, rest);
        rows := front + [first];
        SelectionExtends(db, staleBefore, limit - 1, locked, front, first);
      } else {
        assert forall d :: IsEligible(db, staleBefore, locked, d) && d !in rows ==> d in rest;
      }
    }
  }

  lemma SelectionExtends(db: Db, staleBefore: int, limit: nat, locked: set<int>, front: seq<int>, first: int)
    requires IsStaleSelection(db, staleBefore, limit, locked, front)
    requires IsEligible(db, staleBefore, locked, first) && first !in front
    requires forall e :: IsEligible(db, staleBefore, locked, e) && e !in front && e != first ==> Precedes(db, first, e)
    ensures IsStaleSelection(db, staleBefore, limit + 1, locked, front + [first])
  {
    hide IsEligible;
    var rows := front + [first];
    forall i, j | 0 <= i < j < |rows| ensures Precedes(db, rows[i], rows[j]) {
      assert front[i] in front;
    }
    forall d | IsEligible(db, staleBefore, locked, d) && d !in rows
      ensures |rows| == limit + 1 && forall r :: r in rows ==> Precedes(db, r, d)
    {
      assert d !in front;
      assert first in rows;
    }
  }

  // ----- schedules -----

  /** Steps of the clock, the repair beat and the workers. */
  predicate IsBackground(a: Action) {
    a.Tick? || a.RepairBeat? || a.Claim? || a.Index? || a.MarkFailure? || a.Remove?
  }

  /** A schedule of background steps leads from s to t. */
  ghost predicate LeadsTo(cfg: Settings, s: System, actions: seq<Action>, t: System)
    decreases |actions|
  {
    if actions == [] then s == t
    else
      && IsBackground(actions[0]) && Enabled(cfg, s, actions[0])
      && LeadsTo(cfg, Next(cfg, s, actions[0]), actions[1..], t)
  }

  lemma StepFirst(cfg: Settings, s: System, a: Action, actions: seq<Action>, t: System)
    requires IsBackground(a) && Enabled(cfg, s, a) && LeadsTo(cfg, Next(cfg, s, a), actions, t)
    ensures LeadsTo(cfg, s, [a] + actions, t)
  {
    assert ([a] + actions)[1..] == actions;
  }

  lemma {:induction false} LeadsOn(cfg: Settings, s: System, first: seq<Action>, t: System, second: seq<Action>,
                                   u: System)
    requires LeadsTo(cfg, s, first, t) && LeadsTo(cfg, t, second, u)
    ensures LeadsTo(cfg, s, first + second, u)
    decreases |first|
  {
    hide Next, Enabled;
    if first == [] {
      assert first + second == second;
    } else {
      assert (first + second)[1..] == first[1..] + second;
      LeadsOn(cfg, Next(cfg, s, first[0]), first[1..], t, second, u);
    }
  }

  /** One round of the repair beat with no row locked and no message lost. */
  lemma RepairRoundExists(cfg: Settings, s: System) returns (a: Action)
    ensures a.RepairBeat? && a.locked == {} && Enabled(cfg, s, a) && a.sent == |a.rows| + |a.deleting|
  {
    var rows := StaleSelectionExists(s.db, s.now - cfg.staleSeconds, REPAIR_LIMIT, {});
    var deleting := EnumerationExists(set d | d in s.db.documents && s.db.documents[d].status == DELETING);
    a := RepairBeat(rows, deleting, {}, |rows| + |deleting|);
  }

  lemma {:induction false} MessageSent(db: Db, rows: seq<int>, d: int)
    requires (forall e :: e in rows ==> e in db.documents) && d in rows
    ensures IndexMessage(d, Some(db.documents[d].indexVersion)) in IndexMessages(db, rows)
  {
    var front, last := rows[..|rows| - 1], rows[|rows| - 1];
    assert forall e :: e in front ==> e in rows;
    assert IndexMessages(db, rows)
        == IndexMessages(db, front) + [IndexMessage(last, Some(db.documents[last].indexVersion))];
    if d != last {
      assert d in front;
      MessageSent(db, front, d);
    }
  }

  /** Recovered: pending again, with a message for its version on its way. */
  ghost predicate IsRequeued(before: Db, t: System, d: int)
    requires d in before.documents
  {
    && d in t.db.documents
    && (exists at :: t.db.documents[d] == Recovered(before.documents[d], at))
    && IndexMessage(d, Some(before.documents[d].indexVersion)) in t.messages
  }

  /** At most floor(r / limit) + 1 unlocked rounds of the repair beat requeue a stale document. */
  lemma {:induction false} RepairRequeues(cfg: Settings, s: System, d: int) returns (actions: seq<Action>, t: System)
    requires ValidSettings(cfg) && Inv(cfg, s.db) && IsStaleAt(cfg, s, d)
    ensures LeadsTo(cfg, s, actions, t) && Inv(cfg, t.db) && IsRequeued(s.db, t, d)
    ensures |actions| <= |Older(s.db, d)| / REPAIR_LIMIT + 1
    decreases |Older(s.db, d)|
  {
    hide Inv, ValidSettings, Older, IsTouched, RepairMessages, Recovered, RecoverRows, IsStaleSelection, ListsDeleting;
    var a := RepairRoundExists(cfg, s);
    var next := Next(cfg, s, a);
    StepIsSound(cfg, s, a, next);
    RepairTouchesItsRows(cfg, s, a, next, d);
    if d in a.rows {
      actions, t := [a], next;
      RoundSends(cfg, s, a, d);
      assert t.db.documents[d] == Recovered(s.db.documents[d], s.now);
      StepFirst(cfg, s, a, [], t);
    } else {
      RepairMakesRoom(cfg, s, a, next, d);
      NothingOvertakes(cfg, s, a, next, d);
      UntouchedIsSame(s, next, d);
      var rest: seq<Action>;
      rest, t := RepairRequeues(cfg, next, d);
      actions := [a] + rest;
      StepFirst(cfg, s, a, rest, t);
    }
  }

  lemma RoundSends(cfg: Settings, s: System, a: Action, d: int)
    requires a.RepairBeat? && Enabled(cfg, s, a) && a.sent == |a.rows| + |a.deleting|
    requires d in a.rows && d in s.db.documents
    ensures IndexMessage(d, Some(s.db.documents[d].indexVersion)) in Next(cfg, s, a).messages
  {
    hide RecoverRows;
    MessageSent(s.db, a.rows, d);
    var messages := RepairMessages(s.db, a.rows, a.deleting);
    assert messages[..a.sent] == messages;
    assert IndexMessage(d, Some(s.db.documents[d].indexVersion)) in messages;
  }

  // ----- no document is stranded -----

  /** The file can be parsed and has a visible character. */
  predicate IsIndexable(cfg: Settings, file: File) {
    cfg.parse(file).Some? && Visible(cfg.parse(file).value) != ""
  }

  lemma ClaimPending(cfg: Settings, s: System, d: int) returns (a: Action)
    requires ValidSettings(cfg) && Inv(cfg, s.db) && d in s.db.documents && s.db.documents[d].status == PENDING
    requires IndexMessage(d, Some(s.db.documents[d].indexVersion)) in s.messages
    ensures a.Claim? && Enabled(cfg, s, a)
    ensures var t, document := Next(cfg, s, a), s.db.documents[d];
            && Inv(cfg, t.db) && d in t.db.documents && t.db.documents[d].status == PROCESSING
            && t.db.documents[d].indexVersion == document.indexVersion
                  && t.db.documents[d].storageKey == document.storageKey
            && s.nextWorker in t.workers && t.workers[s.nextWorker].ToIndex?
            && t.workers[s.nextWorker].documentId == d && t.workers[s.nextWorker].indexVersion == document.indexVersion
  {
    hide Inv, ValidSettings;
    a := Claim(IndexMessage(d, Some(s.db.documents[d].indexVersion)));
    ClaimKeeps(cfg, s.db, d, Some(s.db.documents[d].indexVersion), s.now);
  }

  /** The object is there, because it is stored before its document and removed with it. */
  lemma IndexProcessing(cfg: Settings, s: System, worker: nat, d: int) returns (a: Action)
    requires ValidSettings(cfg) && Inv(cfg, s.db) && d in s.db.documents && s.db.documents[d].status == PROCESSING
    requires worker in s.workers && s.workers[worker].ToIndex?
    requires s.workers[worker].documentId == d && s.workers[worker].indexVersion == s.db.documents[d].indexVersion
    requires IsIndexable(cfg, s.db.documents[d].storageKey.file)
    ensures a.Index? && Enabled(cfg, s, a)
    ensures var t := Next(cfg, s, a);
            && d in t.db.documents && t.db.documents[d].status == READY
            && t.db.documents[d].indexVersion == s.db.documents[d].indexVersion
  {
    hide Visible, ParentChildChunks, ChildrenOf, KeysUnique, EventsSound, IdsBounded, RequestsSound, ChunksSound;
    hide Rows, IsClassifier;
    hide WithoutChunksOf, KnowledgeBaseSound;
    assert DocumentSound(s.db, d);
    var text := cfg.parse(s.db.documents[d].storageKey.file).value;
    DocumentIsCovered(text, cfg.chunkSize, cfg.chunkOverlap, cfg.classify);
    var vectors := seq(|ChildrenOf(ParentsIn(cfg, text))|, _ => []);
    a := Index(worker, Embedded(vectors));
    assert IndexResultOf(cfg, s.db, d, s.db.documents[d].indexVersion, a.io) == Indexed;
  }

  lemma ClaimAndIndex(cfg: Settings, s: System, d: int) returns (actions: seq<Action>, t: System)
    requires ValidSettings(cfg) && Inv(cfg, s.db) && d in s.db.documents && s.db.documents[d].status == PENDING
    requires IndexMessage(d, Some(s.db.documents[d].indexVersion)) in s.messages
    requires IsIndexable(cfg, s.db.documents[d].storageKey.file)
    ensures LeadsTo(cfg, s, actions, t)
    ensures d in t.db.documents && t.db.documents[d].status == READY
    ensures t.db.documents[d].indexVersion == s.db.documents[d].indexVersion
  {
    hide Inv, ValidSettings, Next, Enabled, IsIndexable;
    var claim := ClaimPending(cfg, s, d);
    var claimed := Next(cfg, s, claim);
    var index := IndexProcessing(cfg, claimed, s.nextWorker, d);
    t := Next(cfg, claimed, index);
    actions := [claim] + [index];
    TwoSteps(cfg, s, claim, index);
  }

  lemma TwoSteps(cfg: Settings, s: System, a: Action, b: Action)
    requires IsBackground(a) && Enabled(cfg, s, a) && IsBackground(b) && Enabled(cfg, Next(cfg, s, a), b)
    ensures LeadsTo(cfg, s, [a] + [b], Next(cfg, Next(cfg, s, a), b))
  {
    hide Next, Enabled;
    var t := Next(cfg, Next(cfg, s, a), b);
    assert LeadsTo(cfg, t, [], t);
    StepFirst(cfg, Next(cfg, s, a), b, [], t);
    assert [b] + [] == [b];
    StepFirst(cfg, s, a, [b], t);
  }

  /** From every reachable state some schedule of the clock, the repair beat and the workers alone makes a pending or
      processing document with indexable content ready, at its current version. */
  lemma NoStrandedDocument(cfg: Settings, s: System, d: int) returns (actions: seq<Action>, t: System)
    requires ValidSettings(cfg) && Reachable(cfg, s) && IsWaiting(s.db, d)
    requires IsIndexable(cfg, s.db.documents[d].storageKey.file)
    ensures LeadsTo(cfg, s, actions, t)
    ensures d in t.db.documents && t.db.documents[d].status == READY
    ensures t.db.documents[d].indexVersion == s.db.documents[d].indexVersion
  {
    hide Inv, ValidSettings, Reachable, IsIndexable, LeadsTo;
    ReachableIsSound(cfg, s);
    var age := s.db.documents[d].activity + cfg.staleSeconds + 1 - s.now;
    var tick := Tick(if age > 0 then age else 0);
    var later := Next(cfg, s, tick);
    var repair, requeued := RepairRequeues(cfg, later, d);
    var index: seq<Action>;
    index, t := ClaimAndIndex(cfg, requeued, d);
    LeadsOn(cfg, later, repair, requeued, index, t);
    actions := [tick] + (repair + index);
    StepFirst(cfg, s, tick, repair + index, t);
  }

  lemma RepairIs(cfg: Settings, s: System, a: Action)
    requires a.RepairBeat? && Enabled(cfg, s, a)
    ensures forall d :: d in a.rows ==> d in s.db.documents
    ensures a.sent <= |a.rows| + |a.deleting| && ListsDeleting(s.db, a.deleting)
    ensures Next(cfg, s, a) == AfterRepair(s, a.rows, a.deleting, a.sent)
  {
    hide RepairMessages, RecoverRows, ListsDeleting;
    assert forall e :: e in a.rows ==> IsEligible(s.db, s.now - cfg.staleSeconds, a.locked, e);
  }

  lemma RepairedAreWaiting(cfg: Settings, s: System, a: Action)
    requires a.RepairBeat? && Enabled(cfg, s, a)
    ensures forall e :: e in a.rows ==> IsWaiting(s.db, e)
  {
    assert forall e :: e in a.rows ==> IsEligible(s.db, s.now - cfg.staleSeconds, a.locked, e);
  }

  lemma DeletionSent(cfg: Settings, s: System, a: Action, d: int)
    requires a.RepairBeat? && Enabled(cfg, s, a) && a.sent == |a.rows| + |a.deleting|
    requires d in s.db.documents && s.db.documents[d].status == DELETING
    ensures var t := Next(cfg, s, a);
            && DeleteMessage(d) in t.messages
            && d in t.db.documents && t.db.documents[d] == s.db.documents[d]
            && t.db.objects == s.db.objects && t.db.chunks == s.db.chunks
  {
    hide RecoverRows, IndexMessages, Next, Enabled;
    RepairIs(cfg, s, a);
    RepairedAreWaiting(cfg, s, a);
    RecoverRowsAre(s.db, a.rows, s.now);
    var messages := RepairMessages(s.db, a.rows, a.deleting);
    assert messages[..a.sent] == messages;
    assert d in a.deleting;
    var i :| 0 <= i < |a.deleting| && a.deleting[i] == d;
    assert messages[|a.rows| + i] == DeleteMessage(d);
  }

  /** And a document being deleted is removed, with its chunks and its object. */
  lemma NoStrandedDeletion(cfg: Settings, s: System, d: int) returns (actions: seq<Action>, t: System)
    requires d in s.db.documents && s.db.documents[d].status == DELETING
    ensures LeadsTo(cfg, s, actions, t)
    ensures d !in t.db.documents && s.db.documents[d].storageKey !in t.db.objects && ChunksOf(t.db.chunks, d) == map[]
  {
    var repair := RepairRoundExists(cfg, s);
    DeletionSent(cfg, s, repair, d);
    var sent := Next(cfg, s, repair);
    var remove := Remove(DeleteMessage(d));
    t := Next(cfg, sent, remove);
    actions := [repair] + [remove];
    TwoSteps(cfg, s, repair, remove);
    RemovalIsComplete(sent.db, d);
  }

  lemma RemovalIsComplete(db: Db, d: int)
    requires IsRemovable(db, d)
    ensures var after := RemoveDocument(db, d);
            d !in after.documents && db.documents[d].storageKey !in after.objects && ChunksOf(after.chunks, d) == map[]
  {}

  lemma CommitMeansIndexable(cfg: Settings, s: System, a: Action, d: int, version: int)
    requires ValidSettings(cfg) && Commits(cfg, s, a, d, version)
    ensures d in s.db.documents && IsIndexable(cfg, s.db.documents[d].storageKey.file)
  {
    hide Visible, ParentChildChunks, ChildrenOf, IsClassifier;
    var text := cfg.parse(s.db.documents[d].storageKey.file).value;
    DocumentIsCovered(text, cfg.chunkSize, cfg.chunkOverlap, cfg.classify);
  }

  /** The condition is exact: only documents with indexable content ever become ready. */
  lemma ReadyMeansIndexable(cfg: Settings, states: seq<System>, actions: seq<Action>, j: nat, d: int)
    requires ValidSettings(cfg) && IsRun(cfg, states, actions) && j < |states|
    requires d in states[j].db.documents && states[j].db.documents[d].status == READY
    ensures IsIndexable(cfg, states[j].db.documents[d].storageKey.file)
  {
    hide Steps, Initial, ValidSettings, IsIndexable, Commits, KeysUnique, EventsSound, DocumentsSound;
    var i := ReadyByCommit(cfg, states, actions, j, d);
    CommitMeansIndexable(cfg, states[i], actions[i], d, states[j].db.documents[d].indexVersion);
    RunIsSound(cfg, states, actions, i);
    RunAdvances(cfg, states, actions, i, j);
    assert Moves(states[i].db, states[j].db, d);
  }
}
