/** The outbox within the protocol: what every step does to the events, and that none waits forever. */
module LifecycleDispatch {
  import opened RagStore
  import opened RagInvariant
  import opened Lifecycle
  import opened LifecycleSafety
  import Outbox
  import UnlockedReads

  // ----- what a step does to the events -----

  function DeleteRequests(rows: seq<int>): seq<Outbox.Change> {
    if rows == [] then []
    else DeleteRequests(rows[..|rows| - 1]) + [Outbox.Append(Outbox.DeleteRequest(rows[|rows| - 1]))]
  }

  /** The requests of a late write, unless it is rolled back. */
  function WriteRequests(db: Db, call: UnlockedReads.Call): seq<Outbox.Change> {
    match call
    case ToInsert(kb, file) =>
      if IsKeyTaken(db, StorageKey(kb, file)) then [] else [Outbox.Append(Outbox.IndexRequest(db.nextId, 1))]
    case ToRetry(read) =>
      if read.documentId !in db.documents then []
      else [Outbox.Append(Outbox.IndexRequest(read.documentId, read.document.indexVersion + 1))]
    case ToDelete(read) =>
      if UnlockedReads.IsLost(db, read) then [] else [Outbox.Append(Outbox.DeleteRequest(read.documentId))]
    case ToDrop(kb, rows) =>
      if kb !in db.knowledgeBases || UnlockedReads.LosesOne(db, rows) then []
      else DeleteRequests(UnlockedReads.Ids(rows))
    case ToEdit(_, _, _) => []
  }

  /** The requests that a step adds, or the dispatch that it is. */
  function ChangesOf(cfg: Settings, s: System, a: Action): seq<Outbox.Change> {
    match a
    case DropKnowledgeBase(user, kb, rows) => if IsAuthorized(s.db, kb, user, true) then DeleteRequests(rows) else []
    case Upload(user, kb, file) =>
      if CreateResultOf(cfg, s.db, user, kb, file).Created? then [Outbox.Append(Outbox.IndexRequest(s.db.nextId, 1))]
      else []
    case Reindex(user, kb, d) =>
      if IsWritable(s.db, kb, d, user) then [Outbox.Append(Outbox.IndexRequest(d, s.db.documents[d].indexVersion + 1))]
      else []
    case Discard(user, kb, d) =>
      if IsWritable(s.db, kb, d, user) then [Outbox.Append(Outbox.DeleteRequest(d))] else []
    case Write(call) => WriteRequests(s.db, call)
    case DispatchBeat(limit, lockedEvents, failing) => [Outbox.Round(limit, lockedEvents, failing)]
    case _ => []
  }

  lemma {:induction false} DeletesAreAppended(cfg: Settings, db: Db, rows: seq<int>, now: int)
    requires forall d :: d in rows ==> d in db.documents
    ensures RequestDeletes(db, rows, now).events
        == Outbox.ApplyAll(db.events, DeleteRequests(rows), cfg.maxDispatchAttempts)
  {
    hide Outbox.Enqueue;
    if rows != [] {
      var front, last := rows[..|rows| - 1], rows[|rows| - 1];
      assert forall d :: d in front ==> d in rows;
      DeletesAreAppended(cfg, db, front, now);
      Outbox.ApplyOneMore(db.events, DeleteRequests(front), Outbox.Append(Outbox.DeleteRequest(last)),
          cfg.maxDispatchAttempts);
    }
  }

  lemma {:induction false} LateDeletesAreAppended(cfg: Settings, db: Db, rows: seq<UnlockedReads.Read>, now: int)
    ensures UnlockedReads.LateDeletes(db, rows, now).events
        == Outbox.ApplyAll(db.events, DeleteRequests(UnlockedReads.Ids(rows)), cfg.maxDispatchAttempts)
  {
    hide Outbox.Enqueue;
    var ids := UnlockedReads.Ids(rows);
    if rows != [] {
      var front, last := rows[..|rows| - 1], ids[|rows| - 1];
      LateDeletesAreAppended(cfg, db, front, now);
      assert ids[..|rows| - 1] == UnlockedReads.Ids(front);
      Outbox.ApplyOneMore(db.events, DeleteRequests(UnlockedReads.Ids(front)),
          Outbox.Append(Outbox.DeleteRequest(last)), cfg.maxDispatchAttempts);
    }
  }

  lemma WriteChangesEvents(cfg: Settings, db: Db, call: UnlockedReads.Call, now: int)
    ensures UnlockedReads.Written(db, call, now).events
        == Outbox.ApplyAll(db.events, WriteRequests(db, call), cfg.maxDispatchAttempts)
  {
    hide Outbox.Enqueue, IsKeyTaken, UnlockedReads.LosesOne, UnlockedReads.LateDeletes, DeleteRequests;
    Outbox.ApplyNone(db.events, cfg.maxDispatchAttempts);
    match call
    case ToInsert(kb, file) =>
      Outbox.ApplyOne(db.events, Outbox.Append(Outbox.IndexRequest(db.nextId, 1)), cfg.maxDispatchAttempts);
    case ToRetry(read) =>
      Outbox.ApplyOne(db.events,
          Outbox.Append(Outbox.IndexRequest(read.documentId, read.document.indexVersion + 1)), cfg.maxDispatchAttempts);
    case ToDelete(read) =>
      Outbox.ApplyOne(db.events, Outbox.Append(Outbox.DeleteRequest(read.documentId)), cfg.maxDispatchAttempts);
    case ToDrop(kb, rows) =>
      if kb in db.knowledgeBases && !UnlockedReads.LosesOne(db, rows) {
        LateDeletesAreAppended(cfg, MarkDeleted(db, kb), rows, now);
      }
    case ToEdit(_, _, _) =>
  }

  lemma StepChangesEvents(cfg: Settings, s: System, a: Action)
    requires Enabled(cfg, s, a)
    ensures Next(cfg, s, a).db.events == Outbox.ApplyAll(s.db.events, ChangesOf(cfg, s, a), cfg.maxDispatchAttempts)
  {
    hide RequestDeletes, Outbox.Enqueue, Outbox.Dispatch, ClaimResultOf, IndexResultOf, IsFailureMarked;
    hide IsKeyTaken, RepairMessages;
    hide IsStaleSelection, ListsDeleting, Rows, Accepted, WithoutChunksOf, RecoverRows, Outbox.Claim;
    hide IsAuthorized, CreateResultOf, IsNameTaken, IsNameTakenBesides, WriteRequests;
    hide UnlockedReads.Written, UnlockedReads.IsTimely, UnlockedReads.IsKnown;
    Outbox.ApplyNone(s.db.events, cfg.maxDispatchAttempts);
    match a
    case DropKnowledgeBase(user, kb, rows) =>
      if IsAuthorized(s.db, kb, user, true) {
        DroppedIsKnown(s.db, kb, user);
        DeletesAreAppended(cfg, MarkDeleted(s.db, kb), rows, s.now);
      }
    case RepairBeat(rows, _, _, _) =>
      StaleRowsExist(cfg, s, a);
      RecoverRowsAre(s.db, rows, s.now);
    case Upload(user, kb, file) =>
      CreatedIsNext(cfg, s.db, user, kb, file);
      Outbox.ApplyOne(s.db.events, Outbox.Append(Outbox.IndexRequest(s.db.nextId, 1)), cfg.maxDispatchAttempts);
    case Reindex(_, kb, d) =>
      if d in s.db.documents {
        Outbox.ApplyOne(s.db.events, Outbox.Append(Outbox.IndexRequest(d, s.db.documents[d].indexVersion + 1)),
            cfg.maxDispatchAttempts);
      }
    case Discard(_, _, d) =>
        Outbox.ApplyOne(s.db.events, Outbox.Append(Outbox.DeleteRequest(d)), cfg.maxDispatchAttempts);
    case Write(call) => WriteChangesEvents(cfg, s.db, call, s.now);
    case DispatchBeat(limit, lockedEvents, failing) =>
      Outbox.ApplyOne(s.db.events, Outbox.Round(limit, lockedEvents, failing), cfg.maxDispatchAttempts);
    case _ =>
  }

  // ----- bounded wait over paths -----

  /** The changes of the first k steps. */
  function PathChanges(cfg: Settings, states: seq<System>, actions: seq<Action>, k: nat): seq<Outbox.Change>
    requires k <= |actions| < |states|
  {
    if k == 0 then [] else PathChanges(cfg, states, actions, k - 1) + ChangesOf(cfg, states[k - 1], actions[k - 1])
  }

  function CountDispatches(actions: seq<Action>): nat {
    if actions == [] then 0
    else CountDispatches(actions[..|actions| - 1]) + (if actions[|actions| - 1].DispatchBeat? then 1 else 0)
  }

  lemma {:induction false} PathChangesEvents(cfg: Settings, states: seq<System>, actions: seq<Action>, k: nat)
    requires IsPath(cfg, states, actions) && k <= |actions|
    ensures states[k].db.events
        == Outbox.ApplyAll(states[0].db.events, PathChanges(cfg, states, actions, k), cfg.maxDispatchAttempts)
    ensures Outbox.CountRounds(PathChanges(cfg, states, actions, k)) == CountDispatches(actions[..k])
  {
    hide Next, Enabled, ChangesOf;
    if k == 0 {
      Outbox.ApplyNone(states[0].db.events, cfg.maxDispatchAttempts);
    } else {
      PathChangesEvents(cfg, states, actions, k - 1);
      assert StepAt(cfg, states, actions, k - 1);
      StepChangesEvents(cfg, states[k - 1], actions[k - 1]);
      var before, step := PathChanges(cfg, states, actions, k - 1), ChangesOf(cfg, states[k - 1], actions[k - 1]);
      Outbox.ApplyConcat(states[0].db.events, before, step, cfg.maxDispatchAttempts);
      StepRounds(cfg, states[k - 1], actions[k - 1]);
      assert actions[..k][..k - 1] == actions[..k - 1];
    }
  }

  lemma {:induction false} NoRoundsInDeletes(rows: seq<int>)
    ensures Outbox.CountRounds(DeleteRequests(rows)) == 0
    ensures forall c :: c in DeleteRequests(rows) ==> c.Append?
  {
    if rows != [] {
      var front := DeleteRequests(rows[..|rows| - 1]);
      NoRoundsInDeletes(rows[..|rows| - 1]);
      assert DeleteRequests(rows)[..|front|] == front;
    }
  }

  lemma StepRounds(cfg: Settings, s: System, a: Action)
    ensures Outbox.CountRounds(ChangesOf(cfg, s, a)) == if a.DispatchBeat? then 1 else 0
    ensures forall c :: c in ChangesOf(cfg, s, a) && c.Round? ==>
              a.DispatchBeat? && c.limit == a.limit && c.locked == a.lockedEvents && c.failing == a.failing
  {
    hide IsAuthorized, CreateResultOf, IsWritable;
    Outbox.CountNoRounds();
    if a.DropKnowledgeBase? {
      NoRoundsInDeletes(a.rows);
    } else if a.Write? && a.call.ToDrop? {
      NoRoundsInDeletes(UnlockedReads.Ids(a.call.rows));
    }
  }

  lemma {:induction false} PathReaches(cfg: Settings, states: seq<System>, actions: seq<Action>, k: nat, p: nat,
                                       limit: nat)
    requires k <= |actions| < |states|
    requires forall i :: 0 <= i < |actions| && actions[i].DispatchBeat? ==>
        actions[i].limit == limit && p !in actions[i].lockedEvents
    ensures Outbox.Reaches(PathChanges(cfg, states, actions, k), p, limit)
  {
    hide ChangesOf;
    if k > 0 {
      PathReaches(cfg, states, actions, k - 1, p, limit);
      StepRounds(cfg, states[k - 1], actions[k - 1]);
      var step := ChangesOf(cfg, states[k - 1], actions[k - 1]);
      assert forall i :: 0 <= i < |step| ==> step[i] in step;
    }
  }

  /** From every reachable state, whatever API calls, workers and repairs do in between: an event with k claimable
      events before it is attempted within floor(k * max / limit) + 1 dispatches that find its row unlocked. */
  lemma EventsAreAttempted(cfg: Settings, states: seq<System>, actions: seq<Action>, from: nat, p: nat, limit: nat)
    requires ValidSettings(cfg) && IsRun(cfg, states, actions) && from < |states| && limit >= 1
    requires p < |states[from].db.events| && Outbox.IsClaimable(states[from].db.events[p])
    requires forall i :: from <= i < |actions| && actions[i].DispatchBeat? ==>
        actions[i].limit == limit && p !in actions[i].lockedEvents
    requires CountDispatches(actions[from..])
          >= Outbox.ClaimableBefore(states[from].db.events, p) * cfg.maxDispatchAttempts / limit + 1
    ensures var before, after := states[from].db.events, states[|actions|].db.events;
            && p < |after| && after[p].request == before[p].request
            && before[p].attempts < after[p].attempts <= cfg.maxDispatchAttempts
  {
    hide Inv, Steps, Initial, Outbox.ApplyAll, Outbox.Reaches;
    var later, steps := states[from..], actions[from..];
    forall j | 0 <= j < |steps| ensures StepAt(cfg, later, steps, j) {
      assert StepAt(cfg, states, actions, from + j);
    }
    RunIsSound(cfg, states, actions, from);
    PathAttempts(cfg, later, steps, p, limit);
  }

  lemma PathAttempts(cfg: Settings, states: seq<System>, actions: seq<Action>, p: nat, limit: nat)
    requires ValidSettings(cfg) && IsPath(cfg, states, actions) && Inv(cfg, states[0].db) && limit >= 1
    requires p < |states[0].db.events| && Outbox.IsClaimable(states[0].db.events[p])
    requires forall i :: 0 <= i < |actions| && actions[i].DispatchBeat? ==>
        actions[i].limit == limit && p !in actions[i].lockedEvents
    requires CountDispatches(actions)
          >= Outbox.ClaimableBefore(states[0].db.events, p) * cfg.maxDispatchAttempts / limit + 1
    ensures p < |states[|actions|].db.events|
        && states[|actions|].db.events[p].request == states[0].db.events[p].request
    ensures states[0].db.events[p].attempts < states[|actions|].db.events[p].attempts <= cfg.maxDispatchAttempts
  {
    hide Outbox.ApplyAll, Outbox.Reaches, Outbox.NoDuplicates, Outbox.AttemptsBounded, IsPath, DocumentsSound;
    PathLength(cfg, states, actions);
    var n := |actions|;
    assert actions[..n] == actions;
    PathChangesEvents(cfg, states, actions, n);
    PathReaches(cfg, states, actions, n, p, limit);
    var changes := PathChanges(cfg, states, actions, n);
    Outbox.AttemptedWithinBound(states[0].db.events, changes, cfg.maxDispatchAttempts, p, limit);
    Outbox.ApplyAllKeeps(states[0].db.events, changes, cfg.maxDispatchAttempts);
    Outbox.BoundOf(states[n].db.events, cfg.maxDispatchAttempts, p);
  }

  // ----- bounded settling over paths -----

  /** The broker refuses the event in each dispatch that attempts it, or in none. */
  ghost predicate IsRefused(actions: seq<Action>, p: nat) {
    forall i :: 0 <= i < |actions| && actions[i].DispatchBeat? ==> p in actions[i].failing
  }

  ghost predicate IsAccepted(actions: seq<Action>, p: nat) {
    forall i :: 0 <= i < |actions| && actions[i].DispatchBeat? ==> p !in actions[i].failing
  }

  lemma {:induction false} PathDecides(cfg: Settings, states: seq<System>, actions: seq<Action>, k: nat, p: nat)
    requires k <= |actions| < |states|
    ensures IsRefused(actions, p) ==> Outbox.AlwaysRefused(PathChanges(cfg, states, actions, k), p)
    ensures IsAccepted(actions, p) ==> Outbox.AlwaysAccepted(PathChanges(cfg, states, actions, k), p)
  {
    hide ChangesOf;
    if k > 0 {
      PathDecides(cfg, states, actions, k - 1, p);
      StepRounds(cfg, states[k - 1], actions[k - 1]);
      var step := ChangesOf(cfg, states[k - 1], actions[k - 1]);
      assert forall i :: 0 <= i < |step| ==> step[i] in step;
    }
  }

  /** From every reachable state, whatever else happens: an event with k claimable events before it is dispatched, or
      dead after exactly max attempts, within floor(k * max / limit) + (max - attempts) dispatches that find its row
      unlocked. If the broker always accepts it, it is dispatched; if it always refuses it, it is dead. */
  lemma EventsAreSettled(cfg: Settings, states: seq<System>, actions: seq<Action>, from: nat, p: nat, limit: nat)
    requires ValidSettings(cfg) && IsRun(cfg, states, actions) && from < |states| && limit >= 1
    requires p < |states[from].db.events| && Outbox.IsClaimable(states[from].db.events[p])
    requires forall i :: from <= i < |actions| && actions[i].DispatchBeat? ==>
        actions[i].limit == limit && p !in actions[i].lockedEvents
    requires CountDispatches(actions[from..]) + states[from].db.events[p].attempts
          >= Outbox.ClaimableBefore(states[from].db.events, p) * cfg.maxDispatchAttempts / limit
             + cfg.maxDispatchAttempts
    ensures var before, after := states[from].db.events, states[|actions|].db.events;
            && p < |after| && after[p].request == before[p].request
            && (|| after[p].status == Outbox.DISPATCHED
                || (after[p].status == Outbox.DEAD && after[p].attempts == cfg.maxDispatchAttempts))
            && (IsAccepted(actions[from..], p) ==> after[p].status == Outbox.DISPATCHED)
            && (IsRefused(actions[from..], p) ==> after[p].status == Outbox.DEAD)
  {
    hide Inv, Steps, Initial, Outbox.ApplyAll, Outbox.Reaches, IsAccepted, IsRefused;
    var later, steps := states[from..], actions[from..];
    forall j | 0 <= j < |steps| ensures StepAt(cfg, later, steps, j) {
      assert StepAt(cfg, states, actions, from + j);
    }
    RunIsSound(cfg, states, actions, from);
    PathSettles(cfg, later, steps, p, limit);
  }

  lemma PathSettles(cfg: Settings, states: seq<System>, actions: seq<Action>, p: nat, limit: nat)
    requires ValidSettings(cfg) && IsPath(cfg, states, actions) && Inv(cfg, states[0].db) && limit >= 1
    requires p < |states[0].db.events| && Outbox.IsClaimable(states[0].db.events[p])
    requires forall i :: 0 <= i < |actions| && actions[i].DispatchBeat? ==>
        actions[i].limit == limit && p !in actions[i].lockedEvents
    requires CountDispatches(actions) + states[0].db.events[p].attempts
          >= Outbox.ClaimableBefore(states[0].db.events, p) * cfg.maxDispatchAttempts / limit + cfg.maxDispatchAttempts
    ensures var after := states[|actions|].db.events;
            && p < |after| && after[p].request == states[0].db.events[p].request
            && (|| after[p].status == Outbox.DISPATCHED
                || (after[p].status == Outbox.DEAD && after[p].attempts == cfg.maxDispatchAttempts))
            && (IsAccepted(actions, p) ==> after[p].status == Outbox.DISPATCHED)
            && (IsRefused(actions, p) ==> after[p].status == Outbox.DEAD)
  {
    hide Outbox.ApplyAll, Outbox.Reaches, Outbox.NoDuplicates, Outbox.AttemptsBounded, IsPath, DocumentsSound;
    hide IsAccepted, IsRefused, Outbox.AlwaysAccepted, Outbox.AlwaysRefused, PathChanges, Outbox.ClaimableBefore;
    PathLength(cfg, states, actions);
    var n := |actions|;
    assert actions[..n] == actions;
    PathChangesEvents(cfg, states, actions, n);
    PathReaches(cfg, states, actions, n, p, limit);
    PathDecides(cfg, states, actions, n, p);
    var changes := PathChanges(cfg, states, actions, n);
    Outbox.SettledWithinBound(states[0].db.events, changes, cfg.maxDispatchAttempts, p, limit);
    Outbox.RefusalsDecide(states[0].db.events, changes, cfg.maxDispatchAttempts, p);
    Outbox.BoundOf(states[0].db.events, cfg.maxDispatchAttempts, p);
  }

  /** What a dispatch makes of an event: accepted, it is dispatched and its message sent; refused, it stays claimable
      until it has failed max times, and is dead then. */
  lemma DispatchDecides(cfg: Settings, s: System, a: Action, p: nat)
    requires ValidSettings(cfg) && Inv(cfg, s.db) && a.DispatchBeat? && p < |s.db.events|
    requires p in Outbox.Claim(s.db.events, a.limit, a.lockedEvents)
    ensures var t := Next(cfg, s, a);
            && p < |t.db.events| && t.db.events[p].request == s.db.events[p].request
            && t.db.events[p].attempts == s.db.events[p].attempts + 1
            && (if p !in a.failing then
                  t.db.events[p].status == Outbox.DISPATCHED && MessageOf(s.db.events[p].request) in t.messages
                else if t.db.events[p].attempts < cfg.maxDispatchAttempts then t.db.events[p].status == Outbox.FAILED
                else t.db.events[p].status == Outbox.DEAD && t.db.events[p].attempts == cfg.maxDispatchAttempts)
  {
    hide Outbox.Claim, Accepted, DocumentsSound, KeysUnique;
    Outbox.DispatchOutcome(s.db.events, a.limit, a.lockedEvents, a.failing, cfg.maxDispatchAttempts, p);
    if p !in a.failing {
      AcceptedHas(s.db.events, Outbox.Claim(s.db.events, a.limit, a.lockedEvents), a.failing, p);
    }
  }

  /** A dispatch sends no message but those of the events that it dispatches. */
  lemma OnlyDispatchedIsSent(cfg: Settings, s: System, a: Action, m: Message)
    requires a.DispatchBeat? && m in Next(cfg, s, a).messages && m !in s.messages
    ensures exists p :: 0 <= p < |s.db.events| && Outbox.IsClaimable(s.db.events[p])
                && MessageOf(s.db.events[p].request) == m
                && Next(cfg, s, a).db.events[p].status == Outbox.DISPATCHED
  {
    hide Accepted, Outbox.ClaimFrom;
    var claimed := Outbox.Claim(s.db.events, a.limit, a.lockedEvents);
    assert m in Accepted(s.db.events, claimed, a.failing);
    var p := AcceptedFrom(s.db.events, claimed, a.failing, m);
    Outbox.ClaimedAreEligible(s.db.events, 0, a.limit, a.lockedEvents);
  }

  lemma PathLength(cfg: Settings, states: seq<System>, actions: seq<Action>)
    requires IsPath(cfg, states, actions)
    ensures |states| == |actions| + 1
  {}

  // ----- dispatched means sent -----

  lemma {:induction false} AcceptedHas(events: Outbox.Table, claimed: seq<nat>, failing: set<nat>, p: nat)
    requires p in claimed && p < |events| && p !in failing
    ensures MessageOf(events[p].request) in Accepted(events, claimed, failing)
  {
    var front, last := claimed[..|claimed| - 1], claimed[|claimed| - 1];
    if p == last {
      assert Accepted(events, claimed, failing) == Accepted(events, front, failing) + [MessageOf(events[last].request)];
    } else {
      assert claimed == front + [last];
      AcceptedHas(events, front, failing, p);
    }
  }

  /** An event becomes DISPATCHED only in a step that also sends its message. */
  lemma DispatchedMeansSent(cfg: Settings, s: System, a: Action, p: nat)
    requires Enabled(cfg, s, a)
    requires p < |Next(cfg, s, a).db.events| && Next(cfg, s, a).db.events[p].status == Outbox.DISPATCHED
    ensures p < |s.db.events| && Next(cfg, s, a).db.events[p].request == s.db.events[p].request
    ensures s.db.events[p].status == Outbox.DISPATCHED || MessageOf(s.db.events[p].request) in Next(cfg, s, a).messages
  {
    hide Next, Enabled, ChangesOf, Outbox.Claim, Accepted;
    StepChangesEvents(cfg, s, a);
    if a.DispatchBeat? {
      DispatchSends(cfg, s, a, p);
    } else {
      StepAppends(cfg, s, a);
      Outbox.AppendsArePending(s.db.events, ChangesOf(cfg, s, a), cfg.maxDispatchAttempts);
    }
  }

  lemma DispatchSends(cfg: Settings, s: System, a: Action, p: nat)
    requires a.DispatchBeat? && p < |Next(cfg, s, a).db.events|
        && Next(cfg, s, a).db.events[p].status == Outbox.DISPATCHED
    ensures p < |s.db.events| && Next(cfg, s, a).db.events[p].request == s.db.events[p].request
    ensures s.db.events[p].status == Outbox.DISPATCHED || MessageOf(s.db.events[p].request) in Next(cfg, s, a).messages
  {
    hide Accepted, Outbox.Claim;
    var claimed := Outbox.Claim(s.db.events, a.limit, a.lockedEvents);
    if p in claimed && p !in a.failing {
      AcceptedHas(s.db.events, claimed, a.failing, p);
    }
  }

  lemma StepAppends(cfg: Settings, s: System, a: Action)
    requires !a.DispatchBeat?
    ensures forall c :: c in ChangesOf(cfg, s, a) ==> c.Append?
  {
    StepRounds(cfg, s, a);
  }

  // ----- when a dispatch can send a message -----

  ghost predicate SendsIn(events: Outbox.Table, request: Outbox.Request, limit: nat, locked: set<nat>,
                          failing: set<nat>) {
    MessageOf(request) in Accepted(events, Outbox.Claim(events, limit, locked), failing)
  }

  /** Some dispatch sends the message of the request. */
  ghost predicate CanSend(events: Outbox.Table, request: Outbox.Request) {
    exists limit, locked, failing :: SendsIn(events, request, limit, locked, failing)
  }

  lemma {:induction false} AcceptedFrom(events: Outbox.Table, claimed: seq<nat>, failing: set<nat>, m: Message)
      returns (p: nat)
    requires m in Accepted(events, claimed, failing)
    ensures p in claimed && p < |events| && p !in failing && MessageOf(events[p].request) == m
  {
    var front, last := claimed[..|claimed| - 1], claimed[|claimed| - 1];
    assert claimed == front + [last];
    if m in Accepted(events, front, failing) {
      p := AcceptedFrom(events, front, failing, m);
    } else {
      p := last;
    }
  }

  /** A dispatch can send the message of a request exactly if an event with this request is still claimable. */
  lemma CanSendIffClaimable(events: Outbox.Table, request: Outbox.Request)
    ensures CanSend(events, request)
       <==> exists p :: 0 <= p < |events| && events[p].request == request && Outbox.IsClaimable(events[p])
  {
    hide Accepted, Outbox.Claim, Outbox.ClaimFrom;
    if CanSend(events, request) {
      var limit, locked, failing :| SendsIn(events, request, limit, locked, failing);
      var p := AcceptedFrom(events, Outbox.Claim(events, limit, locked), failing, MessageOf(request));
      ClaimIsFromStart(events, limit, locked);
      Outbox.ClaimedAreEligible(events, 0, limit, locked);
    }
    if p :| 0 <= p < |events| && events[p].request == request && Outbox.IsClaimable(events[p]) {
      ClaimIsFromStart(events, |events|, {});
      Outbox.LargeBatchTakesAll(events, 0, |events|, {}, p);
      AcceptedHas(events, Outbox.Claim(events, |events|, {}), {}, p);
      assert SendsIn(events, request, |events|, {}, {});
    }
  }

  lemma ClaimIsFromStart(events: Outbox.Table, limit: nat, locked: set<nat>)
    ensures Outbox.Claim(events, limit, locked) == Outbox.ClaimFrom(events, 0, limit, locked)
  {}

  /** An event that is dispatched or dead stays as it is, and no later dispatch of any run sends its message again. A
      second deletion of a revived document then depends on the repair beat. */
  lemma {:induction false} SettledEventsAreNeverSent(cfg: Settings, states: seq<System>, actions: seq<Action>, i: nat,
                                                     j: nat, p: nat)
    requires ValidSettings(cfg) && IsRun(cfg, states, actions) && i <= j < |states|
    requires p < |states[i].db.events| && !Outbox.IsClaimable(states[i].db.events[p])
    ensures p < |states[j].db.events| && states[j].db.events[p] == states[i].db.events[p]
    ensures !CanSend(states[j].db.events, states[i].db.events[p].request)
    decreases j - i
  {
    hide Steps, ChangesOf, CanSend, Outbox.ApplyAll, Inv, Initial;
    RunIsSound(cfg, states, actions, j);
    if i < j {
      SettledEventsAreNeverSent(cfg, states, actions, i, j - 1, p);
      RunIsSound(cfg, states, actions, j - 1);
      assert StepAt(cfg, states, actions, j - 1);
      StepChanges(cfg, states[j - 1], actions[j - 1], states[j]);
      EventsOf(cfg, states[j - 1].db);
      Outbox.SettledStays(states[j - 1].db.events, ChangesOf(cfg, states[j - 1], actions[j - 1]),
          cfg.maxDispatchAttempts, p);
    }
    EventsOf(cfg, states[j].db);
    OnlySettledEvent(states[j].db.events, p);
  }

  lemma StepChanges(cfg: Settings, s: System, a: Action, t: System)
    requires Steps(cfg, s, a, t)
    ensures t.db.events == Outbox.ApplyAll(s.db.events, ChangesOf(cfg, s, a), cfg.maxDispatchAttempts)
  {
    hide Next, Enabled, ChangesOf;
    StepChangesEvents(cfg, s, a);
  }

  lemma EventsOf(cfg: Settings, db: Db)
    requires Inv(cfg, db)
    ensures Outbox.NoDuplicates(db.events) && Outbox.AttemptsBounded(db.events, cfg.maxDispatchAttempts)
  {}

  lemma OnlySettledEvent(events: Outbox.Table, p: nat)
    requires Outbox.NoDuplicates(events) && p < |events| && !Outbox.IsClaimable(events[p])
    ensures !CanSend(events, events[p].request)
  {
    hide CanSend;
    CanSendIffClaimable(events, events[p].request);
  }
}
