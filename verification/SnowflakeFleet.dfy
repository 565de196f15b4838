/** A fleet of processes with leased or fixed node ids that generate Snowflake ids: exactly when ids repeat. */
module SnowflakeFleet {
  import Snowflake
  import NodeLeases

  /** A process's generator, whether its pair is fixed by the configuration, and whether it has issued an id yet. */
  datatype Holder = Holder(state: Snowflake.State, isFixed: bool, hasIssued: bool)

  /** An id, by its fields, and the process that issued it. */
  datatype Stamp = Stamp(process: int, id: Snowflake.Fields)

  /** The leases; the initialized generators, also of processes that have released their pair; and all ids so far. */
  datatype Fleet = Fleet(world: NodeLeases.World, holders: map<int, Holder>, issued: seq<Stamp>)

  /** A step of the leases; a start with fixed ids, which sets no key; the end of a process that holds no lease; or a
      call of generate with its clock readings. */
  datatype Action = Lease(action: NodeLeases.Action)
                  | Fix(process: int, node: NodeLeases.Node)
                  | Stop(process: int)
                  | Generate(process: int, readings: seq<int>)

  function PairOf(id: Snowflake.Fields): NodeLeases.Node {
    (id.datacenterId, id.workerId)
  }

  function PairOfHolder(h: Holder): NodeLeases.Node {
    (h.state.datacenterId, h.state.workerId)
  }

  function NewHolder(node: NodeLeases.Node, isFixed: bool): Holder {
    Holder(Snowflake.State(node.0, node.1, 0, -1), isFixed, false)
  }

  /** A process that starts again is another process. */
  ghost predicate IsNew(f: Fleet, p: int) {
    p !in f.holders && p !in f.world.live && forall k :: 0 <= k < |f.issued| ==> f.issued[k].process != p
  }

  /** A call completes with its readings, which are times after 1970; a call that waits for ever is not a step. */
  ghost predicate Enabled(f: Fleet, a: Action) {
    match a
    case Lease(action) => NodeLeases.Enabled(f.world, action) && (action.SetNx? ==> IsNew(f, action.process))
    case Fix(p, node) => IsNew(f, p) && NodeLeases.InRange(node)
    case Stop(p) => p in f.holders && p !in f.world.live
    case Generate(p, readings) =>
      && p in f.holders && Snowflake.IsReady(f.holders[p].state)
      && (forall i :: 0 <= i < |readings| ==> readings[i] >= 0)
      && !Snowflake.Step(f.holders[p].state, readings).0.Waiting?
  }

  /** shutdown() deletes the key, but the generator stays initialized. */
  function AfterLease(f: Fleet, a: NodeLeases.Action, ttl: int): Fleet
    requires NodeLeases.Enabled(f.world, a)
  {
    var world := NodeLeases.Next(f.world, a, ttl);
    match a
    case SetNx(p, node) =>
      f.(world := world, holders := if p in world.live then f.holders[p := NewHolder(node, false)] else f.holders)
    case Crash(p) => f.(world := world, holders := f.holders - {p})
    case _ => f.(world := world)
  }

  function AfterGenerate(f: Fleet, p: int, readings: seq<int>): Fleet
    requires p in f.holders && Snowflake.IsReady(f.holders[p].state)
  {
    var (r, state, _) := Snowflake.Step(f.holders[p].state, readings);
    if r.Issued? then
      f.(holders := f.holders[p := f.holders[p].(state := state, hasIssued := true)],
         issued := f.issued + [Stamp(p, Snowflake.FieldsOf(state))])
    else f.(holders := f.holders[p := f.holders[p].(state := state)])
  }

  function Next(f: Fleet, a: Action, ttl: int): Fleet
    requires Enabled(f, a)
  {
    match a
    case Lease(action) => AfterLease(f, action, ttl)
    case Fix(p, node) => f.(holders := f.holders[p := NewHolder(node, true)])
    case Stop(p) => f.(holders := f.holders - {p})
    case Generate(p, readings) => AfterGenerate(f, p, readings)
  }

  ghost predicate StepAt(fleets: seq<Fleet>, actions: seq<Action>, ttl: int, i: int) {
    0 <= i < |actions| < |fleets| && Enabled(fleets[i], actions[i]) && fleets[i + 1] == Next(fleets[i], actions[i], ttl)
  }

  /** From a fleet without processes and ids, whatever keys Redis holds. */
  ghost predicate IsRun(fleets: seq<Fleet>, actions: seq<Action>, ttl: int) {
    && |fleets| == |actions| + 1 && IsEmpty(fleets[0])
    && forall i :: 0 <= i < |actions| ==> StepAt(fleets, actions, ttl, i)
  }

  predicate IsEmpty(f: Fleet) {
    f.world.live == map[] && f.holders == map[] && f.issued == []
  }

  // ----- what holds in every run -----

  /** A live process has an initialized generator for its leased pair. */
  ghost predicate HoldersFit(f: Fleet) {
    && (forall p :: p in f.world.live ==>
          p in f.holders && PairOfHolder(f.holders[p]) == f.world.live[p] && !f.holders[p].isFixed)
    && forall p :: p in f.holders ==>
         && Snowflake.IsReady(f.holders[p].state)
         && (!f.holders[p].hasIssued ==>
               f.holders[p] == NewHolder(PairOfHolder(f.holders[p]), f.holders[p].isFixed))
  }

  /** The ids are well formed; each millisecond of a process began with sequence number 0. */
  ghost predicate StampsSound(issued: seq<Stamp>) {
    forall s :: s in issued ==>
      Snowflake.InRange(s.id) && s.id.timestamp >= 0 && s.(id := s.id.(sequence := 0)) in issued
  }

  predicate NotAfter(id: Snowflake.Fields, last: Snowflake.Fields) {
    id.timestamp < last.timestamp || (id.timestamp == last.timestamp && id.sequence <= last.sequence)
  }

  /** The process's ids are those of its pair up to its last one, which is there if any is. */
  ghost predicate IsRecorded(f: Fleet, p: int)
    requires p in f.holders
  {
    var last := Snowflake.FieldsOf(f.holders[p].state);
    && (f.holders[p].hasIssued ==> Stamp(p, last) in f.issued)
    && forall s :: s in f.issued && s.process == p ==>
         f.holders[p].hasIssued && PairOf(s.id) == PairOf(last) && NotAfter(s.id, last)
  }

  /** No process repeats an id of its own. */
  ghost predicate OwnIdsDiffer(issued: seq<Stamp>) {
    forall i, j :: 0 <= i < j < |issued| && issued[i].process == issued[j].process ==> issued[i].id != issued[j].id
  }

  ghost predicate Recorded(f: Fleet) {
    HoldersFit(f) && StampsSound(f.issued) && OwnIdsDiffer(f.issued) && forall p :: p in f.holders ==> IsRecorded(f, p)
  }

  /** A new id continues the last one's millisecond, or begins a later one. */
  lemma StepMovesOn(s: Snowflake.State, readings: seq<int>)
    requires Snowflake.IsReady(s)
    ensures var (r, t, _) := Snowflake.Step(s, readings);
            && Snowflake.IsReady(t) && t.datacenterId == s.datacenterId && t.workerId == s.workerId
            && !r.Uninitialized? && (r.Refused? ==> t == s)
            && (r.Issued? ==> t.lastTimestamp in readings)
            && (r.Issued? ==>
                  || (t.lastTimestamp > s.lastTimestamp && t.sequence == 0)
                  || (t.lastTimestamp == s.lastTimestamp && t.sequence == s.sequence + 1))
  {
    hide Snowflake.Pack;
    Snowflake.StepIncreases(s, readings);
  }

  lemma NewHolderIsReady(node: NodeLeases.Node, isFixed: bool)
    requires NodeLeases.InRange(node)
    ensures Snowflake.IsReady(NewHolder(node, isFixed).state)
  {
    Snowflake.MaxIds();
  }

  lemma StepKeepsRecords(f: Fleet, a: Action, ttl: int)
    requires Recorded(f) && Enabled(f, a)
    ensures Recorded(Next(f, a, ttl))
  {
    hide StampsSound, OwnIdsDiffer, Snowflake.Step, Snowflake.IsReady;
    match a
    case Lease(action) => LeaseKeepsRecords(f, action, ttl);
    case Generate(p, readings) => GenerateKeepsRecords(f, p, readings);
    case Fix(p, node) =>
      NewHolderIsReady(node, true);
      OthersStayRecorded(f, Next(f, a, ttl), p);
    case Stop(p) => OthersStayRecorded(f, Next(f, a, ttl), p);
  }

  /** Besides p, whose entry may be new, the holders are as they were. */
  lemma OthersStayRecorded(f: Fleet, after: Fleet, p: int)
    requires Recorded(f) && after.issued == f.issued
    requires forall q :: q in after.holders && q != p ==> q in f.holders && after.holders[q] == f.holders[q]
    requires p in after.holders && p !in f.holders ==> IsNew(f, p) && !after.holders[p].hasIssued
    requires p in after.holders && p in f.holders ==> after.holders[p] == f.holders[p]
    ensures forall q :: q in after.holders ==> IsRecorded(after, q)
  {
    forall q | q in after.holders ensures IsRecorded(after, q) {
      if q in f.holders {
        assert IsRecorded(f, q);
      }
    }
  }

  lemma LeaseKeepsRecords(f: Fleet, a: NodeLeases.Action, ttl: int)
    requires Recorded(f) && Enabled(f, Lease(a))
    ensures Recorded(AfterLease(f, a, ttl))
  {
    hide StampsSound, OwnIdsDiffer, Snowflake.IsReady, IsRecorded;
    var after := AfterLease(f, a, ttl);
    if a.SetNx? {
      NewHolderIsReady(a.node, false);
    }
    OthersStayRecorded(f, after, if a.Tick? then 0 else a.process);
  }

  lemma GenerateKeepsRecords(f: Fleet, p: int, readings: seq<int>)
    requires Recorded(f) && Enabled(f, Generate(p, readings))
    ensures Recorded(AfterGenerate(f, p, readings))
  {
    hide StampsSound, OwnIdsDiffer, Snowflake.Step, Snowflake.InRange, Snowflake.IsReady;
    var after := AfterGenerate(f, p, readings);
    var s := f.holders[p].state;
    var (r, t, _) := Snowflake.Step(s, readings);
    StepMovesOn(s, readings);
    assert IsRecorded(f, p);
    if r.Issued? {
      StampIsNew(f, p, t);
      forall q | q in after.holders ensures IsRecorded(after, q) {
        assert IsRecorded(f, q);
        if q == p {
          assert after.issued[|f.issued|] == Stamp(p, Snowflake.FieldsOf(t));
        }
      }
    } else {
      assert after.holders == f.holders;
    }
  }

  /** The id comes after all of its process, and its millisecond began with sequence number 0. */
  lemma StampIsNew(f: Fleet, p: int, t: Snowflake.State)
    requires StampsSound(f.issued) && OwnIdsDiffer(f.issued) && p in f.holders && IsRecorded(f, p)
    requires !f.holders[p].hasIssued ==> f.holders[p].state.lastTimestamp == -1
    requires Snowflake.IsReady(t) && t.lastTimestamp >= 0
    requires var s := f.holders[p].state;
             && PairOf(Snowflake.FieldsOf(t)) == PairOfHolder(f.holders[p])
             && (|| (t.lastTimestamp > s.lastTimestamp && t.sequence == 0)
                 || (t.lastTimestamp == s.lastTimestamp && t.sequence == s.sequence + 1))
    ensures StampsSound(f.issued + [Stamp(p, Snowflake.FieldsOf(t))])
    ensures OwnIdsDiffer(f.issued + [Stamp(p, Snowflake.FieldsOf(t))])
    ensures forall s :: s in f.issued && s.process == p ==> NotAfter(s.id, Snowflake.FieldsOf(t))
  {
    hide Snowflake.InRange;
    var last := Stamp(p, Snowflake.FieldsOf(t));
    assert last !in f.issued;
    var all := f.issued + [last];
    NewIdInRange(t);
    forall s | s in all
      ensures Snowflake.InRange(s.id) && s.id.timestamp >= 0 && s.(id := s.id.(sequence := 0)) in all
    {
      if s == last {
        if t.sequence == 0 {
          assert all[|all| - 1] == s.(id := s.id.(sequence := 0));
        } else {
          var before := Stamp(p, Snowflake.FieldsOf(f.holders[p].state));
          assert before in f.issued && before.(id := before.id.(sequence := 0)) in f.issued;
        }
      } else {
        assert s in f.issued;
      }
    }
  }

  lemma NewIdInRange(t: Snowflake.State)
    requires Snowflake.IsReady(t)
    ensures Snowflake.InRange(Snowflake.FieldsOf(t))
  {}

  lemma {:induction false} RunIsRecorded(fleets: seq<Fleet>, actions: seq<Action>, ttl: int, n: nat)
    requires IsRun(fleets, actions, ttl) && n < |fleets|
    ensures Recorded(fleets[n])
  {
    hide Recorded, Enabled;
    if n == 0 {
      EmptyIsRecorded(fleets[0]);
    } else {
      RunIsRecorded(fleets, actions, ttl, n - 1);
      assert StepAt(fleets, actions, ttl, n - 1);
      StepKeepsRecords(fleets[n - 1], actions[n - 1], ttl);
    }
  }

  lemma EmptyIsRecorded(f: Fleet)
    requires IsEmpty(f)
    ensures Recorded(f)
  {}

  // ----- exactly when ids repeat -----

  /** Two processes with one pair issued ids within one millisecond. */
  predicate ShareMillisecond(s: Stamp, t: Stamp) {
    s.process != t.process && PairOf(s.id) == PairOf(t.id) && s.id.timestamp == t.id.timestamp
  }

  ghost predicate MillisecondShared(issued: seq<Stamp>) {
    exists i, j :: 0 <= i < j < |issued| && ShareMillisecond(issued[i], issued[j])
  }

  ghost predicate IdsWellFormed(issued: seq<Stamp>) {
    forall i :: 0 <= i < |issued| ==> Snowflake.InRange(issued[i].id)
  }

  /** Two of the issued ids are equal as numbers. */
  ghost predicate IdsRepeat(issued: seq<Stamp>)
    requires IdsWellFormed(issued)
  {
    exists i, j :: 0 <= i < j < |issued| && Snowflake.Pack(issued[i].id) == Snowflake.Pack(issued[j].id)
  }

  lemma RepeatsIffFieldsRepeat(issued: seq<Stamp>)
    requires IdsWellFormed(issued)
    ensures IdsRepeat(issued) <==> exists i, j :: 0 <= i < j < |issued| && issued[i].id == issued[j].id
  {
    hide Snowflake.Pack, Snowflake.InRange;
    if IdsRepeat(issued) {
      var i, j :| 0 <= i < j < |issued| && Snowflake.Pack(issued[i].id) == Snowflake.Pack(issued[j].id);
      Snowflake.PackIsInjective(issued[i].id, issued[j].id);
    }
    if i, j :| 0 <= i < j < |issued| && issued[i].id == issued[j].id {
      assert Snowflake.Pack(issued[i].id) == Snowflake.Pack(issued[j].id);
    }
  }

  lemma RepeatsIffShared(f: Fleet)
    requires Recorded(f)
    ensures IdsWellFormed(f.issued)
    ensures IdsRepeat(f.issued) <==> MillisecondShared(f.issued)
  {
    hide HoldersFit, IsRecorded, Snowflake.InRange, IdsRepeat;
    var issued := f.issued;
    forall i | 0 <= i < |issued| ensures Snowflake.InRange(issued[i].id) {
      assert issued[i] in issued;
    }
    RepeatsIffFieldsRepeat(issued);
    if i, j :| 0 <= i < j < |issued| && issued[i].id == issued[j].id {
      assert ShareMillisecond(issued[i], issued[j]);
    }
    if MillisecondShared(issued) {
      SharedRepeats(issued);
    }
  }

  /** The ids with which both processes began the millisecond are the same. */
  lemma SharedRepeats(issued: seq<Stamp>)
    requires StampsSound(issued) && MillisecondShared(issued)
    ensures exists i, j :: 0 <= i < j < |issued| && issued[i].id == issued[j].id
  {
    hide Snowflake.InRange;
    var i, j :| 0 <= i < j < |issued| && ShareMillisecond(issued[i], issued[j]);
    var k := FirstOfMillisecond(issued, i);
    var m := FirstOfMillisecond(issued, j);
    assert issued[k].id == issued[m].id && k != m;
    assert k < m || m < k;
  }

  lemma FirstOfMillisecond(issued: seq<Stamp>, i: nat) returns (k: nat)
    requires StampsSound(issued) && i < |issued|
    ensures k < |issued| && issued[k] == issued[i].(id := issued[i].id.(sequence := 0))
  {
    hide Snowflake.InRange;
    assert issued[i] in issued;
    k :| 0 <= k < |issued| && issued[k] == issued[i].(id := issued[i].id.(sequence := 0));
  }

  /** Over every run, however processes get their pairs and whatever their clocks show: an id is repeated exactly if two
      processes with one pair issue ids within one millisecond. */
  lemma IdsRepeatIffMillisecondShared(fleets: seq<Fleet>, actions: seq<Action>, ttl: int, n: nat)
    requires IsRun(fleets, actions, ttl) && n < |fleets|
    ensures IdsWellFormed(fleets[n].issued)
    ensures IdsRepeat(fleets[n].issued) <==> MillisecondShared(fleets[n].issued)
  {
    hide IsRun, Recorded, IdsRepeat, MillisecondShared, IdsWellFormed;
    RunIsRecorded(fleets, actions, ttl, n);
    RepeatsIffShared(fleets[n]);
  }

  // ----- which placements are exclusive -----

  /** The process has a fixed pair, or a leased one that it has not released. */
  predicate IsEntitled(f: Fleet, p: int) {
    p in f.holders && (f.holders[p].isFixed || p in f.world.live)
  }

  /** No two entitled processes have one pair. */
  ghost predicate PairsExclusive(f: Fleet) {
    forall p, q :: IsEntitled(f, p) && IsEntitled(f, q) && PairOfHolder(f.holders[p]) == PairOfHolder(f.holders[q]) ==>
      p == q
  }

  ghost predicate IsFree(f: Fleet, node: NodeLeases.Node) {
    forall p :: IsEntitled(f, p) ==> PairOfHolder(f.holders[p]) != node
  }

  /** Leases are renewed in time; no pair is fixed that an entitled process has, and none is leased that a fixed one
      has, although a fixed one has no key. */
  ghost predicate IsPlaced(f: Fleet, a: Action) {
    match a
    case Lease(action) =>
      && NodeLeases.Punctual(f.world, action)
      && (action.SetNx? && action.node !in f.world.keys ==> IsFree(f, action.node))
    case Fix(p, node) => IsFree(f, node)
    case _ => true
  }

  ghost predicate IsExclusive(f: Fleet) {
    NodeLeases.Owned(f.world) && PairsExclusive(f)
  }

  /** While every lease is held and no two entitled processes share a pair: a step keeps it so exactly if it
      is placed. */
  lemma ExclusionKeptIffPlaced(f: Fleet, a: Action, ttl: int)
    requires ttl >= 1 && HoldersFit(f) && IsExclusive(f) && Enabled(f, a)
    ensures IsExclusive(Next(f, a, ttl)) <==> IsPlaced(f, a)
  {
    hide Snowflake.Step, Snowflake.IsReady, NodeLeases.Owned, NodeLeases.InRange;
    var after := Next(f, a, ttl);
    match a
    case Lease(action) =>
      NodeLeases.OwnershipKeptIffPunctual(f.world, action, ttl);
      if action.SetNx? && action.node !in f.world.keys {
        NewcomerIsExclusiveIffFree(f, after, action.process, action.node);
      } else {
        EntitledStay(f, after);
      }
    case Fix(p, node) =>
      NewcomerIsExclusiveIffFree(f, after, p, node);
    case Generate(p, readings) =>
      StepMovesOn(f.holders[p].state, readings);
      EntitledStay(f, after);
    case Stop(p) =>
      EntitledStay(f, after);
  }

  lemma EntitledStay(f: Fleet, after: Fleet)
    requires PairsExclusive(f)
    requires forall p :: IsEntitled(after, p) ==>
               IsEntitled(f, p) && PairOfHolder(after.holders[p]) == PairOfHolder(f.holders[p])
    ensures PairsExclusive(after)
  {}

  lemma NewcomerIsExclusiveIffFree(f: Fleet, after: Fleet, p: int, node: NodeLeases.Node)
    requires PairsExclusive(f) && !IsEntitled(f, p) && IsEntitled(after, p) && PairOfHolder(after.holders[p]) == node
    requires forall q :: q != p ==>
               && (IsEntitled(after, q) <==> IsEntitled(f, q))
               && (IsEntitled(f, q) ==> PairOfHolder(after.holders[q]) == PairOfHolder(f.holders[q]))
    ensures PairsExclusive(after) <==> IsFree(f, node)
  {
    if PairsExclusive(after) {
      forall q | IsEntitled(f, q) ensures PairOfHolder(f.holders[q]) != node {
        assert IsEntitled(after, q);
      }
    }
  }

  ghost predicate IsPlacedUpTo(fleets: seq<Fleet>, actions: seq<Action>, n: nat)
    requires n <= |actions| <= |fleets|
  {
    forall i :: 0 <= i < n ==> IsPlaced(fleets[i], actions[i])
  }

  /** Over whole runs: leases are held and pairs are exclusive in every state exactly if every step is placed. */
  lemma RunIsExclusiveIffPlaced(fleets: seq<Fleet>, actions: seq<Action>, ttl: int)
    requires ttl >= 1 && IsRun(fleets, actions, ttl)
    ensures (forall n :: 0 <= n < |fleets| ==> IsExclusive(fleets[n])) <==> IsPlacedUpTo(fleets, actions, |actions|)
  {
    hide IsExclusive, IsPlaced, Enabled, Recorded;
    if forall n :: 0 <= n < |fleets| ==> IsExclusive(fleets[n]) {
      forall i | 0 <= i < |actions| ensures IsPlaced(fleets[i], actions[i]) {
        assert StepAt(fleets, actions, ttl, i) && IsExclusive(fleets[i + 1]);
        RunIsRecorded(fleets, actions, ttl, i);
        RecordedFits(fleets[i]);
        ExclusionKeptIffPlaced(fleets[i], actions[i], ttl);
      }
    }
    if IsPlacedUpTo(fleets, actions, |actions|) {
      forall n | 0 <= n < |fleets| ensures IsExclusive(fleets[n]) {
        PlacedIsExclusive(fleets, actions, ttl, n);
      }
    }
  }

  lemma RecordedFits(f: Fleet)
    requires Recorded(f)
    ensures HoldersFit(f)
  {}

  lemma {:induction false} PlacedIsExclusive(fleets: seq<Fleet>, actions: seq<Action>, ttl: int, n: nat)
    requires ttl >= 1 && IsRun(fleets, actions, ttl) && n < |fleets| && IsPlacedUpTo(fleets, actions, n)
    ensures IsExclusive(fleets[n])
  {
    hide IsExclusive, IsPlaced, Enabled, Recorded;
    if n == 0 {
      EmptyIsExclusive(fleets[0]);
    } else {
      PlacedIsExclusive(fleets, actions, ttl, n - 1);
      assert StepAt(fleets, actions, ttl, n - 1);
      RunIsRecorded(fleets, actions, ttl, n - 1);
      RecordedFits(fleets[n - 1]);
      ExclusionKeptIffPlaced(fleets[n - 1], actions[n - 1], ttl);
    }
  }

  lemma EmptyIsExclusive(f: Fleet)
    requires IsEmpty(f)
    ensures IsExclusive(f)
  {}

  // ----- which fleets never repeat an id -----

  /** Only an entitled process generates, and its first id is later than all ids that others issued on its pair. */
  ghost predicate IsPatient(f: Fleet, a: Action)
    requires Enabled(f, a)
  {
    a.Generate? ==>
      var (r, state, _) := Snowflake.Step(f.holders[a.process].state, a.readings);
      && IsEntitled(f, a.process)
      && (r.Issued? && !f.holders[a.process].hasIssued ==>
            forall s :: s in f.issued && PairOf(s.id) == PairOf(Snowflake.FieldsOf(state)) ==>
                s.id.timestamp < state.lastTimestamp)
  }

  /** Of two processes on one pair, the ids of one all precede those of the other. */
  ghost predicate TakesTurns(issued: seq<Stamp>) {
    forall i, j :: 0 <= i < j < |issued| && issued[i].process != issued[j].process
                   && PairOf(issued[i].id) == PairOf(issued[j].id) ==>
      issued[i].id.timestamp < issued[j].id.timestamp
  }

  /** An entitled process that has issued ids issued the latest ones on its pair. */
  ghost predicate IsAhead(f: Fleet, p: int)
    requires p in f.holders
  {
    IsEntitled(f, p) && f.holders[p].hasIssued ==>
      forall s :: s in f.issued && PairOf(s.id) == PairOfHolder(f.holders[p]) ==>
          s.id.timestamp <= f.holders[p].state.lastTimestamp
  }

  ghost predicate Sound(f: Fleet) {
    Recorded(f) && IsExclusive(f) && TakesTurns(f.issued) && forall p :: p in f.holders ==> IsAhead(f, p)
  }

  lemma StepKeepsSound(f: Fleet, a: Action, ttl: int)
    requires ttl >= 1 && Sound(f) && Enabled(f, a) && IsPlaced(f, a) && IsPatient(f, a)
    ensures Sound(Next(f, a, ttl))
  {
    hide IsExclusive, IsPlaced, Recorded, TakesTurns, Snowflake.Step, Snowflake.IsReady;
    StepKeepsRecords(f, a, ttl);
    RecordedFits(f);
    ExclusionKeptIffPlaced(f, a, ttl);
    match a
    case Lease(action) => LeaseKeepsAhead(f, action, ttl);
    case Generate(p, readings) => GenerateKeepsTurns(f, p, readings);
    case Fix(p, node) =>
      forall q | q in Next(f, a, ttl).holders ensures IsAhead(Next(f, a, ttl), q) {
        assert q in f.holders ==> IsAhead(f, q);
      }
    case Stop(p) =>
      forall q | q in Next(f, a, ttl).holders ensures IsAhead(Next(f, a, ttl), q) {
        assert IsAhead(f, q);
      }
  }

  lemma LeaseKeepsAhead(f: Fleet, a: NodeLeases.Action, ttl: int)
    requires Enabled(f, Lease(a)) && forall p :: p in f.holders ==> IsAhead(f, p)
    ensures forall p :: p in AfterLease(f, a, ttl).holders ==> IsAhead(AfterLease(f, a, ttl), p)
  {
    var after := AfterLease(f, a, ttl);
    forall p | p in after.holders ensures IsAhead(after, p) {
      assert p in f.holders ==> IsAhead(f, p);
    }
  }

  lemma GenerateKeepsTurns(f: Fleet, p: int, readings: seq<int>)
    requires Sound(f) && Enabled(f, Generate(p, readings)) && IsPatient(f, Generate(p, readings))
    ensures var after := AfterGenerate(f, p, readings);
            TakesTurns(after.issued) && forall q :: q in after.holders ==> IsAhead(after, q)
  {
    hide NodeLeases.Owned, StampsSound, OwnIdsDiffer, Snowflake.Step, Snowflake.IsReady, TakesTurns;
    var after := AfterGenerate(f, p, readings);
    var s := f.holders[p].state;
    var (r, t, _) := Snowflake.Step(s, readings);
    StepMovesOn(s, readings);
    if r.Issued? {
      var last := Stamp(p, Snowflake.FieldsOf(t));
      OthersAreEarlier(f, p, t);
      TurnsGoOn(f.issued, last);
      forall q | q in after.holders ensures IsAhead(after, q) {
        assert IsAhead(f, q);
      }
    } else {
      assert after.holders == f.holders;
    }
  }

  lemma OthersAreEarlier(f: Fleet, p: int, t: Snowflake.State)
    requires Recorded(f) && TakesTurns(f.issued) && p in f.holders && IsEntitled(f, p) && IsAhead(f, p)
    requires t.lastTimestamp >= f.holders[p].state.lastTimestamp
    requires !f.holders[p].hasIssued ==>
               forall s :: s in f.issued && PairOf(s.id) == PairOfHolder(f.holders[p]) ==>
                   s.id.timestamp < t.lastTimestamp
    ensures forall s :: s in f.issued && PairOf(s.id) == PairOfHolder(f.holders[p]) ==>
              && s.id.timestamp <= t.lastTimestamp
              && (s.process != p ==> s.id.timestamp < t.lastTimestamp)
  {
    hide HoldersFit, StampsSound, OwnIdsDiffer;
    assert IsRecorded(f, p);
    if f.holders[p].hasIssued {
      var m :| 0 <= m < |f.issued| && f.issued[m] == Stamp(p, Snowflake.FieldsOf(f.holders[p].state));
      forall s | s in f.issued && PairOf(s.id) == PairOfHolder(f.holders[p]) && s.process != p
        ensures s.id.timestamp < t.lastTimestamp
      {
        var k :| 0 <= k < |f.issued| && f.issued[k] == s;
        assert k < m || m < k;
      }
    }
  }

  lemma TurnsGoOn(issued: seq<Stamp>, last: Stamp)
    requires TakesTurns(issued)
    requires forall s :: s in issued && PairOf(s.id) == PairOf(last.id) && s.process != last.process ==>
               s.id.timestamp < last.id.timestamp
    ensures TakesTurns(issued + [last])
  {}

  ghost predicate IsPatientAt(fleets: seq<Fleet>, actions: seq<Action>, i: int) {
    0 <= i < |actions| <= |fleets| && Enabled(fleets[i], actions[i]) && IsPatient(fleets[i], actions[i])
  }

  lemma {:induction false} RunIsSound(fleets: seq<Fleet>, actions: seq<Action>, ttl: int, n: nat)
    requires ttl >= 1 && IsRun(fleets, actions, ttl) && n < |fleets| && IsPlacedUpTo(fleets, actions, n)
    requires forall i :: 0 <= i < n ==> IsPatientAt(fleets, actions, i)
    ensures Sound(fleets[n])
  {
    hide Sound, IsPlaced, IsPatient, Enabled;
    if n == 0 {
      EmptyIsSound(fleets[0]);
    } else {
      RunIsSound(fleets, actions, ttl, n - 1);
      assert StepAt(fleets, actions, ttl, n - 1) && IsPatientAt(fleets, actions, n - 1);
      StepKeepsSound(fleets[n - 1], actions[n - 1], ttl);
    }
  }

  lemma EmptyIsSound(f: Fleet)
    requires IsEmpty(f)
    ensures Sound(f)
  {}

  /** Ids never repeat across the fleet if leases are renewed in time, no fixed pair is fixed twice or
      leased, nobody generates after its release, and every process that takes over a pair begins later than
      the last id issued on it. */
  lemma FleetIdsAreUnique(fleets: seq<Fleet>, actions: seq<Action>, ttl: int, n: nat)
    requires ttl >= 1 && IsRun(fleets, actions, ttl) && n < |fleets| && IsPlacedUpTo(fleets, actions, n)
    requires forall i :: 0 <= i < n ==> IsPatientAt(fleets, actions, i)
    ensures IdsWellFormed(fleets[n].issued) && !IdsRepeat(fleets[n].issued)
  {
    hide IsRun, Recorded, IdsRepeat, IsPlacedUpTo, IsPatientAt, IdsWellFormed;
    RunIsSound(fleets, actions, ttl, n);
    RepeatsIffShared(fleets[n]);
  }

  // ----- when a takeover collides -----

  /** Some id was issued on the pair at the time or later. */
  ghost predicate IssuedSince(f: Fleet, node: NodeLeases.Node, time: int) {
    exists s :: s in f.issued && PairOf(s.id) == node && s.id.timestamp >= time
  }

  /** One more call of the process, at some later time, repeats an id. */
  ghost predicate CanShare(f: Fleet, p: int) {
    exists u: int :: SharesAt(f, p, u)
  }

  ghost predicate SharesAt(f: Fleet, p: int, u: int) {
    Enabled(f, Generate(p, [u])) && MillisecondShared(AfterGenerate(f, p, [u]).issued)
  }

  /** In any state of any run without a repeated id, whatever its leases: the first two calls of a process that reads
      time t first can repeat an id exactly if some id was issued on its pair at t or later. */
  lemma TakeoverCollidesIff(f: Fleet, p: int, t: int)
    requires Recorded(f) && !MillisecondShared(f.issued) && p in f.holders && !f.holders[p].hasIssued && t >= 0
    ensures Enabled(f, Generate(p, [t])) && Recorded(AfterGenerate(f, p, [t]))
    ensures var g := AfterGenerate(f, p, [t]);
            MillisecondShared(g.issued) || CanShare(g, p) <==> IssuedSince(f, PairOfHolder(f.holders[p]), t)
  {
    hide StampsSound, OwnIdsDiffer;
    var node := PairOfHolder(f.holders[p]);
    var g := AfterGenerate(f, p, [t]);
    var first := Stamp(p, Snowflake.Fields(t, node.0, node.1, 0));
    assert g.issued == f.issued + [first];
    assert IsRecorded(f, p);
    GenerateKeepsRecords(f, p, [t]);
    if IssuedSince(f, node, t) {
      var s :| s in f.issued && PairOf(s.id) == node && s.id.timestamp >= t;
      SharedLater(f, g, p, s, t);
    } else {
      NothingSharedAfter(f.issued, first);
      forall u: int ensures !SharesAt(g, p, u) {
        if Enabled(g, Generate(p, [u])) {
          LaterSharesNothing(f, g, p, t, u);
        }
      }
    }
  }

  lemma NothingSharedAfter(issued: seq<Stamp>, last: Stamp)
    requires !MillisecondShared(issued)
    requires forall s :: s in issued ==> !ShareMillisecond(s, last)
    ensures !MillisecondShared(issued + [last])
  {
    var all := issued + [last];
    forall i, j | 0 <= i < j < |all| ensures !ShareMillisecond(all[i], all[j]) {
      if j < |issued| {
        assert all[i] == issued[i] && all[j] == issued[j];
      } else {
        assert all[i] == issued[i] && issued[i] in issued;
      }
    }
  }

  lemma LaterSharesNothing(f: Fleet, g: Fleet, p: int, t: int, u: int)
    requires p in f.holders && p in g.holders && Snowflake.IsReady(g.holders[p].state) && t >= 0
    requires !IssuedSince(f, PairOfHolder(f.holders[p]), t) && !MillisecondShared(g.issued)
    requires var node := PairOfHolder(f.holders[p]);
             && g.issued == f.issued + [Stamp(p, Snowflake.Fields(t, node.0, node.1, 0))]
             && g.holders[p].state == Snowflake.State(node.0, node.1, 0, t)
    ensures !MillisecondShared(AfterGenerate(g, p, [u]).issued)
  {
    hide Snowflake.Step, Snowflake.IsReady, MillisecondShared;
    StepMovesOn(g.holders[p].state, [u]);
    var (r, state, _) := Snowflake.Step(g.holders[p].state, [u]);
    if r.Issued? {
      NothingSharedAfter(g.issued, Stamp(p, Snowflake.FieldsOf(state)));
    }
  }

  lemma SharedLater(f: Fleet, g: Fleet, p: int, s: Stamp, t: int)
    requires p in f.holders && s in f.issued && s.process != p && PairOf(s.id) == PairOfHolder(f.holders[p])
    requires s.id.timestamp >= t >= 0 && p in g.holders && Snowflake.IsReady(g.holders[p].state)
    requires var node := PairOfHolder(f.holders[p]);
             && g.issued == f.issued + [Stamp(p, Snowflake.Fields(t, node.0, node.1, 0))]
             && g.holders[p].state == Snowflake.State(node.0, node.1, 0, t)
    ensures MillisecondShared(g.issued) || CanShare(g, p)
  {
    var k :| 0 <= k < |f.issued| && f.issued[k] == s;
    if s.id.timestamp == t {
      assert ShareMillisecond(g.issued[k], g.issued[|g.issued| - 1]);
    } else {
      var after := AfterGenerate(g, p, [s.id.timestamp]);
      assert ShareMillisecond(after.issued[k], after.issued[|after.issued| - 1]);
      assert SharesAt(g, p, s.id.timestamp);
    }
  }

  // ----- fixed pairs and released ones -----

  /** A fixed pair has no key, so it can be leased as well: both processes issue the same id at the same reading. */
  lemma FixedPairIsLeased(ttl: int) returns (fleets: seq<Fleet>, actions: seq<Action>)
    requires ttl >= 1
    ensures IsRun(fleets, actions, ttl)
    ensures actions == [Fix(1, (0, 0)), Lease(NodeLeases.SetNx(2, (0, 0))), Generate(1, [5]), Generate(2, [5])]
    ensures forall i :: 0 <= i < |actions| && actions[i].Lease? ==>
              NodeLeases.Punctual(fleets[i].world, actions[i].action)
    ensures MillisecondShared(fleets[4].issued)
  {
    hide Snowflake.Step;
    NewHolderIsReady((0, 0), true);
    FirstCall(5);
    var f0 := Fleet(NodeLeases.World(0, map[], map[]), map[], []);
    actions := [Fix(1, (0, 0)), Lease(NodeLeases.SetNx(2, (0, 0))), Generate(1, [5]), Generate(2, [5])];
    var f1 := Next(f0, actions[0], ttl);
    var f2 := Next(f1, actions[1], ttl);
    var f3 := Next(f2, actions[2], ttl);
    var f4 := Next(f3, actions[3], ttl);
    fleets := [f0, f1, f2, f3, f4];
    assert ShareMillisecond(f4.issued[0], f4.issued[1]);
  }

  /** A generator stays initialized after its release, when its pair can be leased again. */
  lemma ReleasedPairIsLeased(ttl: int) returns (fleets: seq<Fleet>, actions: seq<Action>)
    requires ttl >= 1
    ensures IsRun(fleets, actions, ttl)
    ensures actions == [Lease(NodeLeases.SetNx(1, (0, 0))), Lease(NodeLeases.Release(1)),
                        Lease(NodeLeases.SetNx(2, (0, 0))), Generate(1, [5]), Generate(2, [5])]
    ensures IsPlacedUpTo(fleets, actions, 5) && MillisecondShared(fleets[5].issued)
  {
    hide Snowflake.Step;
    NewHolderIsReady((0, 0), false);
    FirstCall(5);
    var f0 := Fleet(NodeLeases.World(0, map[], map[]), map[], []);
    actions := [Lease(NodeLeases.SetNx(1, (0, 0))), Lease(NodeLeases.Release(1)), Lease(NodeLeases.SetNx(2, (0, 0))),
                Generate(1, [5]), Generate(2, [5])];
    var f1 := Next(f0, actions[0], ttl);
    var f2 := Next(f1, actions[1], ttl);
    var f3 := Next(f2, actions[2], ttl);
    var f4 := Next(f3, actions[3], ttl);
    var f5 := Next(f4, actions[4], ttl);
    fleets := [f0, f1, f2, f3, f4, f5];
    assert ShareMillisecond(f5.issued[0], f5.issued[1]);
  }

  lemma FirstCall(t: int)
    requires t >= 0
    ensures var s := Snowflake.State(0, 0, 0, -1);
            && Snowflake.IsReady(s)
            && Snowflake.Step(s, [t]).0.Issued? && Snowflake.Step(s, [t]).1 == Snowflake.State(0, 0, 0, t)
  {
    Snowflake.MaxIds();
  }
}
