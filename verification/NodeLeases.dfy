/** Redis leases on (datacenter, worker) pairs: SET NX with a TTL, heartbeats, release, and crashes. */
module NodeLeases {
  import opened Prelude

  const MAX_ID: int := 31

  type Node = (int, int)

  predicate InRange(node: Node) {
    0 <= node.0 <= MAX_ID && 0 <= node.1 <= MAX_ID
  }

  // ----- choosing a pair -----

  /** The scan order: by datacenter, then by worker. */
  predicate Before(a: Node, b: Node) {
    a.0 < b.0 || (a.0 == b.0 && a.1 < b.1)
  }

  /** The pair was seen occupied by the scan, or its SET NX failed. */
  predicate Unavailable(node: Node, occupied: set<Node>, setNx: Node -> bool) {
    node in occupied || !setNx(node)
  }

  /** The first pair in range that the scan did not see and whose SET NX succeeds. What the scan saw and what each
      SET NX answers is arbitrary: other processes act in between. */
  method AcquireNodeId(occupied: set<Node>, setNx: Node -> bool) returns (r: Option<Node>)
    ensures r.Some? ==> InRange(r.value) && !Unavailable(r.value, occupied, setNx)
    ensures r.Some? ==> forall n: Node :: InRange(n) && Before(n, r.value) ==> Unavailable(n, occupied, setNx)
    ensures r.None? <==> forall n: Node :: InRange(n) ==> Unavailable(n, occupied, setNx)
  {
    for datacenterId := 0 to MAX_ID + 1
      invariant forall n: Node :: InRange(n) && n.0 < datacenterId ==> Unavailable(n, occupied, setNx)
    {
      for workerId := 0 to MAX_ID + 1
        invariant forall n: Node :: InRange(n) && Before(n, (datacenterId, workerId)) ==>
            Unavailable(n, occupied, setNx)
      {
        var node := (datacenterId, workerId);
        if node !in occupied && setNx(node) {
          return Some(node);
        }
        forall n: Node | InRange(n) && Before(n, (datacenterId, workerId + 1)) ensures Unavailable(n, occupied, setNx) {
          assert Before(n, node) || n == node;
        }
      }
      forall n: Node | InRange(n) && n.0 < datacenterId + 1 ensures Unavailable(n, occupied, setNx) {
        assert Before(n, (datacenterId, MAX_ID + 1));
      }
    }
    r := None;
  }

  // ----- holding it -----

  /** A key's value names the process that set it; the key vanishes at its expiry time. */
  datatype Lease = Lease(owner: int, expires: int)

  /** Redis, the clock, and the live processes that generate ids with the pair they acquired. */
  datatype World = World(now: int, keys: map<Node, Lease>, live: map<int, Node>)

  datatype Action =
    | Tick(until: int)
    | SetNx(process: int, node: Node)
    | Renew(process: int)
    | Release(process: int)
    | Crash(process: int)

  function Unexpired(keys: map<Node, Lease>, now: int): map<Node, Lease> {
    map n | n in keys && keys[n].expires > now :: keys[n]
  }

  predicate Enabled(w: World, a: Action) {
    match a
    case Tick(until) => until >= w.now
    case SetNx(p, node) => p !in w.live && InRange(node)
    case Renew(p) => p in w.live
    case Release(p) => p in w.live
    case Crash(p) => p in w.live
  }

  /** EXPIRE and DELETE look at the key only, not at who owns it. */
  function Next(w: World, a: Action, ttl: int): World
    requires Enabled(w, a)
  {
    match a
    case Tick(until) => w.(now := until, keys := Unexpired(w.keys, until))
    case SetNx(p, node) =>
      if node in w.keys then w
      else w.(keys := w.keys[node := Lease(p, w.now + ttl)], live := w.live[p := node])
    case Renew(p) =>
      var node := w.live[p];
      if node in w.keys then w.(keys := w.keys[node := w.keys[node].(expires := w.now + ttl)]) else w
    case Release(p) =>
      w.(keys := w.keys - {w.live[p]}, live := w.live - {p})
    case Crash(p) => w.(live := w.live - {p})
  }

  /** Every live process owns the unexpired key of a pair in range. */
  ghost predicate Owned(w: World) {
    forall p :: p in w.live ==>
      var n := w.live[p];
      InRange(n) && n in w.keys && w.keys[n].owner == p && w.keys[n].expires > w.now
  }

  /** No two live processes hold the same pair. */
  ghost predicate Exclusive(w: World) {
    forall p, q :: p in w.live && q in w.live && w.live[p] == w.live[q] ==> p == q
  }

  /** The clock does not pass the expiry of a live process's key before that process renews it. */
  ghost predicate Punctual(w: World, a: Action) {
    a.Tick? ==> forall p :: p in w.live && w.live[p] in w.keys ==> w.keys[w.live[p]].expires > a.until
  }

  lemma OwnedIsExclusive(w: World)
    requires Owned(w)
    ensures Exclusive(w)
  {}

  /** Ownership survives a step exactly when the step is punctual: renewing, releasing, crashing and registering
      never take a pair from a live process, only a lapse does. */
  lemma OwnershipKeptIffPunctual(w: World, a: Action, ttl: int)
    requires ttl >= 1 && Owned(w) && Enabled(w, a)
    ensures Owned(Next(w, a, ttl)) <==> Punctual(w, a)
  {
    var w' := Next(w, a, ttl);
    match a
    case Tick(until) =>
      if Owned(w') {
        forall p | p in w.live && w.live[p] in w.keys ensures w.keys[w.live[p]].expires > until {
          assert p in w'.live && w'.live[p] in w'.keys;
        }
      }
    case SetNx(p, node) =>
      forall q | q in w'.live
        ensures InRange(w'.live[q]) && w'.live[q] in w'.keys && w'.keys[w'.live[q]].owner == q
        ensures w'.keys[w'.live[q]].expires > w'.now
      {}
    case Renew(p) =>
      assert Owned(w');
    case Release(p) =>
      forall q | q in w'.live ensures w'.live[q] in w'.keys && w'.keys[w'.live[q]] == w.keys[w.live[q]] {
        assert w.live[q] != w.live[p];
      }
    case Crash(p) =>
      assert Owned(w');
  }

  ghost predicate IsRun(worlds: seq<World>, actions: seq<Action>, ttl: int) {
    && |worlds| == |actions| + 1
    && forall i :: 0 <= i < |actions| ==>
         Enabled(worlds[i], actions[i]) && worlds[i + 1] == Next(worlds[i], actions[i], ttl)
  }

  /** Over every punctual run that starts without live processes, whatever keys Redis holds, a pair belongs to at
      most one live process, and both its fields stay within 0..31. */
  lemma {:induction false} PunctualRunIsExclusive(worlds: seq<World>, actions: seq<Action>, ttl: int, n: nat)
    requires ttl >= 1 && IsRun(worlds, actions, ttl) && worlds[0].live == map[] && n < |worlds|
    requires forall i :: 0 <= i < |actions| ==> Punctual(worlds[i], actions[i])
    ensures Owned(worlds[n]) && Exclusive(worlds[n])
  {
    if n > 0 {
      PunctualRunIsExclusive(worlds, actions, ttl, n - 1);
      OwnershipKeptIffPunctual(worlds[n - 1], actions[n - 1], ttl);
    }
    OwnedIsExclusive(worlds[n]);
  }

  // ----- when exclusion is at risk -----

  /** The registration succeeds and gives the process a pair that a live process has. */
  ghost predicate Shares(w: World, p: int, node: Node, ttl: int) {
    Enabled(w, SetNx(p, node)) && !Exclusive(Next(w, SetNx(p, node), ttl))
  }

  /** One registration is enough to have two live processes on one pair. */
  ghost predicate Shareable(w: World, ttl: int) {
    exists p, node :: Shares(w, p, node, ttl)
  }

  lemma FreshProcess(w: World) returns (p: int)
    ensures p !in w.live
  {
    p := OutsideOf(w.live.Keys);
  }

  lemma {:induction false} OutsideOf(taken: set<int>) returns (p: int)
    ensures forall q :: q in taken ==> q < p
    decreases |taken|
  {
    p := 0;
    if taken != {} {
      var q := SomeElement(taken);
      var rest := taken - {q};
      p := OutsideOf(rest);
      p := if q < p then p else q + 1;
      assert forall r :: r in taken ==> r == q || r in rest;
    }
  }

  /** In any exclusive world: a registration can share a pair exactly if a live process has lost its key. */
  lemma ShareableIffKeyLost(w: World, ttl: int)
    requires Exclusive(w)
    ensures Shareable(w, ttl) <==> exists q :: q in w.live && InRange(w.live[q]) && w.live[q] !in w.keys
  {
    if q :| q in w.live && InRange(w.live[q]) && w.live[q] !in w.keys {
      var p := FreshProcess(w);
      var after := Next(w, SetNx(p, w.live[q]), ttl);
      assert after.live[p] == after.live[q] && p != q;
      assert Shares(w, p, w.live[q], ttl);
    }
    if Shareable(w, ttl) {
      var p, node :| Shares(w, p, node, ttl);
      var after := Next(w, SetNx(p, node), ttl);
      var q, r :| q in after.live && r in after.live && after.live[q] == after.live[r] && q != r;
      var other := if q == p then r else q;
      assert other in w.live && w.live[other] == node;
    }
  }

  /** While every live process owns its key: a pair can be shared by the registration after a step exactly if the step
      is not punctual. */
  lemma ShareableIffUnpunctual(w: World, a: Action, ttl: int)
    requires ttl >= 1 && Owned(w) && Enabled(w, a)
    ensures Exclusive(Next(w, a, ttl))
    ensures Shareable(Next(w, a, ttl), ttl) <==> !Punctual(w, a)
  {
    var after := Next(w, a, ttl);
    OwnershipKeptIffPunctual(w, a, ttl);
    OwnedIsExclusive(w);
    if Punctual(w, a) {
      OwnedIsExclusive(after);
    }
    ShareableIffKeyLost(after, ttl);
    if !Punctual(w, a) {
      var q :| q in w.live && w.live[q] in w.keys && w.keys[w.live[q]].expires <= a.until;
      assert q in after.live && after.live[q] !in after.keys;
    }
  }

  ghost predicate PunctualUpTo(worlds: seq<World>, actions: seq<Action>, n: nat)
    requires n <= |actions| < |worlds|
  {
    forall i :: 0 <= i < n ==> Punctual(worlds[i], actions[i])
  }

  lemma {:induction false} FirstUnpunctual(worlds: seq<World>, actions: seq<Action>, n: nat) returns (i: nat)
    requires n <= |actions| < |worlds| && !PunctualUpTo(worlds, actions, n)
    ensures i < n && !Punctual(worlds[i], actions[i]) && PunctualUpTo(worlds, actions, i)
  {
    if PunctualUpTo(worlds, actions, n - 1) {
      i := n - 1;
    } else {
      i := FirstUnpunctual(worlds, actions, n - 1);
    }
  }

  /** Over whole runs, from a world without live processes: exclusion is never at risk, not even from one further
      registration, exactly if the run is punctual. */
  lemma RunIsSafeIffPunctual(worlds: seq<World>, actions: seq<Action>, ttl: int)
    requires ttl >= 1 && IsRun(worlds, actions, ttl) && worlds[0].live == map[]
    ensures (forall n :: 0 <= n < |worlds| ==> Exclusive(worlds[n]) && !Shareable(worlds[n], ttl))
       <==> PunctualUpTo(worlds, actions, |actions|)
  {
    if PunctualUpTo(worlds, actions, |actions|) {
      forall n | 0 <= n < |worlds| ensures Exclusive(worlds[n]) && !Shareable(worlds[n], ttl) {
        PunctualRunIsExclusive(worlds, actions, ttl, n);
        ShareableIffKeyLost(worlds[n], ttl);
      }
    } else {
      var i := FirstUnpunctual(worlds, actions, |actions|);
      OwnedBefore(worlds, actions, ttl, i);
      ShareableIffUnpunctual(worlds[i], actions[i], ttl);
      assert Shareable(worlds[i + 1], ttl);
    }
  }

  lemma OwnedBefore(worlds: seq<World>, actions: seq<Action>, ttl: int, n: nat)
    requires ttl >= 1 && IsRun(worlds, actions, ttl) && worlds[0].live == map[] && n <= |actions|
    requires PunctualUpTo(worlds, actions, n)
    ensures Owned(worlds[n])
  {
    PunctualRunIsExclusive(worlds[..n + 1], actions[..n], ttl, n);
  }

  // ----- what punctuality asks of the heartbeats -----

  /** The time of the last registration or heartbeat of a process among the first n steps. */
  ghost function LastBeat(worlds: seq<World>, actions: seq<Action>, p: int, n: nat): int
    requires n <= |actions| < |worlds|
  {
    if n == 0 then 0
    else
      var a := actions[n - 1];
      if (a.SetNx? || a.Renew?) && a.process == p then worlds[n - 1].now
      else LastBeat(worlds, actions, p, n - 1)
  }

  /** No live process lets ttl pass after its last registration or heartbeat without the next one. */
  ghost predicate BeatsInTime(worlds: seq<World>, actions: seq<Action>, ttl: int, n: nat)
    requires n <= |actions| < |worlds|
  {
    forall i, p :: 0 <= i < n && actions[i].Tick? && p in worlds[i].live ==>
      actions[i].until < LastBeat(worlds, actions, p, i) + ttl
  }

  /** A key lives until ttl after the last registration or heartbeat of its process. */
  ghost predicate LivesFromBeats(worlds: seq<World>, actions: seq<Action>, ttl: int, n: nat)
    requires n <= |actions| < |worlds|
  {
    forall p :: p in worlds[n].live ==>
      && worlds[n].live[p] in worlds[n].keys
      && worlds[n].keys[worlds[n].live[p]].expires == LastBeat(worlds, actions, p, n) + ttl
  }

  lemma {:induction false} KeysLiveFromBeats(worlds: seq<World>, actions: seq<Action>, ttl: int, n: nat)
    requires ttl >= 1 && IsRun(worlds, actions, ttl) && worlds[0].live == map[] && n <= |actions|
    requires PunctualUpTo(worlds, actions, n)
    ensures LivesFromBeats(worlds, actions, ttl, n)
  {
    if n > 0 {
      KeysLiveFromBeats(worlds, actions, ttl, n - 1);
      OwnedBefore(worlds, actions, ttl, n - 1);
      OwnedBefore(worlds, actions, ttl, n);
      var before, after, a := worlds[n - 1], worlds[n], actions[n - 1];
      forall p | p in after.live
        ensures after.keys[after.live[p]].expires == LastBeat(worlds, actions, p, n) + ttl
      {
        assert after == Next(before, a, ttl);
        if a.Renew? && p != a.process {
          assert before.live[p] != before.live[a.process];
        }
      }
    }
  }

  /** A run from a world without live processes is punctual exactly if the clock never reaches ttl after the last
      registration or heartbeat of a live process. */
  lemma {:induction false} PunctualIffBeatsInTime(worlds: seq<World>, actions: seq<Action>, ttl: int, n: nat)
    requires ttl >= 1 && IsRun(worlds, actions, ttl) && worlds[0].live == map[] && n <= |actions|
    ensures PunctualUpTo(worlds, actions, n) <==> BeatsInTime(worlds, actions, ttl, n)
  {
    if n > 0 {
      PunctualIffBeatsInTime(worlds, actions, ttl, n - 1);
      if PunctualUpTo(worlds, actions, n - 1) {
        KeysLiveFromBeats(worlds, actions, ttl, n - 1);
        var before, a := worlds[n - 1], actions[n - 1];
        assert Punctual(before, a) <==>
            (a.Tick? ==> forall p :: p in before.live ==> a.until < LastBeat(worlds, actions, p, n - 1) + ttl);
      }
    }
  }

  /** Over whole runs: exclusion is never at risk exactly if every live process sends its heartbeats in time. */
  lemma RunIsSafeIffBeatsInTime(worlds: seq<World>, actions: seq<Action>, ttl: int)
    requires ttl >= 1 && IsRun(worlds, actions, ttl) && worlds[0].live == map[]
    ensures (forall n :: 0 <= n < |worlds| ==> Exclusive(worlds[n]) && !Shareable(worlds[n], ttl))
       <==> BeatsInTime(worlds, actions, ttl, |actions|)
  {
    RunIsSafeIffPunctual(worlds, actions, ttl);
    PunctualIffBeatsInTime(worlds, actions, ttl, |actions|);
  }

  // ----- how keys vanish -----

  /** In any world a key vanishes only by its expiry, or by the release of a live process on its pair. That process
      owns the key unless a lapse came before. */
  lemma KeysVanishOnlyByLapseOrRelease(w: World, a: Action, ttl: int, node: Node)
    requires Enabled(w, a) && node in w.keys
    ensures node !in Next(w, a, ttl).keys <==>
              || (a.Tick? && w.keys[node].expires <= a.until)
              || (a.Release? && w.live[a.process] == node)
    ensures a.Release? && w.live[a.process] == node && Owned(w) ==> w.keys[node].owner == a.process
  {}

  /** Without punctuality the promise fails: a process that outlives its key shares its pair with the next one. */
  lemma LapseBreaksExclusion(ttl: int) returns (worlds: seq<World>, actions: seq<Action>)
    requires ttl >= 1
    ensures IsRun(worlds, actions, ttl) && worlds[0] == World(0, map[], map[])
    ensures !Exclusive(worlds[|worlds| - 1])
    ensures var last := worlds[|worlds| - 1];
            last.now == ttl && last.live == map[1 := (0, 0), 2 := (0, 0)]
                && last.keys == map[(0, 0) := Lease(2, ttl + ttl)]
  {
    var a0, a1, a2 := SetNx(1, (0, 0)), Tick(ttl), SetNx(2, (0, 0));
    var w0 := World(0, map[], map[]);
    var w1 := Next(w0, a0, ttl);
    var w2 := Next(w1, a1, ttl);
    assert (0, 0) !in w2.keys;
    var w3 := Next(w2, a2, ttl);
    assert w3.live[1] == w3.live[2] == (0, 0);
    worlds, actions := [w0, w1, w2, w3], [a0, a1, a2];
  }

  /** After a lapse, a release takes the key away from the successor, who is still live. */
  lemma LateReleaseDeletesSuccessorsKey(ttl: int) returns (worlds: seq<World>, actions: seq<Action>)
    requires ttl >= 1
    ensures IsRun(worlds, actions, ttl) && worlds[0] == World(0, map[], map[])
    ensures var last := worlds[|worlds| - 1];
            2 in last.live && last.live[2] !in last.keys && last.now < ttl + ttl
  {
    var before, steps := LapseBreaksExclusion(ttl);
    var w := before[|before| - 1];
    worlds, actions := before + [Next(w, Release(1), ttl)], steps + [Release(1)];
  }
}
