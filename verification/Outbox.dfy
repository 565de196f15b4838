/** The outbox: requests written with the transaction that makes them, and dispatched in batches until they succeed
    or have failed too often. */
module Outbox {
  import opened Arithmetic

  /** What is asked for. It determines the event's type, aggregate id, dedupe key and payload. */
  datatype Request = IndexRequest(documentId: int, indexVersion: int) | DeleteRequest(documentId: int)

  datatype Status = PENDING | DISPATCHED | FAILED | DEAD

  datatype Event = Event(request: Request, status: Status, attempts: nat)

  /** The event table in id order: an event's position stands for its id. */
  type Table = seq<Event>

  predicate IsRequested(events: Table, request: Request) {
    exists i :: 0 <= i < |events| && events[i].request == request
  }

  /** enqueue_document_index and enqueue_document_delete: insert unless the same request is there already. */
  function Enqueue(events: Table, request: Request): Table {
    if IsRequested(events, request) then events else events + [Event(request, PENDING, 0)]
  }

  predicate IsClaimable(e: Event) {
    e.status == PENDING || e.status == FAILED
  }

  /** ORDER BY id LIMIT limit FOR UPDATE SKIP LOCKED over the claimable events from position i on. */
  function ClaimFrom(events: Table, i: nat, limit: nat, locked: set<nat>): seq<nat>
    requires i <= |events|
    decreases |events| - i
  {
    if limit == 0 || i == |events| then []
    else if IsClaimable(events[i]) && i !in locked then [i] + ClaimFrom(events, i + 1, limit - 1, locked)
    else ClaimFrom(events, i + 1, limit, locked)
  }

  function Claim(events: Table, limit: nat, locked: set<nat>): seq<nat> {
    ClaimFrom(events, 0, limit, locked)
  }

  function MarkDispatched(e: Event): Event {
    e.(status := DISPATCHED, attempts := e.attempts + 1)
  }

  function MarkFailed(e: Event, maxAttempts: nat): Event {
    e.(attempts := e.attempts + 1, status := if e.attempts + 1 >= maxAttempts then DEAD else FAILED)
  }

  function Attempt(e: Event, fails: bool, maxAttempts: nat): Event {
    if fails then MarkFailed(e, maxAttempts) else MarkDispatched(e)
  }

  /** One committed dispatch: each claimed event is attempted once; the broker refuses the failing ones. */
  function Dispatch(events: Table, limit: nat, locked: set<nat>, failing: set<nat>, maxAttempts: nat): (r: Table)
    ensures |r| == |events|
  {
    var claimed := Claim(events, limit, locked);
    seq(|events|, i requires 0 <= i < |events| =>
      if i in claimed then Attempt(events[i], i in failing, maxAttempts) else events[i])
  }

  // ----- what a claim returns -----

  lemma {:induction false} ClaimedAreEligible(events: Table, i: nat, limit: nat, locked: set<nat>)
    requires i <= |events|
    ensures |ClaimFrom(events, i, limit, locked)| <= limit
    ensures forall j :: j in ClaimFrom(events, i, limit, locked) ==>
              i <= j < |events| && IsClaimable(events[j]) && j !in locked
    ensures forall a, b :: 0 <= a < b < |ClaimFrom(events, i, limit, locked)| ==>
              ClaimFrom(events, i, limit, locked)[a] < ClaimFrom(events, i, limit, locked)[b]
    decreases |events| - i
  {
    if limit == 0 || i == |events| {
    } else if IsClaimable(events[i]) && i !in locked {
      ClaimedAreEligible(events, i + 1, limit - 1, locked);
      var rest := ClaimFrom(events, i + 1, limit - 1, locked);
      assert forall b :: 0 <= b < |rest| ==> rest[b] in rest;
    } else {
      ClaimedAreEligible(events, i + 1, limit, locked);
    }
  }

  /** An eligible event is left out only if the batch is full with events before it. */
  lemma {:induction false} LeftOutMeansFull(events: Table, i: nat, limit: nat, locked: set<nat>, p: nat)
    requires i <= p < |events| && IsClaimable(events[p]) && p !in locked
    requires p !in ClaimFrom(events, i, limit, locked)
    ensures |ClaimFrom(events, i, limit, locked)| == limit
    ensures forall j :: j in ClaimFrom(events, i, limit, locked) ==> j < p
    decreases |events| - i
  {
    if limit > 0 {
      if IsClaimable(events[i]) && i !in locked {
        LeftOutMeansFull(events, i + 1, limit - 1, locked, p);
      } else {
        LeftOutMeansFull(events, i + 1, limit, locked, p);
      }
    }
  }

  /** A large enough batch takes every unlocked claimable event. */
  lemma {:induction false} LargeBatchTakesAll(events: Table, i: nat, limit: nat, locked: set<nat>, p: nat)
    requires i <= p < |events| && IsClaimable(events[p]) && p !in locked && limit >= |events| - i
    ensures p in ClaimFrom(events, i, limit, locked)
    decreases |events| - i
  {
    if IsClaimable(events[i]) && i !in locked {
      if i < p {
        LargeBatchTakesAll(events, i + 1, limit - 1, locked, p);
      }
    } else {
      LargeBatchTakesAll(events, i + 1, limit, locked, p);
    }
  }

  // ----- invariants of the table -----

  /** The status tells how often the event was attempted: never while pending, at least once and less than max times
      while failed, exactly max times when dead. */
  predicate IsCounted(e: Event, maxAttempts: nat) {
    match e.status
    case PENDING => e.attempts == 0 < maxAttempts
    case FAILED => 1 <= e.attempts < maxAttempts
    case DEAD => e.attempts == maxAttempts
    case DISPATCHED => 1 <= e.attempts <= maxAttempts
  }

  ghost predicate AttemptsBounded(events: Table, maxAttempts: nat) {
    forall i :: 0 <= i < |events| ==> IsCounted(events[i], maxAttempts)
  }

  /** No two events make the same request. */
  ghost predicate NoDuplicates(events: Table) {
    forall i, j :: 0 <= i < j < |events| ==> events[i].request != events[j].request
  }

  /** Changes to the table: new events at the end, or a committed dispatch. */
  datatype Change = Append(request: Request) | Round(limit: nat, locked: set<nat>, failing: set<nat>)

  function Apply(events: Table, c: Change, maxAttempts: nat): Table {
    match c
    case Append(request) => Enqueue(events, request)
    case Round(limit, locked, failing) => Dispatch(events, limit, locked, failing, maxAttempts)
  }

  lemma ApplyKeepsInvariants(events: Table, c: Change, maxAttempts: nat)
    requires maxAttempts >= 1 && AttemptsBounded(events, maxAttempts) && NoDuplicates(events)
    ensures AttemptsBounded(Apply(events, c, maxAttempts), maxAttempts)
    ensures NoDuplicates(Apply(events, c, maxAttempts))
    ensures |events| <= |Apply(events, c, maxAttempts)|
    ensures forall i :: 0 <= i < |events| ==>
              && Apply(events, c, maxAttempts)[i].request == events[i].request
              && (Apply(events, c, maxAttempts)[i] == events[i]
                  || (IsClaimable(events[i]) && Apply(events, c, maxAttempts)[i].attempts == events[i].attempts + 1))
  {
    match c
    case Append(request) =>
    case Round(limit, locked, failing) =>
      ClaimedAreEligible(events, 0, limit, locked);
  }

  lemma EnqueueAddsOne(events: Table, request: Request)
    ensures forall q :: IsRequested(Enqueue(events, request), q) <==> IsRequested(events, q) || q == request
  {
    var after := Enqueue(events, request);
    forall q ensures IsRequested(after, q) <==> IsRequested(events, q) || q == request {
      if IsRequested(events, q) {
        var i :| 0 <= i < |events| && events[i].request == q;
        assert after[i].request == q;
      }
      if q == request && !IsRequested(events, request) {
        assert after[|events|].request == q;
      }
    }
  }

  lemma DispatchKeepsRequests(events: Table, limit: nat, locked: set<nat>, failing: set<nat>, maxAttempts: nat)
    ensures forall q :: IsRequested(Dispatch(events, limit, locked, failing, maxAttempts), q) <==>
        IsRequested(events, q)
  {
    hide Claim;
    var after := Dispatch(events, limit, locked, failing, maxAttempts);
    assert forall i :: 0 <= i < |events| ==> after[i].request == events[i].request;
  }

  function ApplyAll(events: Table, changes: seq<Change>, maxAttempts: nat): Table {
    if changes == [] then events
    else Apply(ApplyAll(events, changes[..|changes| - 1], maxAttempts), changes[|changes| - 1], maxAttempts)
  }

  lemma ApplyNone(events: Table, maxAttempts: nat)
    ensures ApplyAll(events, [], maxAttempts) == events
  {}

  lemma ApplyOneMore(events: Table, changes: seq<Change>, c: Change, maxAttempts: nat)
    ensures ApplyAll(events, changes + [c], maxAttempts)
        == Apply(ApplyAll(events, changes, maxAttempts), c, maxAttempts)
  {
    assert (changes + [c])[..|changes|] == changes;
  }

  lemma ApplyOne(events: Table, c: Change, maxAttempts: nat)
    ensures ApplyAll(events, [c], maxAttempts) == Apply(events, c, maxAttempts)
  {
    ApplyOneMore(events, [], c, maxAttempts);
    assert [] + [c] == [c];
  }

  lemma {:induction false} ApplyConcat(events: Table, first: seq<Change>, second: seq<Change>, maxAttempts: nat)
    ensures ApplyAll(events, first + second, maxAttempts)
        == ApplyAll(ApplyAll(events, first, maxAttempts), second, maxAttempts)
    ensures CountRounds(first + second) == CountRounds(first) + CountRounds(second)
    decreases |second|
  {
    hide Apply;
    if second == [] {
      assert first + second == first;
    } else {
      assert (first + second)[..|first + second| - 1] == first + second[..|second| - 1];
      ApplyConcat(events, first, second[..|second| - 1], maxAttempts);
    }
  }

  lemma {:induction false} ApplyAllKeeps(events: Table, changes: seq<Change>, maxAttempts: nat)
    requires maxAttempts >= 1 && AttemptsBounded(events, maxAttempts) && NoDuplicates(events)
    ensures AttemptsBounded(ApplyAll(events, changes, maxAttempts), maxAttempts)
        && NoDuplicates(ApplyAll(events, changes, maxAttempts))
  {
    hide Apply, AttemptsBounded, NoDuplicates;
    if changes != [] {
      var front, last := changes[..|changes| - 1], changes[|changes| - 1];
      ApplyAllKeeps(events, front, maxAttempts);
      ApplyKeepsInvariants(ApplyAll(events, front, maxAttempts), last, maxAttempts);
    }
  }

  /** Nothing changes an event that is dispatched or dead. */
  lemma {:induction false} SettledStays(events: Table, changes: seq<Change>, maxAttempts: nat, p: nat)
    requires maxAttempts >= 1 && AttemptsBounded(events, maxAttempts) && NoDuplicates(events)
    requires p < |events| && !IsClaimable(events[p])
    ensures p < |ApplyAll(events, changes, maxAttempts)| && ApplyAll(events, changes, maxAttempts)[p] == events[p]
  {
    hide Apply, AttemptsBounded, NoDuplicates;
    if changes != [] {
      var front, last := changes[..|changes| - 1], changes[|changes| - 1];
      SettledStays(events, front, maxAttempts, p);
      ApplyAllKeeps(events, front, maxAttempts);
      ApplyKeepsInvariants(ApplyAll(events, front, maxAttempts), last, maxAttempts);
    }
  }

  lemma BoundOf(events: Table, maxAttempts: nat, p: nat)
    requires AttemptsBounded(events, maxAttempts) && p < |events|
    ensures events[p].attempts <= maxAttempts && IsCounted(events[p], maxAttempts)
  {}

  /** Added events are pending, and adding leaves the others alone. */
  lemma {:induction false} AppendsArePending(events: Table, changes: seq<Change>, maxAttempts: nat)
    requires forall c :: c in changes ==> c.Append?
    ensures var after := ApplyAll(events, changes, maxAttempts);
            && |events| <= |after| && after[..|events|] == events
            && forall i :: |events| <= i < |after| ==> after[i].status == PENDING
  {
    if changes != [] {
      var front, last := changes[..|changes| - 1], changes[|changes| - 1];
      assert last in changes;
      assert forall c :: c in front ==> c in changes;
      AppendsArePending(events, front, maxAttempts);
    }
  }

  // ----- bounded wait -----

  /** How often an event can still be attempted. */
  function RemainingOf(e: Event, maxAttempts: nat): nat {
    if IsClaimable(e) && e.attempts < maxAttempts then maxAttempts - e.attempts else 0
  }

  /** How often the claimable events before position p can still be attempted. */
  function Remaining(events: Table, p: nat, maxAttempts: nat): nat
    requires p <= |events|
  {
    if p == 0 then 0
    else Remaining(events, p - 1, maxAttempts) + RemainingOf(events[p - 1], maxAttempts)
  }

  function ClaimableBefore(events: Table, p: nat): nat
    requires p <= |events|
  {
    if p == 0 then 0 else ClaimableBefore(events, p - 1) + (if IsClaimable(events[p - 1]) then 1 else 0)
  }

  lemma {:induction false} RemainingBound(events: Table, p: nat, maxAttempts: nat)
    requires p <= |events|
    ensures Remaining(events, p, maxAttempts) <= ClaimableBefore(events, p) * maxAttempts
  {
    if p > 0 {
      RemainingBound(events, p - 1, maxAttempts);
      var k := ClaimableBefore(events, p - 1);
      assert (k + 1) * maxAttempts == k * maxAttempts + maxAttempts;
    }
  }

  /** How many of the given positions lie before p. */
  function CountBefore(positions: seq<nat>, p: nat): nat {
    if positions == [] then 0
    else CountBefore(positions[..|positions| - 1], p) + (if positions[|positions| - 1] < p then 1 else 0)
  }

  ghost predicate Increasing(positions: seq<nat>) {
    forall a, b :: 0 <= a < b < |positions| ==> positions[a] < positions[b]
  }

  lemma {:induction false} CountBeforeStep(positions: seq<nat>, p: nat)
    requires Increasing(positions)
    ensures CountBefore(positions, p + 1) == CountBefore(positions, p) + (if p in positions then 1 else 0)
  {
    if positions != [] {
      var front, last := positions[..|positions| - 1], positions[|positions| - 1];
      CountBeforeStep(front, p);
      assert positions == front + [last];
      if last <= p {
        assert p !in front;
      }
    }
  }

  lemma {:induction false} CountAllBefore(positions: seq<nat>, p: nat)
    requires forall j :: j in positions ==> j < p
    ensures CountBefore(positions, p) == |positions|
  {
    if positions != [] {
      var front, last := positions[..|positions| - 1], positions[|positions| - 1];
      assert last in positions;
      assert forall j :: j in front ==> j in positions;
      CountAllBefore(front, p);
    }
  }

  lemma {:induction false} CountNoneBefore(positions: seq<nat>)
    ensures CountBefore(positions, 0) == 0
  {
    if positions != [] {
      CountNoneBefore(positions[..|positions| - 1]);
    }
  }

  /** Every attempt on an event before p uses up one of the remaining attempts, whether it succeeds or fails. */
  lemma {:induction false} DispatchUsesRemaining(events: Table, limit: nat, locked: set<nat>, failing: set<nat>,
                                                 maxAttempts: nat, p: nat)
    requires maxAttempts >= 1 && AttemptsBounded(events, maxAttempts) && p <= |events|
    ensures Remaining(Dispatch(events, limit, locked, failing, maxAttempts), p, maxAttempts)
            + CountBefore(Claim(events, limit, locked), p)
         <= Remaining(events, p, maxAttempts)
  {
    hide AttemptsBounded, ClaimFrom;
    var claimed := Claim(events, limit, locked);
    ClaimedAreEligible(events, 0, limit, locked);
    if p == 0 {
      CountNoneBefore(claimed);
    } else {
      DispatchUsesRemaining(events, limit, locked, failing, maxAttempts, p - 1);
      CountBeforeStep(claimed, p - 1);
      AttemptUsesOne(events, p - 1, maxAttempts, (p - 1) in claimed, (p - 1) in failing);
    }
  }

  lemma AttemptUsesOne(events: Table, i: nat, maxAttempts: nat, claimed: bool, fails: bool)
    requires maxAttempts >= 1 && AttemptsBounded(events, maxAttempts) && i < |events|
    requires claimed ==> IsClaimable(events[i])
    ensures var after := if claimed then Attempt(events[i], fails, maxAttempts) else events[i];
            RemainingOf(after, maxAttempts) + (if claimed then 1 else 0) <= RemainingOf(events[i], maxAttempts)
  {
  }

  lemma {:induction false} RemainingOfPrefix(a: Table, b: Table, p: nat, maxAttempts: nat)
    requires p <= |a| <= |b| && a == b[..|a|]
    ensures Remaining(a, p, maxAttempts) == Remaining(b, p, maxAttempts)
  {
    if p > 0 {
      RemainingOfPrefix(a, b, p - 1, maxAttempts);
      assert a[p - 1] == b[p - 1];
    }
  }

  function CountRounds(changes: seq<Change>): nat {
    if changes == [] then 0
    else CountRounds(changes[..|changes| - 1]) + (if changes[|changes| - 1].Round? then 1 else 0)
  }

  lemma CountNoRounds()
    ensures CountRounds([]) == 0
    ensures forall c: Change :: CountRounds([c]) == if c.Round? then 1 else 0
  {}

  /** Every dispatch takes batches of the same size and finds the event's row unlocked. */
  ghost predicate Reaches(changes: seq<Change>, p: nat, limit: nat) {
    forall i :: 0 <= i < |changes| && changes[i].Round? ==> changes[i].limit == limit && p !in changes[i].locked
  }

  lemma {:induction false} WaitingUsesRemaining(events: Table, changes: seq<Change>, maxAttempts: nat, p: nat,
                                                limit: nat)
    requires maxAttempts >= 1 && AttemptsBounded(events, maxAttempts) && NoDuplicates(events)
    requires p < |events| && IsClaimable(events[p]) && Reaches(changes, p, limit)
    ensures var after := ApplyAll(events, changes, maxAttempts);
            && |events| <= |after| && AttemptsBounded(after, maxAttempts) && NoDuplicates(after)
            && after[p].request == events[p].request && after[p].attempts >= events[p].attempts
            && (after[p].attempts == events[p].attempts ==>
                  && after[p] == events[p]
                  && CountRounds(changes) * limit + Remaining(after, p, maxAttempts)
                     <= Remaining(events, p, maxAttempts))
    decreases |changes|
  {
    hide Remaining, Apply;
    if changes != [] {
      var front, last := changes[..|changes| - 1], changes[|changes| - 1];
      WaitingUsesRemaining(events, front, maxAttempts, p, limit);
      var before := ApplyAll(events, front, maxAttempts);
      ApplyKeepsInvariants(before, last, maxAttempts);
      var after := Apply(before, last, maxAttempts);
      if after[p].attempts == events[p].attempts {
        WaitStep(before, last, maxAttempts, p, limit);
        if last.Round? {
          assert (CountRounds(front) + 1) * limit == CountRounds(front) * limit + limit;
        }
      }
    }
  }

  lemma WaitStep(events: Table, c: Change, maxAttempts: nat, p: nat, limit: nat)
    requires maxAttempts >= 1 && AttemptsBounded(events, maxAttempts) && NoDuplicates(events)
    requires p < |events| && IsClaimable(events[p])
    requires c.Round? ==> c.limit == limit && p !in c.locked
    requires |events| <= |Apply(events, c, maxAttempts)| && Apply(events, c, maxAttempts)[p] == events[p]
    ensures (if c.Round? then limit else 0) + Remaining(Apply(events, c, maxAttempts), p, maxAttempts)
         <= Remaining(events, p, maxAttempts)
  {
    hide Remaining, AttemptsBounded, NoDuplicates;
    match c
    case Append(request) =>
      RemainingOfPrefix(events, Enqueue(events, request), p, maxAttempts);
    case Round(_, locked, failing) =>
      var claimed := Claim(events, limit, locked);
      assert p !in claimed;
      LeftOutMeansFull(events, 0, limit, locked, p);
      CountAllBefore(claimed, p);
      DispatchUsesRemaining(events, limit, locked, failing, maxAttempts, p);
  }

  /** An event with k claimable events before it is attempted within floor(k * max / limit) + 1 rounds, even if every
      earlier event always fails, and however many later events are added in between. */
  lemma AttemptedWithinBound(events: Table, changes: seq<Change>, maxAttempts: nat, p: nat, limit: nat)
    requires maxAttempts >= 1 && AttemptsBounded(events, maxAttempts) && NoDuplicates(events)
    requires p < |events| && IsClaimable(events[p]) && limit >= 1 && Reaches(changes, p, limit)
    requires CountRounds(changes) >= ClaimableBefore(events, p) * maxAttempts / limit + 1
    ensures |events| <= |ApplyAll(events, changes, maxAttempts)|
    ensures ApplyAll(events, changes, maxAttempts)[p].request == events[p].request
    ensures ApplyAll(events, changes, maxAttempts)[p].attempts > events[p].attempts
  {
    WaitingUsesRemaining(events, changes, maxAttempts, p, limit);
    RemainingBound(events, p, maxAttempts);
    if ApplyAll(events, changes, maxAttempts)[p].attempts == events[p].attempts {
      RoundsBound(CountRounds(changes), limit, ClaimableBefore(events, p) * maxAttempts);
    }
  }

  // ----- how events end -----

  /** What one committed dispatch makes of an event: accepted, it is dispatched; refused, it can be claimed again
      until it has failed max times, and is dead then; left out, it stays as it is. */
  lemma DispatchOutcome(events: Table, limit: nat, locked: set<nat>, failing: set<nat>, maxAttempts: nat, p: nat)
    requires AttemptsBounded(events, maxAttempts) && p < |events|
    ensures var before, after := events[p], Dispatch(events, limit, locked, failing, maxAttempts)[p];
            && after.request == before.request
            && (p !in Claim(events, limit, locked) ==> after == before)
            && (p in Claim(events, limit, locked) ==>
                  && before.status in {PENDING, FAILED} && before.attempts < maxAttempts
                  && after.attempts == before.attempts + 1
                  && (p !in failing <==> after.status == DISPATCHED)
                  && (p in failing && before.attempts + 1 < maxAttempts <==> after.status == FAILED)
                  && (p in failing && before.attempts + 1 == maxAttempts <==> after.status == DEAD))
  {
    hide ClaimFrom;
    ClaimedAreEligible(events, 0, limit, locked);
  }

  /** No round refuses the event, or every round does. */
  ghost predicate AlwaysAccepted(changes: seq<Change>, p: nat) {
    forall i :: 0 <= i < |changes| && changes[i].Round? ==> p !in changes[i].failing
  }

  ghost predicate AlwaysRefused(changes: seq<Change>, p: nat) {
    forall i :: 0 <= i < |changes| && changes[i].Round? ==> p in changes[i].failing
  }

  /** As long as the event can be claimed, every round attempts it or a full batch of earlier events. */
  lemma {:induction false} RoundsAreUsed(events: Table, changes: seq<Change>, maxAttempts: nat, p: nat, limit: nat)
    requires maxAttempts >= 1 && AttemptsBounded(events, maxAttempts) && NoDuplicates(events)
    requires p < |events| && IsClaimable(events[p]) && Reaches(changes, p, limit)
    ensures var after := ApplyAll(events, changes, maxAttempts);
            && |events| <= |after| && AttemptsBounded(after, maxAttempts) && NoDuplicates(after)
            && after[p].request == events[p].request && after[p].attempts >= events[p].attempts
            && (IsClaimable(after[p]) ==>
                  CountRounds(changes) * limit + Remaining(after, p, maxAttempts)
                  <= Remaining(events, p, maxAttempts) + (after[p].attempts - events[p].attempts) * limit)
    decreases |changes|
  {
    hide Remaining, Apply, AttemptsBounded, NoDuplicates;
    if changes != [] {
      var front, last := changes[..|changes| - 1], changes[|changes| - 1];
      RoundsAreUsed(events, front, maxAttempts, p, limit);
      var before := ApplyAll(events, front, maxAttempts);
      ApplyKeepsInvariants(before, last, maxAttempts);
      var after := Apply(before, last, maxAttempts);
      if IsClaimable(after[p]) {
        UseStep(before, last, maxAttempts, p, limit);
        var made, more := before[p].attempts - events[p].attempts, after[p].attempts - before[p].attempts;
        assert (made + more) * limit == made * limit + more * limit;
        if last.Round? {
          assert (CountRounds(front) + 1) * limit == CountRounds(front) * limit + limit;
        }
      }
    }
  }

  lemma UseStep(events: Table, c: Change, maxAttempts: nat, p: nat, limit: nat)
    requires maxAttempts >= 1 && AttemptsBounded(events, maxAttempts) && NoDuplicates(events)
    requires p < |events| && p < |Apply(events, c, maxAttempts)| && IsClaimable(Apply(events, c, maxAttempts)[p])
    requires c.Round? ==> c.limit == limit && p !in c.locked
    ensures IsClaimable(events[p]) && Apply(events, c, maxAttempts)[p].attempts >= events[p].attempts
    ensures (if c.Round? then limit else 0) + Remaining(Apply(events, c, maxAttempts), p, maxAttempts)
         <= Remaining(events, p, maxAttempts) + (Apply(events, c, maxAttempts)[p].attempts - events[p].attempts) * limit
  {
    hide Remaining, AttemptsBounded, NoDuplicates, Apply, Claim, IsCounted;
    OutcomeOf(events, c, maxAttempts, p);
    ApplyKeepsInvariants(events, c, maxAttempts);
    if Apply(events, c, maxAttempts)[p] != events[p] {
      RoundAttempts(events, c, maxAttempts, p);
    } else {
      WaitStep(events, c, maxAttempts, p, limit);
    }
  }

  lemma RoundAttempts(events: Table, c: Change, maxAttempts: nat, p: nat)
    requires maxAttempts >= 1 && AttemptsBounded(events, maxAttempts) && c.Round? && p < |events|
    ensures Remaining(Apply(events, c, maxAttempts), p, maxAttempts) <= Remaining(events, p, maxAttempts)
  {
    hide Remaining, AttemptsBounded, Claim, IsCounted;
    DispatchUsesRemaining(events, c.limit, c.locked, c.failing, maxAttempts, p);
  }

  /** With k claimable events before it, an event is settled within floor(k * max / limit) + (max - attempts) rounds,
      whichever of them the broker refuses: it is dispatched, or dead after exactly max attempts. */
  lemma SettledWithinBound(events: Table, changes: seq<Change>, maxAttempts: nat, p: nat, limit: nat)
    requires maxAttempts >= 1 && AttemptsBounded(events, maxAttempts) && NoDuplicates(events)
    requires p < |events| && IsClaimable(events[p]) && limit >= 1 && Reaches(changes, p, limit)
    requires CountRounds(changes) + events[p].attempts
          >= ClaimableBefore(events, p) * maxAttempts / limit + maxAttempts
    ensures var after := ApplyAll(events, changes, maxAttempts);
            && |events| <= |after| && after[p].request == events[p].request
            && (after[p].status == DISPATCHED || (after[p].status == DEAD && after[p].attempts == maxAttempts))
  {
    hide Remaining, CountRounds, ApplyAll, ClaimableBefore, NoDuplicates;
    RoundsAreUsed(events, changes, maxAttempts, p, limit);
    var after := ApplyAll(events, changes, maxAttempts);
    BoundOf(after, maxAttempts, p);
    if IsClaimable(after[p]) {
      RemainingBound(events, p, maxAttempts);
      var total, made := ClaimableBefore(events, p) * maxAttempts, after[p].attempts - events[p].attempts;
      assert (CountRounds(changes) - made) * limit == CountRounds(changes) * limit - made * limit;
      RoundsBound(CountRounds(changes) - made, limit, total);
    }
  }

  /** An event that no round refuses is dispatched as soon as it is attempted; one that every round refuses is never
      dispatched, and dead only after exactly max attempts. */
  lemma {:induction false} RefusalsDecide(events: Table, changes: seq<Change>, maxAttempts: nat, p: nat)
    requires maxAttempts >= 1 && AttemptsBounded(events, maxAttempts) && NoDuplicates(events)
    requires p < |events| && IsClaimable(events[p])
    ensures var after := ApplyAll(events, changes, maxAttempts);
            && |events| <= |after| && AttemptsBounded(after, maxAttempts) && NoDuplicates(after)
            && after[p].attempts >= events[p].attempts
            && (AlwaysAccepted(changes, p) ==>
                  if after[p].attempts == events[p].attempts then after[p] == events[p]
                  else after[p].status == DISPATCHED && after[p].attempts == events[p].attempts + 1)
            && (AlwaysRefused(changes, p) ==>
                  after[p].status != DISPATCHED && (IsClaimable(after[p]) <==> after[p].attempts < maxAttempts))
    decreases |changes|
  {
    hide Apply, AttemptsBounded, NoDuplicates;
    BoundOf(events, maxAttempts, p);
    if changes != [] {
      var front, last := changes[..|changes| - 1], changes[|changes| - 1];
      RefusalsDecide(events, front, maxAttempts, p);
      var before := ApplyAll(events, front, maxAttempts);
      ApplyKeepsInvariants(before, last, maxAttempts);
      BoundOf(before, maxAttempts, p);
      BoundOf(Apply(before, last, maxAttempts), maxAttempts, p);
      assert last == changes[|front|];
      OutcomeOf(before, last, maxAttempts, p);
    }
  }

  lemma OutcomeOf(events: Table, c: Change, maxAttempts: nat, p: nat)
    requires maxAttempts >= 1 && AttemptsBounded(events, maxAttempts) && NoDuplicates(events) && p < |events|
    ensures var after := Apply(events, c, maxAttempts);
            && p < |after|
            && (after[p] == events[p]
                || (&& c.Round? && IsClaimable(events[p]) && after[p].attempts == events[p].attempts + 1
                    && (after[p].status == DISPATCHED <==> p !in c.failing)))
  {
    hide NoDuplicates;
    if c.Round? {
      DispatchOutcome(events, c.limit, c.locked, c.failing, maxAttempts, p);
    }
  }
}
