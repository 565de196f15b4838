/** The Snowflake id generator under an arbitrary clock. */
module Snowflake {
  import opened Prelude
  import Arithmetic
  import Bits

  const WORKER_ID_BITS: nat := 5
  const DATACENTER_ID_BITS: nat := 5
  const SEQUENCE_BITS: nat := 12
  const MAX_WORKER_ID := Arithmetic.Pow2(WORKER_ID_BITS) - 1
  const MAX_DATACENTER_ID := Arithmetic.Pow2(DATACENTER_ID_BITS) - 1
  const SEQUENCE_MASK: nat := Arithmetic.Pow2(SEQUENCE_BITS) - 1
  const WORKER_ID_SHIFT: nat := SEQUENCE_BITS
  const DATACENTER_ID_SHIFT: nat := SEQUENCE_BITS + WORKER_ID_BITS
  const TIMESTAMP_LEFT_SHIFT: nat := SEQUENCE_BITS + WORKER_ID_BITS + DATACENTER_ID_BITS
  const EPOCH: int := 1262275200000
  const CLOCK_BACKWARD_TOLERANCE_MS: int := 10000

  // ----- packing -----

  datatype Fields = Fields(timestamp: int, datacenterId: int, workerId: int, sequence: int)

  predicate InRange(f: Fields) {
    && 0 <= f.datacenterId <= MAX_DATACENTER_ID
    && 0 <= f.workerId <= MAX_WORKER_ID
    && 0 <= f.sequence <= SEQUENCE_MASK
  }

  lemma MaxIds()
    ensures MAX_DATACENTER_ID == 31 && MAX_WORKER_ID == 31 && SEQUENCE_MASK == 4095
  {
    Bits.Pow2Values();
  }

  function Pack(f: Fields): int
    requires InRange(f)
  {
    Bits.Or(
      Bits.Or(
        Bits.Or(Bits.ShiftLeft(f.timestamp - EPOCH, TIMESTAMP_LEFT_SHIFT),
                Bits.ShiftLeft(f.datacenterId, DATACENTER_ID_SHIFT)),
        Bits.ShiftLeft(f.workerId, WORKER_ID_SHIFT)),
      f.sequence)
  }

  function Parse(id: int): Fields {
    Fields(Bits.ShiftRight(id, TIMESTAMP_LEFT_SHIFT) + EPOCH,
           Bits.And(Bits.ShiftRight(id, DATACENTER_ID_SHIFT), MAX_DATACENTER_ID),
           Bits.And(Bits.ShiftRight(id, WORKER_ID_SHIFT), MAX_WORKER_ID),
           Bits.And(id, SEQUENCE_MASK))
  }

  /** The four fields occupy disjoint bits, so or-ing them together adds them. */
  lemma PackAdds(f: Fields)
    requires InRange(f)
    ensures Pack(f) == ((((f.timestamp - EPOCH) * 32 + f.datacenterId) * 32) + f.workerId) * 4096 + f.sequence
  {
    hide Arithmetic.Pow2, Bits.Or, Bits.And;
    Bits.Pow2Values();
    var t := f.timestamp - EPOCH;
    Bits.OrDisjoint(t, f.datacenterId * 0x2_0000, 22);
    var td := t * 32 + f.datacenterId;
    assert t * 0x40_0000 + f.datacenterId * 0x2_0000 == td * 0x2_0000;
    Bits.OrDisjoint(td, f.workerId * 4096, 17);
    var tdw := td * 32 + f.workerId;
    assert td * 0x2_0000 + f.workerId * 4096 == tdw * 4096;
    Bits.OrDisjoint(tdw, f.sequence, 12);
  }

  /** parse inverts the packing, for every timestamp, before the epoch too. */
  lemma ParseInvertsPack(f: Fields)
    requires InRange(f)
    ensures Parse(Pack(f)) == f
  {
    hide Arithmetic.Pow2, Bits.Or, Bits.And;
    Bits.Pow2Values();
    PackAdds(f);
    var id := Pack(f);
    var t := f.timestamp - EPOCH;
    var td := t * 32 + f.datacenterId;
    var tdw := td * 32 + f.workerId;
    Arithmetic.DivModIs(id, 0x40_0000, t, f.datacenterId * 0x2_0000 + f.workerId * 4096 + f.sequence);
    Arithmetic.DivModIs(id, 0x2_0000, td, f.workerId * 4096 + f.sequence);
    Arithmetic.DivModIs(id, 4096, tdw, f.sequence);
    Arithmetic.DivModIs(td, 32, t, f.datacenterId);
    Arithmetic.DivModIs(tdw, 32, td, f.workerId);
    Bits.AndMask(td, 5);
    Bits.AndMask(tdw, 5);
    Bits.AndMask(id, 12);
  }

  /** Ids of different (datacenter, worker) pairs never collide, nor do ids of different times or sequence numbers. */
  lemma PackIsInjective(f: Fields, g: Fields)
    requires InRange(f) && InRange(g)
    ensures Pack(f) == Pack(g) ==> f == g
  {
    ParseInvertsPack(f);
    ParseInvertsPack(g);
  }

  /** For 41 bits of milliseconds after the epoch an id fits into 63 bits, and only for those. */
  lemma PackFits63Bits(f: Fields)
    requires InRange(f)
    ensures 0 <= f.timestamp - EPOCH < 0x200_0000_0000 <==> 0 <= Pack(f) < 0x8000_0000_0000_0000
  {
    hide Arithmetic.Pow2, Bits.Or, Bits.And;
    Bits.Pow2Values();
    PackAdds(f);
  }

  // ----- generating -----

  /** What the generator remembers between calls. */
  datatype State = State(datacenterId: int, workerId: int, sequence: int, lastTimestamp: int)

  predicate IsReady(s: State) {
    InRange(FieldsOf(s))
  }

  function FieldsOf(s: State): Fields {
    Fields(s.lastTimestamp, s.datacenterId, s.workerId, s.sequence)
  }

  /** Issued is a new id, Refused the error for a clock too far back; Waiting means that the readings ran out while
      the generator was waiting for the next millisecond. */
  datatype Outcome = Issued(id: int) | Refused(backMs: int) | Uninitialized | Waiting

  /** Position of the first reading from position i on that lies after last, if there is one. */
  function FirstAfter(readings: seq<int>, i: nat, last: int): (r: Option<nat>)
    requires i <= |readings|
    ensures r.Some? ==> i <= r.value < |readings| && readings[r.value] > last
    ensures r.Some? ==> forall k :: i <= k < r.value ==> readings[k] <= last
    ensures r.None? ==> forall k :: i <= k < |readings| ==> readings[k] <= last
    decreases |readings| - i
  {
    if i == |readings| then None
    else if readings[i] > last then Some(i)
    else FirstAfter(readings, i + 1, last)
  }

  /** One call of generate, reading the clock as often as it needs; also the number of readings used. */
  function Step(s: State, readings: seq<int>): (Outcome, State, nat)
    requires IsReady(s)
  {
    if readings == [] then (Waiting, s, 0)
    else
      var now := readings[0];
      if now < s.lastTimestamp - CLOCK_BACKWARD_TOLERANCE_MS then (Refused(s.lastTimestamp - now), s, 1)
      else if now > s.lastTimestamp then
        var s' := s.(sequence := 0, lastTimestamp := now);
        (Issued(Pack(FieldsOf(s'))), s', 1)
      else if now == s.lastTimestamp && s.sequence < SEQUENCE_MASK then
        var s' := s.(sequence := s.sequence + 1);
        (Issued(Pack(FieldsOf(s'))), s', 1)
      else
        // The clock went back a little, or the millisecond has no sequence number left.
        var i := FirstAfter(readings, 1, s.lastTimestamp);
        if i.None? then (Waiting, if now == s.lastTimestamp then s.(sequence := 0) else s, |readings|)
        else
          var s' := s.(sequence := 0, lastTimestamp := readings[i.value]);
          (Issued(Pack(FieldsOf(s'))), s', i.value + 1)
  }

  class Generator {
    var datacenterId: int
    var workerId: int
    var sequence: int
    var lastTimestamp: int
    var initialized: bool

    constructor ()
      ensures !initialized && sequence == 0 && lastTimestamp == -1
      ensures Valid()
    {
      datacenterId, workerId, sequence, lastTimestamp, initialized := 0, 0, 0, -1, false;
    }

    ghost predicate Valid()
      reads this
    {
      initialized ==> IsReady(Value())
    }

    function Value(): State
      reads this
    {
      State(datacenterId, workerId, sequence, lastTimestamp)
    }

    /** The pair a configuration asks for: two fixed ids, or without any the pair that was acquired from Redis. */
    static function Configured(fixedDatacenter: Option<int>, fixedWorker: Option<int>, acquired: Option<(int, int)>)
      : Option<(int, int)>
    {
      match (fixedDatacenter, fixedWorker)
      case (Some(datacenter), Some(worker)) => Some((datacenter, worker))
      case (None, None) => acquired
      case _ => None
    }

    /** An initialized generator stays as it is. Otherwise it becomes usable exactly if the configuration gives a pair
        within 0..31, which it then uses. */
    method Init(fixedDatacenter: Option<int>, fixedWorker: Option<int>, acquired: Option<(int, int)>) returns (ok: bool)
      requires Valid() && (!initialized ==> sequence == 0)
      modifies this
      ensures Valid() && (ok <==> initialized)
      ensures old(initialized) ==> ok && Value() == old(Value())
      ensures sequence == old(sequence) && lastTimestamp == old(lastTimestamp)
      ensures !old(initialized) ==>
                var node := Configured(fixedDatacenter, fixedWorker, acquired);
                && (ok <==> node.Some? && 0 <= node.value.0 <= 31 && 0 <= node.value.1 <= 31)
                && (ok ==> (datacenterId, workerId) == node.value)
    {
      Bits.Pow2Values();
      if initialized {
        return true;
      }
      if fixedDatacenter.Some? && fixedWorker.Some? {
        datacenterId, workerId := fixedDatacenter.value, fixedWorker.value;
      } else if fixedDatacenter.Some? || fixedWorker.Some? {
        return false;
      } else if acquired.None? {
        return false;
      } else {
        datacenterId, workerId := acquired.value.0, acquired.value.1;
      }
      if !(0 <= datacenterId <= MAX_DATACENTER_ID) {
        return false;
      }
      if !(0 <= workerId <= MAX_WORKER_ID) {
        return false;
      }
      initialized := true;
      ok := true;
    }

    /** Wait until the clock shows a later millisecond than last; i readings are used before and j after. */
    method TillNextMs(readings: seq<int>, i: nat, last: int) returns (timestamp: int, j: nat, found: bool)
      requires i <= |readings|
      ensures found <==> FirstAfter(readings, i, last).Some?
      ensures found ==>
          FirstAfter(readings, i, last) == Some(j - 1) && j <= |readings| && timestamp == readings[j - 1] > last
      ensures !found ==> j == |readings|
    {
      j := i;
      timestamp := last;
      while j < |readings| && timestamp <= last
        invariant i <= j <= |readings|
        invariant timestamp <= last ==> FirstAfter(readings, i, last) == FirstAfter(readings, j, last)
        invariant timestamp > last ==>
            j > i && FirstAfter(readings, i, last) == Some(j - 1) && timestamp == readings[j - 1]
      {
        timestamp := readings[j];
        j := j + 1;
      }
      found := timestamp > last;
    }

    method Generate(readings: seq<int>) returns (r: Outcome, used: nat)
      requires Valid()
      modifies this`sequence, this`lastTimestamp
      ensures Valid()
      ensures !initialized ==> r == Uninitialized && Value() == old(Value())
      ensures initialized ==> (r, Value(), used) == Step(old(Value()), readings)
    {
      hide Arithmetic.Pow2, Bits.Or, Bits.And, Pack, FirstAfter;
      if !initialized {
        return Uninitialized, 0;
      }
      if readings == [] {
        return Waiting, 0;
      }
      Bits.Pow2Values();
      var timestamp := readings[0];
      used := 1;
      if timestamp < lastTimestamp {
        var backMs := lastTimestamp - timestamp;
        if backMs <= CLOCK_BACKWARD_TOLERANCE_MS {
          var found;
          timestamp, used, found := TillNextMs(readings, used, lastTimestamp);
          if !found {
            return Waiting, used;
          }
        } else {
          return Refused(backMs), used;
        }
      }
      if timestamp == lastTimestamp {
        Bits.AndMask(sequence + 1, 12);
        sequence := Bits.And(sequence + 1, SEQUENCE_MASK);
        if sequence == 0 {
          var found;
          timestamp, used, found := TillNextMs(readings, used, lastTimestamp);
          if !found {
            return Waiting, used;
          }
        }
      } else {
        sequence := 0;
      }
      lastTimestamp := timestamp;
      r := Issued(Pack(Fields(timestamp, datacenterId, workerId, sequence)));
    }
  }

  // ----- what holds over a run -----

  /** The id the state stands for: the one issued last. */
  function LastId(s: State): int
    requires IsReady(s)
  {
    Pack(FieldsOf(s))
  }

  /** The id that a call issues, by its fields: the clock's time with sequence number 0 if it has moved on, the next
      number if it has not and one is left, and otherwise the first later time that is read. */
  lemma IssuedFieldsDecide(s: State, readings: seq<int>)
    requires IsReady(s) && readings != []
    ensures var r := Step(s, readings).0;
            var now := readings[0];
            && (now > s.lastTimestamp ==>
                  r.Issued? && Parse(r.id) == Fields(now, s.datacenterId, s.workerId, 0))
            && (now == s.lastTimestamp && s.sequence < 4095 ==>
                  r.Issued? && Parse(r.id) == Fields(now, s.datacenterId, s.workerId, s.sequence + 1))
            && (s.lastTimestamp - 10000 <= now < s.lastTimestamp || (now == s.lastTimestamp && s.sequence == 4095) ==>
                  if forall i :: 0 <= i < |readings| ==> readings[i] <= s.lastTimestamp then r == Waiting
                  else r.Issued? && exists i ::
                    && 0 < i < |readings| && readings[i] > s.lastTimestamp
                    && (forall k :: 0 <= k < i ==> readings[k] <= s.lastTimestamp)
                    && Parse(r.id) == Fields(readings[i], s.datacenterId, s.workerId, 0))
            && (now < s.lastTimestamp - 10000 ==> r == Refused(s.lastTimestamp - now))
  {
    hide Arithmetic.Pow2, Bits.Or, Bits.And, Pack, Parse;
    MaxIds();
    var (r, s', used) := Step(s, readings);
    StepIncreases(s, readings);
    if r.Issued? {
      ParseInvertsPack(FieldsOf(s'));
    }
  }

  /** An issued id is later than everything issued before; a refusal changes nothing. */
  lemma StepIncreases(s: State, readings: seq<int>)
    requires IsReady(s)
    ensures var (r, s', used) := Step(s, readings);
            && IsReady(s') && used <= |readings|
            && s'.datacenterId == s.datacenterId && s'.workerId == s.workerId
            && s'.lastTimestamp >= s.lastTimestamp
            && (r.Issued? ==> r.id == LastId(s') > LastId(s) && used >= 1 && s'.lastTimestamp == readings[used - 1])
            && (r.Refused? ==> s' == s)
            && (r.Refused? <==> readings != [] && readings[0] < s.lastTimestamp - CLOCK_BACKWARD_TOLERANCE_MS)
  {
    hide Arithmetic.Pow2, Bits.Or, Bits.And;
    Bits.Pow2Values();
    var (r, s', used) := Step(s, readings);
    if r.Issued? {
      PackAdds(FieldsOf(s));
      PackAdds(FieldsOf(s'));
    }
  }

  /** The ids issued by successive calls, each with its own clock readings; a call left waiting is the last. */
  function Run(s: State, calls: seq<seq<int>>): seq<int>
    requires IsReady(s)
    decreases |calls|
  {
    if calls == [] then []
    else
      var (r, s', used) := Step(s, calls[0]);
      StepIncreases(s, calls[0]);
      if r.Waiting? then []
      else if r.Issued? then [r.id] + Run(s', calls[1..])
      else Run(s', calls[1..])
  }

  /** The ids of one generator strictly increase over any run and any clock. */
  lemma {:induction false} RunIncreases(s: State, calls: seq<seq<int>>)
    requires IsReady(s)
    ensures forall i :: 0 <= i < |Run(s, calls)| ==> Run(s, calls)[i] > LastId(s)
    ensures forall i, j :: 0 <= i < j < |Run(s, calls)| ==> Run(s, calls)[i] < Run(s, calls)[j]
    ensures forall i :: 0 <= i < |Run(s, calls)| ==>
              var f := Parse(Run(s, calls)[i]);
              f.datacenterId == s.datacenterId && f.workerId == s.workerId
    decreases |calls|
  {
    if calls != [] {
      StepIncreases(s, calls[0]);
      var (r, s', used) := Step(s, calls[0]);
      if !r.Waiting? {
        RunIncreases(s', calls[1..]);
        if r.Issued? {
          ParseInvertsPack(FieldsOf(s'));
        }
      }
    }
  }

  /** Two generators with different node ids never issue the same id. */
  lemma RunsNeverCollide(s: State, t: State, callsS: seq<seq<int>>, callsT: seq<seq<int>>)
    requires IsReady(s) && IsReady(t)
    requires (s.datacenterId, s.workerId) != (t.datacenterId, t.workerId)
    ensures forall id :: id in Run(s, callsS) ==> id !in Run(t, callsT)
  {
    RunIncreases(s, callsS);
    RunIncreases(t, callsT);
  }
}
