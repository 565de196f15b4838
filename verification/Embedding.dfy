/** Embedding texts in provider-sized batches, bisecting a batch the provider answers with HTTP 400. */
module Embedding {
  import Arithmetic

  type Vector = seq<real>

  /** What one call of the provider does: answer, reject the request with HTTP 400, or raise anything else. */
  datatype Reply = Vectors(vectors: seq<Vector>) | Rejected400 | Broken

  /** The provider, as the number of calls made so far and the batch determine its reply.
      Letting the reply depend on the call number admits providers that change their mind. */
  type Provider = (nat, seq<string>) -> Reply

  datatype Outcome = Embedded(vectors: seq<Vector>, calls: nat) | Raised(calls: nat)

  datatype Result = Success(vectors: seq<Vector>, calls: nat) | ProviderError(calls: nat) | BatchSizeError

  function VectorsOf(vec: string -> Vector, texts: seq<string>): (vs: seq<Vector>)
    ensures |vs| == |texts| && forall i :: 0 <= i < |texts| ==> vs[i] == vec(texts[i])
  {
    seq(|texts|, i requires 0 <= i < |texts| => vec(texts[i]))
  }

  /** Whenever the provider answers, position i of the answer is the vector of position i of the request. */
  ghost predicate PositionWise(provider: Provider, vec: string -> Vector) {
    forall c: nat, batch: seq<string> ::
      provider(c, batch).Vectors? ==> provider(c, batch).vectors == VectorsOf(vec, batch)
  }

  /** Call number c of the provider on batch ends the bisection: it is not a 400, or the batch is a single text. */
  predicate Fatal(provider: Provider, c: nat, batch: seq<string>) {
    provider(c, batch).Broken? || (provider(c, batch).Rejected400? && |batch| == 1)
  }

  ghost predicate NeverFatal(provider: Provider) {
    forall c: nat, batch: seq<string> :: !Fatal(provider, c, batch)
  }

  ghost predicate IsSlice(part: seq<string>, whole: seq<string>) {
    exists i, j :: 0 <= i < j <= |whole| && part == whole[i..j]
  }

  lemma SliceOfSliceIs(texts: seq<string>, start: nat, stop: nat, i: nat, j: nat)
    requires start <= stop <= |texts| && i <= j <= stop - start
    ensures texts[start..stop][i..j] == texts[start + i..start + j]
  {
    var a, b := texts[start..stop][i..j], texts[start + i..start + j];
    assert |a| == |b|;
    assert forall k :: 0 <= k < |a| ==> a[k] == texts[start + i + k] && b[k] == texts[start + i + k];
  }

  lemma SliceOfSlice(part: seq<string>, texts: seq<string>, start: nat, stop: nat)
    requires start <= stop <= |texts|
    requires IsSlice(part, texts[start..stop])
    ensures IsSlice(part, texts)
  {
    var window := texts[start..stop];
    var i, j :| 0 <= i < j <= |window| && part == window[i..j];
    var a, b := start + i, start + j;
    SliceOfSliceIs(texts, start, stop, i, j);
    assert part == texts[a..b];
  }

  function EmbedBatch(provider: Provider, calls: nat, batch: seq<string>): (r: Outcome)
    requires |batch| >= 1
    ensures calls < r.calls <= calls + 2 * |batch| - 1
    decreases |batch|
  {
    match provider(calls, batch)
    case Vectors(vs) => Embedded(vs, calls + 1)
    case Broken => Raised(calls + 1)
    case Rejected400 =>
      if |batch| == 1 then Raised(calls + 1)
      else
        var midpoint := |batch| / 2;
        var left := EmbedBatch(provider, calls + 1, batch[..midpoint]);
        if left.Raised? then left
        else
          var right := EmbedBatch(provider, left.calls, batch[midpoint..]);
          if right.Raised? then right
          else Embedded(left.vectors + right.vectors, right.calls)
  }

  /** Bisection never loses, repeats or reorders a text. */
  lemma {:induction false} BatchKeepsPositions(provider: Provider, vec: string -> Vector, calls: nat,
                                               batch: seq<string>)
    requires |batch| >= 1
    requires PositionWise(provider, vec)
    requires EmbedBatch(provider, calls, batch).Embedded?
    ensures EmbedBatch(provider, calls, batch).vectors == VectorsOf(vec, batch)
    decreases |batch|
  {
    var reply := provider(calls, batch);
    if reply.Rejected400? {
      var midpoint := |batch| / 2;
      var left := EmbedBatch(provider, calls + 1, batch[..midpoint]);
      BatchKeepsPositions(provider, vec, calls + 1, batch[..midpoint]);
      BatchKeepsPositions(provider, vec, left.calls, batch[midpoint..]);
      assert VectorsOf(vec, batch) == VectorsOf(vec, batch[..midpoint]) + VectorsOf(vec, batch[midpoint..]);
    }
  }

  /** The bisection fails exactly when one of the calls it makes is fatal: it raises only because of a fatal
      call on a contiguous part of the batch. */
  lemma {:induction false} BatchRaisesOnlyOnFatalCall(provider: Provider, calls: nat, batch: seq<string>)
      returns (c: nat, part: seq<string>)
    requires |batch| >= 1
    requires EmbedBatch(provider, calls, batch).Raised?
    ensures calls <= c < EmbedBatch(provider, calls, batch).calls
    ensures IsSlice(part, batch) && Fatal(provider, c, part)
    decreases |batch|
  {
    if Fatal(provider, calls, batch) {
      c, part := calls, batch;
      assert part == batch[0..|batch|];
    } else {
      var midpoint := |batch| / 2;
      var left := EmbedBatch(provider, calls + 1, batch[..midpoint]);
      assert batch[..midpoint] == batch[0..midpoint] && batch[midpoint..] == batch[midpoint..|batch|];
      if left.Raised? {
        c, part := BatchRaisesOnlyOnFatalCall(provider, calls + 1, batch[..midpoint]);
        SliceOfSlice(part, batch, 0, midpoint);
      } else {
        c, part := BatchRaisesOnlyOnFatalCall(provider, left.calls, batch[midpoint..]);
        SliceOfSlice(part, batch, midpoint, |batch|);
      }
    }
  }

  /** Number of batches that range(0, n, size) starts. */
  function Batches(n: nat, size: nat): nat
    requires size >= 1
  {
    (n + size - 1) / size
  }

  lemma BatchesIs(n: nat, size: nat, k: nat)
    requires size >= 1
    requires k * size >= n && (k == 0 || (k - 1) * size < n)
    ensures k == Batches(n, size)
  {
    if k == 0 {
      Arithmetic.DivModIs(size - 1, size, 0, size - 1);
    } else {
      assert k * size == (k - 1) * size + size;
      Arithmetic.DivModIs(n + size - 1, size, k, n + size - 1 - k * size);
    }
  }

  lemma VectorsOfAppend(vec: string -> Vector, texts: seq<string>, start: nat, stop: nat)
    requires start <= stop <= |texts|
    ensures VectorsOf(vec, texts[..stop]) == VectorsOf(vec, texts[..start]) + VectorsOf(vec, texts[start..stop])
  {}

  /** The whole text list, in order, with at most 2n - ceil(n / batch size) provider calls. */
  method EmbedTextsInBatches(provider: Provider, texts: seq<string>, batchSize: int, ghost vec: string -> Vector)
      returns (r: Result)
    ensures r.BatchSizeError? <==> batchSize < 1
    ensures PositionWise(provider, vec) && r.Success? ==> r.vectors == VectorsOf(vec, texts)
    ensures r.Success? ==> Batches(|texts|, batchSize) <= r.calls <= 2 * |texts| - Batches(|texts|, batchSize)
    ensures r.ProviderError? ==> r.calls <= 2 * |texts| - 1
    ensures r.ProviderError? ==>
              exists c: nat, part: seq<string> :: c < r.calls && IsSlice(part, texts) && Fatal(provider, c, part)
    ensures NeverFatal(provider) && batchSize >= 1 ==> r.Success?
  {
    if batchSize < 1 {
      return BatchSizeError;
    }
    var vectors: seq<Vector> := [];
    var calls: nat := 0;
    var start: nat := 0;
    ghost var rounds: nat := 0;
    while start < |texts|
      invariant start == rounds * batchSize
      invariant rounds > 0 ==> (rounds - 1) * batchSize < |texts|
      invariant PositionWise(provider, vec) ==>
                  vectors == VectorsOf(vec, texts[..if start < |texts| then start else |texts|])
      invariant rounds <= calls <= 2 * (if start < |texts| then start else |texts|) - rounds
    {
      var stop := if start + batchSize < |texts| then start + batchSize else |texts|;
      var batch := texts[start..stop];
      var answer := EmbedBatch(provider, calls, batch);
      if answer.Raised? {
        ghost var c, part := BatchRaisesOnlyOnFatalCall(provider, calls, batch);
        SliceOfSlice(part, texts, start, stop);
        return ProviderError(answer.calls);
      }
      if PositionWise(provider, vec) {
        BatchKeepsPositions(provider, vec, calls, batch);
        VectorsOfAppend(vec, texts, start, stop);
      }
      vectors := vectors + answer.vectors;
      calls := answer.calls;
      assert (rounds + 1) * batchSize == start + batchSize;
      start := start + batchSize;
      rounds := rounds + 1;
    }
    BatchesIs(|texts|, batchSize, rounds);
    assert texts[..|texts|] == texts;
    r := Success(vectors, calls);
  }
}
