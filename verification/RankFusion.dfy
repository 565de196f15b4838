/** Weighted reciprocal rank fusion of the dense and the lexical candidate list, reranking, and context selection. */
module RankFusion {
  import opened Prelude
  import opened StableSort

  /** What the two lists are fused with: the smoothing constant and the weight of each list. */
  datatype Weights = Weights(rrfK: int, dense: real, lexical: real)

  /** One entry of the merged candidates. */
  datatype Merged = Merged(id: int, parentId: Option<int>, score: real, dense: real, rerank: Option<real>)

  /** No rank 1..n makes the denominator rrf_k + rank zero. */
  ghost predicate Divisible(rrfK: int, n: nat) {
    rrfK >= 0 || rrfK + n < 0
  }

  /** What a list adds to the score of id: weight / (rrf_k + rank) for every rank at which id stands. */
  ghost function Contribution(ids: seq<int>, id: int, rrfK: int, weight: real): real
    requires Divisible(rrfK, |ids|)
  {
    if ids == [] then 0.0
    else
      var n := |ids|;
      Contribution(ids[..n - 1], id, rrfK, weight) + (if ids[n - 1] == id then weight / (rrfK + n) as real else 0.0)
  }

  ghost predicate Usable(w: Weights, dense: seq<int>, lexical: seq<int>) {
    Divisible(w.rrfK, |dense|) && Divisible(w.rrfK, |lexical|)
  }

  ghost function Score(w: Weights, dense: seq<int>, lexical: seq<int>, id: int): real
    requires Usable(w, dense, lexical)
  {
    Contribution(dense, id, w.rrfK, w.dense) + Contribution(lexical, id, w.rrfK, w.lexical)
  }

  /** The ids of a list in the order a dictionary keeps them: by first occurrence. */
  function FirstOccurrences(ids: seq<int>): (r: seq<int>)
    ensures Distinct(r) && Elements(r) == Elements(ids)
  {
    if ids == [] then []
    else
      var n := |ids|;
      assert ids == ids[..n - 1] + [ids[n - 1]];
      var r := FirstOccurrences(ids[..n - 1]);
      if ids[n - 1] in r then
        assert Elements(ids) == Elements(ids[..n - 1]) + {ids[n - 1]};
        r
      else
        assert Elements(r + [ids[n - 1]]) == Elements(r) + {ids[n - 1]};
        r + [ids[n - 1]]
  }

  /** scores.get(id, 0.0) */
  function Get(scores: map<int, real>, id: int): real {
    if id in scores then scores[id] else 0.0
  }

  lemma ContributionStep(ids: seq<int>, i: nat, id: int, rrfK: int, weight: real)
    requires i < |ids| && Divisible(rrfK, i + 1)
    ensures Contribution(ids[..i + 1], id, rrfK, weight)
         == Contribution(ids[..i], id, rrfK, weight) + (if ids[i] == id then weight / (rrfK + i + 1) as real else 0.0)
  {
    assert ids[..i + 1][..i] == ids[..i];
  }

  /** Adding one ranked list to the scores; None for a division by zero. */
  method AddRanks(scores0: map<int, real>, ids: seq<int>, rrfK: int, weight: real) returns (r: Option<map<int, real>>)
    ensures r.None? <==> !Divisible(rrfK, |ids|)
    ensures r.Some? ==>
              && r.value.Keys == scores0.Keys + Elements(ids)
              && forall id :: Get(r.value, id) == Get(scores0, id) + Contribution(ids, id, rrfK, weight)
  {
    var scores := scores0;
    for i := 0 to |ids|
      invariant Divisible(rrfK, i)
      invariant scores.Keys == scores0.Keys + Elements(ids[..i])
      invariant forall id :: Get(scores, id) == Get(scores0, id) + Contribution(ids[..i], id, rrfK, weight)
    {
      if rrfK + i + 1 == 0 {
        return None;
      }
      var before := scores;
      scores := scores[ids[i] := Get(scores, ids[i]) + weight / (rrfK + i + 1) as real];
      forall id ensures Get(scores, id) == Get(scores0, id) + Contribution(ids[..i + 1], id, rrfK, weight) {
        ContributionStep(ids, i, id, rrfK, weight);
        assert Get(before, id) == Get(scores0, id) + Contribution(ids[..i], id, rrfK, weight);
      }
      assert Elements(ids[..i + 1]) == Elements(ids[..i]) + {ids[i]};
    }
    assert ids[..|ids|] == ids;
    return Some(scores);
  }

  /** None for the division by zero that a negative constant within either list causes. */
  method WeightedRrfScores(dense: seq<int>, lexical: seq<int>, w: Weights) returns (r: Option<map<int, real>>)
    ensures r.None? <==> !Usable(w, dense, lexical)
    ensures r.Some? ==>
              && r.value.Keys == Elements(dense) + Elements(lexical)
              && forall id :: id in r.value ==> r.value[id] == Score(w, dense, lexical, id)
  {
    r := AddRanks(map[], dense, w.rrfK, w.dense);
    if r.None? {
      return;
    }
    r := AddRanks(r.value, lexical, w.rrfK, w.lexical);
    if r.Some? {
      var scores := r.value;
      forall id | id in scores ensures scores[id] == Score(w, dense, lexical, id) {
        assert scores[id] == Get(scores, id);
      }
    }
  }

  function ByScore(item: Merged): Key { Finite(item.score) }

  function ByRerank(item: Merged): Key {
    if item.rerank.Some? then Finite(item.rerank.value) else NegInfinity
  }

  function IdsOf(items: seq<Merged>): (ids: seq<int>)
    ensures |ids| == |items| && forall i :: 0 <= i < |items| ==> ids[i] == items[i].id
  {
    seq(|items|, i requires 0 <= i < |items| => items[i].id)
  }

  /** The similarity the last dense row of id reports, cut off at zero; 0 for an id that only the lexical list has. */
  function Similarity(distances: seq<real>, dense: seq<int>, id: int): real
    requires |distances| == |dense|
  {
    if dense == [] then 0.0
    else
      var n := |dense|;
      if dense[n - 1] == id then (if 1.0 - distances[n - 1] > 0.0 then 1.0 - distances[n - 1] else 0.0)
      else Similarity(distances[..n - 1], dense[..n - 1], id)
  }

  /** The merged candidates, in dictionary order and before any sorting. */
  ghost predicate AreCandidates(items: seq<Merged>, w: Weights, dense: seq<int>, distances: seq<real>,
                                lexical: seq<int>,
                                parents: int -> Option<int>)
    requires Usable(w, dense, lexical) && |distances| == |dense|
  {
    && IdsOf(items) == FirstOccurrences(dense + lexical)
    && forall i :: 0 <= i < |items| ==>
         var id := items[i].id;
         items[i] == Merged(id, parents(id), Score(w, dense, lexical, id), Similarity(distances, dense, id), None)
  }

  lemma FirstOccurrencesStep(ids: seq<int>, n: nat)
    requires n < |ids|
    ensures var r := FirstOccurrences(ids[..n]);
            FirstOccurrences(ids[..n + 1]) == if ids[n] in r then r else r + [ids[n]]
  {
    assert ids[..n + 1][..n] == ids[..n];
  }

  /** The dictionary after the dense rows and some lexical rows were entered: keys in insertion order, no scores yet. */
  ghost predicate Unscored(merged: map<int, Merged>, order: seq<int>, dense: seq<int>, distances: seq<real>,
                           parents: int -> Option<int>)
    requires |distances| == |dense|
  {
    && merged.Keys == Elements(order)
    && (forall id :: id in merged ==>
          merged[id] == Merged(id, parents(id), 0.0, Similarity(distances, dense, id), None))
    && (forall id :: id in dense ==> id in merged)
  }

  lemma {:induction false} SimilarityOfAbsent(distances: seq<real>, dense: seq<int>, id: int)
    requires |distances| == |dense| && id !in dense
    ensures Similarity(distances, dense, id) == 0.0
  {
    if dense != [] {
      SimilarityOfAbsent(distances[..|dense| - 1], dense[..|dense| - 1], id);
    }
  }

  lemma NothingEntered(parents: int -> Option<int>)
    ensures FirstOccurrences([]) == [] && Unscored(map[], [], [], [], parents)
  {}

  lemma EnterDenseRow(merged: map<int, Merged>, order: seq<int>, dense: seq<int>, distances: seq<real>, i: nat,
                      parents: int -> Option<int>)
    requires |distances| == |dense| && i < |dense| && Unscored(merged, order, dense[..i], distances[..i], parents)
    ensures dense[i] in merged <==> dense[i] in order
    ensures var similarity := if 1.0 - distances[i] > 0.0 then 1.0 - distances[i] else 0.0;
            Unscored(merged[dense[i] := Merged(dense[i], parents(dense[i]), 0.0, similarity, None)],
                     if dense[i] in order then order else order + [dense[i]],
                     dense[..i + 1], distances[..i + 1], parents)
  {
    assert dense[..i + 1][..i] == dense[..i] && distances[..i + 1][..i] == distances[..i];
  }

  method EnterDense(dense: seq<int>, distances: seq<real>, parents: int -> Option<int>)
      returns (order: seq<int>, merged: map<int, Merged>)
    requires |distances| == |dense|
    ensures order == FirstOccurrences(dense) && Unscored(merged, order, dense, distances, parents)
  {
    hide FirstOccurrences, Unscored;
    order, merged := [], map[];
    NothingEntered(parents);
    for i := 0 to |dense|
      invariant order == FirstOccurrences(dense[..i])
      invariant Unscored(merged, order, dense[..i], distances[..i], parents)
    {
      var id := dense[i];
      FirstOccurrencesStep(dense, i);
      EnterDenseRow(merged, order, dense, distances, i, parents);
      var similarity := if 1.0 - distances[i] > 0.0 then 1.0 - distances[i] else 0.0;
      if id !in merged {
        order := order + [id];
      }
      merged := merged[id := Merged(id, parents(id), 0.0, similarity, None)];
    }
    assert dense[..|dense|] == dense && distances[..|dense|] == distances;
  }

  lemma EnterLexicalRow(merged: map<int, Merged>, order: seq<int>, dense: seq<int>, distances: seq<real>, id: int,
                        parents: int -> Option<int>)
    requires |distances| == |dense| && Unscored(merged, order, dense, distances, parents)
    ensures id in merged <==> id in order
    ensures id !in order ==>
        Unscored(merged[id := Merged(id, parents(id), 0.0, 0.0, None)], order + [id], dense, distances, parents)
  {
    hide Similarity;
    if id !in order {
      SimilarityOfAbsent(distances, dense, id);
    }
  }

  method EnterLexical(dense: seq<int>, distances: seq<real>, lexical: seq<int>, parents: int -> Option<int>,
                      order0: seq<int>, merged0: map<int, Merged>)
      returns (order: seq<int>, merged: map<int, Merged>)
    requires |distances| == |dense|
    requires order0 == FirstOccurrences(dense) && Unscored(merged0, order0, dense, distances, parents)
    ensures order == FirstOccurrences(dense + lexical) && Unscored(merged, order, dense, distances, parents)
  {
    hide FirstOccurrences, Unscored;
    order, merged := order0, merged0;
    ghost var all := dense + lexical;
    assert all[..|dense|] == dense;
    for i := 0 to |lexical|
      invariant order == FirstOccurrences(all[..|dense| + i])
      invariant Unscored(merged, order, dense, distances, parents)
    {
      var id := lexical[i];
      FirstOccurrencesStep(all, |dense| + i);
      EnterLexicalRow(merged, order, dense, distances, id, parents);
      if id !in merged {
        order := order + [id];
        merged := merged[id := Merged(id, parents(id), 0.0, 0.0, None)];
      }
    }
    assert all[..|all|] == all;
  }

  method MergeCandidates(dense: seq<int>, distances: seq<real>, lexical: seq<int>, w: Weights,
                         parents: int -> Option<int>)
      returns (r: Option<seq<Merged>>)
    requires |distances| == |dense|
    ensures r.None? <==> !Usable(w, dense, lexical)
    ensures r.Some? ==> AreCandidates(r.value, w, dense, distances, lexical, parents)
  {
    hide FirstOccurrences, Score, Similarity;
    var order, merged := EnterDense(dense, distances, parents);
    order, merged := EnterLexical(dense, distances, lexical, parents, order, merged);
    var scored := WeightedRrfScores(dense, lexical, w);
    if scored.None? {
      return None;
    }
    var scores := scored.value;
    assert Elements(dense + lexical) == Elements(dense) + Elements(lexical);
    var items: seq<Merged> := [];
    for i := 0 to |order|
      invariant |items| == i
      invariant forall j :: 0 <= j < i ==>
                  var id := order[j];
                  items[j]
                  == Merged(id, parents(id), Score(w, dense, lexical, id), Similarity(distances, dense, id), None)
    {
      var id := order[i];
      assert id in Elements(order) && id in scores;
      items := items + [merged[id].(score := scores[id])];
    }
    return Some(items);
  }

  /** The candidates in stable descending order of score. */
  ghost predicate IsFused(ordered: seq<Merged>, w: Weights, dense: seq<int>, distances: seq<real>, lexical: seq<int>,
                          parents: int -> Option<int>)
    requires Usable(w, dense, lexical) && |distances| == |dense|
  {
    exists candidates ::
        AreCandidates(candidates, w, dense, distances, lexical, parents)
            && ordered == SortDescending(candidates, ByScore)
  }

  method Fuse(dense: seq<int>, distances: seq<real>, lexical: seq<int>, w: Weights, parents: int -> Option<int>)
      returns (ordered: Option<seq<Merged>>)
    requires |distances| == |dense|
    ensures ordered.None? <==> !Usable(w, dense, lexical)
    ensures ordered.Some? ==> IsFused(ordered.value, w, dense, distances, lexical, parents)
  {
    var items := MergeCandidates(dense, distances, lexical, w, parents);
    if items.None? {
      return None;
    }
    return Some(SortDescending(items.value, ByScore));
  }

  // ----- Pareto consistency -----

  lemma {:induction false} ContributionOfAbsent(ids: seq<int>, id: int, rrfK: int, weight: real)
    requires Divisible(rrfK, |ids|) && id !in ids
    ensures Contribution(ids, id, rrfK, weight) == 0.0
  {
    if ids != [] {
      ContributionOfAbsent(ids[..|ids| - 1], id, rrfK, weight);
    }
  }

  lemma {:induction false} ContributionAt(ids: seq<int>, p: nat, rrfK: int, weight: real)
    requires Divisible(rrfK, |ids|) && Distinct(ids) && p < |ids|
    ensures Contribution(ids, ids[p], rrfK, weight) == weight / (rrfK + p + 1) as real
  {
    var n := |ids|;
    if p == n - 1 {
      ContributionOfAbsent(ids[..n - 1], ids[p], rrfK, weight);
    } else {
      ContributionAt(ids[..n - 1], p, rrfK, weight);
    }
  }

  lemma QuotientMono(weight: real, a: int, b: int)
    requires weight >= 0.0 && 0 < a <= b
    ensures 0.0 <= weight / b as real <= weight / a as real
  {
    var x, y := a as real, b as real;
    var q, r := weight / y, weight / x;
    assert q * y == weight && r * x == weight;
    SmallerFactor(q, r, x, y);
  }

  lemma SmallerFactor(q: real, r: real, x: real, y: real)
    requires 0.0 < x <= y && q * y == r * x >= 0.0
    ensures 0.0 <= q <= r
  {
    ProductGrows(x, r, q);
    ProductGrows(q, x, y);
    ProductGrows(y, q, 0.0);
  }

  /** The product with a positive factor follows the order of the other factor. */
  lemma ProductGrows(factor: real, a: real, b: real)
    ensures factor > 0.0 && a < b ==> factor * a < factor * b
    ensures factor >= 0.0 && a <= b ==> factor * a <= factor * b
  {}

  /** Wherever b stands in the list, a stands before it. */
  ghost predicate AheadIn(ids: seq<int>, a: int, b: int) {
    b in ids ==> Precedes(ids, a, b)
  }

  lemma AheadContributesMore(ids: seq<int>, a: int, b: int, rrfK: int, weight: real)
    requires Distinct(ids) && AheadIn(ids, a, b) && rrfK >= 0 && weight >= 0.0
    ensures Contribution(ids, a, rrfK, weight) >= Contribution(ids, b, rrfK, weight)
  {
    if b in ids {
      var i, j :| 0 <= i < j < |ids| && ids[i] == a && ids[j] == b;
      ContributionAt(ids, i, rrfK, weight);
      ContributionAt(ids, j, rrfK, weight);
      QuotientMono(weight, rrfK + i + 1, rrfK + j + 1);
    } else {
      ContributionOfAbsent(ids, b, rrfK, weight);
      if a in ids {
        var i :| 0 <= i < |ids| && ids[i] == a;
        ContributionAt(ids, i, rrfK, weight);
        QuotientMono(weight, rrfK + i + 1, rrfK + i + 1);
      } else {
        ContributionOfAbsent(ids, a, rrfK, weight);
      }
    }
  }

  /** Dictionary order: an id that occurs before every occurrence of another is inserted first. */
  lemma {:induction false} FirstOccurrencesOrder(ids: seq<int>, a: int, b: int, i: nat)
    requires i < |ids| && ids[i] == a && a != b && b in ids && b !in ids[..i]
    ensures Precedes(FirstOccurrences(ids), a, b)
  {
    var n := |ids|;
    var front := ids[..n - 1];
    var r := FirstOccurrences(front);
    if b in front {
      assert i != n - 1;
      assert front[..i] == ids[..i];
      FirstOccurrencesOrder(front, a, b, i);
      var p, q :| 0 <= p < q < |r| && r[p] == a && r[q] == b;
      assert FirstOccurrences(ids)[p] == a && FirstOccurrences(ids)[q] == b;
    } else {
      assert ids[n - 1] == b && i < n - 1 && front[i] == a;
      assert a in Elements(front) && b !in Elements(front);
      assert a in Elements(r) && b !in Elements(r);
      var p :| 0 <= p < |r| && r[p] == a;
      assert FirstOccurrences(ids) == r + [b];
      assert (r + [b])[p] == a && (r + [b])[|r|] == b;
    }
  }

  lemma MergeOrder(dense: seq<int>, lexical: seq<int>, a: int, b: int)
    requires Distinct(dense) && Distinct(lexical) && a != b
    requires AheadIn(dense, a, b) && AheadIn(lexical, a, b)
    requires b in dense || b in lexical
    ensures Precedes(FirstOccurrences(dense + lexical), a, b)
  {
    hide FirstOccurrences;
    var all := dense + lexical;
    if b in dense {
      var i, j :| 0 <= i < j < |dense| && dense[i] == a && dense[j] == b;
      assert all[i] == a && all[j] == b && all[..i] == dense[..i];
      FirstOccurrencesOrder(all, a, b, i);
    } else {
      var i, j :| 0 <= i < j < |lexical| && lexical[i] == a && lexical[j] == b;
      var p := |dense| + i;
      assert all[p] == a && all[|dense| + j] == b && all[..p] == dense + lexical[..i];
      FirstOccurrencesOrder(all, a, b, p);
    }
  }

  /** The fused order is a permutation of the union of the two lists. */
  lemma FusionIsPermutation(candidates: seq<Merged>, w: Weights, dense: seq<int>, distances: seq<real>,
                            lexical: seq<int>, parents: int -> Option<int>)
    requires Usable(w, dense, lexical) && |distances| == |dense|
    requires AreCandidates(candidates, w, dense, distances, lexical, parents)
    ensures var ordered := SortDescending(candidates, ByScore);
            && Distinct(IdsOf(ordered))
            && Elements(IdsOf(ordered)) == Elements(dense) + Elements(lexical)
            && multiset(ordered) == multiset(candidates)
  {
    var ordered := SortDescending(candidates, ByScore);
    var ids := IdsOf(candidates);
    assert Distinct(candidates) by {
      forall i, j | 0 <= i < j < |candidates| ensures candidates[i] != candidates[j] {
        assert ids[i] != ids[j];
      }
    }
    DistinctPermutation(ordered, candidates);
    SameElements(ordered, candidates);
    forall i, j | 0 <= i < j < |ordered| ensures IdsOf(ordered)[i] != IdsOf(ordered)[j] {
      assert ordered[i] in ordered && ordered[j] in ordered && ordered[i] != ordered[j];
      var p :| 0 <= p < |candidates| && candidates[p] == ordered[i];
      var q :| 0 <= q < |candidates| && candidates[q] == ordered[j];
      assert ids[p] != ids[q];
    }
    forall id ensures id in Elements(IdsOf(ordered)) <==> id in Elements(ids) {
      if id in IdsOf(ordered) {
        var i :| 0 <= i < |ordered| && IdsOf(ordered)[i] == id;
        assert ordered[i] in candidates;
        var p :| 0 <= p < |candidates| && candidates[p] == ordered[i];
        assert ids[p] == id;
      }
      if id in ids {
        var p :| 0 <= p < |candidates| && ids[p] == id;
        assert candidates[p] in ordered;
        var i :| 0 <= i < |ordered| && ordered[i] == candidates[p];
        assert IdsOf(ordered)[i] == id;
      }
    }
    assert Elements(dense + lexical) == Elements(dense) + Elements(lexical);
  }

  /** A candidate that stands before another in every list that has the other precedes it in the fused order,
      equal scores included. */
  lemma FusionIsParetoConsistent(candidates: seq<Merged>, w: Weights, dense: seq<int>, distances: seq<real>,
                                 lexical: seq<int>, parents: int -> Option<int>, a: int, b: int)
    requires w.rrfK >= 0 && w.dense >= 0.0 && w.lexical >= 0.0
    requires |distances| == |dense| && Distinct(dense) && Distinct(lexical)
    requires AreCandidates(candidates, w, dense, distances, lexical, parents)
    requires a != b && (b in dense || b in lexical)
    requires AheadIn(dense, a, b) && AheadIn(lexical, a, b)
    ensures var ids := IdsOf(SortDescending(candidates, ByScore));
            Precedes(ids, a, b) && !Precedes(ids, b, a)
  {
    var ordered := SortDescending(candidates, ByScore);
    var ids := IdsOf(candidates);
    MergeOrder(dense, lexical, a, b);
    var i, j :| 0 <= i < j < |ids| && ids[i] == a && ids[j] == b;
    AheadContributesMore(dense, a, b, w.rrfK, w.dense);
    AheadContributesMore(lexical, a, b, w.rrfK, w.lexical);
    SortIsStable(candidates, ByScore, i, j);
    var p, q :| 0 <= p < q < |ordered| && ordered[p] == candidates[i] && ordered[q] == candidates[j];
    assert IdsOf(ordered)[p] == a && IdsOf(ordered)[q] == b;
    FusionIsPermutation(candidates, w, dense, distances, lexical, parents);
    PrecedesIsAsymmetric(IdsOf(ordered), a, b);
  }

  // ----- how scores decide -----

  /** Where an id stands decides its score: each list adds its own weight over rrf_k + rank, the other one nothing. */
  lemma ScoreByPlaces(w: Weights, dense: seq<int>, lexical: seq<int>, p: nat, q: nat)
    requires Usable(w, dense, lexical) && Distinct(dense) && Distinct(lexical)
    ensures p < |dense| && dense[p] !in lexical ==>
              Score(w, dense, lexical, dense[p]) == w.dense / (w.rrfK + p + 1) as real
    ensures q < |lexical| && lexical[q] !in dense ==>
              Score(w, dense, lexical, lexical[q]) == w.lexical / (w.rrfK + q + 1) as real
    ensures p < |dense| && q < |lexical| && dense[p] == lexical[q] ==>
              Score(w, dense, lexical, dense[p])
              == w.dense / (w.rrfK + p + 1) as real + w.lexical / (w.rrfK + q + 1) as real
  {
    hide Contribution;
    if p < |dense| {
      ContributionAt(dense, p, w.rrfK, w.dense);
      if dense[p] !in lexical {
        ContributionOfAbsent(lexical, dense[p], w.rrfK, w.lexical);
      }
    }
    if q < |lexical| {
      ContributionAt(lexical, q, w.rrfK, w.lexical);
      if lexical[q] !in dense {
        ContributionOfAbsent(dense, lexical[q], w.rrfK, w.dense);
      }
    }
  }

  lemma ComparesCrosswise(x: real, y: real, a: int, b: int)
    requires a > 0 && b > 0
    ensures x / a as real >= y / b as real <==> x * b as real >= y * a as real
  {
    var c, d := a as real, b as real;
    var q, r := x / c, y / d;
    assert q * c == x && r * d == y;
    assert x * d - y * c == (q - r) * (c * d) by {
      assert x * d == q * c * d && y * c == r * d * c;
    }
    assert c * d > 0.0;
    if q >= r {
      ProductGrows(c * d, r, q);
    } else {
      ProductGrows(c * d, q, r);
    }
  }

  lemma IdsFollow(ordered: seq<Merged>, x: Merged, y: Merged)
    requires Precedes(ordered, x, y)
    ensures Precedes(IdsOf(ordered), x.id, y.id)
  {
    var i, j :| 0 <= i < j < |ordered| && ordered[i] == x && ordered[j] == y;
    assert IdsOf(ordered)[i] == x.id && IdsOf(ordered)[j] == y.id;
  }

  /** Of two candidates that one list each has found, the one at place p of the dense list comes first exactly if its
      weight over its rank is at least as large as that of the one at place q of the lexical list. */
  lemma FusionWeighsTheLists(candidates: seq<Merged>, w: Weights, dense: seq<int>, distances: seq<real>,
                             lexical: seq<int>, parents: int -> Option<int>, p: nat, q: nat)
    requires w.rrfK >= 0 && |distances| == |dense| && Distinct(dense) && Distinct(lexical)
    requires AreCandidates(candidates, w, dense, distances, lexical, parents)
    requires p < |dense| && q < |lexical| && dense[p] !in lexical && lexical[q] !in dense
    ensures Precedes(IdsOf(SortDescending(candidates, ByScore)), dense[p], lexical[q])
       <==> w.dense * (w.rrfK + q + 1) as real >= w.lexical * (w.rrfK + p + 1) as real
  {
    hide FirstOccurrences, Score, SortDescending, Similarity;
    var ordered, ids := SortDescending(candidates, ByScore), IdsOf(candidates);
    var a, b, all := dense[p], lexical[q], dense + lexical;
    assert all[p] == a && all[|dense| + q] == b && all[..p] == dense[..p];
    FirstOccurrencesOrder(all, a, b, p);
    var i, j :| 0 <= i < j < |ids| && ids[i] == a && ids[j] == b;
    ScoreByPlaces(w, dense, lexical, p, q);
    ComparesCrosswise(w.dense, w.lexical, w.rrfK + p + 1, w.rrfK + q + 1);
    SortPlaces(candidates, ByScore, i, j);
    FusionIsPermutation(candidates, w, dense, distances, lexical, parents);
    if AtLeast(ByScore(candidates[i]), ByScore(candidates[j])) {
      IdsFollow(ordered, candidates[i], candidates[j]);
    } else {
      IdsFollow(ordered, candidates[j], candidates[i]);
      PrecedesIsAsymmetric(IdsOf(ordered), b, a);
    }
  }

  /** What the last dense row of an id reports is its similarity, one minus the distance but never below zero. */
  lemma {:induction false} SimilarityIsOfLastRow(distances: seq<real>, dense: seq<int>, p: nat)
    requires |distances| == |dense| && p < |dense| && dense[p] !in dense[p + 1..]
    ensures Similarity(distances, dense, dense[p]) >= 0.0
    ensures distances[p] <= 1.0 ==> Similarity(distances, dense, dense[p]) + distances[p] == 1.0
    ensures distances[p] >= 1.0 ==> Similarity(distances, dense, dense[p]) == 0.0
  {
    var n := |dense|;
    if p < n - 1 {
      assert dense[n - 1] == dense[p + 1..][n - 2 - p];
      assert dense[..n - 1][p + 1..] == dense[p + 1..][..n - 2 - p];
      SimilarityIsOfLastRow(distances[..n - 1], dense[..n - 1], p);
    }
  }

  // ----- reranking and context selection -----

  /** {item.index: item.score for item in reranked}: the last score given to an index counts. */
  function ScoreAt(reranked: seq<(int, real)>, index: int): Option<real> {
    if reranked == [] then None
    else
      var last := reranked[|reranked| - 1];
      if last.0 == index then Some(last.1) else ScoreAt(reranked[..|reranked| - 1], index)
  }

  /** An index that the reranker scores more than once has its last score. */
  lemma {:induction false} LastScoreCounts(reranked: seq<(int, real)>, index: int, p: nat)
    requires p <= |reranked| && forall k :: p < k < |reranked| ==> reranked[k].0 != index
    requires p < |reranked| ==> reranked[p].0 == index
    requires p == |reranked| ==> forall k :: 0 <= k < |reranked| ==> reranked[k].0 != index
    ensures ScoreAt(reranked, index) == if p < |reranked| then Some(reranked[p].1) else None
  {
    if reranked != [] && p != |reranked| - 1 {
      LastScoreCounts(reranked[..|reranked| - 1], index, if p == |reranked| then p - 1 else p);
    }
  }

  function WithRerank(ordered: seq<Merged>, reranked: seq<(int, real)>): (r: seq<Merged>)
    ensures |r| == |ordered|
    ensures forall i :: 0 <= i < |r| ==> r[i] == ordered[i].(rerank := ScoreAt(reranked, i))
  {
    seq(|ordered|, i requires 0 <= i < |ordered| => ordered[i].(rerank := ScoreAt(reranked, i)))
  }

  method Rerank(ordered: seq<Merged>, reranked: seq<(int, real)>) returns (r: seq<Merged>)
    ensures r == if reranked == [] then ordered else SortDescending(WithRerank(ordered, reranked), ByRerank)
  {
    if reranked == [] {
      return ordered;
    }
    var byIndex: map<int, real> := map[];
    for i := 0 to |reranked|
      invariant forall k ::
                  ScoreAt(reranked[..i], k) == if k in byIndex then Some(byIndex[k]) else None
    {
      assert reranked[..i + 1][..i] == reranked[..i];
      byIndex := byIndex[reranked[i].0 := reranked[i].1];
    }
    assert reranked[..|reranked|] == reranked;
    r := ordered;
    for i := 0 to |r|
      invariant |r| == |ordered|
      invariant forall j :: 0 <= j < i ==> r[j] == ordered[j].(rerank := ScoreAt(reranked, j))
      invariant forall j :: i <= j < |r| ==> r[j] == ordered[j]
    {
      r := r[i := r[i].(rerank := if i in byIndex then Some(byIndex[i]) else None)];
    }
    assert r == WithRerank(ordered, reranked);
    r := SortDescending(r, ByRerank);
  }

  /** After reranking, scored candidates stand before unscored ones, by score; ties and unscored ones keep the
      fused order. */
  lemma RerankPlaces(ordered: seq<Merged>, reranked: seq<(int, real)>, i: nat, j: nat)
    requires reranked != [] && i < j < |ordered|
    ensures var marked := WithRerank(ordered, reranked);
            var r := SortDescending(marked, ByRerank);
            var first, second := ScoreAt(reranked, i), ScoreAt(reranked, j);
            && multiset(r) == multiset(marked)
            && if second.Some? && (first.None? || first.value < second.value)
               then Precedes(r, marked[j], marked[i])
               else Precedes(r, marked[i], marked[j])
  {
    SortPlaces(WithRerank(ordered, reranked), ByRerank, i, j);
  }

  /** item['chunk'].parent_chunk_id or item['chunk'].id */
  function ContextId(item: Merged): int {
    if item.parentId.Some? && item.parentId.value != 0 then item.parentId.value else item.id
  }

  function ContextIds(items: seq<Merged>): set<int> {
    set item | item in items :: ContextId(item)
  }

  /** The items whose context has not occurred before. */
  function FirstByContext(items: seq<Merged>): seq<Merged> {
    if items == [] then []
    else
      var n := |items|;
      var front := items[..n - 1];
      if ContextId(items[n - 1]) in ContextIds(front) then FirstByContext(front)
      else FirstByContext(front) + [items[n - 1]]
  }

  ghost predicate IsFirst(items: seq<Merged>, i: int) {
    0 <= i < |items| && forall k :: 0 <= k < i ==> ContextId(items[k]) != ContextId(items[i])
  }

  /** Exactly the best-placed item of every context is kept, in the order given. */
  lemma {:induction false} FirstByContextPositions(items: seq<Merged>) returns (positions: seq<nat>)
    ensures |positions| == |FirstByContext(items)|
    ensures forall j :: 0 <= j < |positions| ==>
              positions[j] < |items| && FirstByContext(items)[j] == items[positions[j]]
    ensures forall j, k :: 0 <= j < k < |positions| ==> positions[j] < positions[k]
    ensures forall i: nat :: i in positions <==> IsFirst(items, i)
  {
    hide IsFirst, ContextId, ContextIds, FirstByContext;
    positions := [];
    if items == [] {
      NoneIsFirst();
    } else {
      var n := |items|;
      var front := items[..n - 1];
      positions := FirstByContextPositions(front);
      FirstOfFront(items);
      FirstByContextLast(items);
      if ContextId(items[n - 1]) !in ContextIds(front) {
        positions := positions + [n - 1];
      }
    }
  }

  lemma NoneIsFirst()
    ensures forall i :: !IsFirst([], i)
    ensures FirstByContext([]) == []
  {}

  lemma FirstByContextLast(items: seq<Merged>)
    requires items != []
    ensures FirstByContext(items) ==
            var front, last := items[..|items| - 1], items[|items| - 1];
            FirstByContext(front) + (if ContextId(last) in ContextIds(front) then [] else [last])
  {
    assert FirstByContext(items[..|items| - 1]) + [] == FirstByContext(items[..|items| - 1]);
  }

  lemma FirstOfFront(items: seq<Merged>)
    requires items != []
    ensures forall i :: IsFirst(items, i) <==>
              if i == |items| - 1 then ContextId(items[|items| - 1]) !in ContextIds(items[..|items| - 1])
              else IsFirst(items[..|items| - 1], i)
  {
    hide ContextId;
    var n := |items|;
    var front, last := items[..n - 1], items[n - 1];
    if ContextId(last) in ContextIds(front) {
      var item :| item in front && ContextId(item) == ContextId(last);
      var k :| 0 <= k < n - 1 && front[k] == item;
      assert items[k] == item;
    } else {
      forall k | 0 <= k < n - 1 ensures ContextId(items[k]) != ContextId(last) {
        assert front[k] in front;
      }
    }
  }

  /** Each context is represented at most once. */
  lemma SelectedContextsDistinct(items: seq<Merged>)
    ensures forall i, j :: 0 <= i < j < |FirstByContext(items)| ==>
              ContextId(FirstByContext(items)[i]) != ContextId(FirstByContext(items)[j])
  {
    var positions := FirstByContextPositions(items);
    forall i, j | 0 <= i < j < |positions|
      ensures ContextId(FirstByContext(items)[i]) != ContextId(FirstByContext(items)[j])
    {
      assert positions[j] in positions;
    }
  }

  /** Where every item has a parent: no two selected items share one, and every item's parent is that of a selected
      item. */
  lemma SiblingsAreFolded(items: seq<Merged>)
    requires forall item :: item in items ==> item.parentId.Some? && item.parentId.value != 0
    ensures forall i, j :: 0 <= i < j < |FirstByContext(items)| ==>
              FirstByContext(items)[i].parentId != FirstByContext(items)[j].parentId
    ensures forall item :: item in items ==>
              exists first :: first in FirstByContext(items) && first.parentId == item.parentId
  {
    hide FirstByContext;
    var positions := FirstByContextPositions(items);
    SelectedContextsDistinct(items);
    forall i, j | 0 <= i < j < |positions|
      ensures FirstByContext(items)[i].parentId != FirstByContext(items)[j].parentId
    {
      assert items[positions[i]] in items && items[positions[j]] in items;
    }
    forall item | item in items
      ensures exists first :: first in FirstByContext(items) && first.parentId == item.parentId
    {
      var k :| 0 <= k < |items| && items[k] == item;
      var i := FirstOfItsContext(items, k);
      assert items[i] in items;
      var j :| 0 <= j < |positions| && positions[j] == i;
      assert FirstByContext(items)[j] == items[i];
    }
  }

  lemma {:induction false} FirstOfItsContext(items: seq<Merged>, k: nat) returns (i: nat)
    requires k < |items|
    ensures i <= k && IsFirst(items, i) && ContextId(items[i]) == ContextId(items[k])
  {
    i := k;
    if !IsFirst(items, k) {
      var earlier :| 0 <= earlier < k && ContextId(items[earlier]) == ContextId(items[k]);
      i := FirstOfItsContext(items, earlier);
    }
  }

  function Prefix(items: seq<Merged>, n: nat): seq<Merged> {
    if n <= |items| then items[..n] else items
  }

  lemma FirstByContextGrows(items: seq<Merged>, m: nat)
    requires m <= |items|
    ensures |FirstByContext(items[..m])| <= |FirstByContext(items)|
    ensures FirstByContext(items[..m]) == FirstByContext(items)[..|FirstByContext(items[..m])|]
    decreases |items|
  {
    if m < |items| {
      var front := items[..|items| - 1];
      assert front[..m] == items[..m];
      FirstByContextGrows(front, m);
    } else {
      assert items[..m] == items;
    }
  }

  method SelectContextResults(ordered: seq<Merged>, topK: int, parentContextEnabled: bool) returns (r: seq<Merged>)
    requires topK >= 1
    ensures !parentContextEnabled ==> r == Prefix(ordered, topK)
    ensures parentContextEnabled ==> r == Prefix(FirstByContext(ordered), topK)
  {
    if !parentContextEnabled {
      return if topK <= |ordered| then ordered[..topK] else ordered;
    }
    var unique: seq<Merged>, seen: set<int> := [], {};
    for i := 0 to |ordered|
      invariant unique == FirstByContext(ordered[..i]) && |unique| < topK
      invariant seen == ContextIds(ordered[..i])
    {
      var contextId := ContextId(ordered[i]);
      assert ordered[..i + 1][..i] == ordered[..i];
      assert ContextIds(ordered[..i + 1]) == ContextIds(ordered[..i]) + {contextId};
      if contextId in seen {
        continue;
      }
      unique := unique + [ordered[i]];
      seen := seen + {contextId};
      if |unique| == topK {
        FirstByContextGrows(ordered, i + 1);
        return unique;
      }
    }
    assert ordered[..|ordered|] == ordered;
    r := unique;
  }
}
