/** Retrieval metrics: nDCG@K with graded relevance, and the nearest-rank percentile. */
module Metrics {
  import opened Arithmetic
  import opened StableSort

  /** Python's ids[:k], where a negative k counts from the end. */
  function Take<T>(ids: seq<T>, k: int): seq<T> {
    if k >= 0 then (if k <= |ids| then ids[..k] else ids)
    else if |ids| + k > 0 then ids[..|ids| + k] else []
  }

  /** A relevance dictionary, as its items in insertion order. Grades are any integers. */
  type Relevance = seq<(int, int)>

  predicate WellFormed(relevance: Relevance) {
    forall i, j :: 0 <= i < j < |relevance| ==> relevance[i].0 != relevance[j].0
  }

  /** Every grade is at least the given one. */
  predicate GradesFrom(relevance: Relevance, floor: int) {
    forall i :: 0 <= i < |relevance| ==> relevance[i].1 >= floor
  }

  /** relevance.get(id, 0) */
  function Grade(relevance: Relevance, id: int): int {
    if relevance == [] then 0
    else if relevance[0].0 == id then relevance[0].1
    else Grade(relevance[1..], id)
  }

  /** 2 ** grade - 1; a negative grade has a gain between -1 and 0. */
  function GainOf(grade: int): (g: real)
    ensures grade > 0 <==> g > 0.0
    ensures grade < 0 <==> g < 0.0
    ensures g > -1.0
  {
    if grade > 0 then
      assert Pow2(grade) >= 2;
      (Pow2(grade) - 1) as real
    else if grade == 0 then 0.0
    else
      assert Pow2(-grade) >= 2;
      1.0 / Pow2(-grade) as real - 1.0
  }

  function Gain(relevance: Relevance, id: int): real {
    GainOf(Grade(relevance, id))
  }

  /** The discount at a 1-based rank; the program uses 1 / log2(rank + 1). */
  ghost predicate IsDiscount(discount: nat -> real) {
    && (forall r: nat :: r >= 1 ==> discount(r) > 0.0)
    && (forall r: nat, q: nat :: 1 <= r <= q ==> discount(r) >= discount(q))
  }

  /** The discounted sum of a list whose first element has the given rank. */
  function Dcg(ids: seq<int>, relevance: Relevance, discount: nat -> real, rank: nat): real {
    if ids == [] then 0.0
    else Gain(relevance, ids[0]) * discount(rank) + Dcg(ids[1..], relevance, discount, rank + 1)
  }

  function Ids(items: Relevance): (ids: seq<int>)
    ensures |ids| == |items| && forall i :: 0 <= i < |items| ==> ids[i] == items[i].0
  {
    seq(|items|, i requires 0 <= i < |items| => items[i].0)
  }

  function ByGrade(item: (int, int)): Key { Finite(item.1 as real) }

  function IdealIds(relevance: Relevance): seq<int> {
    Ids(SortDescending(relevance, ByGrade))
  }

  function Ndcg(ranked: seq<int>, relevance: Relevance, k: int, discount: nat -> real): real {
    var actual := Dcg(Take(ranked, k), relevance, discount, 1);
    var ideal := Dcg(Take(IdealIds(relevance), k), relevance, discount, 1);
    if ideal != 0.0 then actual / ideal else 1.0
  }

  /** One grade more doubles the gain and adds one, from a gain of nothing at grade 0 on. */
  lemma GainDoubles(grade: int)
    ensures GainOf(0) == 0.0 && GainOf(grade + 1) == 2.0 * GainOf(grade) + 1.0
  {
    if grade >= 0 {
      assert Pow2(grade + 1) == 2 * Pow2(grade);
    } else {
      var half := Pow2(-grade - 1);
      assert Pow2(-grade) == 2 * half;
      var h := half as real;
      assert 2.0 * (1.0 / (2.0 * h)) == 1.0 / h;
    }
  }

  // ----- the rearrangement argument -----

  /** What an element adds to the sum at a rank. */
  type Share = (int, nat) -> real

  /** The discounted sum of the first n elements. */
  ghost function Weight(ids: seq<int>, share: Share, rank: nat, n: nat): real {
    if ids == [] || n == 0 then 0.0
    else
      var x := ids[0];
      share(x, rank) + Weight(ids[1..], share, rank + 1, n - 1)
  }

  /** Shares are never negative, nothing is gained from an element of grade 0, and of two elements the one of the
      higher grade profits at least as much from the better rank. */
  ghost predicate Favours(share: Share, grade: int -> nat, x: int, y: int, r: nat, q: nat) {
    1 <= r <= q && grade(x) <= grade(y) ==>
      && 0.0 <= share(x, r) <= share(y, r)
      && (grade(x) == 0 ==> share(x, r) == 0.0)
      && share(x, r) + share(y, q) <= share(y, r) + share(x, q)
  }

  ghost predicate Rewarding(share: Share, grade: int -> nat) {
    forall x: int, y: int, r: nat, q: nat :: Favours(share, grade, x, y, r, q)
  }

  ghost predicate DescendingGrade(best: seq<int>, grade: int -> nat) {
    forall i, j :: 0 <= i < j < |best| ==> var x, y := best[i], best[j]; grade(x) >= grade(y)
  }

  ghost predicate CoversGrades(ids: seq<int>, best: seq<int>, grade: int -> nat) {
    forall x :: x in ids && x !in best ==> grade(x) == 0
  }

  lemma {:induction false} WeightOfUpdate(ids: seq<int>, share: Share, rank: nat, n: nat, p: nat, x: int)
    requires p < |ids|
    ensures Weight(ids[p := x], share, rank, n)
         == Weight(ids, share, rank, n)
            + (if p < n then var y := ids[p]; share(x, rank + p) - share(y, rank + p) else 0.0)
  {
    if n == 0 {
    } else if p == 0 {
      assert ids[p := x][1..] == ids[1..];
    } else {
      assert ids[p := x][1..] == ids[1..][p - 1 := x];
      WeightOfUpdate(ids[1..], share, rank + 1, n - 1, p - 1, x);
    }
  }

  lemma {:induction false} WeightOfNothing(ids: seq<int>, share: Share, grade: int -> nat, rank: nat, n: nat)
    requires rank >= 1 && Rewarding(share, grade)
    requires CoversGrades(ids, [], grade)
    ensures Weight(ids, share, rank, n) == 0.0
  {
    if ids != [] && n > 0 {
      var x := ids[0];
      assert grade(x) == 0 && Favours(share, grade, x, x, rank, rank);
      WeightOfNothing(ids[1..], share, grade, rank + 1, n - 1);
    }
  }

  lemma {:induction false} WeightNonNegative(ids: seq<int>, share: Share, grade: int -> nat, rank: nat, n: nat)
    requires rank >= 1 && Rewarding(share, grade)
    ensures Weight(ids, share, rank, n) >= 0.0
  {
    if ids != [] && n > 0 {
      var x := ids[0];
      assert Favours(share, grade, x, x, rank, rank);
      WeightNonNegative(ids[1..], share, grade, rank + 1, n - 1);
    }
  }

  lemma SwapKeepsDistinct(ids: seq<int>, rest: seq<int>, p: nat)
    requires |ids| > 0 && rest == ids[1..] && p < |rest| && Distinct(ids)
    ensures Distinct(rest[p := ids[0]]) && rest[p] !in rest[p := ids[0]]
    ensures forall z :: z in rest[p := ids[0]] ==> z in ids
  {}

  /** Bring y to the front of a list it does not fall behind: its old place goes to the old front. */
  lemma Promote(ids: seq<int>, y: int, share: Share, grade: int -> nat, rank: nat, n: nat)
      returns (rest: seq<int>)
    requires rank >= 1 && Rewarding(share, grade) && n > 0
    requires ids != [] && Distinct(ids) && var x := ids[0]; grade(x) <= grade(y)
    ensures Distinct(rest) && y !in rest
    ensures forall z :: z in rest ==> z in ids
    ensures Weight(ids, share, rank, n) <= share(y, rank) + Weight(rest, share, rank + 1, n - 1)
  {
    var x := ids[0];
    rest := ids[1..];
    assert Favours(share, grade, x, y, rank, rank);
    if x != y && y in rest {
      var p :| 0 <= p < |rest| && rest[p] == y;
      assert Favours(share, grade, x, y, rank, rank + 1 + p);
      WeightOfUpdate(rest, share, rank + 1, n - 1, p, x);
      SwapKeepsDistinct(ids, rest, p);
      rest := rest[p := x];
    }
  }

  lemma WeightUnfolds(ids: seq<int>, share: Share, rank: nat, n: nat)
    ensures ids == [] || n == 0 ==> Weight(ids, share, rank, n) == 0.0
    ensures ids != [] && n > 0 ==>
              var x := ids[0];
              Weight(ids, share, rank, n) == share(x, rank) + Weight(ids[1..], share, rank + 1, n - 1)
  {}

  lemma HeadIsBest(ids: seq<int>, best: seq<int>, grade: int -> nat, x: int, y: int)
    requires ids != [] && best != [] && x == ids[0] && y == best[0]
    requires DescendingGrade(best, grade) && CoversGrades(ids, best, grade)
    ensures grade(x) <= grade(y)
  {
    if x in best {
      var i :| 0 <= i < |best| && best[i] == x;
    }
  }

  lemma BestTail(ids: seq<int>, best: seq<int>, grade: int -> nat, rest: seq<int>)
    requires best != [] && DescendingGrade(best, grade) && CoversGrades(ids, best, grade) && Distinct(best)
    requires best[0] !in rest && forall z :: z in rest ==> z in ids
    ensures Distinct(best[1..]) && DescendingGrade(best[1..], grade) && CoversGrades(rest, best[1..], grade)
  {
    forall z | z in rest && z !in best[1..] ensures grade(z) == 0 {
      assert z in ids && z !in best;
    }
  }

  /** Among all duplicate-free lists, one that holds every element of positive grade in descending order of grade
      has the greatest discounted sum over the first n places. */
  lemma {:induction false} Rearrangement(ids: seq<int>, best: seq<int>, share: Share, grade: int -> nat, rank: nat,
                                         n: nat)
    requires rank >= 1 && Rewarding(share, grade)
    requires Distinct(ids) && Distinct(best)
    requires DescendingGrade(best, grade) && CoversGrades(ids, best, grade)
    ensures Weight(ids, share, rank, n) <= Weight(best, share, rank, n)
    decreases n
  {
    hide Weight, Favours, Rewarding, CoversGrades, DescendingGrade;
    WeightUnfolds(ids, share, rank, n);
    WeightUnfolds(best, share, rank, n);
    if n == 0 {
    } else if best == [] {
      WeightOfNothing(ids, share, grade, rank, n);
    } else if ids == [] {
      WeightNonNegative(best, share, grade, rank, n);
    } else {
      var x, y := ids[0], best[0];
      HeadIsBest(ids, best, grade, x, y);
      var rest := Promote(ids, y, share, grade, rank, n);
      BestTail(ids, best, grade, rest);
      Rearrangement(rest, best[1..], share, grade, rank + 1, n - 1);
    }
  }

  // ----- what it says about nDCG -----

  function ShareOf(relevance: Relevance, discount: nat -> real): Share {
    (id: int, rank: nat) => Gain(relevance, id) * discount(rank)
  }

  /** The grades, where none is negative. */
  function GradeOf(relevance: Relevance): int -> nat {
    id => if Grade(relevance, id) >= 0 then Grade(relevance, id) else 0
  }

  lemma {:induction false} GradeAtLeast(relevance: Relevance, id: int)
    requires GradesFrom(relevance, 0)
    ensures Grade(relevance, id) >= 0
  {
    if relevance != [] {
      GradeAtLeast(relevance[1..], id);
    }
  }

  lemma {:induction false} GainMono(relevance: Relevance, x: int, y: int)
    requires 0 <= Grade(relevance, x) <= Grade(relevance, y)
    ensures Gain(relevance, x) <= Gain(relevance, y)
  {
    Pow2Mono(Grade(relevance, x), Grade(relevance, y));
  }

  /** The larger gain h at the larger discount a outweighs the smaller gain g there. */
  lemma ExchangeGains(g: real, h: real, a: real, b: real)
    requires 0.0 <= g <= h && 0.0 < b <= a
    ensures 0.0 <= g * a <= h * a
    ensures g * a + h * b <= h * a + g * b
  {
    assert (h - g) * (a - b) == h * a - g * a - h * b + g * b;
  }

  lemma GainsAreRewarding(relevance: Relevance, discount: nat -> real)
    requires IsDiscount(discount) && GradesFrom(relevance, 0)
    ensures Rewarding(ShareOf(relevance, discount), GradeOf(relevance))
  {
    forall x: int, y: int, r: nat, q: nat
      ensures Favours(ShareOf(relevance, discount), GradeOf(relevance), x, y, r, q)
    {
      if 1 <= r <= q && GradeOf(relevance)(x) <= GradeOf(relevance)(y) {
        GainsFavour(relevance, discount, x, y, r, q);
      }
    }
  }

  lemma GainsFavour(relevance: Relevance, discount: nat -> real, x: int, y: int, r: nat, q: nat)
    requires IsDiscount(discount) && GradesFrom(relevance, 0)
    requires 1 <= r <= q && GradeOf(relevance)(x) <= GradeOf(relevance)(y)
    ensures Favours(ShareOf(relevance, discount), GradeOf(relevance), x, y, r, q)
  {
    hide Gain, Grade, GradesFrom;
    var share := ShareOf(relevance, discount);
    GradeAtLeast(relevance, x);
    GradeAtLeast(relevance, y);
    GainMono(relevance, x, y);
    GainIsNonNegative(relevance, x);
    assert discount(r) >= discount(q) > 0.0;
    ExchangeGains(Gain(relevance, x), Gain(relevance, y), discount(r), discount(q));
    assert share(x, r) == Gain(relevance, x) * discount(r) && share(y, r) == Gain(relevance, y) * discount(r);
    assert share(x, q) == Gain(relevance, x) * discount(q) && share(y, q) == Gain(relevance, y) * discount(q);
  }

  lemma {:induction false} DcgIsWeight(ids: seq<int>, relevance: Relevance, discount: nat -> real, rank: nat, k: nat)
    ensures Dcg(Take(ids, k), relevance, discount, rank) == Weight(ids, ShareOf(relevance, discount), rank, k)
  {
    if ids != [] && k > 0 {
      var x := ids[0];
      var taken := Take(ids, k);
      assert taken[1..] == Take(ids[1..], k - 1) && taken[0] == x;
      assert Dcg(taken, relevance, discount, rank)
          == Gain(relevance, x) * discount(rank) + Dcg(taken[1..], relevance, discount, rank + 1);
      WeightUnfolds(ids, ShareOf(relevance, discount), rank, k);
      assert ShareOf(relevance, discount)(x, rank) == Gain(relevance, x) * discount(rank);
      DcgIsWeight(ids[1..], relevance, discount, rank + 1, k - 1);
    }
  }

  lemma {:induction false} GradeOfItem(relevance: Relevance, i: nat)
    requires WellFormed(relevance) && i < |relevance|
    ensures Grade(relevance, relevance[i].0) == relevance[i].1
  {
    if i > 0 {
      GradeOfItem(relevance[1..], i - 1);
    }
  }

  lemma {:induction false} GradeOutside(relevance: Relevance, id: int)
    requires forall i :: 0 <= i < |relevance| ==> relevance[i].0 != id
    ensures Grade(relevance, id) == 0
  {
    if relevance != [] {
      GradeOutside(relevance[1..], id);
    }
  }

  /** The relevance-sorted ids are the dictionary's keys, each once, the best first. */
  lemma IdealIdsAreBest(relevance: Relevance, ids: seq<int>)
    requires WellFormed(relevance) && GradesFrom(relevance, 0)
    ensures Distinct(IdealIds(relevance))
    ensures DescendingGrade(IdealIds(relevance), GradeOf(relevance))
    ensures CoversGrades(ids, IdealIds(relevance), GradeOf(relevance))
  {
    var sorted := SortDescending(relevance, ByGrade);
    var grade := GradeOf(relevance);
    SortIsDescending(relevance, ByGrade);
    SameElements(sorted, relevance);
    assert Distinct(relevance);
    DistinctPermutation(sorted, relevance);
    forall i | 0 <= i < |sorted| ensures Grade(relevance, sorted[i].0) == sorted[i].1 {
      assert sorted[i] in sorted;
      var j :| 0 <= j < |relevance| && relevance[j] == sorted[i];
      GradeOfItem(relevance, j);
    }
    forall i, j | 0 <= i < j < |sorted|
      ensures sorted[i].0 != sorted[j].0 && Grade(relevance, sorted[i].0) >= Grade(relevance, sorted[j].0)
    {
      assert AtLeast(ByGrade(sorted[i]), ByGrade(sorted[j]));
      assert sorted[i] != sorted[j];
      assert sorted[i] == (sorted[i].0, sorted[i].1) && sorted[j] == (sorted[j].0, sorted[j].1);
    }
    forall x | x in ids && x !in IdealIds(relevance) ensures grade(x) == 0 {
      forall i | 0 <= i < |relevance| ensures relevance[i].0 != x {
        assert relevance[i] in sorted;
        var j :| 0 <= j < |sorted| && sorted[j] == relevance[i];
        assert IdealIds(relevance)[j] == sorted[j].0;
      }
      GradeOutside(relevance, x);
    }
  }

  /** No duplicate-free ranking has a larger DCG@K than the relevance-sorted one. */
  lemma IdealIsMaximal(ranked: seq<int>, relevance: Relevance, k: nat, discount: nat -> real)
    requires IsDiscount(discount) && Distinct(ranked) && WellFormed(relevance) && GradesFrom(relevance, 0)
    ensures 0.0 <= Dcg(Take(ranked, k), relevance, discount, 1)
                <= Dcg(Take(IdealIds(relevance), k), relevance, discount, 1)
  {
    var share, grade := ShareOf(relevance, discount), GradeOf(relevance);
    GainsAreRewarding(relevance, discount);
    IdealIdsAreBest(relevance, ranked);
    Rearrangement(ranked, IdealIds(relevance), share, grade, 1, k);
    WeightNonNegative(ranked, share, grade, 1, k);
    DcgIsWeight(ranked, relevance, discount, 1, k);
    DcgIsWeight(IdealIds(relevance), relevance, discount, 1, k);
  }

  lemma QuotientInUnitInterval(a: real, b: real)
    requires 0.0 <= a <= b && b > 0.0
    ensures 0.0 <= a / b <= 1.0
  {}

  lemma QuotientOfSelf(a: real)
    requires a != 0.0
    ensures a / a == 1.0
  {}

  lemma QuotientAboveOne(a: real, b: real)
    requires 0.0 < b < a
    ensures a / b > 1.0
  {}

  lemma NdcgInUnitInterval(ranked: seq<int>, relevance: Relevance, k: int, discount: nat -> real)
    requires IsDiscount(discount) && Distinct(ranked) && WellFormed(relevance) && GradesFrom(relevance, 0) && k >= 0
    ensures 0.0 <= Ndcg(ranked, relevance, k, discount) <= 1.0
    ensures Ndcg(IdealIds(relevance), relevance, k, discount) == 1.0
  {
    IdealIsMaximal(ranked, relevance, k, discount);
    var ideal := Dcg(Take(IdealIds(relevance), k), relevance, discount, 1);
    if ideal != 0.0 {
      QuotientOfSelf(ideal);
      QuotientInUnitInterval(Dcg(Take(ranked, k), relevance, discount, 1), ideal);
    }
  }

  lemma {:induction false} DcgNonNegative(ids: seq<int>, relevance: Relevance, discount: nat -> real, rank: nat)
    requires rank >= 1 && IsDiscount(discount) && GradesFrom(relevance, 0)
    ensures Dcg(ids, relevance, discount, rank) >= 0.0
  {
    if ids != [] {
      GradeAtLeast(relevance, ids[0]);
      assert discount(rank) > 0.0;
      ExchangeGains(0.0, Gain(relevance, ids[0]), discount(rank), discount(rank));
      DcgNonNegative(ids[1..], relevance, discount, rank + 1);
    }
  }

  lemma GainOfSingle(id: int, grade: int, other: int)
    ensures Gain([(id, grade)], other) == if other == id then GainOf(grade) else 0.0
  {
    hide GainOf;
    var relevance: Relevance := [(id, grade)];
    GradeOfItem(relevance, 0);
    if other != id {
      GradeOutside(relevance, other);
    }
    GainDoubles(0);
  }

  /** A list that has one graded document, at place p, has that one's gain at its rank as its sum. */
  lemma {:induction false} DcgOfSingle(ids: seq<int>, id: int, grade: int, discount: nat -> real, rank: nat, p: nat)
    requires Distinct(ids) && p <= |ids| && (p == |ids| ==> id !in ids) && (p < |ids| ==> ids[p] == id)
    ensures Dcg(ids, [(id, grade)], discount, rank)
         == if p < |ids| then GainOf(grade) * discount(rank + p) else 0.0
  {
    hide GainOf, Gain;
    if ids != [] {
      GainOfSingle(id, grade, ids[0]);
      if p == 0 {
        DcgOfSingle(ids[1..], id, grade, discount, rank + 1, |ids| - 1);
      } else {
        assert ids[0] in ids && ids[0] != id;
        DcgOfSingle(ids[1..], id, grade, discount, rank + 1, p - 1);
      }
    }
  }

  /** With a single relevant document nDCG@K is the discount of its rank over that of rank 1, and 0 if it is not among
      the first k. */
  lemma NdcgOfSingle(ranked: seq<int>, grade: int, k: int, discount: nat -> real, p: nat)
    requires IsDiscount(discount) && Distinct(ranked) && p < |ranked| && grade > 0 && k >= 1
    ensures Ndcg(ranked, [(ranked[p], grade)], k, discount) == if p < k then discount(p + 1) / discount(1) else 0.0
  {
    hide Dcg, SortDescending, IsDiscount, IdealIds;
    var relevance: Relevance := [(ranked[p], grade)];
    var taken, gain := Take(ranked, k), GainOf(grade);
    DcgOfSingle(taken, ranked[p], grade, discount, 1, if p < k then p else |taken|);
    assert Dcg(taken, relevance, discount, 1) == gain * (if p < k then discount(p + 1) else 0.0);
    IdealOfSingle(ranked[p], grade);
    assert Take([ranked[p]], k) == [ranked[p]];
    DcgOfSingle([ranked[p]], ranked[p], grade, discount, 1, 0);
    assert Dcg(Take(IdealIds(relevance), k), relevance, discount, 1) == gain * discount(1);
    DiscountsArePositive(discount);
    QuotientCancels(gain, if p < k then discount(p + 1) else 0.0, discount(1));
  }

  lemma IdealOfSingle(id: int, grade: int)
    ensures IdealIds([(id, grade)]) == [id]
  {
    var relevance: Relevance := [(id, grade)];
    assert multiset(SortDescending(relevance, ByGrade)) == multiset(relevance);
    assert SortDescending(relevance, ByGrade)[0] in multiset(relevance);
  }

  lemma DiscountsArePositive(discount: nat -> real)
    requires IsDiscount(discount)
    ensures discount(1) > 0.0
  {}

  lemma QuotientCancels(gain: real, a: real, b: real)
    requires gain > 0.0 && b > 0.0
    ensures gain * b > 0.0 && gain * a / (gain * b) == a / b
  {
    var q := a / b;
    assert q * b == a;
    assert q * (gain * b) == gain * a;
  }

  // ----- exactly when the bounds hold -----

  /** nDCG@K of a ranking lies in [0, 1] whatever the documents are graded, from 0 on. */
  ghost predicate AlwaysBounded(ranked: seq<int>, k: int, discount: nat -> real) {
    forall relevance: Relevance :: WellFormed(relevance) && GradesFrom(relevance, 0) ==>
      0.0 <= Ndcg(ranked, relevance, k, discount) <= 1.0
  }

  /** Grade 1 for each of the ids. */
  function Ones(ids: seq<int>): (relevance: Relevance)
    ensures |relevance| == |ids| && forall i :: 0 <= i < |ids| ==> relevance[i] == (ids[i], 1)
  {
    seq(|ids|, i requires 0 <= i < |ids| => (ids[i], 1))
  }

  function SumOfDiscounts(discount: nat -> real, rank: nat, n: nat): real
    decreases n
  {
    if n == 0 then 0.0 else discount(rank) + SumOfDiscounts(discount, rank + 1, n - 1)
  }

  lemma {:induction false} LongerSumIsLarger(discount: nat -> real, rank: nat, n: nat, m: nat)
    requires IsDiscount(discount) && rank >= 1 && n <= m
    ensures 0.0 <= SumOfDiscounts(discount, rank, n) <= SumOfDiscounts(discount, rank, m)
    ensures n < m ==> SumOfDiscounts(discount, rank, n) < SumOfDiscounts(discount, rank, m)
    decreases m
  {
    assert discount(rank) > 0.0;
    if n > 0 {
      LongerSumIsLarger(discount, rank + 1, n - 1, m - 1);
    } else if m > 0 {
      LongerSumIsLarger(discount, rank + 1, 0, m - 1);
    }
  }

  lemma GainOfOne(ids: seq<int>, id: int)
    requires Distinct(ids) && id in ids
    ensures Gain(Ones(ids), id) == 1.0
  {
    var i :| 0 <= i < |ids| && ids[i] == id;
    GradeOfItem(Ones(ids), i);
    assert Pow2(1) == 2;
  }

  lemma {:induction false} DcgOfOnes(listed: seq<int>, ids: seq<int>, discount: nat -> real, rank: nat)
    requires Distinct(ids) && forall x :: x in listed ==> x in ids
    ensures Dcg(listed, Ones(ids), discount, rank) == SumOfDiscounts(discount, rank, |listed|)
  {
    if listed != [] {
      GainOfOne(ids, listed[0]);
      DcgOfOnes(listed[1..], ids, discount, rank + 1);
    }
  }

  lemma IdealOfOnes(ids: seq<int>, k: int, discount: nat -> real)
    requires Distinct(ids)
    ensures Dcg(Take(IdealIds(Ones(ids)), k), Ones(ids), discount, 1) == SumOfDiscounts(discount, 1, |Take(ids, k)|)
  {
    hide Dcg, SortDescending, SumOfDiscounts;
    var sorted := SortDescending(Ones(ids), ByGrade);
    SameElements(sorted, Ones(ids));
    SameLength(sorted, Ones(ids));
    forall i | 0 <= i < |sorted| ensures sorted[i].0 in ids {
      assert sorted[i] in sorted;
    }
    DcgOfOnes(Take(IdealIds(Ones(ids)), k), ids, discount, 1);
  }

  lemma SameLength<T>(r: seq<T>, s: seq<T>)
    requires multiset(r) == multiset(s)
    ensures |r| == |s|
  {
    assert |r| == |multiset(r)|;
  }

  /** More documents of grade 1 in the cut ranking than in the cut ideal one. */
  lemma TooManyOnes(ranked: seq<int>, ids: seq<int>, k: int, discount: nat -> real)
    requires IsDiscount(discount) && Distinct(ids) && forall x :: x in Take(ranked, k) ==> x in ids
    requires 1 <= |Take(ids, k)| < |Take(ranked, k)|
    ensures WellFormed(Ones(ids)) && GradesFrom(Ones(ids), 0)
    ensures Ndcg(ranked, Ones(ids), k, discount) > 1.0
  {
    IdealOfOnes(ids, k, discount);
    DcgOfOnes(Take(ranked, k), ids, discount, 1);
    LongerSumIsLarger(discount, 1, |Take(ids, k)|, |Take(ranked, k)|);
    LongerSumIsLarger(discount, 1, 0, |Take(ids, k)|);
    QuotientAboveOne(SumOfDiscounts(discount, 1, |Take(ranked, k)|), SumOfDiscounts(discount, 1, |Take(ids, k)|));
  }

  /** The elements of a list, each once. */
  function Deduplicated(s: seq<int>): (r: seq<int>)
    ensures Distinct(r) && |r| <= |s|
    ensures forall x :: x in r <==> x in s
    ensures |r| == |s| ==> Distinct(s)
    ensures s != [] ==> r != []
  {
    if s == [] then []
    else
      var r := Deduplicated(s[1..]);
      assert forall x :: x in s <==> x == s[0] || x in s[1..];
      if s[0] in r then r else [s[0]] + r
  }

  /** A repeated document among the first k counts twice, but only once in the ideal ranking. */
  lemma RepetitionExceedsOne(ranked: seq<int>, k: int, discount: nat -> real) returns (relevance: Relevance)
    requires IsDiscount(discount) && k >= 0 && !Distinct(Take(ranked, k))
    ensures WellFormed(relevance) && GradesFrom(relevance, 0)
    ensures Ndcg(ranked, relevance, k, discount) > 1.0
  {
    var ids := Deduplicated(Take(ranked, k));
    assert Take(ids, k) == ids;
    TooManyOnes(ranked, ids, k, discount);
    relevance := Ones(ids);
  }

  /** n ids that are larger than base. */
  function Above(base: int, n: nat): (r: seq<int>)
    ensures |r| == n && Distinct(r) && forall x :: x in r ==> x > base
  {
    seq(n, i => base + 1 + i)
  }

  /** A negative k cuts the lists at different places: two documents are left of the ranking, one of the ideal one. */
  lemma NegativeCutoffExceedsOne(ranked: seq<int>, k: int, discount: nat -> real) returns (relevance: Relevance)
    requires IsDiscount(discount) && k < 0 && |Take(ranked, k)| >= 2
    ensures WellFormed(relevance) && GradesFrom(relevance, 0)
    ensures Ndcg(ranked, relevance, k, discount) > 1.0
  {
    var actual := Take(ranked, k);
    var x, y := actual[0], actual[1];
    var seen := Deduplicated([x, y]);
    var ids := seen + Above(if x < y then y else x, 1 - k - |seen|);
    assert x in [x, y] && y in [x, y];
    assert Distinct(ids) && |Take(ids, k)| == 1;
    relevance := Ones(ids);
    IdealOfOnes(ids, k, discount);
    DcgAtLeastTwo(actual, ids, discount);
    LongerSumIsLarger(discount, 1, 1, 2);
    LongerSumIsLarger(discount, 1, 0, 1);
    QuotientAboveOne(Dcg(actual, relevance, discount, 1), SumOfDiscounts(discount, 1, 1));
  }

  lemma DcgAtLeastTwo(actual: seq<int>, ids: seq<int>, discount: nat -> real)
    requires IsDiscount(discount) && Distinct(ids) && |actual| >= 2 && actual[0] in ids && actual[1] in ids
    ensures Dcg(actual, Ones(ids), discount, 1) >= SumOfDiscounts(discount, 1, 2)
  {
    GainOfOne(ids, actual[0]);
    GainOfOne(ids, actual[1]);
    var tail := actual[1..];
    assert tail[0] == actual[1];
    DcgNonNegative(tail[1..], Ones(ids), discount, 3);
    assert SumOfDiscounts(discount, 3, 0) == 0.0;
    assert SumOfDiscounts(discount, 2, 1) == discount(2);
  }

  lemma DcgOfOne(id: int, relevance: Relevance, discount: nat -> real, rank: nat)
    ensures Dcg([id], relevance, discount, rank) == Gain(relevance, id) * discount(rank)
  {
    assert [id][1..] == [];
  }

  lemma DcgOfTwo(x: int, y: int, relevance: Relevance, discount: nat -> real)
    ensures Dcg([x, y], relevance, discount, 1) == Gain(relevance, x) * discount(1) + Gain(relevance, y) * discount(2)
  {
    assert [x, y][1..] == [y];
    DcgOfOne(y, relevance, discount, 2);
  }

  /** No document gains more than the best one at the same rank. */
  lemma BestGainsMost(x: int, relevance: Relevance)
    requires WellFormed(relevance) && GradesFrom(relevance, 0) && IdealIds(relevance) != []
    ensures 0.0 <= Gain(relevance, x) <= Gain(relevance, IdealIds(relevance)[0])
  {
    hide IdealIds, Gain;
    var y := IdealIds(relevance)[0];
    IdealIdsAreBest(relevance, [x]);
    HeadIsBest([x], IdealIds(relevance), GradeOf(relevance), x, y);
    GradeAtLeast(relevance, x);
    GradeAtLeast(relevance, y);
    GainMono(relevance, x, y);
    GainIsNonNegative(relevance, x);
  }

  lemma GainIsNonNegative(relevance: Relevance, x: int)
    requires Grade(relevance, x) >= 0
    ensures Gain(relevance, x) >= 0.0
    ensures Grade(relevance, x) == 0 ==> Gain(relevance, x) == 0.0
  {}

  lemma FirstOfDcg(ids: seq<int>, relevance: Relevance, discount: nat -> real)
    requires ids != [] && IsDiscount(discount) && GradesFrom(relevance, 0)
    ensures Dcg(ids, relevance, discount, 1) >= Gain(relevance, ids[0]) * discount(1)
  {
    hide Gain;
    DcgNonNegative(ids[1..], relevance, discount, 2);
  }

  lemma SingleIsBounded(ranked: seq<int>, relevance: Relevance, k: int, discount: nat -> real)
    requires IsDiscount(discount) && WellFormed(relevance) && GradesFrom(relevance, 0) && |Take(ranked, k)| <= 1
    ensures 0.0 <= Ndcg(ranked, relevance, k, discount) <= 1.0
  {
    hide Dcg, Gain, IdealIds, Grade, WellFormed, GradesFrom;
    var actual, best := Take(ranked, k), Take(IdealIds(relevance), k);
    DcgNonNegative(actual, relevance, discount, 1);
    DcgNonNegative(best, relevance, discount, 1);
    DcgOfNone(relevance, discount);
    if actual != [] && best != [] {
      var x, y := actual[0], best[0];
      assert actual == [x] && y == IdealIds(relevance)[0];
      BestGainsMost(x, relevance);
      assert discount(1) > 0.0;
      ExchangeGains(Gain(relevance, x), Gain(relevance, y), discount(1), discount(1));
      DcgOfOne(x, relevance, discount, 1);
      FirstOfDcg(best, relevance, discount);
    }
    if Dcg(best, relevance, discount, 1) != 0.0 {
      QuotientInUnitInterval(Dcg(actual, relevance, discount, 1), Dcg(best, relevance, discount, 1));
    }
  }

  lemma DcgOfNone(relevance: Relevance, discount: nat -> real)
    ensures Dcg([], relevance, discount, 1) == 0.0
  {}

  /** Exactly which rankings are bounded for every grading from 0 on: with k >= 0 those whose first k places hold no
      document twice, with k < 0 those of which the cut leaves at most one document. */
  lemma NdcgBoundedIff(ranked: seq<int>, k: int, discount: nat -> real)
    requires IsDiscount(discount)
    ensures AlwaysBounded(ranked, k, discount) <==>
              if k >= 0 then Distinct(Take(ranked, k)) else |Take(ranked, k)| <= 1
  {
    if k >= 0 && Distinct(Take(ranked, k)) {
      forall relevance: Relevance | WellFormed(relevance) && GradesFrom(relevance, 0)
        ensures 0.0 <= Ndcg(ranked, relevance, k, discount) <= 1.0
      {
        assert Take(Take(ranked, k), k) == Take(ranked, k);
        NdcgInUnitInterval(Take(ranked, k), relevance, k, discount);
      }
    } else if k >= 0 {
      var relevance := RepetitionExceedsOne(ranked, k, discount);
    } else if |Take(ranked, k)| <= 1 {
      forall relevance: Relevance | WellFormed(relevance) && GradesFrom(relevance, 0)
        ensures 0.0 <= Ndcg(ranked, relevance, k, discount) <= 1.0
      {
        SingleIsBounded(ranked, relevance, k, discount);
      }
    } else {
      var relevance := NegativeCutoffExceedsOne(ranked, k, discount);
    }
  }

  /** So all duplicate-free rankings are bounded exactly for the cutoffs k >= 0. */
  lemma NdcgBoundedIffCutoffNonNegative(k: int, discount: nat -> real)
    requires IsDiscount(discount)
    ensures (forall ranked: seq<int> :: Distinct(ranked) ==> AlwaysBounded(ranked, k, discount)) <==> k >= 0
  {
    hide AlwaysBounded;
    forall ranked: seq<int> | Distinct(ranked) && k >= 0 ensures AlwaysBounded(ranked, k, discount) {
      NdcgBoundedIff(ranked, k, discount);
    }
    if k < 0 {
      NdcgBoundedIff(Above(0, 2 - k), k, discount);
    }
  }

  /** Document 1 has grade 1, document 2 the given one. */
  function Pair(grade: int): Relevance {
    [(1, 1), (2, grade)]
  }

  lemma PairIs(grade: int)
    requires grade < 0
    ensures WellFormed(Pair(grade)) && GradesFrom(Pair(grade), grade) && IdealIds(Pair(grade)) == [1, 2]
    ensures Gain(Pair(grade), 1) == 1.0 && Gain(Pair(grade), 2) == GainOf(grade)
  {
    hide GainOf;
    var relevance := Pair(grade);
    assert relevance[1..] == [(2, grade)] && [(2, grade)][1..] == [];
    assert Grade(relevance, 1) == 1 && Grade(relevance, 2) == grade;
    GainOfGradeOne();
    assert SortDescending([(2, grade)], ByGrade) == [(2, grade)];
    assert SortDescending(relevance, ByGrade) == relevance;
  }

  lemma GainOfGradeOne()
    ensures GainOf(1) == 1.0
  {
    assert Pow2(1) == 2;
  }

  /** A document of negative grade alone in the ranking, where another one has a positive grade. */
  lemma NegativeGradeBelowZero(grade: int, k: int, discount: nat -> real)
    requires IsDiscount(discount) && grade < 0 && k >= 1
    ensures WellFormed(Pair(grade)) && GradesFrom(Pair(grade), grade)
    ensures Ndcg([2], Pair(grade), k, discount) < 0.0
  {
    hide Dcg, Gain, Pair, IdealIds, GainOf;
    var relevance, g := Pair(grade), GainOf(grade);
    PairIs(grade);
    assert discount(1) >= discount(2) > 0.0;
    assert Take([2], k) == [2];
    GainOfNegative(grade);
    NegativeProduct(g, discount(1));
    DcgOfOne(2, relevance, discount, 1);
    var ideal := Dcg(Take(IdealIds(relevance), k), relevance, discount, 1);
    if k == 1 {
      assert Take([1, 2], k) == [1];
      DcgOfOne(1, relevance, discount, 1);
      assert ideal == discount(1);
    } else {
      assert Take([1, 2], k) == [1, 2];
      DcgOfTwo(1, 2, relevance, discount);
      IdealStaysPositive(g, discount(1), discount(2));
    }
    NegativeQuotient(Dcg([2], relevance, discount, 1), ideal);
  }

  lemma GainOfNegative(grade: int)
    requires grade < 0
    ensures -1.0 < GainOf(grade) < 0.0
  {}

  lemma NegativeProduct(g: real, a: real)
    requires g < 0.0 < a
    ensures g * a < 0.0
  {}

  lemma IdealStaysPositive(g: real, a: real, b: real)
    requires g > -1.0 && a >= b > 0.0
    ensures 1.0 * a + g * b > 0.0
  {
    assert (g + 1.0) * b > 0.0;
  }

  lemma NegativeQuotient(a: real, b: real)
    requires a < 0.0 < b
    ensures a / b < 0.0
  {}

  /** All duplicate-free rankings are bounded for all gradings from a floor on exactly if the floor is not negative. */
  lemma NdcgBoundedIffGradesNonNegative(floor: int, k: int, discount: nat -> real)
    requires IsDiscount(discount) && k >= 1
    ensures (forall ranked: seq<int>, relevance: Relevance ::
               Distinct(ranked) && WellFormed(relevance) && GradesFrom(relevance, floor) ==>
                 0.0 <= Ndcg(ranked, relevance, k, discount) <= 1.0)
        <==> floor >= 0
  {
    if floor >= 0 {
      forall ranked: seq<int>, relevance: Relevance
        | Distinct(ranked) && WellFormed(relevance) && GradesFrom(relevance, floor)
        ensures 0.0 <= Ndcg(ranked, relevance, k, discount) <= 1.0
      {
        NdcgInUnitInterval(ranked, relevance, k, discount);
      }
    } else {
      NegativeGradeBelowZero(floor, k, discount);
    }
  }

  // ----- nearest-rank percentile -----

  datatype Percentile = NoSamples | BadPercentile | Value(value: real)

  function Negated(v: real): Key { Finite(-v) }

  function SortAscending(values: seq<real>): seq<real> {
    SortDescending(values, Negated)
  }

  lemma NearestRankIndex(n: nat, p: int, index: int)
    requires n >= 1 && 0 < p <= 100
    requires index == (n * p + 99) / 100 - 1
    ensures 0 <= index < n && 100 * index < p * n <= 100 * (index + 1)
  {
    assert n * p >= p by { MulMono(1, n, p); }
    assert n * p <= n * 100 by { MulMono(p, 100, n); }
  }

  function NearestRank(values: seq<real>, p: int): Percentile {
    if values == [] then NoSamples
    else if !(0 < p <= 100) then BadPercentile
    else
      var ordered := SortAscending(values);
      var index := (|ordered| * p + 99) / 100 - 1;
      NearestRankIndex(|ordered|, p, index);
      Value(ordered[if index > 0 then index else 0])
  }

  function AtMost(r: real): real -> bool { v => v <= r }

  function Below(r: real): real -> bool { v => v < r }

  function Count(values: seq<real>, test: real -> bool): nat {
    if values == [] then 0
    else
      var v := values[0];
      (if test(v) then 1 else 0) + Count(values[1..], test)
  }

  lemma {:induction false} CountOfInsert(x: real, s: seq<real>, test: real -> bool)
    ensures Count(Insert(x, s, Negated), test) == Count([x] + s, test)
  {
    assert ([x] + s)[1..] == s;
    if s == [] || AtLeast(Negated(x), Negated(s[0])) {
    } else {
      var rest := Insert(x, s[1..], Negated);
      assert ([s[0]] + rest)[1..] == rest;
      assert ([x] + s[1..])[1..] == s[1..];
      CountOfInsert(x, s[1..], test);
    }
  }

  lemma {:induction false} CountOfSort(s: seq<real>, test: real -> bool)
    ensures Count(SortAscending(s), test) == Count(s, test)
  {
    if s != [] {
      CountOfSort(s[1..], test);
      var rest := SortAscending(s[1..]);
      CountOfInsert(s[0], rest, test);
      assert ([s[0]] + rest)[1..] == rest;
    }
  }

  lemma {:induction false} CountBounds(s: seq<real>, test: real -> bool, n: nat)
    requires n <= |s|
    ensures (forall i :: 0 <= i < n ==> var v := s[i]; test(v)) ==> Count(s, test) >= n
    ensures (forall i :: n <= i < |s| ==> var v := s[i]; !test(v)) ==> Count(s, test) <= n
  {
    if s != [] {
      var rest := s[1..];
      assert forall i :: 0 <= i < |rest| ==> rest[i] == s[i + 1];
      if n > 0 {
        CountBounds(rest, test, n - 1);
      } else {
        CountBounds(rest, test, 0);
      }
    }
  }

  lemma SortedCounts(ordered: seq<real>, index: nat)
    requires index < |ordered|
    requires forall i, j :: 0 <= i < j < |ordered| ==> ordered[i] <= ordered[j]
    ensures var r := ordered[index];
            Count(ordered, AtMost(r)) >= index + 1 && Count(ordered, Below(r)) <= index
  {
    var r := ordered[index];
    CountBounds(ordered, AtMost(r), index + 1);
    CountBounds(ordered, Below(r), index);
  }

  lemma SortedAscending(values: seq<real>)
    ensures multiset(SortAscending(values)) == multiset(values) && |SortAscending(values)| == |values|
    ensures forall i, j :: 0 <= i < j < |values| ==> SortAscending(values)[i] <= SortAscending(values)[j]
  {
    var ordered := SortAscending(values);
    SortIsDescending(values, Negated);
    forall i, j | 0 <= i < j < |ordered| ensures ordered[i] <= ordered[j] {
      assert AtLeast(Negated(ordered[i]), Negated(ordered[j]));
    }
  }

  /** The nearest-rank value: at least p percent of the samples do not exceed it, fewer than p percent lie below. */
  lemma PercentileIsNearestRank(values: seq<real>, p: int)
    requires values != [] && 0 < p <= 100
    ensures NearestRank(values, p).Value?
    ensures var r := NearestRank(values, p).value;
            && r in values
            && 100 * Count(values, AtMost(r)) >= p * |values|
            && 100 * Count(values, Below(r)) < p * |values|
  {
    hide SortAscending, Count, SortDescending;
    var ordered := SortAscending(values);
    SortedAscending(values);
    var index := (|ordered| * p + 99) / 100 - 1;
    NearestRankIndex(|ordered|, p, index);
    var r := ordered[index];
    SameElements(ordered, values);
    assert r in ordered;
    SortedCounts(ordered, index);
    CountOfSort(values, AtMost(r));
    CountOfSort(values, Below(r));
  }
}
