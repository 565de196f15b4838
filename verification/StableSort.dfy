/** Python's sorted(..., reverse=True): descending by key, elements of equal key keeping their order. */
module StableSort {

  /** A sort key: a real, or float('-inf'). */
  datatype Key = NegInfinity | Finite(value: real)

  predicate AtLeast(a: Key, b: Key) {
    b.NegInfinity? || (a.Finite? && a.value >= b.value)
  }

  ghost predicate Distinct<T>(s: seq<T>) {
    forall i, j :: 0 <= i < j < |s| ==> s[i] != s[j]
  }

  ghost predicate Descending<T>(s: seq<T>, key: T -> Key) {
    forall i, j :: 0 <= i < j < |s| ==> AtLeast(key(s[i]), key(s[j]))
  }

  /** Some occurrence of a stands before some occurrence of b. */
  ghost predicate Precedes<T>(s: seq<T>, a: T, b: T) {
    exists i, j :: 0 <= i < j < |s| && s[i] == a && s[j] == b
  }

  function Insert<T>(x: T, s: seq<T>, key: T -> Key): (r: seq<T>)
    ensures multiset(r) == multiset{x} + multiset(s)
  {
    if s == [] || AtLeast(key(x), key(s[0])) then [x] + s
    else
      assert s == [s[0]] + s[1..];
      [s[0]] + Insert(x, s[1..], key)
  }

  function SortDescending<T>(s: seq<T>, key: T -> Key): (r: seq<T>)
    ensures multiset(r) == multiset(s)
    ensures |r| == |s|
  {
    if s == [] then []
    else
      assert s == [s[0]] + s[1..];
      var r := Insert(s[0], SortDescending(s[1..], key), key);
      assert |multiset(r)| == |multiset(s)|;
      r
  }

  lemma SameElements<T>(r: seq<T>, s: seq<T>)
    requires multiset(r) == multiset(s)
    ensures forall x :: x in r <==> x in s
  {
    forall x ensures x in r <==> x in s {
      assert x in r <==> x in multiset(r);
      assert x in s <==> x in multiset(s);
    }
  }

  lemma {:induction false} DistinctCounts<T>(s: seq<T>)
    ensures Distinct(s) <==> forall x :: x in s ==> multiset(s)[x] == 1
  {
    if s != [] {
      DistinctCounts(s[1..]);
      assert s == [s[0]] + s[1..];
      if Distinct(s) {
        forall x | x in s ensures multiset(s)[x] == 1 {
          if x == s[0] { assert x !in s[1..]; } else { assert x in s[1..]; }
        }
      } else {
        var i, j :| 0 <= i < j < |s| && s[i] == s[j];
        assert s[j] == s[1..][j - 1];
        if i > 0 {
          assert s[i] == s[1..][i - 1];
          assert !Distinct(s[1..]);
          var x :| x in s[1..] && multiset(s[1..])[x] != 1;
          assert x in s && multiset(s)[x] != 1;
        } else {
          assert multiset(s)[s[0]] == 1 + multiset(s[1..])[s[0]];
        }
      }
    }
  }

  lemma DistinctPermutation<T>(r: seq<T>, s: seq<T>)
    requires multiset(r) == multiset(s) && Distinct(s)
    ensures Distinct(r)
  {
    DistinctCounts(r);
    DistinctCounts(s);
    SameElements(r, s);
  }

  lemma {:induction false} InsertDescending<T>(x: T, s: seq<T>, key: T -> Key)
    requires Descending(s, key)
    ensures Descending(Insert(x, s, key), key)
  {
    if s == [] || AtLeast(key(x), key(s[0])) {
    } else {
      var rest := Insert(x, s[1..], key);
      InsertDescending(x, s[1..], key);
      assert forall y :: y in rest ==> y in multiset(rest);
      forall j | 0 <= j < |rest| ensures AtLeast(key(s[0]), key(rest[j])) {
        assert rest[j] in multiset{x} + multiset(s[1..]);
        if rest[j] != x {
          assert rest[j] in s[1..];
        }
      }
    }
  }

  lemma {:induction false} SortIsDescending<T>(s: seq<T>, key: T -> Key)
    ensures Descending(SortDescending(s, key), key)
  {
    if s != [] {
      SortIsDescending(s[1..], key);
      InsertDescending(s[0], SortDescending(s[1..], key), key);
    }
  }

  lemma {:induction false} InsertKeepsOrder<T>(x: T, s: seq<T>, key: T -> Key, a: T, b: T)
    requires Precedes(s, a, b)
    ensures Precedes(Insert(x, s, key), a, b)
  {
    var r := Insert(x, s, key);
    var i, j :| 0 <= i < j < |s| && s[i] == a && s[j] == b;
    if s == [] || AtLeast(key(x), key(s[0])) {
      assert r[i + 1] == a && r[j + 1] == b;
    } else {
      var rest := Insert(x, s[1..], key);
      if i == 0 {
        assert b in multiset(rest) by { assert b == s[1..][j - 1]; }
        var k :| 0 <= k < |rest| && rest[k] == b;
        assert r[0] == a && r[k + 1] == b;
      } else {
        assert s[1..][i - 1] == a && s[1..][j - 1] == b;
        InsertKeepsOrder(x, s[1..], key, a, b);
        var p, q :| 0 <= p < q < |rest| && rest[p] == a && rest[q] == b;
        assert r[p + 1] == a && r[q + 1] == b;
      }
    }
  }

  lemma {:induction false} InsertGoesBefore<T>(x: T, s: seq<T>, key: T -> Key, b: T)
    requires b in s && Descending(s, key) && AtLeast(key(x), key(b))
    ensures Precedes(Insert(x, s, key), x, b)
  {
    var r := Insert(x, s, key);
    var j :| 0 <= j < |s| && s[j] == b;
    if AtLeast(key(x), key(s[0])) {
      assert r[0] == x && r[j + 1] == b;
    } else {
      assert j > 0;
      assert s[1..][j - 1] == b;
      InsertGoesBefore(x, s[1..], key, b);
      var rest := Insert(x, s[1..], key);
      var p, q :| 0 <= p < q < |rest| && rest[p] == x && rest[q] == b;
      assert r[p + 1] == x && r[q + 1] == b;
    }
  }

  /** Stability: what stands first and has no smaller key still stands first after sorting. */
  lemma {:induction false} SortIsStable<T>(s: seq<T>, key: T -> Key, i: nat, j: nat)
    requires i < j < |s| && AtLeast(key(s[i]), key(s[j]))
    ensures Precedes(SortDescending(s, key), s[i], s[j])
  {
    var rest := SortDescending(s[1..], key);
    assert s[1..][j - 1] == s[j];
    if i == 0 {
      SameElements(rest, s[1..]);
      SortIsDescending(s[1..], key);
      InsertGoesBefore(s[0], rest, key, s[j]);
    } else {
      SortIsStable(s[1..], key, i - 1, j - 1);
      InsertKeepsOrder(s[0], rest, key, s[i], s[j]);
    }
  }

  lemma PrecedesIsAsymmetric<T>(s: seq<T>, a: T, b: T)
    requires Distinct(s) && Precedes(s, a, b)
    ensures !Precedes(s, b, a)
  {}

  lemma LargerKeyFirst<T>(r: seq<T>, key: T -> Key, x: T, y: T)
    requires Descending(r, key) && x in r && y in r && !AtLeast(key(x), key(y))
    ensures Precedes(r, y, x)
  {
    var p :| 0 <= p < |r| && r[p] == x;
    var q :| 0 <= q < |r| && r[q] == y;
    assert q < p;
  }

  /** Where two elements end up: the larger key first, and equal keys as they stood. */
  lemma SortPlaces<T>(s: seq<T>, key: T -> Key, i: nat, j: nat)
    requires i < j < |s|
    ensures AtLeast(key(s[i]), key(s[j])) ==> Precedes(SortDescending(s, key), s[i], s[j])
    ensures !AtLeast(key(s[i]), key(s[j])) ==> Precedes(SortDescending(s, key), s[j], s[i])
  {
    if AtLeast(key(s[i]), key(s[j])) {
      SortIsStable(s, key, i, j);
    } else {
      var x, y := s[i], s[j];
      SameElements(SortDescending(s, key), s);
      assert x in s && y in s;
      SortIsDescending(s, key);
      LargerKeyFirst(SortDescending(s, key), key, x, y);
    }
  }
}
