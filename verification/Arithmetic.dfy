/** Powers of two, and the few facts about products and floor division that the other modules need. */
module Arithmetic {

  function Pow2(k: nat): (p: nat)
    ensures p >= 1
  {
    if k == 0 then 1 else 2 * Pow2(k - 1)
  }

  lemma {:induction false} Pow2Mono(a: nat, b: nat)
    requires a <= b
    ensures Pow2(a) <= Pow2(b)
  {
    if a < b {
      Pow2Mono(a, b - 1);
    }
  }

  lemma MulMono(a: int, b: int, c: int)
    requires a <= b && c >= 0
    ensures a * c <= b * c
  {}

  /** Quotient and remainder are determined by what they add up to. */
  lemma DivModIs(x: int, d: int, q: int, r: int)
    requires 0 <= r < d && x == q * d + r
    ensures x / d == q && x % d == r
  {
    var p, s := x / d, x % d;
    assert x == p * d + s;
    if p < q {
      assert (q - p) * d == q * d - p * d;
      MulMono(1, q - p, d);
      assert false;
    } else if p > q {
      assert (p - q) * d == p * d - q * d;
      MulMono(1, p - q, d);
      assert false;
    }
  }

  /** If r rounds of n each fit into a total, there are at most total / n of them. */
  lemma RoundsBound(rounds: nat, n: nat, total: nat)
    requires n >= 1
    requires rounds * n <= total
    ensures rounds <= total / n
  {
    var q, r := total / n, total % n;
    assert total == q * n + r;
    if rounds > q {
      assert (q + 1) * n == q * n + n;
      MulMono(q + 1, rounds, n);
      assert false;
    }
  }
}
