/** Python's bit operations on unbounded integers, bit by bit, and what they are on disjoint fields. */
module Bits {
  import opened Arithmetic

  function ShiftLeft(a: int, k: nat): int { a * Pow2(k) }

  /** Python's >> rounds down, as does division by a positive number here. */
  function ShiftRight(a: int, k: nat): int { a / Pow2(k) }

  /** a | b, the lowest bit first; a may be negative (two's complement). */
  function Or(a: int, b: nat): int
    decreases b
  {
    if b == 0 then a
    else 2 * Or(a / 2, b / 2) + (if a % 2 == 1 || b % 2 == 1 then 1 else 0)
  }

  /** a & m, the lowest bit first. */
  function And(a: int, m: nat): nat
    decreases m
  {
    if m == 0 then 0
    else 2 * And(a / 2, m / 2) + (if a % 2 == 1 && m % 2 == 1 then 1 else 0)
  }

  /** Or-ing a number below 2^k into a multiple of 2^k adds it. */
  lemma {:induction false} OrDisjoint(q: int, b: nat, k: nat)
    requires b < Pow2(k)
    ensures Or(q * Pow2(k), b) == q * Pow2(k) + b
  {
    if b > 0 {
      var half := Pow2(k - 1);
      assert q * Pow2(k) == 2 * (q * half);
      OrDisjoint(q, b / 2, k - 1);
    }
  }

  /** Masking with 2^k - 1 takes the remainder. */
  lemma {:induction false} AndMask(a: int, k: nat)
    ensures And(a, Pow2(k) - 1) == a % Pow2(k)
    decreases k
  {
    if k > 0 {
      var half := Pow2(k - 1);
      assert (Pow2(k) - 1) / 2 == half - 1 && (Pow2(k) - 1) % 2 == 1;
      AndMask(a / 2, k - 1);
      HalfMod(a, half);
    }
  }

  lemma HalfMod(a: int, half: nat)
    requires half >= 1
    ensures 2 * (a / 2 % half) + a % 2 == a % (2 * half)
  {
    var q, r := a / 2 / half, a / 2 % half;
    assert a / 2 == q * half + r;
    assert a == q * (2 * half) + (2 * r + a % 2);
    DivModIs(a, 2 * half, q, 2 * r + a % 2);
  }

  lemma Pow2Values()
    ensures Pow2(5) == 32 && Pow2(12) == 4096 && Pow2(17) == 0x2_0000 && Pow2(22) == 0x40_0000
  {
    assert Pow2(4) == 16 by { assert Pow2(2) == 4; }
    assert Pow2(8) == 256 by { assert Pow2(6) == 64; }
    assert Pow2(12) == 4096 by { assert Pow2(10) == 1024; }
    assert Pow2(16) == 65536 by { assert Pow2(14) == 16384; }
    assert Pow2(20) == 1048576 by { assert Pow2(18) == 262144; }
    assert Pow2(22) == 2 * (2 * Pow2(20));
  }
}
