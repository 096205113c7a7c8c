// Multiplying by a power of two, as a function of its own so that proofs stay linear.
module Scaling {
  import opened Arith

  // m * 2^i
  function Scaled(m: int, i: nat): int {
    if i == 0 then m else 2 * Scaled(m, i - 1)
  }

  lemma {:induction false} ScaledAdd(m: int, i: nat, j: nat)
    ensures Scaled(Scaled(m, i), j) == Scaled(m, i + j)
  {
    if j > 0 {
      ScaledAdd(m, i, j - 1);
    }
  }

  lemma {:induction false} ScaledSum(m: int, n: int, i: nat)
    ensures Scaled(m + n, i) == Scaled(m, i) + Scaled(n, i)
    ensures Scaled(m - n, i) == Scaled(m, i) - Scaled(n, i)
  {
    if i > 0 {
      ScaledSum(m, n, i - 1);
    }
  }

  lemma {:induction false} ScaledMul(m: int, k: int, i: nat)
    ensures Scaled(m * k, i) == m * Scaled(k, i) == Scaled(m, i) * k
  {
    if i > 0 {
      ScaledMul(m, k, i - 1);
      Twice(m, Scaled(k, i - 1));
      Twice(k, Scaled(m, i - 1));
    }
  }

  lemma Twice(m: int, p: int)
    ensures m * (2 * p) == 2 * (m * p) == (2 * p) * m
  {
  }

  lemma {:induction false} ScaledSign(m: int, i: nat)
    ensures m >= 0 ==> Scaled(m, i) >= m
    ensures m <= 0 ==> Scaled(m, i) <= m
  {
    if i > 0 {
      ScaledSign(m, i - 1);
    }
  }

  lemma ScaledMono(m: int, n: int, i: nat)
    ensures m <= n ==> Scaled(m, i) <= Scaled(n, i)
    ensures m < n ==> Scaled(m, i) < Scaled(n, i)
  {
    ScaledSum(n, m, i);
    ScaledSign(n - m, i);
  }

  lemma ScaledGrows(m: int, i: nat, j: nat)
    requires 0 <= m && i <= j
    ensures Scaled(m, i) <= Scaled(m, j)
  {
    ScaledSign(m, i);
    ScaledAdd(m, i, j - i);
    ScaledSign(Scaled(m, i), j - i);
  }
}
