/** Integer stand-ins for the floating-point `pow(2, k)` of the source, and the
    few facts about products that the index bookkeeping needs. */
module Arith {

  /** 2^k, exactly. */
  function Pow2(k: nat): (r: nat)
    ensures r >= 1
  {
    if k == 0 then 1 else 2 * Pow2(k - 1)
  }

  lemma {:induction false} Pow2Add(a: nat, b: nat)
    ensures Pow2(a + b) == Pow2(a) * Pow2(b)
  {
    if a > 0 {
      Pow2Add(a - 1, b);
      assert Pow2(a + b) == 2 * Pow2(a - 1 + b);
    }
  }

  /** The three-factor form the Theorem 2 slot length needs. */
  lemma Pow2Add3(r: nat, n: nat, m: nat)
    ensures Pow2(r) * Pow2(n) * Pow2(m) == Pow2(n + m + r)
  {
    Pow2Add(r, n);
    Pow2Add(r + n, m);
    assert r + n + m == n + m + r;
  }

  /** 2^k grows with k. */
  lemma {:induction false} Pow2Mono(a: nat, b: nat)
    requires a <= b
    ensures Pow2(a) <= Pow2(b)
  {
    if a < b {
      Pow2Mono(a, b - 1);
    }
  }

  lemma MulLe(i: nat, k: nat, n: nat)
    requires i <= k
    ensures i * n <= k * n
  {
  }

  /** A cell (i, j) of a k-by-n grid laid out row by row lies inside the grid. */
  lemma CellInGrid(i: nat, j: nat, k: nat, n: nat)
    requires i < k && j < n
    ensures i * n + j < k * n
  {
    MulLe(i + 1, k, n);
  }

  /** A difference of two positions of a cycle of length n, taken modulo n. */
  lemma ModInWindow(x: int, n: int)
    requires 0 < n && -n <= x < n
    ensures x % n == if x >= 0 then x else x + n
  {
  }
}
