// Powers of two and floor logarithms, shared by the cost analysis of the heap,
// the random number generator and the hash function.
module Powers {

  function Pow2(k: nat): (p: nat)
    ensures p >= 1
  {
    if k == 0 then 1 else 2 * Pow2(k - 1)
  }

  function Power(base: nat, k: nat): nat {
    if k == 0 then 1 else base * Power(base, k - 1)
  }

  // Floor of the base-2 logarithm.
  function Log2(n: nat): (k: nat)
    requires n >= 1
  {
    if n == 1 then 0 else 1 + Log2(n / 2)
  }

  lemma {:induction false} Log2Brackets(n: nat)
    requires n >= 1
    ensures Pow2(Log2(n)) <= n < Pow2(Log2(n) + 1)
  {
    if n > 1 {
      Log2Brackets(n / 2);
    }
  }

  lemma {:induction false} Pow2Sum(j: nat, k: nat)
    ensures Pow2(j + k) == Pow2(j) * Pow2(k)
  {
    if j > 0 {
      Pow2Sum(j - 1, k);
      assert Pow2(j + k) == 2 * (Pow2(j - 1) * Pow2(k));
    }
  }

  lemma {:induction false} Pow2Monotone(j: nat, k: nat)
    requires j <= k
    ensures Pow2(j) <= Pow2(k)
  {
    if j < k {
      Pow2Monotone(j, k - 1);
    }
  }

  // Log2 is the largest exponent whose power fits under n.
  lemma {:induction false} Log2Bound(k: nat, n: nat)
    requires Pow2(k) <= n
    ensures k <= Log2(n)
  {
    Log2Brackets(n);
    if k > Log2(n) {
      Pow2Monotone(Log2(n) + 1, k);
    }
  }

  lemma {:induction false} Log2Monotone(m: nat, n: nat)
    requires 1 <= m <= n
    ensures Log2(m) <= Log2(n)
  {
    Log2Brackets(m);
    Log2Bound(Log2(m), n);
  }
}
