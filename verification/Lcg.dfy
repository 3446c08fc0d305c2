// Linear congruential generators x -> (a*x + c) mod 2^k with a = 1 mod 4 and c odd:
// every state returns to itself after exactly 2^k steps.
module Lcg {
  import opened Powers
  import opened Modular

  function Next(a: nat, c: nat, k: nat, x: int): int {
    (a * x + c) % Pow2(k)
  }

  // n steps from x.
  function Iterate(a: nat, c: nat, k: nat, x: int, n: nat): int {
    if n == 0 then x else Next(a, c, k, Iterate(a, c, k, x, n - 1))
  }

  // 1 + a + ... + a^(n-1)
  function Geometric(a: nat, n: nat): nat {
    if n == 0 then 0 else a * Geometric(a, n - 1) + 1
  }

  // n steps without reducing.
  function Unreduced(a: nat, c: nat, x: int, n: nat): int {
    Power(a, n) * x + c * Geometric(a, n)
  }

  predicate FullPeriod(a: nat, c: nat) {
    a % 4 == 1 && c % 2 == 1
  }

  // ---------------------------------------------------------------- closed form

  lemma {:induction false} UnreducedStep(a: nat, c: nat, x: int, n: nat)
    ensures Unreduced(a, c, x, n + 1) == a * Unreduced(a, c, x, n) + c
  {
    var p, g := Power(a, n), Geometric(a, n);
    Expand(a, p * x, c * g);
    Associate(a, p, x);
    Associate(a, g, c);
    Expand(c, a * g, 1);
  }

  lemma {:induction false} IterateClosedForm(a: nat, c: nat, k: nat, x: int, n: nat)
    requires 0 <= x < Pow2(k)
    ensures Iterate(a, c, k, x, n) == Unreduced(a, c, x, n) % Pow2(k)
  {
    if n == 0 {
      ModUnique(x, Pow2(k), 0, x);
      assert Unreduced(a, c, x, 0) == x;
    } else {
      IterateClosedForm(a, c, k, x, n - 1);
      ModLinear(a, Unreduced(a, c, x, n - 1), c, Pow2(k));
      UnreducedStep(a, c, x, n - 1);
    }
  }

  lemma {:induction false} PowerIsGeometric(a: nat, n: nat)
    requires a >= 1
    ensures Power(a, n) == (a - 1) * Geometric(a, n) + 1
  {
    if n > 0 {
      PowerIsGeometric(a, n - 1);
      var g := Geometric(a, n - 1);
      Expand(a, (a - 1) * g, 1);
      Associate(a, a - 1, g);
      Expand(a - 1, a * g, 1);
    }
  }

  lemma OddPlusEven(e: int, x: int, c: int)
    requires e % 2 == 0 && c % 2 == 1
    ensures (e * x + c) % 2 == 1
  {
    var h, d := e / 2, c / 2;
    Associate(2, h, x);
    assert e * x + c == 2 * (h * x + d) + 1;
  }

  function OddFactor(a: nat, c: nat, x: int): (f: int)
    requires FullPeriod(a, c)
    ensures f % 2 == 1
  {
    var e := a - 1;
    OddPlusEven(e, x, c);
    e * x + c
  }

  lemma Factor(e: int, g: int, x: int, c: int)
    ensures (e * g + 1) * x + c * g - x == g * (e * x + c)
  {
    Expand(x, e * g, 1);
    Associate(g, e, x);
    Expand(g, e * x, c);
  }

  // What n steps add, before reducing: the geometric sum times an odd number.
  lemma UnreducedDifference(a: nat, c: nat, x: int, n: nat)
    requires FullPeriod(a, c)
    ensures Unreduced(a, c, x, n) - x == Geometric(a, n) * OddFactor(a, c, x)
  {
    PowerIsGeometric(a, n);
    Factor(a - 1, Geometric(a, n), x, c);
  }

  // ---------------------------------------------------------------- divisibility of the sum

  lemma OneModFour(a: nat, p: nat)
    requires a % 4 == 1 && p % 4 == 1
    ensures (a * p) % 4 == 1
  {
    var q := a / 4;
    Expand(p, 4 * q, 1);
    Associate(4, q, p);
    assert a * p == p + 4 * (q * p);
  }

  lemma {:induction false} PowerModFour(a: nat, n: nat)
    requires a % 4 == 1
    ensures Power(a, n) % 4 == 1
  {
    if n > 0 {
      PowerModFour(a, n - 1);
      OneModFour(a, Power(a, n - 1));
    }
  }

  lemma SameParity(a: nat, g: nat)
    requires a % 2 == 1
    ensures (a * g) % 2 == g % 2
  {
    var q := a / 2;
    assert a * g == 2 * (q * g) + g by {
      Expand(g, 2 * q, 1);
      Associate(2, q, g);
    }
  }

  lemma NextParity(y: nat, n: nat)
    requires n > 0 && y % 2 == (n - 1) % 2
    ensures (y + 1) % 2 == n % 2
  {
  }

  lemma {:induction false} GeometricParity(a: nat, n: nat)
    requires a % 2 == 1
    ensures Geometric(a, n) % 2 == n % 2
  {
    if n > 0 {
      GeometricParity(a, n - 1);
      SameParity(a, Geometric(a, n - 1));
      NextParity(a * Geometric(a, n - 1), n);
    }
  }

  lemma {:induction false} GeometricSplit(a: nat, m: nat, n: nat)
    ensures Geometric(a, m + n) == Geometric(a, m) + Power(a, m) * Geometric(a, n)
  {
    if m > 0 {
      GeometricSplit(a, m - 1, n);
      var g, p, h := Geometric(a, m - 1), Power(a, m - 1), Geometric(a, n);
      Expand(a, g, p * h);
      Associate(a, p, h);
    }
  }

  lemma TwiceOdd(g: nat, q: nat)
    ensures g + (4 * q + 1) * g == 2 * (g * (2 * q + 1))
  {
    Expand(g, 4 * q, 1);
    Expand(g, 2 * q, 1);
    Associate(2, g, 2 * q);
  }

  // The sum of n terms is divisible by exactly the powers of two that divide n.
  lemma {:induction false} GeometricDivisibility(a: nat, k: nat, n: nat)
    requires a % 4 == 1
    ensures Geometric(a, n) % Pow2(k) == 0 <==> n % Pow2(k) == 0
    decreases k
  {
    if k > 0 {
      GeometricParity(a, n);
      if n % 2 == 1 {
        OddNotDivisible(n, k);
        OddNotDivisible(Geometric(a, n), k);
      } else {
        var m := n / 2;
        var g, q := Geometric(a, m), Power(a, m) / 4;
        PowerModFour(a, m);
        GeometricSplit(a, m, m);
        TwiceOdd(g, q);
        ModHalves(g * (2 * q + 1), Pow2(k - 1));
        OddCancel(k - 1, g, 2 * q + 1);
        GeometricDivisibility(a, k - 1, m);
        ModHalves(m, Pow2(k - 1));
      }
    }
  }

  // ---------------------------------------------------------------- the period

  lemma {:induction false} IterateRange(a: nat, c: nat, k: nat, x: int, n: nat)
    requires 0 <= x < Pow2(k)
    ensures 0 <= Iterate(a, c, k, x, n) < Pow2(k)
  {
  }

  // Every state is first met again after exactly 2^k steps, and then after every multiple.
  lemma {:induction false} ReturnsExactly(a: nat, c: nat, k: nat, x: int, n: nat)
    requires FullPeriod(a, c) && 0 <= x < Pow2(k)
    ensures Iterate(a, c, k, x, n) == x <==> n % Pow2(k) == 0
  {
    var u, odd := Unreduced(a, c, x, n), OddFactor(a, c, x);
    IterateClosedForm(a, c, k, x, n);
    ModUnique(x, Pow2(k), 0, x);
    ModDifference(u, x, Pow2(k));
    UnreducedDifference(a, c, x, n);
    OddCancel(k, Geometric(a, n), odd);
    GeometricDivisibility(a, k, n);
  }

  lemma {:induction false} IterateSum(a: nat, c: nat, k: nat, x: int, m: nat, n: nat)
    ensures Iterate(a, c, k, x, m + n) == Iterate(a, c, k, Iterate(a, c, k, x, m), n)
  {
    if n > 0 {
      IterateSum(a, c, k, x, m, n - 1);
    }
  }

  // Two moments of a run show the same state exactly when they are a multiple of 2^k apart.
  lemma {:induction false} SameStateIff(a: nat, c: nat, k: nat, x: int, i: nat, j: nat)
    requires FullPeriod(a, c) && 0 <= x < Pow2(k) && i <= j
    ensures Iterate(a, c, k, x, i) == Iterate(a, c, k, x, j) <==> (j - i) % Pow2(k) == 0
  {
    IterateRange(a, c, k, x, i);
    IterateSum(a, c, k, x, i, j - i);
    ReturnsExactly(a, c, k, Iterate(a, c, k, x, i), j - i);
  }

  // ---------------------------------------------------------------- the orbit

  function Orbit(a: nat, c: nat, k: nat, x: int, n: nat): set<int> {
    set i | 0 <= i < n :: Iterate(a, c, k, x, i)
  }

  function Below(n: nat): (s: set<int>)
    ensures forall i :: i in s <==> 0 <= i < n
  {
    if n == 0 then {} else Below(n - 1) + {n - 1}
  }

  lemma {:induction false} BelowSize(n: nat)
    ensures |Below(n)| == n
  {
    if n > 0 {
      BelowSize(n - 1);
    }
  }

  lemma {:induction false} OrbitSize(a: nat, c: nat, k: nat, x: int, n: nat)
    requires FullPeriod(a, c) && 0 <= x < Pow2(k) && n <= Pow2(k)
    ensures |Orbit(a, c, k, x, n)| == n
  {
    if n > 0 {
      OrbitSize(a, c, k, x, n - 1);
      forall i | 0 <= i < n - 1 ensures Iterate(a, c, k, x, i) != Iterate(a, c, k, x, n - 1) {
        SameStateIff(a, c, k, x, i, n - 1);
        ModUnique(n - 1 - i, Pow2(k), 0, n - 1 - i);
      }
      assert Orbit(a, c, k, x, n) == Orbit(a, c, k, x, n - 1) + {Iterate(a, c, k, x, n - 1)};
    }
  }

  lemma SubsetOfEqualSize<T>(s: set<T>, t: set<T>)
    requires s <= t && |s| == |t|
    ensures s == t
  {
    assert t == s + (t - s);
    assert |t| == |s| + |t - s|;
  }

  // One period visits every state.
  lemma {:induction false} VisitsEveryState(a: nat, c: nat, k: nat, x: int)
    requires FullPeriod(a, c) && 0 <= x < Pow2(k)
    ensures Orbit(a, c, k, x, Pow2(k)) == Below(Pow2(k))
  {
    var n := Pow2(k);
    OrbitSize(a, c, k, x, n);
    BelowSize(n);
    forall i | 0 <= i < n ensures Iterate(a, c, k, x, i) in Below(n) {
      IterateRange(a, c, k, x, i);
    }
    SubsetOfEqualSize(Orbit(a, c, k, x, n), Below(n));
  }

  // Halfway round, only the top bit of the state has changed.
  lemma {:induction false} HalfwayFlipsTopBit(a: nat, c: nat, k: nat, x: int)
    requires FullPeriod(a, c) && k > 0 && 0 <= x < Pow2(k)
    ensures var h := Pow2(k - 1); var y := Iterate(a, c, k, x, h);
      y == if x < h then x + h else x - h
  {
    var h := Pow2(k - 1);
    var y, z := Iterate(a, c, k, x, h), x % h;
    IterateRange(a, c, k, x, h);
    IterateClosedForm(a, c, k, x, h);
    IterateClosedForm(a, c, k - 1, z, h);
    var u := Unreduced(a, c, x, h);
    ModHalves(u, h);
    assert Unreduced(a, c, z, h) % h == u % h by {
      ModLinear(Power(a, h), x, c * Geometric(a, h), h);
    }
    ModUnique(h, h, 1, 0);
    ReturnsExactly(a, c, k - 1, z, h);
    assert y % h == x % h;
    ModUnique(h, 2 * h, 0, h);
    ReturnsExactly(a, c, k, x, h);
    OnlyNeighbours(x, y, h);
  }

  lemma OnlyNeighbours(x: int, y: int, h: nat)
    requires 0 <= x < 2 * h && 0 <= y < 2 * h && x % h == y % h && x != y
    ensures y == if x < h then x + h else x - h
  {
    if x < h {
      ModUnique(x, h, 0, x);
    } else {
      ModUnique(x, h, 1, x - h);
    }
    if y < h {
      ModUnique(y, h, 0, y);
    } else {
      ModUnique(y, h, 1, y - h);
    }
  }
}
