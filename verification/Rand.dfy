// lab7/libs/rand.c, with the do_div macro of lab7/libs/riscv.h expanded as written.
module Rand {
  import opened Powers
  import opened Modular
  import opened Words
  import L = Lcg

  const A: nat := 0x5_DEEC_E66D
  const C: nat := 0xB
  const STATES: nat := 0x1_0000_0000_0000       // 2^48
  const HALF_STATES: nat := 0x8000_0000_0000    // 2^47
  const RAND_MAX: nat := 2147483647

  lemma Constants()
    ensures Pow2(48) == STATES && Pow2(47) == HALF_STATES && L.FullPeriod(A, C)
  {
    assert Pow2(12) == 0x1000;
    Pow2Sum(12, 12);
    Pow2Sum(24, 24);
  }

  // Bitwise conjunction of two unsigned numbers.
  function BitAnd(x: nat, y: nat): nat {
    if x == 0 || y == 0 then 0 else 2 * BitAnd(x / 2, y / 2) + (if x % 2 == 1 && y % 2 == 1 then 1 else 0)
  }

  lemma {:induction false} MaskStep(x: nat, p: nat, p': nat)
    requires x > 0 && p > 0 && p' == 2 * p && BitAnd(x / 2, p - 1) == (x / 2) % p
    ensures BitAnd(x, p' - 1) == x % p'
  {
    assert (p' - 1) / 2 == p - 1 && (p' - 1) % 2 == 1;
    ModBit(x, p);
  }

  lemma {:induction false} MaskIsRemainder(x: nat, k: nat)
    ensures BitAnd(x, Pow2(k) - 1) == x % Pow2(k)
  {
    if x == 0 {
      ModUnique(0, Pow2(k), 0, 0);
    } else if k > 0 {
      MaskIsRemainder(x / 2, k - 1);
      MaskStep(x, Pow2(k - 1), Pow2(k));
    }
  }

  lemma ModBit(x: nat, p: nat)
    requires p > 0
    ensures x % (2 * p) == 2 * ((x / 2) % p) + x % 2
  {
    var h := x / 2;
    var q, r := h / p, h % p;
    assert x == (2 * p) * q + (2 * r + x % 2) by {
      assert h == p * q + r;
      Associate(2, p, q);
    }
    ModUnique(x, 2 * p, q, 2 * r + x % 2);
  }

  // The update of next, in 64-bit arithmetic with the 48-bit mask.
  function Update(next: nat): nat {
    BitAnd((next * A + C) % TWO_64, 0xFFFF_FFFF_FFFF)
  }

  // The value rand() derives from the updated state: the base argument of do_div is not
  // parenthesised, so 1 is added to the remainder by RAND_MAX.
  function Output(next: nat): (r: nat)
    ensures 1 <= r <= RAND_MAX
  {
    next / 0x1000 % RAND_MAX + 1
  }

  // The value is the one number in range that is congruent to the upper bits plus 1.
  lemma OutputIsResidue(next: nat)
    ensures (next / 0x1000 - (Output(next) - 1)) % 0x7FFF_FFFF == 0
  {
    var h := next / 0x1000;
    assert h - h % 0x7FFF_FFFF == 0x7FFF_FFFF * (h / 0x7FFF_FFFF);
  }

  lemma WrapThenMask(v: nat)
    ensures (v % TWO_64) % STATES == v % STATES
  {
    var q, r := v / TWO_64, v % TWO_64;
    assert v == r + STATES * (0x1_0000 * q);
    ModShift(r, 0x1_0000 * q, STATES);
  }

  // The wrapped, masked update is the 48-bit congruential step.
  lemma UpdateIsStep(next: nat)
    ensures Update(next) == L.Next(A, C, 48, next)
  {
    Constants();
    MaskIsRemainder((next * A + C) % TWO_64, 48);
    WrapThenMask(next * A + C);
  }

  // The static variable next and the two functions that use it.
  class Generator {
    var next: nat

    constructor ()
      ensures next == 1
    {
      next := 1;
    }

    method Rand() returns (r: nat)
      modifies this
      ensures next == L.Next(A, C, 48, old(next)) == (0x5_DEEC_E66D * old(next) + 0xB) % 0x1_0000_0000_0000
      ensures 1 <= r <= 0x7FFF_FFFF && (next / 0x1000 - (r - 1)) % 0x7FFF_FFFF == 0
      ensures r == Output(next)
    {
      UpdateIsStep(next);
      Constants();
      OutputIsResidue(Update(next));
      next := BitAnd((next * A + C) % TWO_64, 0xFFFF_FFFF_FFFF);
      var result := next / 0x1000;
      r := result % RAND_MAX + 1;
    }

    method Srand(seed: nat)
      requires seed < 0x1_0000_0000
      modifies this
      ensures next == seed < STATES
    {
      next := seed;
    }
  }

  // ---------------------------------------------------------------- whole runs

  // The state after n calls of rand() from state x, and the value of the n-th call.
  function StateAfter(x: nat, n: nat): int {
    L.Iterate(A, C, 48, x, n)
  }

  function Value(x: nat, n: nat): int
    requires x < STATES && n > 0
  {
    StateInRange(x, n);
    Output(StateAfter(x, n))
  }

  lemma {:induction false} StateInRange(x: nat, n: nat)
    requires x < STATES
    ensures 0 <= StateAfter(x, n) < STATES
  {
    Constants();
    L.IterateRange(A, C, 48, x, n);
  }

  lemma {:induction false} StateStep(x: nat, n: nat)
    ensures StateAfter(x, n + 1) == (0x5_DEEC_E66D * StateAfter(x, n) + 0xB) % 0x1_0000_0000_0000
    ensures StateAfter(x, 0) == x
  {
    Constants();
  }

  lemma NextValue(x: nat, m: nat, n: nat, s: nat, s': nat, v: nat)
    requires x < STATES && n == m + 1 && StateAfter(x, m) == s
    requires s' == (0x5_DEEC_E66D * s + 0xB) % 0x1_0000_0000_0000 && v == s' / 0x1000 % 0x7FFF_FFFF + 1
    ensures StateAfter(x, n) == s' && Value(x, n) == v
  {
    StateStep(x, m);
  }

  lemma FirstSteps()
    ensures 25214903928 == (0x5_DEEC_E66D * 1 + 0xB) % 0x1_0000_0000_0000
    ensures 206026503483683 == (0x5_DEEC_E66D * 25214903928 + 0xB) % 0x1_0000_0000_0000
    ensures 245470556921330 == (0x5_DEEC_E66D * 206026503483683 + 0xB) % 0x1_0000_0000_0000
    ensures 6155983 == 25214903928 / 0x1000 % 0x7FFF_FFFF + 1
    ensures 907315447 == 206026503483683 / 0x1000 % 0x7FFF_FFFF + 1
    ensures 1947276717 == 245470556921330 / 0x1000 % 0x7FFF_FFFF + 1
  {
  }

  // The first three states, and what the calls return, without srand or after srand(1).
  function FirstState(n: nat): nat {
    if n == 0 then 1 else if n == 1 then 25214903928 else if n == 2 then 206026503483683 else 245470556921330
  }

  function FirstValue(n: nat): nat {
    if n == 1 then 6155983 else if n == 2 then 907315447 else 1947276717
  }

  lemma {:induction false} FirstValues(x: nat, n: nat)
    requires x == 1 && 1 <= n <= 3
    ensures StateAfter(x, n) == FirstState(n) && Value(x, n) == FirstValue(n)
  {
    FirstSteps();
    StateStep(x, n);
    if n > 1 {
      FirstValues(x, n - 1);
    }
    NextValue(x, n - 1, n, FirstState(n - 1), FirstState(n), FirstValue(n));
  }

  // From any state, the generator is back in that state after n calls exactly when n is a
  // multiple of 2^48; in between it passes through every 48-bit state.
  lemma {:induction false} GeneratorPeriod(x: nat, n: nat)
    requires x < STATES
    ensures StateAfter(x, n) == x <==> n % STATES == 0
    ensures L.Orbit(A, C, 48, x, STATES) == L.Below(STATES)
  {
    Constants();
    L.ReturnsExactly(A, C, 48, x, n);
    L.VisitsEveryState(A, C, 48, x);
  }

  lemma ShiftedOutput(x: nat)
    ensures Output(x + HALF_STATES) != Output(x)
  {
    var z := x / 0x1000;
    var q, r := z / RAND_MAX, z % RAND_MAX;
    assert (x + HALF_STATES) / 0x1000 == z + 0x8_0000_0000;
    assert z + 0x8_0000_0000 == RAND_MAX * (q + 16) + (r + 16);
    if r + 16 < RAND_MAX {
      ModUnique(z + 0x8_0000_0000, RAND_MAX, q + 16, r + 16);
    } else {
      ModUnique(z + 0x8_0000_0000, RAND_MAX, q + 17, r + 16 - RAND_MAX);
    }
  }

  // Two calls half a period apart never return the same number.
  lemma {:induction false} HalfwayValuesDiffer(x: nat)
    requires x < STATES
    ensures var y := StateAfter(x, HALF_STATES); 0 <= y < STATES && Output(y) != Output(x)
  {
    Constants();
    L.HalfwayFlipsTopBit(A, C, 48, x);
    ShiftedOutput(if x < HALF_STATES then x else x - HALF_STATES);
  }

  lemma {:induction false} StateAfterSum(x: nat, m: nat, n: nat)
    requires x < STATES
    ensures 0 <= StateAfter(x, m) < STATES
    ensures StateAfter(x, m + n) == StateAfter(StateAfter(x, m), n)
  {
    StateInRange(x, m);
    L.IterateSum(A, C, 48, x, m, n);
  }

  ghost predicate RepeatsAfter(x: nat, q: nat)
    requires x < STATES
  {
    forall n: nat | n > 0 :: Value(x, n + q) == Value(x, n)
  }

  lemma {:induction false} RepeatsMultiples(x: nat, q: nat, n: nat, i: nat)
    requires x < STATES && RepeatsAfter(x, q) && n > 0
    ensures Value(x, n + i * q) == Value(x, n)
  {
    if i > 0 {
      RepeatsMultiples(x, q, n, i - 1);
      assert i * q == (i - 1) * q + q;
      assert Value(x, (n + (i - 1) * q) + q) == Value(x, n + (i - 1) * q);
    } else {
      assert i * q == 0;
    }
  }

  // The sequence of numbers rand() returns, not only its hidden state, has period exactly
  // 2^48 from every seed.
  lemma {:induction false} ValuesPeriod(x: nat, q: nat)
    requires x < STATES
    ensures RepeatsAfter(x, q) <==> q % STATES == 0
  {
    Constants();
    if q % STATES == 0 {
      forall n: nat | n > 0 ensures Value(x, n + q) == Value(x, n) {
        StateAfterSum(x, n, q);
        L.ReturnsExactly(A, C, 48, StateAfter(x, n), q);
      }
    } else if RepeatsAfter(x, q) {
      var i, t := HalfPeriodMultiple(q);
      RepeatsMultiples(x, q, 1, i);
      StateAfterSum(x, 1, i * q);
      var y := StateAfter(x, 1);
      StateAfterSum(y, STATES * t, HALF_STATES);
      ModUnique(STATES * t, STATES, t, 0);
      L.ReturnsExactly(A, C, 48, y, STATES * t);
      HalfwayValuesDiffer(y);
      assert false;
    }
  }

  lemma PositiveFactor(p: nat, m: int)
    requires p * m >= 0 && p > 0
    ensures m >= 0
  {
  }

  // A number that is not a multiple of 2^48 has a multiple half a period beyond one.
  lemma {:induction false} HalfPeriodMultiple(q: nat) returns (i: nat, t: nat)
    requires q % STATES != 0
    ensures i * q == STATES * t + HALF_STATES
  {
    Constants();
    var v, m := OddPart(q, 48);
    i := Pow2(47 - v);
    Pow2Sum(47 - v, v);
    Associate(i, Pow2(v), m);
    assert i * q == HALF_STATES * m;
    PositiveFactor(Pow2(v), m);
    t := m / 2;
    assert HALF_STATES * m == STATES * t + HALF_STATES;
  }
}
