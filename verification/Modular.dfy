// Facts about remainders with a variable modulus.
module Modular {
  import opened Powers

  lemma MultipleAtLeast(m: nat, d: int)
    requires d >= 1
    ensures m * d >= m
  {
  }

  lemma MultipleOrder(m: nat, x: int, y: int)
    requires x <= y
    ensures m * x <= m * y
  {
  }

  lemma Distribute(m: int, x: int, y: int)
    ensures m * (x - y) == m * x - m * y
  {
  }

  lemma Expand(m: int, x: int, y: int)
    ensures m * (x + y) == m * x + m * y == (x + y) * m
  {
  }

  lemma Associate(x: int, y: int, z: int)
    ensures x * (y * z) == (x * y) * z == y * (x * z)
  {
  }

  lemma ModUnique(x: int, m: nat, q: int, r: int)
    requires 0 <= r < m && x == m * q + r
    ensures x % m == r && x / m == q
  {
    var q' := x / m;
    assert x == m * q' + x % m;
    Distribute(m, q', q);
    Distribute(m, q, q');
    if q' > q {
      MultipleAtLeast(m, q' - q);
    } else if q' < q {
      MultipleAtLeast(m, q - q');
    }
  }

  // A right shift of w by k bits is Quotient(w, Pow2(k)).
  function Quotient(w: nat, p: nat): nat
    requires p > 0
  {
    w / p
  }

  lemma ModShift(x: int, t: int, m: nat)
    requires m > 0
    ensures (x + m * t) % m == x % m
  {
    var q := x / m;
    assert x + m * t == m * (q + t) + x % m;
    ModUnique(x + m * t, m, q + t, x % m);
  }

  // Equal remainders are a divisible difference.
  lemma ModDifference(x: int, y: int, m: nat)
    requires m > 0
    ensures x % m == y % m <==> (x - y) % m == 0
  {
    var qx, qy := x / m, y / m;
    if x % m == y % m {
      assert x - y == m * (qx - qy);
      ModUnique(x - y, m, qx - qy, 0);
    }
    if (x - y) % m == 0 {
      var t := (x - y) / m;
      assert x == y + m * t;
      ModShift(y, t, m);
    }
  }

  // A linear step may reduce its argument first.
  lemma ModLinear(a: int, x: int, c: int, m: nat)
    requires m > 0
    ensures (a * (x % m) + c) % m == (a * x + c) % m
  {
    var q, r := x / m, x % m;
    assert a * x == a * r + m * (a * q) by {
      assert x == m * q + r;
      assert a * (m * q) == m * (a * q);
    }
    ModShift(a * r + c, a * q, m);
  }

  lemma ModHalves(x: int, m: nat)
    requires m > 0
    ensures (2 * x) % (2 * m) == 2 * (x % m)
    ensures (x % (2 * m)) % m == x % m
  {
    var q, r := x / m, x % m;
    assert 2 * x == (2 * m) * q + 2 * r by {
      assert (2 * m) * q == 2 * (m * q);
    }
    ModUnique(2 * x, 2 * m, q, 2 * r);
    var q', r' := x / (2 * m), x % (2 * m);
    assert x == r' + m * (2 * q') by {
      assert (2 * m) * q' == m * (2 * q');
    }
    ModShift(r', 2 * q', m);
  }

  // Odd factors do not matter to divisibility by a power of two.
  lemma {:induction false} OddCancel(k: nat, x: int, u: int)
    requires u % 2 == 1
    ensures (x * u) % Pow2(k) == 0 <==> x % Pow2(k) == 0
  {
    if k > 0 {
      var p := Pow2(k - 1);
      if x % 2 == 0 {
        var y := x / 2;
        assert x * u == 2 * (y * u);
        ModHalves(y * u, p);
        ModHalves(y, p);
        OddCancel(k - 1, y, u);
      } else {
        OddProduct(x, u);
        OddNotDivisible(x, k);
        OddNotDivisible(x * u, k);
      }
    }
  }

  lemma OddProduct(x: int, u: int)
    requires x % 2 == 1 && u % 2 == 1
    ensures (x * u) % 2 == 1
  {
    var y, v := x / 2, u / 2;
    assert x * u == 2 * (y * u + v) + 1 by {
      Expand(u, 2 * y, 1);
      Associate(2, y, u);
    }
  }

  lemma OddNotDivisible(x: int, k: nat)
    requires x % 2 == 1 && k > 0
    ensures x % Pow2(k) != 0
  {
    var p := Pow2(k - 1);
    if x % Pow2(k) == 0 {
      var q := x / (2 * p);
      assert x == 2 * (p * q) by {
        assert (2 * p) * q == 2 * (p * q);
      }
    }
  }

  // Any number not divisible by 2^k is a smaller power of two times an odd number.
  lemma {:induction false} OddPart(q: int, k: nat) returns (v: nat, m: int)
    requires q % Pow2(k) != 0
    ensures v < k && m % 2 == 1 && q == Pow2(v) * m
    decreases k
  {
    assert k > 0;
    if q % 2 == 1 {
      v, m := 0, q;
    } else {
      var h := q / 2;
      ModHalves(h, Pow2(k - 1));
      v, m := OddPart(h, k - 1);
      assert q == 2 * (Pow2(v) * m);
      assert Pow2(v + 1) * m == 2 * (Pow2(v) * m);
      v := v + 1;
    }
  }
}
