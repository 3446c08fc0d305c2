// hash32 of lab7/libs/hash.c: multiplication by an odd constant modulo 2^32, of which
// the high bits are kept.
module Hash {
  import opened Powers
  import opened Modular
  import opened Words

  const GOLDEN_RATIO_PRIME_32: nat := 0x9e37_0001
  const INVERSE: nat := 0x61c9_0001

  // hash = val * GOLDEN_RATIO_PRIME_32, truncated to uint32_t.
  function Spread(val: nat): (h: nat)
    ensures h < TWO_32
  {
    val * GOLDEN_RATIO_PRIME_32 % TWO_32
  }

  function Hash32(val: nat, bits: nat): nat
    requires 1 <= bits <= 32
  {
    Quotient(Spread(val), Pow2(32 - bits))
  }

  // The constant is odd, so multiplication by it can be undone.
  function Gather(h: nat): (val: nat)
    ensures val < TWO_32
  {
    h * INVERSE % TWO_32
  }

  lemma Cancel(x: int, f: int, g: int, k: int, q: int, r: int)
    requires f * g == TWO_32 * k + 1 && x * f == TWO_32 * q + r
    ensures r * g == x + TWO_32 * (k * x - q * g)
  {
    Associate(x, f, g);
    Expand(g, TWO_32 * q, r);
    Associate(TWO_32, q, g);
    Expand(x, TWO_32 * k, 1);
    Associate(TWO_32, k, x);
  }

  lemma Inverse(x: nat, f: nat, g: nat)
    requires x < TWO_32 && f * g == TWO_32 * 0x3c6f_1030 + 1
    ensures x * f % TWO_32 * g % TWO_32 == x
  {
    var q, r, k := x * f / TWO_32, x * f % TWO_32, 0x3c6f_1030;
    Cancel(x, f, g, k, q, r);
    ModShift(x, k * x - q * g, TWO_32);
  }

  lemma SpreadIsBijection(x: nat)
    requires x < TWO_32
    ensures Gather(Spread(x)) == x && Spread(Gather(x)) == x
  {
    assert GOLDEN_RATIO_PRIME_32 * INVERSE == TWO_32 * 0x3c6f_1030 + 1;
    Inverse(x, GOLDEN_RATIO_PRIME_32, INVERSE);
    Inverse(x, INVERSE, GOLDEN_RATIO_PRIME_32);
  }

  // The 32-bit values that hash to h.
  function Bucket(h: nat, bits: nat): set<nat>
    requires 1 <= bits <= 32
  {
    set val: nat | val < TWO_32 && Hash32(val, bits) == h
  }

  // The values gathered from n consecutive products.
  function Gathered(from: nat, n: nat): (s: set<nat>)
    requires from + n <= TWO_32
    ensures forall val: nat :: val in s <==> val < TWO_32 && from <= Spread(val) < from + n
    ensures |s| == n
  {
    if n == 0 then {}
    else
      var rest := Gathered(from, n - 1);
      var h := from + n - 1;
      SpreadIsBijection(h);
      assert forall val: nat | val < TWO_32 && Spread(val) == h :: val == Gather(h) by {
        forall val: nat | val < TWO_32 && Spread(val) == h ensures val == Gather(h) {
          SpreadIsBijection(val);
        }
      }
      rest + {Gather(h)}
  }

  lemma QuotientInterval(w: nat, p: nat, h: nat)
    requires p > 0
    ensures Quotient(w, p) == h <==> p * h <= w < p * h + p
  {
    assert w == p * (w / p) + w % p;
    if p * h <= w < p * h + p {
      ModUnique(w, p, h, w - p * h);
    }
  }

  // The 2^32 products fall into n intervals of p.
  lemma Intervals(p: nat, n: nat, h: nat)
    requires p * n == TWO_32
    ensures if h < n then p * h + p <= TWO_32 else p * h >= TWO_32
  {
    if h < n {
      Expand(p, h, 1);
      MultipleOrder(p, h + 1, n);
    } else {
      MultipleOrder(p, n, h);
    }
  }

  lemma {:induction false} IntervalCount(bits: nat)
    requires bits <= 32
    ensures Pow2(32 - bits) * Pow2(bits) == TWO_32
  {
    Pow2Sum(32 - bits, bits);
    WordIsPower();
  }

  lemma {:induction false} WordIsPower()
    ensures Pow2(32) == TWO_32
  {
    assert Pow2(8) == 0x100;
    Pow2Sum(8, 8);
    Pow2Sum(16, 16);
  }

  lemma InBucket(val: nat, h: nat, bits: nat)
    requires 1 <= bits <= 32
    ensures var p := Pow2(32 - bits); Hash32(val, bits) == h <==> p * h <= Spread(val) < p * h + p
  {
    QuotientInterval(Spread(val), Pow2(32 - bits), h);
  }

  // Every value hashes below 2^bits, and every such hash is taken by exactly 2^(32 - bits)
  // of the 2^32 values.
  lemma {:induction false} Equidistributed(h: nat, bits: nat)
    requires 1 <= bits <= 32
    ensures |Bucket(h, bits)| == if h < Pow2(bits) then Pow2(32 - bits) else 0
  {
    var p := Pow2(32 - bits);
    var from := p * h;
    IntervalCount(bits);
    Intervals(p, Pow2(bits), h);
    forall val: nat ensures Hash32(val, bits) == h <==> from <= Spread(val) < from + p {
      InBucket(val, h, bits);
    }
    if h < Pow2(bits) {
      assert Bucket(h, bits) == Gathered(from, p);
    } else {
      assert Bucket(h, bits) == {};
    }
  }

  // hash32(1, bits) is made of the upper bits of the constant itself.
  lemma {:induction false} HashOfOne(bits: nat)
    requires 1 <= bits <= 32
    ensures var p := Pow2(32 - bits); p * Hash32(1, bits) <= 0x9e37_0001 < p * Hash32(1, bits) + p
    ensures Hash32(1, 32) == 0x9e37_0001 && Hash32(1, 10) == 632
  {
    InBucket(1, Hash32(1, bits), bits);
    InBucket(1, 0x9e37_0001, 32);
    assert Pow2(10) == 0x400 && Pow2(12) == 0x1000;
    Pow2Sum(10, 12);
    InBucket(1, 632, 10);
  }

  lemma SumOfRemainders(x: int, y: int)
    ensures (x % TWO_32 + y % TWO_32) % TWO_32 == (x + y) % TWO_32
  {
  }

  // Together with its value at 1 this determines the product at every x.
  lemma {:induction false} SpreadIsAdditive(x: nat, y: nat)
    ensures Spread(x + y) == (Spread(x) + Spread(y)) % 0x1_0000_0000
    ensures Spread(1) == 0x9e37_0001
  {
    Expand(GOLDEN_RATIO_PRIME_32, x, y);
    SumOfRemainders(x * GOLDEN_RATIO_PRIME_32, y * GOLDEN_RATIO_PRIME_32);
  }
}
