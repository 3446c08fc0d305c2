// proc_stride_comp_f of lab8/kern/schedule/default_sched_stride.c: strides are 32-bit
// counters that wrap around, compared by the sign of their wrapped difference.
module StrideOrder {
  import opened SkewTree
  import opened Words

  // The unsigned difference of two strides, taken as int32_t, decides.
  function Compare(x: int, y: int): int {
    var c := Int(x - y);
    if c > 0 then 1 else if c == 0 then 0 else -1
  }

  function ByStride<K(==)>(stride: map<K, int>): (K, K) -> int {
    (a, b) => if a in stride && b in stride then Compare(stride[a], stride[b]) else 0
  }

  // Seen from base, every stride of s lies less than half the circle ahead.
  ghost predicate AheadOf<K>(stride: map<K, int>, s: set<K>, base: int)
    requires s <= stride.Keys
  {
    forall x | x in s :: (stride[x] - base) % TWO_32 < TWO_31
  }

  // The strides of s fit in half the circle.
  ghost predicate InWindow<K>(stride: map<K, int>, s: set<K>)
    requires s <= stride.Keys
  {
    s == {} || exists m | m in s :: AheadOf(stride, s, stride[m])
  }

  // Ahead of a common base, comparing is comparing the distances.
  lemma CompareInWindow(base: int, x: int, y: int)
    requires (x - base) % TWO_32 < TWO_31 && (y - base) % TWO_32 < TWO_31
    ensures Compare(x, y) == -1 <==> (x - base) % TWO_32 < (y - base) % TWO_32
  {
    var a, b := (x - base) % TWO_32, (y - base) % TWO_32;
    assert (x - y) % TWO_32 == (a - b) % TWO_32;
  }

  lemma {:induction false} AheadIsPreorder<K>(stride: map<K, int>, s: set<K>, base: int)
    requires s <= stride.Keys && AheadOf(stride, s, base)
    ensures TotalPreorder(ByStride(stride), s)
  {
    forall a, b | a in s && b in s
      ensures Le(ByStride(stride), a, b) <==> (stride[a] - base) % TWO_32 <= (stride[b] - base) % TWO_32
    {
      CompareInWindow(base, stride[b], stride[a]);
    }
  }

  // A total preorder on a finite set has a minimum.
  lemma {:induction false} MinimumExists<K>(comp: (K, K) -> int, s: set<K>) returns (m: K)
    requires s != {} && TotalPreorder(comp, s)
    ensures m in s && Below(comp, m, s)
    decreases |s|
  {
    var x :| x in s;
    if s == {x} {
      m := x;
    } else {
      var n := MinimumExists(comp, s - {x});
      m := if Le(comp, n, x) then n else x;
      assert s == (s - {x}) + {x};
    }
  }

  // Whatever the minimum is compared with lies ahead of it.
  lemma {:induction false} MinimumIsBase<K>(stride: map<K, int>, s: set<K>, m: K)
    requires s <= stride.Keys && m in s && Below(ByStride(stride), m, s)
    ensures AheadOf(stride, s, stride[m])
  {
    forall x | x in s ensures (stride[x] - stride[m]) % TWO_32 < TWO_31 {
      assert Le(ByStride(stride), m, x);
    }
  }

  // Exactly when the comparator is usable by the heap: the strides fit in half the circle.
  lemma {:induction false} PreorderIffWindow<K>(stride: map<K, int>, s: set<K>)
    requires s <= stride.Keys
    ensures TotalPreorder(ByStride(stride), s) <==> InWindow(stride, s)
  {
    if InWindow(stride, s) && s != {} {
      var m :| m in s && AheadOf(stride, s, stride[m]);
      AheadIsPreorder(stride, s, stride[m]);
    }
    if TotalPreorder(ByStride(stride), s) && s != {} {
      var m := MinimumExists(ByStride(stride), s);
      MinimumIsBase(stride, s, m);
    }
  }

  // ---------------------------------------------------------------- turns

  // A turn of k advances its stride.
  function Charge<K>(stride: map<K, int>, k: K, pass: nat): map<K, int>
    requires k in stride
  {
    stride[k := (stride[k] + pass) % TWO_32]
  }

  lemma PassAhead(x: int, pass: nat)
    requires pass < TWO_31
    ensures ((x + pass) % TWO_32 - x) % TWO_32 == pass
  {
  }

  // The minimum may advance by a pass: seen from where it was, nobody is half the circle away.
  lemma {:induction false} ChargeKeepsPreorder<K>(stride: map<K, int>, r: set<K>, p: K, pass: nat)
    requires r <= stride.Keys && p in r && Below(ByStride(stride), p, r) && pass < TWO_31
    ensures TotalPreorder(ByStride(Charge(stride, p, pass)), r)
  {
    MinimumIsBase(stride, r, p);
    PassAhead(stride[p], pass);
    AheadIsPreorder(Charge(stride, p, pass), r, stride[p]);
  }

  // ---------------------------------------------------------------- counters without wrap-around

  // Unbounded counters for the strides of s that are nowhere half the circle apart.
  ghost predicate Unwraps<K>(counter: map<K, int>, stride: map<K, int>, s: set<K>)
    requires s <= stride.Keys
  {
    && s <= counter.Keys
    && (forall k | k in s :: Int(counter[k]) == Int(stride[k]))
    && forall a, b | a in s && b in s :: counter[a] - counter[b] < TWO_31
  }

  lemma SameInt(x: int, a: int)
    requires Int(x) == Int(a)
    ensures x % TWO_32 == a % TWO_32
  {
  }

  lemma DifferenceOf(x: int, y: int)
    ensures (x % TWO_32 - y % TWO_32) % TWO_32 == (x - y) % TWO_32
  {
  }

  lemma CompareIsTrue(x: int, y: int, a: int, b: int)
    requires Int(x) == Int(a) && Int(y) == Int(b) && -TWO_31 < a - b < TWO_31
    ensures Compare(x, y) == -1 <==> a < b
  {
    SameInt(x, a);
    SameInt(y, b);
    DifferenceOf(x, y);
    DifferenceOf(a, b);
    assert (x - y) % TWO_32 == (a - b) % TWO_32;
  }

  // Such counters exist exactly when the comparator is a total preorder, which is then the
  // order of the counters.
  lemma {:induction false} UnwrapsIffPreorder<K>(stride: map<K, int>, s: set<K>)
    requires s <= stride.Keys
    ensures (exists counter :: Unwraps(counter, stride, s)) <==> TotalPreorder(ByStride(stride), s)
    ensures forall counter, a, b | Unwraps(counter, stride, s) && a in s && b in s ::
              Lt(ByStride(stride), a, b) <==> counter[a] < counter[b]
  {
    forall counter, a, b | Unwraps(counter, stride, s) && a in s && b in s
      ensures Lt(ByStride(stride), a, b) <==> counter[a] < counter[b]
    {
      CompareIsTrue(stride[a], stride[b], counter[a], counter[b]);
    }
    if TotalPreorder(ByStride(stride), s) {
      PreorderIffWindow(stride, s);
      var counter := Counters(stride, s);
    }
  }

  // The counter for stride x that is the next one from m on.
  function Unroll(x: int, m: int): int {
    m + (x - m) % TWO_32
  }

  lemma Unrolled(x: int, m: int)
    ensures Int(Unroll(x, m)) == Int(x)
    ensures (x - m) % TWO_32 < TWO_31 ==> m <= Unroll(x, m) < m + TWO_31
  {
    var q := (x - m) / TWO_32;
    assert Unroll(x, m) == x - TWO_32 * q;
  }

  lemma {:induction false} Counters<K>(stride: map<K, int>, s: set<K>) returns (counter: map<K, int>)
    requires s <= stride.Keys && InWindow(stride, s)
    ensures Unwraps(counter, stride, s)
  {
    if s == {} {
      counter := map[];
    } else {
      var m :| m in s && AheadOf(stride, s, stride[m]);
      counter := map k | k in s :: Unroll(stride[k], stride[m]);
      forall k | k in s
        ensures Int(counter[k]) == Int(stride[k]) && stride[m] <= counter[k] < stride[m] + TWO_31
      {
        Unrolled(stride[k], stride[m]);
      }
    }
  }
}
