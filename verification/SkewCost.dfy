// The amortised cost of the skew heap.  The cost of a merge is the number of calls
// of skew_heap_merge it makes; the potential of a tree is its number of right-heavy
// nodes.
module SkewCost {
  import opened Modular
  import opened Powers
  import opened SkewTree

  // Calls of skew_heap_merge made by merging a and b, the outermost one included.
  function Calls<K>(comp: (K, K) -> int, a: Tree<K>, b: Tree<K>): nat
    decreases Size(a) + Size(b)
  {
    if a.Leaf? || b.Leaf? then 1
    else if comp(a.key, b.key) == -1 then 1 + Calls(comp, a.right, b)
    else 1 + Calls(comp, a, b.right)
  }

  function RightSpine<K>(t: Tree<K>): nat {
    if t.Leaf? then 0 else 1 + RightSpine(t.right)
  }

  // A merge goes down the right spines until one of them is used up.
  lemma {:induction false} CallsBySpines<K>(comp: (K, K) -> int, a: Tree<K>, b: Tree<K>)
    ensures Calls(comp, a, b) <= 1 + RightSpine(a) + RightSpine(b)
    ensures Calls(comp, a, b) > RightSpine(a) || Calls(comp, a, b) > RightSpine(b)
    decreases Size(a) + Size(b)
  {
    if a.Node? && b.Node? {
      if comp(a.key, b.key) == -1 {
        CallsBySpines(comp, a.right, b);
      } else {
        CallsBySpines(comp, a, b.right);
      }
    }
  }

  // Calls made by Remove: one merge, at the place of the removed entry.
  function RemoveCalls<K(==)>(comp: (K, K) -> int, t: Tree<K>, k: K): nat
    requires k in Keys(t)
  {
    if t.key == k then Calls(comp, t.left, t.right)
    else if k in Keys(t.left) then RemoveCalls(comp, t.left, k)
    else RemoveCalls(comp, t.right, k)
  }

  function Heavy(left: nat, right: nat): nat {
    if left < right then 1 else 0
  }

  function Potential<K>(t: Tree<K>): nat {
    match t
    case Leaf => 0
    case Node(_, l, r) => Potential(l) + Potential(r) + Heavy(Size(l), Size(r))
  }

  // Right-heavy nodes down the left spine.
  function LeftSpineHeavy<K>(t: Tree<K>): nat {
    match t
    case Leaf => 0
    case Node(_, l, r) => Heavy(Size(l), Size(r)) + LeftSpineHeavy(l)
  }

  // Nodes down the right spine that are not right-heavy.
  function RightSpineLight<K>(t: Tree<K>): nat {
    match t
    case Leaf => 0
    case Node(_, l, r) => 1 - Heavy(Size(l), Size(r)) + RightSpineLight(r)
  }

  lemma {:induction false} SpinesAreLogarithmic<K>(t: Tree<K>)
    ensures Pow2(LeftSpineHeavy(t)) <= Size(t) + 1
    ensures Pow2(RightSpineLight(t)) <= Size(t) + 1
  {
    if t.Node? {
      SpinesAreLogarithmic(t.left);
      SpinesAreLogarithmic(t.right);
    }
  }

  // What one merge pays: calls plus the change of potential.
  lemma {:induction false} MergeAmortised<K>(comp: (K, K) -> int, a: Tree<K>, b: Tree<K>)
    ensures Calls(comp, a, b) + Potential(Merge(comp, a, b)) <=
            Potential(a) + Potential(b)
            + LeftSpineHeavy(Merge(comp, a, b)) + RightSpineLight(a) + RightSpineLight(b) + 1
    decreases Size(a) + Size(b)
  {
    if a.Node? && b.Node? {
      if comp(a.key, b.key) == -1 {
        MergeAmortised(comp, a.right, b);
      } else {
        MergeAmortised(comp, a, b.right);
      }
    }
  }

  lemma {:induction false} SpineLog<K>(t: Tree<K>, n: nat)
    requires Size(t) <= n
    ensures LeftSpineHeavy(t) <= Log2(n + 1) && RightSpineLight(t) <= Log2(n + 1)
  {
    SpinesAreLogarithmic(t);
    Log2Bound(LeftSpineHeavy(t), n + 1);
    Log2Bound(RightSpineLight(t), n + 1);
  }

  // ---------------------------------------------------------------- removal of an inner entry

  // The subtree rooted at entry k.
  function Subtree<K(==)>(t: Tree<K>, k: K): (s: Tree<K>)
    requires k in Keys(t)
    ensures s.Node? && s.key == k && Size(s) <= Size(t)
  {
    if t.key == k then t
    else if k in Keys(t.left) then Subtree(t.left, k)
    else Subtree(t.right, k)
  }

  // Ancestors of k that removal can turn right-heavy: k is in their left subtree, and
  // their subtrees have equal sizes.
  function TurnedHeavy<K(==)>(t: Tree<K>, k: K): nat
    requires k in Keys(t)
  {
    if t.key == k then 0
    else if k in Keys(t.left) then
      TurnedHeavy(t.left, k) + (if Size(t.left) == Size(t.right) then 1 else 0)
    else TurnedHeavy(t.right, k)
  }

  lemma DoubleProduct(p: nat, s: nat)
    ensures (2 * p) * s == 2 * (p * s)
  {
  }

  // Their sizes at least double on the way up.
  lemma {:induction false} TurnedHeavyDoubles<K>(t: Tree<K>, k: K)
    requires k in Keys(t)
    ensures Pow2(TurnedHeavy(t, k)) * (Size(Subtree(t, k)) + 1) <= Size(t) + 1
  {
    if t.key == k {
    } else if k in Keys(t.left) {
      TurnedHeavyDoubles(t.left, k);
      if Size(t.left) == Size(t.right) {
        DoubleProduct(Pow2(TurnedHeavy(t.left, k)), Size(Subtree(t, k)) + 1);
      }
    } else {
      TurnedHeavyDoubles(t.right, k);
    }
  }

  // Removal makes the calls of one merge, that of the subtrees of k.
  lemma {:induction false} RemoveCallsAt<K>(comp: (K, K) -> int, t: Tree<K>, k: K)
    requires k in Keys(t)
    ensures RemoveCalls(comp, t, k) == Calls(comp, Subtree(t, k).left, Subtree(t, k).right)
  {
    if t.key == k {
    } else if k in Keys(t.left) {
      RemoveCallsAt(comp, t.left, k);
    } else {
      RemoveCallsAt(comp, t.right, k);
    }
  }

  // Removal changes the potential as the merge does, plus at most one for each such ancestor.
  lemma {:induction false} RemovePotential<K>(comp: (K, K) -> int, t: Tree<K>, k: K)
    requires Distinct(t) && k in Keys(t)
    ensures var s := Subtree(t, k);
            Potential(Remove(comp, t, k)) + Potential(s.left) + Potential(s.right) <=
            Potential(t) + Potential(Merge(comp, s.left, s.right)) + TurnedHeavy(t, k)
  {
    if t.key == k {
    } else if k in Keys(t.left) {
      RemovePotential(comp, t.left, k);
      RemoveKeys(comp, t.left, k);
    } else {
      RemovePotential(comp, t.right, k);
      RemoveKeys(comp, t.right, k);
    }
  }

  lemma TwoDoublings(up: nat, spine: nat, part: nat, whole: nat)
    requires Pow2(spine) <= part && Pow2(up) * part <= whole
    ensures up + spine <= Log2(whole)
  {
    Pow2Sum(up, spine);
    MultipleOrder(Pow2(up), Pow2(spine), part);
    Log2Bound(up + spine, whole);
  }

  // The ancestors a removal turns and the left spine of the merged part share one logarithm.
  lemma {:induction false} TurnedHeavyLog<K>(t: Tree<K>, k: K, m: Tree<K>)
    requires k in Keys(t) && Size(m) < Size(Subtree(t, k))
    ensures TurnedHeavy(t, k) + LeftSpineHeavy(m) <= Log2(Size(t) + 1)
  {
    TurnedHeavyDoubles(t, k);
    SpinesAreLogarithmic(m);
    TwoDoublings(TurnedHeavy(t, k), LeftSpineHeavy(m), Size(Subtree(t, k)) + 1, Size(t) + 1);
  }

  // Everything a removal pays for: the ancestors it turns, and the spines of its merge.
  function RemoveSurcharge<K(==)>(comp: (K, K) -> int, t: Tree<K>, k: K): nat
    requires k in Keys(t)
  {
    var s := Subtree(t, k);
    TurnedHeavy(t, k) + LeftSpineHeavy(Merge(comp, s.left, s.right)) + RightSpineLight(s.left) + RightSpineLight(s.right)
  }

  lemma {:induction false} RemoveSurchargeLog<K>(comp: (K, K) -> int, t: Tree<K>, k: K)
    requires k in Keys(t)
    ensures RemoveSurcharge(comp, t, k) <= 3 * Log2(Size(t) + 1)
  {
    var s := Subtree(t, k);
    TurnedHeavyLog(t, k, Merge(comp, s.left, s.right));
    SpineLog(s.left, Size(t));
    SpineLog(s.right, Size(t));
  }

  lemma {:induction false} RemoveAmortised<K>(comp: (K, K) -> int, t: Tree<K>, k: K)
    requires Distinct(t) && k in Keys(t)
    ensures RemoveCalls(comp, t, k) + Potential(Remove(comp, t, k)) <=
            Potential(t) + RemoveSurcharge(comp, t, k) + 1
  {
    var s := Subtree(t, k);
    RemovePotential(comp, t, k);
    RemoveCallsAt(comp, t, k);
    MergeAmortised(comp, s.left, s.right);
  }

  // Removing any entry, however deep, costs no more than this, amortised.
  lemma {:induction false} RemoveAmortisedLog<K>(comp: (K, K) -> int, t: Tree<K>, k: K)
    requires Distinct(t) && k in Keys(t)
    ensures RemoveCalls(comp, t, k) + Potential(Remove(comp, t, k)) <=
            Potential(t) + 3 * Log2(Size(t) + 1) + 1
  {
    RemoveAmortised(comp, t, k);
    RemoveSurchargeLog(comp, t, k);
  }

  // Inserting into a heap: the new entry is a heap of one.
  lemma {:induction false} InsertAmortisedLog<K>(comp: (K, K) -> int, t: Tree<K>, k: K)
    ensures Calls(comp, t, Single(k)) + Potential(Insert(comp, t, k)) <=
            Potential(t) + 3 * Log2(Size(t) + 2) + 1
  {
    MergeAmortised(comp, t, Single(k));
    SpineLog(Insert(comp, t, k), Size(t) + 1);
    SpineLog(t, Size(t) + 1);
    SpineLog(Single(k), Size(t) + 1);
  }
}
