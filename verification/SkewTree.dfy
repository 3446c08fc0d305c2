// The skew heap of lab7/libs/skew_heap.h on immutable trees.  A tree carries the
// identities of the heap entries; the comparator decides their order.
module SkewTree {

  datatype Tree<K> = Leaf | Node(key: K, left: Tree<K>, right: Tree<K>)

  function Keys<K>(t: Tree<K>): set<K> {
    match t
    case Leaf => {}
    case Node(k, l, r) => {k} + Keys(l) + Keys(r)
  }

  function Size<K>(t: Tree<K>): nat {
    match t
    case Leaf => 0
    case Node(_, l, r) => 1 + Size(l) + Size(r)
  }

  // No entry is linked twice.
  ghost predicate Distinct<K>(t: Tree<K>) {
    t.Node? ==>
      && t.key !in Keys(t.left)
      && t.key !in Keys(t.right)
      && Keys(t.left) !! Keys(t.right)
      && Distinct(t.left)
      && Distinct(t.right)
  }

  lemma UnionCount<K>(k: K, a: set<K>, b: set<K>)
    requires a !! b && k !in a && k !in b
    ensures |{k} + a + b| == 1 + |a| + |b|
  {
    assert |{k} + a| == 1 + |a|;
    assert |({k} + a) + b| == |{k} + a| + |b|;
  }

  lemma {:induction false} SizeIsKeyCount<K>(t: Tree<K>)
    requires Distinct(t)
    ensures Size(t) == |Keys(t)|
  {
    match t
    case Leaf =>
    case Node(k, l, r) =>
      SizeIsKeyCount(l);
      SizeIsKeyCount(r);
      UnionCount(k, Keys(l), Keys(r));
  }

  // ---------------------------------------------------------------- order

  // The comparator answers -1 exactly when its first argument is strictly smaller.
  predicate Lt<K>(comp: (K, K) -> int, a: K, b: K) {
    comp(a, b) == -1
  }

  predicate Le<K>(comp: (K, K) -> int, a: K, b: K) {
    !Lt(comp, b, a)
  }

  // What the heap needs of the comparator, and only on the entries at hand.
  ghost predicate TotalPreorder<K>(comp: (K, K) -> int, s: set<K>) {
    && (forall a, b | a in s && b in s :: Le(comp, a, b) || Le(comp, b, a))
    && (forall a, b, c | a in s && b in s && c in s :: Le(comp, a, b) && Le(comp, b, c) ==> Le(comp, a, c))
  }

  ghost predicate Below<K>(comp: (K, K) -> int, k: K, s: set<K>) {
    forall x | x in s :: Le(comp, k, x)
  }

  // Every parent is below its children.
  ghost predicate HeapOrdered<K>(comp: (K, K) -> int, t: Tree<K>) {
    t.Node? ==>
      && BelowRoot(comp, t.key, t.left)
      && BelowRoot(comp, t.key, t.right)
      && HeapOrdered(comp, t.left)
      && HeapOrdered(comp, t.right)
  }

  ghost predicate BelowRoot<K>(comp: (K, K) -> int, k: K, t: Tree<K>) {
    t.Node? ==> Le(comp, k, t.key)
  }

  // ---------------------------------------------------------------- operations

  // skew_heap_merge: the winner's old left subtree becomes its right one, and the
  // merged rest becomes its left one.
  function Merge<K>(comp: (K, K) -> int, a: Tree<K>, b: Tree<K>): (m: Tree<K>)
    ensures Keys(m) == Keys(a) + Keys(b)
    ensures Size(m) == Size(a) + Size(b)
    decreases Size(a) + Size(b)
  {
    if a.Leaf? then b
    else if b.Leaf? then a
    else if comp(a.key, b.key) == -1 then Node(a.key, Merge(comp, a.right, b), a.left)
    else Node(b.key, Merge(comp, a, b.right), b.left)
  }

  function Single<K>(k: K): (s: Tree<K>)
    ensures Keys(s) == {k} && Size(s) == 1
  {
    Node(k, Leaf, Leaf)
  }

  // skew_heap_insert.
  function Insert<K>(comp: (K, K) -> int, t: Tree<K>, k: K): Tree<K> {
    Merge(comp, t, Single(k))
  }

  // skew_heap_remove: the entry k, wherever it sits, is replaced by the merge of its subtrees.
  function Remove<K(==)>(comp: (K, K) -> int, t: Tree<K>, k: K): Tree<K>
    requires k in Keys(t)
  {
    if t.key == k then Merge(comp, t.left, t.right)
    else if k in Keys(t.left) then Node(t.key, Remove(comp, t.left, k), t.right)
    else Node(t.key, t.left, Remove(comp, t.right, k))
  }

  // ---------------------------------------------------------------- contents

  lemma {:induction false} MergeDistinct<K>(comp: (K, K) -> int, a: Tree<K>, b: Tree<K>)
    requires Distinct(a) && Distinct(b) && Keys(a) !! Keys(b)
    ensures Distinct(Merge(comp, a, b))
    decreases Size(a) + Size(b)
  {
    if a.Node? && b.Node? {
      if comp(a.key, b.key) == -1 {
        MergeDistinct(comp, a.right, b);
      } else {
        MergeDistinct(comp, a, b.right);
      }
    }
  }

  // Removal takes out exactly one entry.
  lemma {:induction false} RemoveKeys<K>(comp: (K, K) -> int, t: Tree<K>, k: K)
    requires Distinct(t) && k in Keys(t)
    ensures Keys(Remove(comp, t, k)) == Keys(t) - {k}
    ensures Size(Remove(comp, t, k)) == Size(t) - 1
    ensures Distinct(Remove(comp, t, k))
  {
    if t.key == k {
      MergeDistinct(comp, t.left, t.right);
    } else if k in Keys(t.left) {
      RemoveKeys(comp, t.left, k);
    } else {
      RemoveKeys(comp, t.right, k);
    }
  }

  // ---------------------------------------------------------------- heap order

  lemma {:induction false} MergeHeapOrdered<K>(comp: (K, K) -> int, a: Tree<K>, b: Tree<K>)
    requires TotalPreorder(comp, Keys(a) + Keys(b))
    requires HeapOrdered(comp, a) && HeapOrdered(comp, b)
    ensures HeapOrdered(comp, Merge(comp, a, b))
    decreases Size(a) + Size(b)
  {
    if a.Node? && b.Node? {
      assert Le(comp, a.key, b.key) || Le(comp, b.key, a.key);
      if comp(a.key, b.key) == -1 {
        MergeHeapOrdered(comp, a.right, b);
      } else {
        MergeHeapOrdered(comp, a, b.right);
      }
    }
  }

  // What is below the roots of two heaps is below the root of their merge.
  lemma MergeBelowRoot<K>(comp: (K, K) -> int, k: K, a: Tree<K>, b: Tree<K>)
    requires BelowRoot(comp, k, a) && BelowRoot(comp, k, b)
    ensures BelowRoot(comp, k, Merge(comp, a, b))
  {
  }

  lemma {:induction false} BelowChild<K>(comp: (K, K) -> int, k: K, t: Tree<K>, c: Tree<K>)
    requires t.Node? && (c == t.left || c == t.right)
    requires TotalPreorder(comp, {k} + Keys(t)) && HeapOrdered(comp, t) && BelowRoot(comp, k, t)
    ensures BelowRoot(comp, k, c)
  {
    if c.Node? {
      assert Le(comp, k, t.key) && Le(comp, t.key, c.key);
      assert c.key in Keys(c);
    }
  }

  lemma {:induction false} RemoveBelowRoot<K>(comp: (K, K) -> int, p: K, t: Tree<K>, k: K)
    requires TotalPreorder(comp, {p} + Keys(t)) && HeapOrdered(comp, t)
    requires k in Keys(t) && BelowRoot(comp, p, t)
    ensures BelowRoot(comp, p, Remove(comp, t, k))
  {
    if t.key == k {
      BelowChild(comp, p, t, t.left);
      BelowChild(comp, p, t, t.right);
      MergeBelowRoot(comp, p, t.left, t.right);
    }
  }

  // Splicing the merged subtrees in at any depth keeps heap order.
  lemma {:induction false} RemoveHeapOrdered<K>(comp: (K, K) -> int, t: Tree<K>, k: K)
    requires TotalPreorder(comp, Keys(t)) && HeapOrdered(comp, t)
    requires Distinct(t) && k in Keys(t)
    ensures HeapOrdered(comp, Remove(comp, t, k))
  {
    if t.key == k {
      MergeHeapOrdered(comp, t.left, t.right);
    } else if k in Keys(t.left) {
      RemoveHeapOrdered(comp, t.left, k);
      RemoveBelowRoot(comp, t.key, t.left, k);
    } else {
      RemoveHeapOrdered(comp, t.right, k);
      RemoveBelowRoot(comp, t.key, t.right, k);
    }
  }

  lemma {:induction false} RootIsMinimum<K>(comp: (K, K) -> int, t: Tree<K>)
    requires t.Node? && HeapOrdered(comp, t) && TotalPreorder(comp, Keys(t))
    ensures t.key in Keys(t) && Below(comp, t.key, Keys(t))
  {
    RootBelow(comp, t.key, t);
  }

  // What is below the root of a heap is below the whole heap.
  lemma {:induction false} RootBelow<K>(comp: (K, K) -> int, k: K, t: Tree<K>)
    requires HeapOrdered(comp, t) && TotalPreorder(comp, {k} + Keys(t)) && BelowRoot(comp, k, t)
    ensures Below(comp, k, Keys(t))
  {
    if t.Node? {
      BelowChild(comp, k, t, t.left);
      BelowChild(comp, k, t, t.right);
      RootBelow(comp, k, t.left);
      RootBelow(comp, k, t.right);
    }
  }
}
