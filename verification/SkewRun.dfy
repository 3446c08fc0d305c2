// Whole runs of the skew heap: any sequence of insertions and removals of arbitrary
// entries, starting from the empty heap.
module SkewRun {
  import opened Powers
  import opened SkewTree
  import opened SkewCost

  datatype Op<K> = Add(key: K) | Del(key: K)

  // The reference: a run is a set of entries.
  function Members<K>(ops: seq<Op<K>>): set<K> {
    if ops == [] then {}
    else match Last(ops)
      case Add(k) => Members(Front(ops)) + {k}
      case Del(k) => Members(Front(ops)) - {k}
  }

  function Front<T>(s: seq<T>): seq<T>
    requires s != []
  {
    s[..|s| - 1]
  }

  function Last<T>(s: seq<T>): T
    requires s != []
  {
    s[|s| - 1]
  }

  // Callers add entries that are not in the heap and remove entries that are.
  ghost predicate Legal<K>(ops: seq<Op<K>>) {
    ops != [] ==>
      && Legal(Front(ops))
      && match Last(ops)
         case Add(k) => k !in Members(Front(ops))
         case Del(k) => k in Members(Front(ops))
  }

  ghost function State<K>(comp: (K, K) -> int, ops: seq<Op<K>>): (t: Tree<K>)
    requires Legal(ops)
    ensures Keys(t) == Members(ops) && Distinct(t)
  {
    if ops == [] then Leaf
    else
      var t := State(comp, Front(ops));
      match Last(ops)
      case Add(k) =>
        MergeDistinct(comp, t, Single(k));
        Insert(comp, t, k)
      case Del(k) =>
        RemoveKeys(comp, t, k);
        Remove(comp, t, k)
  }

  // Calls of skew_heap_merge over the whole run.
  ghost function Cost<K>(comp: (K, K) -> int, ops: seq<Op<K>>): nat
    requires Legal(ops)
  {
    if ops == [] then 0
    else
      var t := State(comp, Front(ops));
      Cost(comp, Front(ops)) +
      match Last(ops)
      case Add(k) => Calls(comp, t, Single(k))
      case Del(k) => RemoveCalls(comp, t, k)
  }

  ghost predicate AtMost<K>(ops: seq<Op<K>>, n: nat) {
    forall i | 0 <= i <= |ops| :: |Members(ops[..i])| <= n
  }

  // At every moment the comparator orders the entries then present.
  ghost predicate Orders<K>(comp: (K, K) -> int, ops: seq<Op<K>>) {
    TotalPreorder(comp, Members(ops)) && (ops != [] ==> Orders(comp, Front(ops)))
  }

  // The heap refines a priority queue over the run: it holds exactly what was inserted
  // and not removed, in heap order, and its root is a minimum of that.
  lemma {:induction false} RunRefinesPriorityQueue<K>(comp: (K, K) -> int, ops: seq<Op<K>>)
    requires Legal(ops) && Orders(comp, ops)
    ensures var t := State(comp, ops);
            && Keys(t) == Members(ops)
            && HeapOrdered(comp, t)
            && (t.Leaf? <==> Members(ops) == {})
            && (t.Node? ==> t.key in Members(ops) && Below(comp, t.key, Members(ops)))
  {
    if ops != [] {
      var t := State(comp, Front(ops));
      RunRefinesPriorityQueue(comp, Front(ops));
      match Last(ops)
      case Add(k) => MergeHeapOrdered(comp, t, Single(k));
      case Del(k) => RemoveHeapOrdered(comp, t, k);
    }
    if State(comp, ops).Node? {
      RootIsMinimum(comp, State(comp, ops));
    }
  }

  // The amortised allowance of one operation on a heap of at most n entries.
  function Allowance(n: nat): nat {
    3 * Log2(n + 1) + 1
  }

  lemma {:induction false} AddCost<K>(comp: (K, K) -> int, t: Tree<K>, k: K, n: nat)
    requires Size(t) < n
    ensures Calls(comp, t, Single(k)) + Potential(Insert(comp, t, k)) <= Potential(t) + Allowance(n)
  {
    InsertAmortisedLog(comp, t, k);
    Log2Monotone(Size(t) + 2, n + 1);
  }

  lemma {:induction false} DelCost<K>(comp: (K, K) -> int, t: Tree<K>, k: K, n: nat)
    requires Size(t) <= n && Distinct(t) && k in Keys(t)
    ensures RemoveCalls(comp, t, k) + Potential(Remove(comp, t, k)) <= Potential(t) + Allowance(n)
  {
    RemoveAmortisedLog(comp, t, k);
    Log2Monotone(Size(t) + 1, n + 1);
  }

  lemma {:induction false} StateSize<K>(comp: (K, K) -> int, ops: seq<Op<K>>)
    requires Legal(ops)
    ensures Size(State(comp, ops)) == |Members(ops)|
  {
    SizeIsKeyCount(State(comp, ops));
  }

  lemma Accumulate(before: nat, after: nat, m: nat, a: nat)
    requires before <= m * a && after <= before + a
    ensures after <= (m + 1) * a
  {
  }

  lemma {:induction false} RunAllowance<K>(comp: (K, K) -> int, ops: seq<Op<K>>, n: nat, a: nat)
    requires Legal(ops) && AtMost(ops, n) && a == Allowance(n)
    ensures Cost(comp, ops) + Potential(State(comp, ops)) <= |ops| * a
    decreases |ops|
  {
    if ops != [] {
      var prev := Front(ops);
      forall i | 0 <= i <= |prev| ensures |Members(prev[..i])| <= n {
        assert prev[..i] == ops[..i];
      }
      RunAllowance(comp, prev, n, a);
      assert ops[..|ops|] == ops && ops[..|prev|] == prev;
      StateSize(comp, prev);
      StateSize(comp, ops);
      match Last(ops) {
        case Add(k) => AddCost(comp, State(comp, prev), k, n);
        case Del(k) => DelCost(comp, State(comp, prev), k, n);
      }
      Accumulate(Cost(comp, prev) + Potential(State(comp, prev)), Cost(comp, ops) + Potential(State(comp, ops)),
                 |prev|, a);
    }
  }

  // The amortised bound over the whole run, whatever the comparator answers: m operations
  // on at most n entries make at most m * (3 * log2(n + 1) + 1) calls of skew_heap_merge.
  lemma {:induction false} RunCost<K>(comp: (K, K) -> int, ops: seq<Op<K>>, n: nat)
    requires Legal(ops) && AtMost(ops, n)
    ensures Cost(comp, ops) <= |ops| * Allowance(n)
  {
    RunAllowance(comp, ops, n, Allowance(n));
  }

  // ---------------------------------------------------------------- draining

  // Repeated removal of the root.
  function Drain<K(==)>(comp: (K, K) -> int, t: Tree<K>): seq<K>
    decreases Size(t)
  {
    if t.Leaf? then [] else [t.key] + Drain(comp, Merge(comp, t.left, t.right))
  }

  ghost predicate Sorted<K>(comp: (K, K) -> int, s: seq<K>) {
    forall i, j | 0 <= i < j < |s| :: Le(comp, s[i], s[j])
  }

  lemma {:induction false} RootAndRest<K>(comp: (K, K) -> int, t: Tree<K>)
    requires Distinct(t) && t.Node?
    ensures multiset(Keys(t)) == multiset{t.key} + multiset(Keys(Merge(comp, t.left, t.right)))
  {
    assert Keys(t) == {t.key} + Keys(Merge(comp, t.left, t.right));
  }

  lemma {:induction false} DrainContents<K>(comp: (K, K) -> int, t: Tree<K>)
    requires Distinct(t)
    ensures multiset(Drain(comp, t)) == multiset(Keys(t))
    decreases Size(t)
  {
    if t.Node? {
      var m := Merge(comp, t.left, t.right);
      assert multiset(Drain(comp, m)) == multiset(Keys(m)) by {
        MergeDistinct(comp, t.left, t.right);
        DrainContents(comp, m);
      }
      RootAndRest(comp, t);
      assert Drain(comp, t) == [t.key] + Drain(comp, m);
    }
  }

  lemma SortedCons<K>(comp: (K, K) -> int, k: K, d: seq<K>, s: set<K>)
    requires Sorted(comp, d) && multiset(d) == multiset(s) && Below(comp, k, s)
    ensures Sorted(comp, [k] + d)
  {
    forall j | 0 <= j < |d| ensures Le(comp, k, d[j]) {
      assert d[j] in multiset(d);
    }
  }

  // Draining is a heap sort.
  lemma {:induction false} DrainSorts<K>(comp: (K, K) -> int, t: Tree<K>)
    requires Distinct(t) && HeapOrdered(comp, t) && TotalPreorder(comp, Keys(t))
    ensures Sorted(comp, Drain(comp, t))
    ensures multiset(Drain(comp, t)) == multiset(Keys(t))
    decreases Size(t)
  {
    DrainContents(comp, t);
    if t.Node? {
      var m := Merge(comp, t.left, t.right);
      RootIsMinimum(comp, t);
      MergeDistinct(comp, t.left, t.right);
      MergeHeapOrdered(comp, t.left, t.right);
      DrainSorts(comp, m);
      SortedCons(comp, t.key, Drain(comp, m), Keys(m));
    }
  }
}
