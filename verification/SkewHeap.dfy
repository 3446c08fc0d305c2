// lab7/libs/skew_heap.h on linked entries.  Every method takes, as a ghost argument,
// the tree its heap represents, and is specified by the operation of SkewTree on it.
module SkewHeap {
  import opened SkewTree
  import opened SkewCost

  class Entry {
    var parent: Entry?
    var left: Entry?
    var right: Entry?

    // skew_heap_init.
    constructor ()
      ensures parent == null && left == null && right == null
    {
      parent, left, right := null, null, null;
    }
  }

  // r is the root of a linked structure of shape t: children and, below the root,
  // parents agree with t.  Nothing is said of the root's own parent field.
  ghost predicate Links(r: Entry?, t: Tree<Entry>)
    reads Keys(t)
  {
    match t
    case Leaf => r == null
    case Node(k, lt, rt) =>
      && r == k
      && Links(k.left, lt)
      && Links(k.right, rt)
      && (lt.Node? ==> lt.key.parent == k)
      && (rt.Node? ==> rt.key.parent == k)
  }

  // A linked structure represents one tree only, so the ghost arguments below carry no choice.
  lemma {:induction false} LinksDetermineTree(r: Entry?, t: Tree<Entry>, u: Tree<Entry>)
    requires Links(r, t) && Links(r, u)
    ensures t == u
  {
    if t.Node? {
      LinksDetermineTree(r.left, t.left, u.left);
      LinksDetermineTree(r.right, t.right, u.right);
    }
  }

  // The entries of a tree at hand are allocated, so framing applies to them.
  lemma {:induction false} Allocated(t: Tree<Entry>)
    ensures forall e | e in Keys(t) :: allocated(e)
  {
    if t.Node? {
      Allocated(t.left);
      Allocated(t.right);
    }
  }

  // A whole heap: its root has no parent and no entry is shared.
  ghost predicate IsHeap(r: Entry?, t: Tree<Entry>)
    reads Keys(t)
  {
    && Links(r, t)
    && Distinct(t)
    && (t.Node? ==> t.key.parent == null)
  }

  // ---------------------------------------------------------------- snapshots

  // The fields of some entries in one state, as a value, to compare two states.
  datatype Fields = Fields(parent: Entry?, left: Entry?, right: Entry?)

  ghost function Snapshot(s: set<Entry>): map<Entry, Fields>
    reads s
  {
    map e | e in s :: Fields(e.parent, e.left, e.right)
  }

  ghost predicate LinksIn(f: map<Entry, Fields>, r: Entry?, t: Tree<Entry>) {
    match t
    case Leaf => r == null
    case Node(k, lt, rt) =>
      && r == k && k in f
      && LinksIn(f, f[k].left, lt)
      && LinksIn(f, f[k].right, rt)
      && (lt.Node? ==> f[lt.key].parent == k)
      && (rt.Node? ==> f[rt.key].parent == k)
  }

  lemma {:induction false} SnapshotLinks(s: set<Entry>, r: Entry?, t: Tree<Entry>)
    requires Keys(t) <= s
    ensures Links(r, t) <==> LinksIn(Snapshot(s), r, t)
  {
    if t.Node? && r == t.key {
      SnapshotLinks(s, t.key.left, t.left);
      SnapshotLinks(s, t.key.right, t.right);
    }
  }

  ghost predicate SameLinks(f: map<Entry, Fields>, g: map<Entry, Fields>, r: Entry?, s: set<Entry>) {
    forall e | e in s && e in f ::
      e in g && g[e].left == f[e].left && g[e].right == f[e].right && (e == r || g[e].parent == f[e].parent)
  }

  // Links depends on the parent fields of all entries but the root.
  lemma {:induction false} LinksKept(f: map<Entry, Fields>, g: map<Entry, Fields>, r: Entry?, t: Tree<Entry>)
    requires LinksIn(f, r, t) && Distinct(t) && SameLinks(f, g, r, Keys(t))
    ensures LinksIn(g, r, t)
  {
    if t.Node? {
      LinksKept(f, g, f[t.key].left, t.left);
      LinksKept(f, g, f[t.key].right, t.right);
    }
  }

  // The stores after the recursive call, the same in both branches of skew_heap_merge:
  // the merged part becomes the left child of the winner w, its old left child the right one.
  method Adopt(w: Entry, l: Entry?, r: Entry?, ghost tl: Tree<Entry>, ghost tr: Tree<Entry>)
    requires Links(l, tl) && Distinct(tl) && Links(r, tr) && Keys(tl) !! Keys(tr)
    requires w !in Keys(tl) && w !in Keys(tr)
    requires r != null ==> r.parent == w
    modifies w`left, w`right, (if l == null then {} else {l})`parent
    ensures Links(w, Node(w, tl, tr))
  {
    Allocated(tl);
    Allocated(tr);
    ghost var f := Snapshot(Keys(tl));
    SnapshotLinks(Keys(tl), l, tl);
    w.left := l;
    w.right := r;
    if l != null {
      l.parent := w;
    }
    LinksKept(f, Snapshot(Keys(tl)), l, tl);
    SnapshotLinks(Keys(tl), l, tl);
  }

  // skew_heap_merge.  The winning root keeps its parent field; entries of neither heap
  // are not written.
  method Merge(a: Entry?, b: Entry?, comp: (Entry, Entry) -> int, ghost ta: Tree<Entry>, ghost tb: Tree<Entry>)
    returns (m: Entry?, ghost calls: nat)
    requires Links(a, ta) && Distinct(ta)
    requires Links(b, tb) && Distinct(tb)
    requires Keys(ta) !! Keys(tb)
    modifies Keys(ta) + Keys(tb)
    ensures Links(m, SkewTree.Merge(comp, ta, tb)) && Distinct(SkewTree.Merge(comp, ta, tb))
    ensures m != null ==> m.parent == old(m.parent)
    ensures calls == Calls(comp, ta, tb)
    decreases Size(ta) + Size(tb)
  {
    MergeDistinct(comp, ta, tb);
    Allocated(ta);
    Allocated(tb);
    if a == null {
      return b, 1;
    } else if b == null {
      return a, 1;
    }
    if comp(a, b) == -1 {
      var r := a.left;
      var l;
      l, calls := Merge(a.right, b, comp, ta.right, tb);
      Adopt(a, l, r, SkewTree.Merge(comp, ta.right, tb), ta.left);
      return a, calls + 1;
    } else {
      var r := b.left;
      var l;
      l, calls := Merge(a, b.right, comp, ta, tb.right);
      Adopt(b, l, r, SkewTree.Merge(comp, ta, tb.right), tb.left);
      return b, calls + 1;
    }
  }

  // skew_heap_init on an entry that already exists.
  method Init(a: Entry)
    modifies a
    ensures IsHeap(a, Single(a))
  {
    a.left, a.right, a.parent := null, null, null;
  }

  // skew_heap_insert.  Whatever links the new entry had are forgotten.
  method Insert(a: Entry?, b: Entry, comp: (Entry, Entry) -> int, ghost t: Tree<Entry>)
    returns (m: Entry?, ghost calls: nat)
    requires IsHeap(a, t) && b !in Keys(t)
    modifies Keys(t), b
    ensures IsHeap(m, SkewTree.Insert(comp, t, b))
    ensures calls == Calls(comp, t, Single(b))
  {
    Allocated(t);
    Init(b);
    m, calls := Merge(a, b, comp, t, Single(b));
  }

  // ---------------------------------------------------------------- removal

  // Links determine where k hangs: its subtree, its parent field, and its parent's side.
  lemma {:induction false} Locate(f: map<Entry, Fields>, r: Entry?, t: Tree<Entry>, k: Entry)
    requires LinksIn(f, r, t) && Distinct(t) && k in Keys(t)
    ensures k in f
    ensures var s := Subtree(t, k); var p := f[k].parent;
      && LinksIn(f, k, s) && Distinct(s) && Keys(s) <= Keys(t)
      && (k != t.key ==>
            && t.key !in Keys(s)
            && p != null && p in Keys(t) && p !in Keys(s) && p in f
            && (f[p].left == k || f[p].right == k))
  {
    if t.key == k {
    } else if k in Keys(t.left) {
      Locate(f, f[t.key].left, t.left, k);
    } else {
      Locate(f, f[t.key].right, t.right, k);
    }
  }

  // What removal does to the fields outside the subtree of k: the slot of the parent
  // that named k names rep.
  ghost predicate Spliced(f: map<Entry, Fields>, g: map<Entry, Fields>, s: set<Entry>, k: Entry, p: Entry?, rep: Entry?) {
    forall e | e in s && e in f ::
      && e in g
      && g[e] == if e != p then f[e] else if f[e].left == k then f[e].(left := rep) else f[e].(right := rep)
  }

  lemma {:induction false} RemoveLinks(f: map<Entry, Fields>, g: map<Entry, Fields>, comp: (Entry, Entry) -> int,
                                       r: Entry?, t: Tree<Entry>, k: Entry, m: Tree<Entry>, rep: Entry?)
    requires LinksIn(f, r, t) && Distinct(t) && k in Keys(t) && k in f
    requires m == SkewTree.Merge(comp, Subtree(t, k).left, Subtree(t, k).right) && LinksIn(g, rep, m)
    requires k != t.key && m.Node? ==> g[m.key].parent == f[k].parent
    requires Spliced(f, g, Keys(t) - Keys(Subtree(t, k)), k, if k == t.key then null else f[k].parent, rep)
    ensures LinksIn(g, if k == t.key then rep else r, Remove(comp, t, k))
  {
    if t.key == k {
    } else if k in Keys(t.left) {
      Locate(f, f[t.key].left, t.left, k);
      LinksKept(f, g, f[t.key].right, t.right);
      RemoveLinks(f, g, comp, f[t.key].left, t.left, k, m, rep);
    } else {
      Locate(f, f[t.key].right, t.right, k);
      LinksKept(f, g, f[t.key].left, t.left);
      RemoveLinks(f, g, comp, f[t.key].right, t.right, k, m, rep);
    }
  }

  lemma {:induction false} RemoveBefore(a: Entry?, b: Entry, t: Tree<Entry>)
    requires IsHeap(a, t) && b in Keys(t)
    ensures var s := Subtree(t, b); var p := b.parent;
      && Links(b.left, s.left) && Links(b.right, s.right) && Distinct(s) && Keys(s) <= Keys(t)
      && (p == null <==> b == t.key)
      && (p != null ==> p in Keys(t) && p !in Keys(s) && (p.left == b || p.right == b))
  {
    var f := Snapshot(Keys(t));
    SnapshotLinks(Keys(t), a, t);
    Locate(f, a, t, b);
    SnapshotLinks(Keys(t), b, Subtree(t, b));
  }

  lemma {:induction false} RemoveAfter(f: map<Entry, Fields>, comp: (Entry, Entry) -> int,
                                       a: Entry?, b: Entry, t: Tree<Entry>, rep: Entry?)
    requires LinksIn(f, a, t) && Distinct(t) && b in Keys(t) && b in f && f[t.key].parent == null
    requires var s := Subtree(t, b); var m := SkewTree.Merge(comp, s.left, s.right);
      && Links(rep, m) && (rep != null ==> rep.parent == f[b].parent)
      && Spliced(f, Snapshot(Keys(t)), Keys(t) - Keys(s), b, f[b].parent, rep)
    ensures IsHeap(if b == t.key then rep else a, Remove(comp, t, b))
  {
    var g := Snapshot(Keys(t));
    var s := Subtree(t, b);
    var m := SkewTree.Merge(comp, s.left, s.right);
    Locate(f, a, t, b);
    SnapshotLinks(Keys(t), rep, m);
    RemoveLinks(f, g, comp, a, t, b, m, rep);
    RemoveKeys(comp, t, b);
    SnapshotLinks(Keys(t), if b == t.key then rep else a, Remove(comp, t, b));
  }

  // The stores after the merge in skew_heap_remove: rep takes the place of b.
  method Splice(a: Entry?, b: Entry, p: Entry?, rep: Entry?, ghost m: Tree<Entry>) returns (r: Entry?)
    requires Links(rep, m) && Distinct(m) && (p != null ==> p !in Keys(m) && p != b)
    modifies (if rep == null then {} else {rep})`parent
    modifies (if p == null then {} else {p})`left, (if p == null then {} else {p})`right
    ensures Links(rep, m) && (rep != null ==> rep.parent == p)
    ensures p != null ==> p.left == if old(p.left) == b then rep else old(p.left)
    ensures p != null ==> p.right == if old(p.left) == b then old(p.right) else rep
    ensures r == if p == null then rep else a
  {
    Allocated(m);
    ghost var f := Snapshot(Keys(m));
    SnapshotLinks(Keys(m), rep, m);
    if rep != null {
      rep.parent := p;
    }
    if p != null {
      if p.left == b {
        p.left := rep;
      } else {
        p.right := rep;
      }
      r := a;
    } else {
      r := rep;
    }
    LinksKept(f, Snapshot(Keys(m)), rep, m);
    SnapshotLinks(Keys(m), rep, m);
  }

  // skew_heap_remove.  The fields of b itself are left as they were.
  method RemoveEntry(a: Entry?, b: Entry, comp: (Entry, Entry) -> int, ghost t: Tree<Entry>)
    returns (r: Entry?, ghost calls: nat)
    requires IsHeap(a, t) && b in Keys(t)
    modifies Keys(t)
    ensures IsHeap(r, Remove(comp, t, b))
    ensures calls == RemoveCalls(comp, t, b)
    ensures b.parent == old(b.parent) && b.left == old(b.left) && b.right == old(b.right)
  {
    Allocated(t);
    RemoveBefore(a, b, t);
    RemoveCallsAt(comp, t, b);
    ghost var f := Snapshot(Keys(t));
    SnapshotLinks(Keys(t), a, t);
    ghost var s := Subtree(t, b);
    var p := b.parent;
    var rep;
    rep, calls := Merge(b.left, b.right, comp, s.left, s.right);
    r := Splice(a, b, p, rep, SkewTree.Merge(comp, s.left, s.right));
    RemoveAfter(f, comp, a, b, t, rep);
  }
}
