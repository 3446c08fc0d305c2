// lab7/libs/list.h: circular doubly linked lists.  A family of disjoint rings is given,
// as a ghost argument, as one sequence of entries per ring.
module ListRing {
  import opened Modular

  class ListEntry {
    var prev: ListEntry
    var next: ListEntry

    // list_init on a new entry.
    constructor ()
      ensures prev == next == this
    {
      prev, next := this, this;
    }
  }

  function After(i: nat, n: nat): nat {
    if i + 1 == n then 0 else i + 1
  }

  function Before(i: nat, n: nat): nat
    requires n > 0
  {
    if i == 0 then n - 1 else i - 1
  }

  predicate NoRepeats<T(==)>(s: seq<T>) {
    forall i, j | 0 <= i < j < |s| :: s[i] != s[j]
  }

  ghost predicate Ring(s: seq<ListEntry>)
    reads s
  {
    && s != []
    && NoRepeats(s)
    && (forall i | 0 <= i < |s| - 1 :: s[i].next == s[i + 1] && s[i + 1].prev == s[i])
    && s[|s| - 1].next == s[0] && s[0].prev == s[|s| - 1]
  }

  // s with e inserted before position k; at the end when k is |s|.
  function Inserted<T>(s: seq<T>, k: nat, e: T): seq<T>
    requires k <= |s|
  {
    s[..k] + [e] + s[k..]
  }

  function Deleted<T>(s: seq<T>, k: nat): seq<T>
    requires k < |s|
  {
    s[..k] + s[k + 1..]
  }

  lemma InsertedAt<T>(s: seq<T>, k: nat, e: T)
    requires k <= |s|
    ensures |Inserted(s, k, e)| == |s| + 1
    ensures forall j | 0 <= j <= |s| :: Inserted(s, k, e)[j] == if j < k then s[j] else if j == k then e else s[j - 1]
  {
  }

  lemma DeletedAt<T>(s: seq<T>, k: nat)
    requires k < |s|
    ensures |Deleted(s, k)| == |s| - 1
    ensures forall j | 0 <= j < |s| - 1 :: Deleted(s, k)[j] == if j < k then s[j] else s[j + 1]
  {
  }

  lemma InsertedNoRepeats<T>(s: seq<T>, k: nat, e: T)
    requires k <= |s| && NoRepeats(s) && e !in s
    ensures NoRepeats(Inserted(s, k, e))
  {
    InsertedAt(s, k, e);
  }

  lemma DeletedNoRepeats<T>(s: seq<T>, k: nat)
    requires k < |s| && NoRepeats(s)
    ensures NoRepeats(Deleted(s, k)) && s[k] !in Deleted(s, k)
  {
    DeletedAt(s, k);
  }

  // list_init.
  method Init(elm: ListEntry)
    modifies elm
    ensures Ring([elm])
  {
    elm.prev, elm.next := elm, elm;
  }

  // __list_add between the neighbours s[i] and its successor.
  method AddBetween(elm: ListEntry, prev: ListEntry, next: ListEntry, ghost s: seq<ListEntry>, ghost i: nat)
    requires Ring(s) && elm !in s && i < |s|
    requires prev == s[i] && next == s[After(i, |s|)]
    modifies prev`next, next`prev, elm
    ensures Ring(Inserted(s, i + 1, elm))
  {
    next.prev := elm;
    prev.next := elm;
    elm.next := next;
    elm.prev := prev;
    ghost var t := Inserted(s, i + 1, elm);
    InsertedAt(s, i + 1, elm);
    InsertedNoRepeats(s, i + 1, elm);
    forall j | 0 <= j < |t| - 1 ensures t[j].next == t[j + 1] && t[j + 1].prev == t[j] {
      if j < i {
        assert t[j] == s[j] && t[j + 1] == s[j + 1];
        assert old(s[j].next) == s[j + 1] && old(s[j + 1].prev) == s[j];
      } else if j > i + 1 {
        assert t[j] == s[j - 1] && t[j + 1] == s[j];
        assert old(s[j - 1].next) == s[j] && old(s[j].prev) == s[j - 1];
      }
    }
  }

  // __list_del of the entry s[i] between prev and next.
  method Unlink(prev: ListEntry, next: ListEntry, ghost s: seq<ListEntry>, ghost i: nat)
    requires Ring(s) && i < |s|
    requires prev == s[Before(i, |s|)] && next == s[After(i, |s|)]
    modifies prev`next, next`prev
    ensures |s| > 1 ==> Ring(Deleted(s, i)) && s[i].prev == prev && s[i].next == next
    ensures |s| == 1 ==> Ring(s)
  {
    prev.next := next;
    next.prev := prev;
    ghost var t := Deleted(s, i);
    DeletedAt(s, i);
    DeletedNoRepeats(s, i);
    forall j | 0 <= j < |t| - 1 ensures t[j].next == t[j + 1] && t[j + 1].prev == t[j] {
      if j + 1 < i {
        assert t[j] == s[j] && t[j + 1] == s[j + 1];
        assert old(s[j].next) == s[j + 1] && old(s[j + 1].prev) == s[j];
      } else if j >= i {
        assert t[j] == s[j + 1] && t[j + 1] == s[j + 2];
        assert old(s[j + 1].next) == s[j + 2] && old(s[j + 2].prev) == s[j + 1];
      } else {
        assert t[j] == s[j] == prev && t[j + 1] == s[j + 2] == next;
      }
    }
  }

  // ---------------------------------------------------------------- families of rings

  ghost predicate Apart(s: seq<ListEntry>, t: seq<ListEntry>) {
    forall e | e in s :: e !in t
  }

  ghost function Members(fam: seq<seq<ListEntry>>): set<ListEntry> {
    set q, i | 0 <= q < |fam| && 0 <= i < |fam[q]| :: fam[q][i]
  }

  ghost predicate Family(fam: seq<seq<ListEntry>>)
    reads Members(fam)
  {
    && (forall q | 0 <= q < |fam| :: Ring(fam[q]))
    && (forall q, r | 0 <= q < |fam| && 0 <= r < |fam| && q != r :: Apart(fam[q], fam[r]))
  }

  ghost predicate Unlinked(fam: seq<seq<ListEntry>>, e: ListEntry) {
    forall q | 0 <= q < |fam| :: e !in fam[q]
  }

  // The entries at hand are allocated, so framing applies to them.
  lemma Allocated(fam: seq<seq<ListEntry>>)
    ensures forall r, i | 0 <= r < |fam| && 0 <= i < |fam[r]| :: allocated(fam[r][i])
  {
  }

  // One ring of a family may be replaced when the others are still rings.
  lemma {:induction false} Replaced(fam: seq<seq<ListEntry>>, q: nat, t: seq<ListEntry>)
    requires q < |fam| && Ring(t)
    requires forall r | 0 <= r < |fam| && r != q :: Ring(fam[r]) && Apart(t, fam[r])
    requires forall r, r' | 0 <= r < |fam| && 0 <= r' < |fam| && r != r' :: Apart(fam[r], fam[r'])
    ensures Family(fam[q := t])
  {
    var fam' := fam[q := t];
    forall r, r' | 0 <= r < |fam'| && 0 <= r' < |fam'| && r != r' ensures Apart(fam'[r], fam'[r']) {
      assert r != q ==> Apart(t, fam[r]);
      assert r' != q ==> Apart(t, fam[r']);
    }
  }

  lemma InsertedMembers<T>(s: seq<T>, k: nat, e: T)
    requires k <= |s|
    ensures forall x | x in Inserted(s, k, e) :: x in s || x == e
  {
  }

  lemma DeletedMembers<T>(s: seq<T>, k: nat)
    requires k < |s| && NoRepeats(s)
    ensures forall x | x in Deleted(s, k) :: x in s && x != s[k]
  {
  }

  // list_add_before: seen from the head s[0], adding before the head appends to the list.
  method AddBefore(listelm: ListEntry, elm: ListEntry, ghost fam: seq<seq<ListEntry>>, ghost q: nat, ghost i: nat)
    requires Family(fam) && Unlinked(fam, elm)
    requires q < |fam| && i < |fam[q]| && fam[q][i] == listelm
    modifies listelm.prev`next, listelm`prev, elm
    ensures Family(fam[q := Inserted(fam[q], if i == 0 then |fam[q]| else i, elm)])
  {
    Allocated(fam);
    assert listelm.prev == fam[q][Before(i, |fam[q]|)] && listelm in fam[q];
    ghost var s, k := fam[q], if i == 0 then |fam[q]| else i;
    AddBetween(elm, listelm.prev, listelm, s, Before(i, |s|));
    InsertedMembers(s, k, elm);
    forall r | 0 <= r < |fam| && r != q ensures Ring(fam[r]) && Apart(Inserted(s, k, elm), fam[r]) {
      assert Apart(fam[q], fam[r]) && old(Ring(fam[r]));
    }
    Replaced(fam, q, Inserted(s, k, elm));
  }

  // list_add_after (and list_add, which calls it).
  method AddAfter(listelm: ListEntry, elm: ListEntry, ghost fam: seq<seq<ListEntry>>, ghost q: nat, ghost i: nat)
    requires Family(fam) && Unlinked(fam, elm)
    requires q < |fam| && i < |fam[q]| && fam[q][i] == listelm
    modifies listelm`next, listelm.next`prev, elm
    ensures Family(fam[q := Inserted(fam[q], i + 1, elm)])
  {
    Allocated(fam);
    assert listelm.next == fam[q][After(i, |fam[q]|)] && listelm in fam[q];
    AddBetween(elm, listelm, listelm.next, fam[q], i);
    InsertedMembers(fam[q], i + 1, elm);
    forall r | 0 <= r < |fam| && r != q ensures Ring(fam[r]) && Apart(Inserted(fam[q], i + 1, elm), fam[r]) {
      assert Apart(fam[q], fam[r]) && old(Ring(fam[r]));
    }
    Replaced(fam, q, Inserted(fam[q], i + 1, elm));
  }

  // list_del.  A ring of one is left as it is.
  method Del(listelm: ListEntry, ghost fam: seq<seq<ListEntry>>, ghost q: nat, ghost i: nat)
    requires Family(fam) && q < |fam| && i < |fam[q]| && fam[q][i] == listelm
    modifies listelm.prev`next, listelm.next`prev
    ensures |fam[q]| == 1 ==> Family(fam)
    ensures |fam[q]| > 1 ==> Family(fam[q := Deleted(fam[q], i)]) && Unlinked(fam[q := Deleted(fam[q], i)], listelm)
    ensures listelm.prev == old(listelm.prev) && listelm.next == old(listelm.next)
  {
    Allocated(fam);
    ghost var p, n := listelm.prev, listelm.next;
    assert p == fam[q][Before(i, |fam[q]|)] && n == fam[q][After(i, |fam[q]|)];
    Unlink(listelm.prev, listelm.next, fam[q], i);
    if |fam[q]| == 1 {
      Replaced(fam, q, fam[q]);
      assert fam[q := fam[q]] == fam;
    } else {
      DeletedMembers(fam[q], i);
      forall r | 0 <= r < |fam| && r != q ensures Ring(fam[r]) && Apart(Deleted(fam[q], i), fam[r]) {
        assert Apart(fam[q], fam[r]) && old(Ring(fam[r]));
        assert p !in fam[r] && n !in fam[r];
      }
      Replaced(fam, q, Deleted(fam[q], i));
    }
  }

  // list_del_init: the entry becomes a ring of its own.
  method DelInit(listelm: ListEntry, ghost fam: seq<seq<ListEntry>>, ghost q: nat, ghost i: nat)
    requires Family(fam) && q < |fam| && i < |fam[q]| && fam[q][i] == listelm
    modifies listelm.prev`next, listelm.next`prev, listelm
    ensures |fam[q]| == 1 ==> Family(fam)
    ensures |fam[q]| > 1 ==> Family(fam[q := Deleted(fam[q], i)] + [[listelm]])
  {
    Del(listelm, fam, q, i);
    Init(listelm);
  }

  // list_empty.
  method Empty(list: ListEntry, ghost s: seq<ListEntry>) returns (r: bool)
    requires Ring(s) && s[0] == list
    ensures r <==> s == [list]
  {
    r := list.next == list;
    assert |s| > 1 ==> s[0].next == s[1];
  }

  // ---------------------------------------------------------------- walking

  // n steps of list_next from e.
  ghost function Walk(e: ListEntry, n: nat): ListEntry
    reads *
  {
    if n == 0 then e else Walk(e, n - 1).next
  }

  // Walking visits the ring in order, for ever.
  lemma {:induction false} WalkGoesRound(s: seq<ListEntry>, i: nat, n: nat)
    requires Ring(s) && i < |s|
    ensures Walk(s[i], n) == s[(i + n) % |s|]
  {
    if n == 0 {
      ModUnique(i, |s|, 0, i);
    } else {
      WalkGoesRound(s, i, n - 1);
      var k := (i + n - 1) % |s|;
      ModLinear(1, i + n - 1, 1, |s|);
      if k + 1 < |s| {
        ModUnique(k + 1, |s|, 0, k + 1);
      } else {
        ModUnique(k + 1, |s|, 1, 0);
      }
    }
  }

  // Each ring is one cycle: a walk is back where it started exactly after whole rounds.
  lemma {:induction false} SingleCycle(s: seq<ListEntry>, i: nat, n: nat)
    requires Ring(s) && i < |s|
    ensures Walk(s[i], n) == s[i] <==> n % |s| == 0
  {
    WalkGoesRound(s, i, n);
    ModUnique(i, |s|, 0, i);
    ModDifference(i + n, i, |s|);
  }
}
