// When a priority pays: exactly which competitors of the stride scheduler get ahead of which
// others without bound.
module StridePriority {
  import opened StrideOrder
  import opened StrideSched
  import opened StrideShare
  import opened StrideTurns
  import opened Words
  import opened Modular

  // ---------------------------------------------------------------- charges and turns

  lemma Cancel(x: int, y: int, p: int)
    requires x * p <= y * p && p > 0
    ensures x <= y
  {
    if x > y {
      MultipleOrder(p, y + 1, x);
      Expand(p, y, 1);
      assert false;
    }
  }

  // Whoever is charged no less per turn gets few turns more.
  lemma FewMore(ci: int, cj: nat, pi: int, pj: int, x: int)
    requires ci * pi - cj * pj <= x * pi && pi >= pj >= 0 && pi > 0
    ensures ci <= cj + x
  {
    MultipleOrder(cj, pj, pi);
    Expand(pi, cj, x);
    Cancel(ci, cj + x, pi);
  }

  // Whoever is charged less per turn gets as many more as one likes, when the other gets
  // enough.
  lemma ManyMore(ci: int, cj: nat, pi: int, pj: int, c: int, b: int)
    requires ci * pi - cj * pj >= -c && 0 < pi < pj && cj >= c + b * pi
    ensures ci >= cj + b
  {
    MultipleOrder(cj, pi + 1, pj);
    Expand(cj, pi, 1);
    Expand(pi, cj, b);
    Cancel(cj + b, ci, pi);
  }

  lemma BalanceCaps(d: int, ci: int, cj: nat, pi: int, pj: int)
    requires d + ci * pi - cj * pj <= Max(d, pi) && pi >= pj >= 0 && pi > 0
    requires -TWO_31 <= d && pi < TWO_31
    ensures ci <= cj + TWO_32
    ensures d == 0 ==> ci <= cj + 1
  {
    MultipleOrder(TWO_32, 1, pi);
    FewMore(ci, cj, pi, pj, TWO_32);
    if d == 0 {
      FewMore(ci, cj, pi, pj, 1);
    }
  }

  lemma BalanceGrows(d: int, ci: int, cj: nat, pi: int, pj: int, b: nat)
    requires Min(d, -pj) <= d + ci * pi - cj * pj && 0 < pi < pj < TWO_31 && d <= TWO_31
    requires cj >= TWO_32 + b * TWO_31
    ensures ci >= cj + b
  {
    MultipleOrder(b, pi, TWO_31);
    ManyMore(ci, cj, pi, pj, TWO_32, b);
  }

  // ---------------------------------------------------------------- getting ahead

  // From turn m on, i has got at least b turns more than j.
  ghost predicate AheadFrom<K>(s: State<K>, i: K, j: K, b: nat, m: nat) {
    forall n: nat | n >= m :: Got(s, n, i) >= Got(s, n, j) + b
  }

  ghost predicate AheadBy<K>(s: State<K>, i: K, j: K, b: nat) {
    exists m: nat :: AheadFrom(s, i, j, b, m)
  }

  // i gets ahead of j by any number of turns, for good.
  ghost predicate GetsAhead<K>(s: State<K>, i: K, j: K) {
    forall b: nat :: AheadBy(s, i, j, b)
  }

  // A competitor charged no less per turn never gets far ahead; one that starts level, no
  // more than a turn.
  lemma {:induction false} NeverFarAhead<K>(s: State<K>, n: nat, i: K, j: K)
    requires Inv(s) && i in Runnable(s) && j in Runnable(s) && i != j
    requires Pass(s.priority[j]) <= Pass(s.priority[i]) && s.priority[i] <= BIG_STRIDE
    ensures Got(s, n, i) <= Got(s, n, j) + TWO_32
    ensures s.stride[i] == s.stride[j] ==> Got(s, n, i) <= Got(s, n, j) + 1
  {
    ChargesBalance(s, n, i, j);
    BalanceCaps(Lead(s.stride, i, j), Got(s, n, i), Got(s, n, j), PassOf(s)[i], PassOf(s)[j]);
  }

  lemma {:induction false} GotMonotone<K>(s: State<K>, m: nat, n: nat, k: K)
    requires m <= n
    ensures Got(s, m, k) <= Got(s, n, k)
  {
    if m < n {
      GotMonotone(s, m, n - 1, k);
    }
  }

  lemma {:induction false} GotUnbounded<K>(s: State<K>, k: K, b: nat) returns (m: nat)
    requires k in Runnable(s) && NobodyStarves(s)
    ensures Got(s, m, k) >= b
  {
    if b == 0 {
      m := 0;
    } else {
      var l := GotUnbounded(s, k, b - 1);
      assert RunsAfter(s, l, k);
      m :| m > l && Turns(s, m).current == Some(k);
      GotMonotone(s, l, m - 1, k);
    }
  }

  lemma {:induction false} CheaperIsAhead<K>(s: State<K>, i: K, j: K, n: nat, b: nat)
    requires Inv(s) && i in Runnable(s) && j in Runnable(s) && i != j
    requires 0 < Pass(s.priority[i]) < Pass(s.priority[j])
    requires Got(s, n, j) >= TWO_32 + b * TWO_31
    ensures Got(s, n, i) >= Got(s, n, j) + b
  {
    ChargesBalance(s, n, i, j);
    BalanceGrows(Lead(s.stride, i, j), Got(s, n, i), Got(s, n, j), PassOf(s)[i], PassOf(s)[j], b);
  }

  lemma {:induction false} CheaperGetsAhead<K>(s: State<K>, i: K, j: K)
    requires Inv(s) && i in Runnable(s) && j in Runnable(s) && i != j
    requires forall k | k in Runnable(s) :: s.priority[k] <= BIG_STRIDE
    requires Pass(s.priority[i]) < Pass(s.priority[j])
    ensures GetsAhead(s, i, j)
  {
    AllRun(s);
    forall b: nat ensures AheadBy(s, i, j, b) {
      var m := GotUnbounded(s, j, TWO_32 + b * TWO_31);
      forall n: nat | n >= m ensures Got(s, n, i) >= Got(s, n, j) + b {
        GotMonotone(s, m, n, j);
        CheaperIsAhead(s, i, j, n, b);
      }
      assert AheadFrom(s, i, j, b, m);
    }
  }

  // ---------------------------------------------------------------- priorities above BIG_STRIDE

  // After a process with pass 0 has run, it gets every turn.
  lemma {:induction false} StillRuns<K>(s: State<K>, m: nat, n: nat, z: K)
    requires Inv(s) && z in Runnable(s) && s.priority[z] > BIG_STRIDE
    requires 0 < m <= n && Turns(s, m).current == Some(z)
    ensures Turns(s, n).current == Some(z)
  {
    FreeTurnsRepeat(s, m, n, z);
  }

  lemma {:induction false} GotFrom<K>(s: State<K>, m: nat, n: nat, z: K, k: K)
    requires m <= n && forall l | m < l <= n :: Turns(s, l).current == Some(z)
    ensures Got(s, n, k) == Got(s, m, k) + If(k == z, n - m)
  {
    if m < n {
      GotFrom(s, m, n - 1, z, k);
    }
  }

  lemma {:induction false} AllToOne<K>(s: State<K>, m: nat, n: nat, z: K, k: K)
    requires Inv(s) && z in Runnable(s) && s.priority[z] > BIG_STRIDE
    requires 0 < m <= n && Turns(s, m).current == Some(z)
    ensures Got(s, n, k) == Got(s, m, k) + If(k == z, n - m)
  {
    forall l | m < l <= n ensures Turns(s, l).current == Some(z) {
      StillRuns(s, m, l, z);
    }
    GotFrom(s, m, n, z, k);
  }

  lemma {:induction false} OneGetsAll<K>(s: State<K>, m: nat, z: K, j: K)
    requires Inv(s) && z in Runnable(s) && s.priority[z] > BIG_STRIDE && j != z
    requires 0 < m && Turns(s, m).current == Some(z)
    ensures GetsAhead(s, z, j)
  {
    forall b: nat ensures AheadBy(s, z, j, b) {
      var l := m + Got(s, m, j) + b;
      forall n: nat | n >= l ensures Got(s, n, z) >= Got(s, n, j) + b {
        AllToOne(s, m, n, z, z);
        AllToOne(s, m, n, z, j);
      }
      assert AheadFrom(s, z, j, b, l);
    }
  }

  lemma {:induction false} OthersGetNothing<K>(s: State<K>, m: nat, z: K, i: K, j: K)
    requires Inv(s) && z in Runnable(s) && s.priority[z] > BIG_STRIDE && i != z
    requires 0 < m && Turns(s, m).current == Some(z)
    ensures !GetsAhead(s, i, j)
  {
    var b := Got(s, m, i) + 1;
    forall l: nat ensures !AheadFrom(s, i, j, b, l) {
      AllToOne(s, m, m + l, z, i);
      assert Got(s, m + l, i) < Got(s, m + l, j) + b;
    }
    assert !AheadBy(s, i, j, b);
  }

  // Among competitors of which some have pass 0, one of those runs.
  lemma {:induction false} SomeFreeTurn<K>(s: State<K>, k: K) returns (m: nat, z: K)
    requires Inv(s) && k in Runnable(s) && s.priority[k] > BIG_STRIDE
    ensures z in Runnable(s) && s.priority[z] > BIG_STRIDE
    ensures m > 0 && Turns(s, m).current == Some(z)
  {
    var n := |Runnable(s)| * TWO_31;
    TurnsAreFair(s, n);
    z := FreeOneRuns(s.stride, PassOf(s), Runnable(s), Picks(s, n), k);
    GotIsCount(s, n, z);
    m := SomeTurn(s, n, z);
  }

  lemma {:induction false} NeverRuns<K>(s: State<K>, n: nat, i: K)
    requires !RunsAfter(s, 0, i)
    ensures Got(s, n, i) == 0
  {
    if n > 0 {
      NeverRuns(s, n - 1, i);
    }
  }

  // ---------------------------------------------------------------- when a priority pays

  // A process whose priority does not exceed BIG_STRIDE gets ahead of another, exactly when
  // its pass is smaller and nobody's priority exceeds BIG_STRIDE.
  lemma {:induction false} PriorityPaysIff<K>(s: State<K>, i: K, j: K)
    requires Inv(s) && i in Runnable(s) && j in Runnable(s) && i != j && s.priority[i] <= BIG_STRIDE
    ensures GetsAhead(s, i, j)
            <==> Pass(s.priority[i]) < Pass(s.priority[j])
                 && forall k | k in Runnable(s) :: s.priority[k] <= BIG_STRIDE
  {
    if Pass(s.priority[i]) >= Pass(s.priority[j]) {
      StaysNear(s, i, j);
    } else if k :| k in Runnable(s) && s.priority[k] > BIG_STRIDE {
      var m, z := SomeFreeTurn(s, k);
      OthersGetNothing(s, m, z, i, j);
    } else {
      CheaperGetsAhead(s, i, j);
    }
  }

  lemma {:induction false} StaysNear<K>(s: State<K>, i: K, j: K)
    requires Inv(s) && i in Runnable(s) && j in Runnable(s) && i != j
    requires Pass(s.priority[j]) <= Pass(s.priority[i]) && s.priority[i] <= BIG_STRIDE
    ensures !GetsAhead(s, i, j)
  {
    var b := TWO_32 + 1;
    forall m: nat ensures !AheadFrom(s, i, j, b, m) {
      NeverFarAhead(s, m, i, j);
      assert Got(s, m, i) < Got(s, m, j) + b;
    }
    assert !AheadBy(s, i, j, b);
  }

  // One whose priority does exceed it gets ahead of everybody, if it ever runs.
  lemma {:induction false} FreeRunnerPaysIff<K>(s: State<K>, i: K, j: K)
    requires Inv(s) && i in Runnable(s) && i != j && s.priority[i] > BIG_STRIDE
    ensures GetsAhead(s, i, j) <==> RunsAfter(s, 0, i)
  {
    if RunsAfter(s, 0, i) {
      var m :| m > 0 && Turns(s, m).current == Some(i);
      OneGetsAll(s, m, i, j);
    } else {
      forall m: nat ensures !AheadFrom(s, i, j, 1, m) {
        NeverRuns(s, m, i);
        assert Got(s, m, i) < Got(s, m, j) + 1;
      }
      assert !AheadBy(s, i, j, 1);
    }
  }

  lemma {:induction false} TurnIsNotAhead<K>(s: State<K>, k: K, j: K)
    requires Inv(s) && j in Runnable(s) && Turn(s).current == Some(k)
    ensures k in s.stride && j in s.stride && k in Runnable(s) && Lead(s.stride, k, j) <= 0
  {
    TurnEffect(s);
    BelowLeads(s.stride, Runnable(s), k, j);
  }

  lemma {:induction false} RunnerIsNotAhead<K>(s: State<K>, n: nat, k: K, j: K)
    requires Inv(s) && n > 0 && Turns(s, n).current == Some(k) && j in Runnable(s)
    ensures k in Runnable(s)
    ensures var x := Turns(s, n - 1).stride; k in x && j in x && Lead(x, k, j) <= 0
  {
    TurnsKeep(s, n - 1);
    TurnIsNotAhead(Turns(s, n - 1), k, j);
  }

  // Two with pass 0 never change places.
  lemma {:induction false} FreePlacesStay<K>(s: State<K>, n: nat, i: K, z: K)
    requires Inv(s) && i in Runnable(s) && z in Runnable(s) && i != z
    requires s.priority[i] > BIG_STRIDE && s.priority[z] > BIG_STRIDE
    ensures var x := Turns(s, n).stride; i in x && z in x && Lead(x, i, z) == Lead(s.stride, i, z)
  {
    TurnsAreFair(s, n);
    FreeLeadStays(s.stride, PassOf(s), Runnable(s), Picks(s, n), i, z);
  }

  lemma {:induction false} FreeRunnerIsBehind<K>(s: State<K>, m: nat, z: K, i: K)
    requires Inv(s) && i in Runnable(s) && z in Runnable(s) && i != z
    requires s.priority[i] > BIG_STRIDE && s.priority[z] > BIG_STRIDE
    requires m > 0 && Turns(s, m).current == Some(z)
    ensures Lead(s.stride, z, i) <= 0
  {
    RunnerIsNotAhead(s, m, z, i);
    FreePlacesStay(s, m - 1, z, i);
  }

  // Of several with pass 0 the one that is furthest behind runs, and none ahead of it.
  lemma {:induction false} FurthestBehindRuns<K>(s: State<K>, i: K)
    requires Inv(s) && i in Runnable(s) && s.priority[i] > BIG_STRIDE
    requires forall z | z in Runnable(s) && z != i && s.priority[z] > BIG_STRIDE :: Lead(s.stride, z, i) > 0
    ensures RunsAfter(s, 0, i)
  {
    var m, z := SomeFreeTurn(s, i);
    if z != i {
      FreeRunnerIsBehind(s, m, z, i);
      assert false;
    }
  }

  lemma {:induction false} AheadNeverRuns<K>(s: State<K>, i: K, z: K)
    requires Inv(s) && i in Runnable(s) && z in Runnable(s)
    requires s.priority[i] > BIG_STRIDE && s.priority[z] > BIG_STRIDE && Lead(s.stride, i, z) > 0
    ensures !RunsAfter(s, 0, i)
  {
    if RunsAfter(s, 0, i) {
      var m :| m > 0 && Turns(s, m).current == Some(i);
      FreeRunnerIsBehind(s, m, i, z);
      assert false;
    }
  }

  // A process whose priority exceeds BIG_STRIDE gets ahead of everybody if it is behind all
  // others of the kind, and of nobody if it is ahead of one of them.
  lemma {:induction false} HugePriorityPays<K>(s: State<K>, i: K, j: K)
    requires Inv(s) && i in Runnable(s) && i != j && s.priority[i] > BIG_STRIDE
    ensures (forall z | z in Runnable(s) && z != i && s.priority[z] > BIG_STRIDE :: Lead(s.stride, z, i) > 0)
            ==> GetsAhead(s, i, j)
    ensures (exists z :: z in Runnable(s) && s.priority[z] > BIG_STRIDE && Lead(s.stride, i, z) > 0)
            ==> !GetsAhead(s, i, j)
  {
    FreeRunnerPaysIff(s, i, j);
    if forall z | z in Runnable(s) && z != i && s.priority[z] > BIG_STRIDE :: Lead(s.stride, z, i) > 0 {
      FurthestBehindRuns(s, i);
    }
    if z :| z in Runnable(s) && s.priority[z] > BIG_STRIDE && Lead(s.stride, i, z) > 0 {
      AheadNeverRuns(s, i, z);
    }
  }

  lemma QuotientAtLeast(y: nat, p: nat, b: nat)
    requires p > 0 && y * p <= b
    ensures y <= b / p
  {
    var x := b / p;
    if y > x {
      MultipleOrder(p, x + 1, y);
      Expand(p, x, 1);
      assert false;
    }
  }

  // A bigger priority is never charged more per turn.
  lemma PassAntitone(p: nat, q: nat)
    requires 1 <= p <= q
    ensures Pass(q) <= Pass(p)
  {
    var y := BIG_STRIDE / q;
    MultipleOrder(y, p, q);
    QuotientAtLeast(y, p, BIG_STRIDE);
  }

  // Of two priorities up to BIG_STRIDE the smaller one never gets ahead, and the bigger one
  // does exactly when its quotient is smaller.
  lemma {:induction false} BiggerPriorityPaysIff<K>(s: State<K>, i: K, j: K)
    requires Inv(s) && i in Runnable(s) && j in Runnable(s) && i != j
    requires 1 <= s.priority[j] <= s.priority[i]
    requires forall k | k in Runnable(s) :: s.priority[k] <= BIG_STRIDE
    ensures !GetsAhead(s, j, i)
    ensures GetsAhead(s, i, j) <==> BIG_STRIDE / s.priority[i] < BIG_STRIDE / s.priority[j]
  {
    PassAntitone(s.priority[j], s.priority[i]);
    PriorityPaysIff(s, i, j);
    StaysNear(s, j, i);
  }

  // ---------------------------------------------------------------- shares in priorities

  lemma Rearrange(x: int, y: int, z: int, w: int)
    ensures (x * y) * (z * w) == (x * z) * (y * w)
  {
    Associate(x * y, z, w);
    Associate(x, y, z);
    Associate(y, x, z);
    Associate(x * z, y, w);
  }

  lemma ShareOfQuotients(a: nat, g: nat, x: nat, y: nat, p: nat, q: nat, big: nat)
    requires a * x <= g * y && x * p <= big < (x + 1) * p && y * q <= big
    requires p <= big
    ensures (a * q) * (big - p + 1) <= (g * p) * big
  {
    Expand(p, x, 1);
    MultipleOrder(a * q, big - p + 1, x * p);
    Rearrange(a, q, x, p);
    MultipleOrder(q * p, a * x, g * y);
    assert (a * x) * (q * p) == (q * p) * (a * x) && (g * y) * (q * p) == (q * p) * (g * y);
    Rearrange(g, y, p, q);
    assert p * q == q * p;
    MultipleOrder(g * p, y * q, big);
  }

  // g turns with priority p against h turns with priority q.
  ghost predicate InProportion(g: nat, h: nat, p: nat, q: nat)
    requires p <= 0x7FFF_FFFF
  {
    ((g - 1) * q) * (0x7FFF_FFFF - p + 1) <= (h * p) * 0x7FFF_FFFF
  }

  lemma NothingOwed(h: nat, p: nat, q: nat)
    requires p <= 0x7FFF_FFFF
    ensures InProportion(0, h, p, q)
  {
    var x := 0x7FFF_FFFF - p + 1;
    assert q * x >= 0;
    assert ((0 - 1) * q) * x == -(q * x);
  }

  lemma ChargesInProportion(g: nat, h: nat, p: nat, q: nat)
    requires 1 <= p <= 0x7FFF_FFFF && 1 <= q <= 0x7FFF_FFFF
    requires g * Pass(p) - h * Pass(q) <= Pass(p)
    ensures InProportion(g, h, p, q)
  {
    if g == 0 {
      NothingOwed(h, p, q);
    } else {
      PassIsQuotient(p);
      PassIsQuotient(q);
      Expand(Pass(p), g, -1);
      ShareOfQuotients(g - 1, h, Pass(p), Pass(q), p, q, 0x7FFF_FFFF);
    }
  }

  // Turns are shared in proportion to the priorities, to within one turn and the rounding
  // of BIG_STRIDE / priority.
  lemma {:induction false} PriorityShare<K>(s: State<K>, n: nat, i: K, j: K)
    requires Inv(s) && i in Runnable(s) && j in Runnable(s) && s.stride[i] == s.stride[j]
    requires 1 <= s.priority[i] <= 0x7FFF_FFFF && 1 <= s.priority[j] <= 0x7FFF_FFFF
    ensures InProportion(Got(s, n, i), Got(s, n, j), s.priority[i], s.priority[j])
  {
    ProportionalShare(s, n, i, j);
    ChargesInProportion(Got(s, n, i), Got(s, n, j), s.priority[i], s.priority[j]);
  }
}
