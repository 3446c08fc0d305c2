// What the stride scheduler gives each process while the same processes compete: shares in
// inverse proportion to the passes, and exactly when nobody starves.
module StrideTurns {
  import opened SkewTree
  import opened StrideOrder
  import opened StrideSched
  import opened StrideShare
  import opened Words

  // schedule() with the current process staying runnable.
  ghost function Turn<K>(s: State<K>): State<K> {
    if Known(s) then Step(s, Schedule(true)) else s
  }

  ghost function Iterate<S>(f: S -> S, s: S, n: nat): S {
    if n == 0 then s else f(Iterate(f, s, n - 1))
  }

  lemma {:induction false} IterateFrom<S>(f: S -> S, s: S, m: nat, n: nat)
    ensures Iterate(f, Iterate(f, s, m), n) == Iterate(f, s, m + n)
  {
    if n > 0 {
      IterateFrom(f, s, m, n - 1);
    }
  }

  lemma {:induction false} IterateFixed<S>(f: S -> S, s: S, n: nat, m: nat)
    requires f(Iterate(f, s, n)) == Iterate(f, s, n) && n <= m
    ensures Iterate(f, s, m) == Iterate(f, s, n)
  {
    if n < m {
      IterateFixed(f, s, n, m - 1);
    }
  }

  // n turns in a row, with nobody blocking or waking.
  ghost function Turns<K>(s: State<K>, n: nat): State<K> {
    Iterate(Turn<K>, s, n)
  }

  ghost function Quotients<K>(priority: map<K, nat>): (m: map<K, int>)
    ensures m.Keys == priority.Keys
    ensures forall k | k in m :: m[k] == Pass(priority[k])
  {
    map k | k in priority :: Pass(priority[k])
  }

  ghost function PassOf<K>(s: State<K>): map<K, int> {
    Quotients(s.priority)
  }

  // A turn goes to a competitor that nobody is behind, and charges it its pass.
  lemma {:induction false} TurnEffect<K>(s: State<K>)
    requires Inv(s)
    ensures var t := Turn(s); var r := Runnable(s);
      && Inv(t) && Runnable(t) == r && t.priority == s.priority && t.stride.Keys == s.stride.Keys && r <= s.stride.Keys
      && (r != {} ==>
            && t.current.Some? && t.current.value in r
            && t.stride == Charge(s.stride, t.current.value, PassOf(s)[t.current.value])
            && Below(ByStride(s.stride), t.current.value, r))
  {
    ScheduleKeeps(s, true);
    ScheduleEffect(s, true);
  }

  lemma {:induction false} TurnsKeep<K>(s: State<K>, n: nat)
    requires Inv(s)
    ensures Inv(Turns(s, n))
    ensures var t := Turns(s, n);
      && Runnable(t) == Runnable(s) && t.priority == s.priority && t.stride.Keys == s.stride.Keys
      && (n > 0 && Runnable(s) != {} ==> t.current.Some? && t.current.value in Runnable(s))
  {
    if n > 0 {
      TurnsKeep(s, n - 1);
      TurnEffect(Turns(s, n - 1));
    }
  }

  // Who got turn n.
  ghost function Runner<K>(s: State<K>, n: nat): (k: K)
    requires Inv(s) && Runnable(s) != {}
    ensures k in Runnable(s) && Turns(s, n + 1).current == Some(k)
  {
    TurnsKeep(s, n + 1);
    Turns(s, n + 1).current.value
  }

  ghost function Picks<K>(s: State<K>, n: nat): (turns: seq<K>)
    requires Inv(s) && Runnable(s) != {}
    ensures |turns| == n
  {
    if n == 0 then [] else Picks(s, n - 1) + [Runner(s, n - 1)]
  }

  lemma {:induction false} TurnCharges<K>(s: State<K>, j: K)
    requires Inv(s) && j in Runnable(s)
    ensures var t := Turn(s);
      && t.current.Some? && t.current.value in s.stride && t.current.value in PassOf(s)
      && Below(ByStride(s.stride), t.current.value, Runnable(s))
      && t.stride == Charge(s.stride, t.current.value, PassOf(s)[t.current.value])
  {
    TurnEffect(s);
  }

  lemma {:induction false} NthCharge<K>(s: State<K>, n: nat, j: K)
    requires Inv(s) && j in Runnable(s) && n > 0
    ensures var x, t := Turns(s, n - 1).stride, Turns(s, n);
      && t.current.Some? && t.current.value in x && t.current.value in PassOf(s)
      && Below(ByStride(x), t.current.value, Runnable(s))
      && t.stride == Charge(x, t.current.value, PassOf(s)[t.current.value])
  {
    TurnsKeep(s, n - 1);
    TurnCharges(Turns(s, n - 1), j);
  }

  lemma {:induction false} NthTurn<K>(s: State<K>, n: nat)
    requires Inv(s) && Runnable(s) != {} && n > 0
    ensures var x, k := Turns(s, n - 1).stride, Runner(s, n - 1);
      && Picks(s, n) == Picks(s, n - 1) + [k]
      && k in x
      && Below(ByStride(x), k, Runnable(s))
      && Turns(s, n).stride == Charge(x, k, PassOf(s)[k])
  {
    NthCharge(s, n, Runner(s, n - 1));
  }

  // The turns are those of the game.
  lemma {:induction false} TurnsAreFair<K>(s: State<K>, n: nat)
    requires Inv(s) && Runnable(s) != {}
    ensures var turns := Picks(s, n); var r, pass := Runnable(s), PassOf(s);
      && Players(s.stride, pass, r, turns)
      && Fair(s.stride, pass, r, turns)
      && Charged(s.stride, pass, r, turns) == Turns(s, n).stride
  {
    if n > 0 {
      TurnsAreFair(s, n - 1);
      NthTurn(s, n);
      OneMoreTurn(s.stride, PassOf(s), Runnable(s), Picks(s, n - 1), Runner(s, n - 1));
    }
  }

  // How many of the first n turns k gets.
  ghost function Got<K>(s: State<K>, n: nat, k: K): nat {
    if n == 0 then 0 else Got(s, n - 1, k) + If(Turns(s, n).current == Some(k), 1)
  }

  lemma {:induction false} GotIsCount<K>(s: State<K>, n: nat, k: K)
    requires Inv(s) && Runnable(s) != {}
    ensures Got(s, n, k) == Count(Picks(s, n), k)
  {
    if n > 0 {
      GotIsCount(s, n - 1, k);
      var turns := Picks(s, n);
      assert turns[..n - 1] == Picks(s, n - 1) && turns[n - 1] == Runner(s, n - 1);
    }
  }

  // ---------------------------------------------------------------- shares

  // A process's stride counts its turns, modulo the width of the counter.
  lemma {:induction false} TurnsEffect<K>(s: State<K>, n: nat, k: K)
    requires Inv(s) && k in Runnable(s)
    ensures var t := Turns(s, n);
      k in t.stride && t.stride[k] == ChargedTimes(s.stride[k], Got(s, n, k), PassOf(s)[k])
  {
    TurnsAreFair(s, n);
    GotIsCount(s, n, k);
    StrideCountsTurns(s.stride, PassOf(s), Runnable(s), Picks(s, n), k);
  }

  // What two competitors have been charged differs by what their leads differ.
  lemma {:induction false} ChargesBalance<K>(s: State<K>, n: nat, i: K, j: K)
    requires Inv(s) && i in Runnable(s) && j in Runnable(s) && i != j
    ensures var d, pi, pj := Lead(s.stride, i, j), PassOf(s)[i], PassOf(s)[j];
      Min(d, -pj) <= d + Got(s, n, i) * pi - Got(s, n, j) * pj <= Max(d, pi)
  {
    TurnsAreFair(s, n);
    GotIsCount(s, n, i);
    GotIsCount(s, n, j);
    LeadStaysBounded(s.stride, PassOf(s), Runnable(s), Picks(s, n), i, j);
  }

  // Turns are shared in inverse proportion to the passes: two processes that start level
  // are charged the same after any number of turns, to within their own passes.
  lemma {:induction false} ProportionalShare<K>(s: State<K>, n: nat, i: K, j: K)
    requires Inv(s) && i in Runnable(s) && j in Runnable(s) && s.stride[i] == s.stride[j]
    ensures var pi, pj := PassOf(s)[i], PassOf(s)[j];
      -pj <= Got(s, n, i) * pi - Got(s, n, j) * pj <= pi
  {
    if i != j {
      ChargesBalance(s, n, i, j);
    }
  }

  // Priorities above BIG_STRIDE are no proportion at all: they make the pass 0, and a
  // level competitor with another priority gets one turn at most.
  lemma {:induction false} HugePriorityStarves<K>(s: State<K>, n: nat, i: K, j: K)
    requires Inv(s) && i in Runnable(s) && j in Runnable(s) && s.stride[i] == s.stride[j]
    requires s.priority[j] <= BIG_STRIDE < s.priority[i]
    ensures Got(s, n, j) <= 1
  {
    TurnsAreFair(s, n);
    GotIsCount(s, n, j);
    OneTurnAtMost(s.stride, PassOf(s), Runnable(s), Picks(s, n), i, j);
  }

  // ---------------------------------------------------------------- waiting

  lemma {:induction false} SomeTurn<K>(s: State<K>, n: nat, k: K) returns (m: nat)
    requires Got(s, n, k) > 0
    ensures 1 <= m <= n && Turns(s, m).current == Some(k)
  {
    if Turns(s, n).current == Some(k) {
      m := n;
    } else {
      m := SomeTurn(s, n - 1, k);
    }
  }

  // No other priority exceeds BIG_STRIDE.
  ghost predicate OthersCharged<K>(s: State<K>, i: K)
    requires Known(s)
  {
    forall j | j in Runnable(s) && j != i :: s.priority[j] <= BIG_STRIDE
  }

  // A competitor that leads every other by at most b of that one's passes runs within so
  // many turns.
  lemma {:induction false} WaitByLead<K>(s: State<K>, i: K, b: nat) returns (n: nat)
    requires Inv(s) && i in Runnable(s) && OthersCharged(s, i)
    requires forall j | j in Runnable(s) && j != i :: LeadWithin(s.stride, PassOf(s), i, j, b)
    ensures 1 <= n <= WaitBound(|Runnable(s)|, b)
    ensures Turns(s, n).current == Some(i)
  {
    var r := Runnable(s);
    assert |r - {i}| == |r| - 1;
    var bound := WaitBound(|r|, b);
    if Got(s, bound, i) == 0 {
      TurnsAreFair(s, bound);
      GotIsCount(s, bound, i);
      WaitIsBounded(s.stride, PassOf(s), r, Picks(s, bound), i, b);
      assert false;
    }
    n := SomeTurn(s, bound, i);
  }

  // In particular, whoever is ahead of nobody runs within one round.
  lemma {:induction false} LevelWait<K>(s: State<K>, i: K) returns (n: nat)
    requires Inv(s) && i in Runnable(s) && OthersCharged(s, i)
    requires forall j | j in Runnable(s) && j != i :: Lead(s.stride, i, j) <= 0
    ensures 1 <= n <= |Runnable(s)|
    ensures Turns(s, n).current == Some(i)
  {
    assert |Runnable(s) - {i}| == |Runnable(s)| - 1;
    assert WaitBound(|Runnable(s)|, 0) == |Runnable(s)|;
    n := WaitByLead(s, i, 0);
  }

  // In any case, no wait is longer than half the circle for every other competitor.
  lemma {:induction false} BoundedWait<K>(s: State<K>, i: K) returns (n: nat)
    requires Inv(s) && i in Runnable(s) && OthersCharged(s, i)
    ensures 1 <= n <= (|Runnable(s)| - 1) * TWO_31 + 1
    ensures Turns(s, n).current == Some(i)
  {
    forall j | j in Runnable(s) && j != i ensures LeadWithin(s.stride, PassOf(s), i, j, TWO_31 - 1) {
      LeadInPasses(s.stride, PassOf(s), i, j);
    }
    assert |Runnable(s) - {i}| == |Runnable(s)| - 1;
    n := WaitByLead(s, i, TWO_31 - 1);
  }

  // ---------------------------------------------------------------- starvation

  lemma FreeCharge<K>(stride: map<K, int>, k: K)
    requires k in stride && 0 <= stride[k] < TWO_32
    ensures Charge(stride, k, 0) == stride
  {
  }

  // Put back into the pool, a process that nobody is behind is its root again.
  lemma {:induction false} StaysOn<K>(t: State<K>, z: K)
    requires Known(t) && t.current == Some(z) && t.priority[z] > BIG_STRIDE && 0 <= t.stride[z] < TWO_32
    requires t.pool.Node? ==> Le(ByStride(t.stride), z, t.pool.key)
    ensures Turn(t) == t
  {
    var q := Requeue(t, true);
    assert Merge(ByStride(t.stride), t.pool, Leaf) == t.pool;
    assert q.pool == Node(z, t.pool, Leaf);
    FreeCharge(t.stride, z);
  }

  // A process with pass 0 that runs once is never replaced.
  lemma {:induction false} FreeTurnRepeats<K>(s: State<K>, z: K)
    requires Inv(s) && z in Runnable(s) && s.priority[z] > BIG_STRIDE
    requires Turn(s).current == Some(z)
    ensures Turn(Turn(s)) == Turn(s)
  {
    var t := Turn(s);
    TurnEffect(s);
    FreeCharge(s.stride, z);
    assert t.pool.Node? ==> t.pool.key in Runnable(t);
    StaysOn(t, z);
  }

  lemma {:induction false} FreeTurnsRepeat<K>(s: State<K>, n: nat, m: nat, z: K)
    requires Inv(s) && z in Runnable(s) && s.priority[z] > BIG_STRIDE
    requires 0 < n <= m && Turns(s, n).current == Some(z)
    ensures Turns(s, m) == Turns(s, n)
  {
    TurnsKeep(s, n - 1);
    FreeTurnRepeats(Turns(s, n - 1), z);
    IterateFixed(Turn<K>, s, n, m);
  }

  // Process i runs again after m turns.
  ghost predicate RunsAfter<K>(s: State<K>, m: nat, i: K) {
    exists n :: n > m && Turns(s, n).current == Some(i)
  }

  ghost predicate NobodyStarves<K>(s: State<K>) {
    forall i, m: nat | i in Runnable(s) :: RunsAfter(s, m, i)
  }

  lemma {:induction false} AloneRuns<K>(s: State<K>, n: nat, i: K)
    requires Inv(s) && Runnable(s) == {i} && n > 0
    ensures Turns(s, n).current == Some(i)
  {
    TurnsKeep(s, n);
  }

  lemma {:induction false} RunsAgain<K>(s: State<K>, m: nat, i: K)
    requires Inv(s) && i in Runnable(s)
    requires forall k | k in Runnable(s) :: s.priority[k] <= BIG_STRIDE
    ensures RunsAfter(s, m, i)
  {
    TurnsKeep(s, m);
    var n := BoundedWait(Turns(s, m), i);
    IterateFrom(Turn<K>, s, m, n);
    assert Turns(s, m + n).current == Some(i);
  }

  lemma {:induction false} AllRun<K>(s: State<K>)
    requires Inv(s)
    requires |Runnable(s)| <= 1 || forall k | k in Runnable(s) :: s.priority[k] <= BIG_STRIDE
    ensures NobodyStarves(s)
  {
    forall i, m: nat | i in Runnable(s) ensures RunsAfter(s, m, i) {
      if |Runnable(s)| <= 1 {
        SingletonOf(Runnable(s), i);
        AloneRuns(s, m + 1, i);
      } else {
        RunsAgain(s, m, i);
      }
    }
  }

  lemma SingletonOf<K>(r: set<K>, i: K)
    requires i in r && |r| <= 1
    ensures r == {i}
  {
    assert |r - {i}| == 0;
  }

  // Once a process with pass 0 has run, the others wait for ever.
  lemma {:induction false} OneStarves<K>(s: State<K>, z: K, j: K)
    requires Inv(s) && z in Runnable(s) && j in Runnable(s) && z != j && s.priority[z] > BIG_STRIDE
    ensures !NobodyStarves(s)
  {
    if RunsAfter(s, 0, z) {
      var n :| n > 0 && Turns(s, n).current == Some(z);
      if RunsAfter(s, n, j) {
        var m :| m > n && Turns(s, m).current == Some(j);
        FreeTurnsRepeat(s, n, m, z);
        assert false;
      }
    }
  }

  // Every competitor keeps running, for ever, exactly when it is alone or nobody's priority
  // exceeds BIG_STRIDE.
  lemma {:induction false} NoStarvationIff<K>(s: State<K>)
    requires Inv(s)
    ensures NobodyStarves(s)
            <==> |Runnable(s)| <= 1 || forall k | k in Runnable(s) :: s.priority[k] <= BIG_STRIDE
  {
    var r := Runnable(s);
    if |r| <= 1 || forall k | k in r :: s.priority[k] <= BIG_STRIDE {
      AllRun(s);
    } else {
      var z :| z in r && s.priority[z] > BIG_STRIDE;
      assert |r - {z}| > 0;
      var j :| j in r - {z};
      OneStarves(s, z, j);
    }
  }
}
