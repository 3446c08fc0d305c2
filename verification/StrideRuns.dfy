// Runs of the stride scheduler from its start, with processes as alloc_proc() creates them:
// stride 0, priority 0.
module StrideRuns {
  import opened SkewTree
  import opened StrideOrder
  import opened StrideSched
  import opened StrideTurns
  import opened StridePriority
  import opened Words

  const BIG: int := BIG_STRIDE

  // Three processes: their strides, and the priorities of the first two.
  function Three(pool: Tree<int>, current: Option<int>, x: int, y: int, z: int, p: nat, q: nat): State<int> {
    State(pool, current, map[0 := x, 1 := y, 2 := z], map[0 := p, 1 := q, 2 := 0])
  }

  function Start(): State<int> {
    Three(Leaf, None, 0, 0, 0, 0, 0)
  }

  lemma StartIsOrdered()
    ensures Inv(Start())
  {
  }

  // ---------------------------------------------------------------- a newcomer

  // Two processes are created and get three turns.
  function NewcomerRun(): seq<Event<int>> {
    [Wake(0), Schedule(true), Wake(1), Schedule(true), Schedule(true)]
  }

  function Newcomer(n: nat): State<int> {
    if n == 0 then Start()
    else if n == 1 then Three(Single(0), None, 0, 0, 0, 0, 0)
    else if n == 2 then Three(Leaf, Some(0), BIG, 0, 0, 0, 0)
    else if n == 3 then Three(Single(1), Some(0), BIG, 0, 0, 0, 0)
    else if n == 4 then Three(Single(0), Some(1), BIG, BIG, 0, 0, 0)
    else TwoRunning()
  }

  function TwoRunning(): State<int> {
    Three(Single(0), Some(1), BIG, 2 * BIG, 0, 0, 0)
  }

  lemma FirstWakes()
    ensures LeadsTo(Newcomer(0), NewcomerRun()[0], Newcomer(1))
  {
    assert AheadOf(Start().stride, {0}, 0);
  }

  lemma FirstTurn()
    ensures LeadsTo(Newcomer(1), NewcomerRun()[1], Newcomer(2))
  {
  }

  lemma SecondWakes()
    ensures LeadsTo(Newcomer(2), NewcomerRun()[2], Newcomer(3))
  {
    var s := Newcomer(2);
    assert AheadOf(s.stride, {0, 1}, s.stride[1]);
    assert Runnable(s) + {1} == {0, 1};
  }

  lemma SecondTurn()
    ensures LeadsTo(Newcomer(3), NewcomerRun()[3], Newcomer(4))
  {
    var q := Three(Node(1, Single(0), Leaf), None, BIG, 0, 0, 0, 0);
    assert Requeue(Newcomer(3), true) == q;
    assert Advance(q, 1) == Three(Node(1, Single(0), Leaf), None, BIG, BIG, 0, 0, 0);
  }

  lemma ThirdTurn()
    ensures LeadsTo(Newcomer(4), NewcomerRun()[4], Newcomer(5))
  {
    var q := Three(Node(1, Single(0), Leaf), None, BIG, BIG, 0, 0, 0);
    assert Requeue(Newcomer(4), true) == q;
    assert Advance(q, 1) == Three(Node(1, Single(0), Leaf), None, BIG, 2 * BIG, 0, 0, 0);
  }

  lemma NewcomerStep(n: nat)
    requires n < 5
    ensures LeadsTo(Newcomer(n), NewcomerRun()[n], Newcomer(n + 1))
  {
    if n == 0 {
      FirstWakes();
    } else if n == 1 {
      FirstTurn();
    } else if n == 2 {
      SecondWakes();
    } else if n == 3 {
      SecondTurn();
    } else {
      ThirdTurn();
    }
  }

  lemma {:induction false} RunToTwo(es: seq<Event<int>>)
    requires |es| == 5 && forall n | 0 <= n < 5 :: LeadsTo(Newcomer(n), es[n], Newcomer(n + 1))
    ensures LegalRun(Start(), es) && OrderedThroughout(Start(), es) && Run(Start(), es) == TwoRunning()
  {
    StartIsOrdered();
    RunOfStates(n => Newcomer(n), es, 0);
    assert es[0..] == es;
  }

  lemma {:induction false} TwoHaveRun()
    ensures LegalRun(Start(), NewcomerRun()) && OrderedThroughout(Start(), NewcomerRun())
    ensures Run(Start(), NewcomerRun()) == TwoRunning()
  {
    forall n | 0 <= n < 5 ensures LeadsTo(Newcomer(n), NewcomerRun()[n], Newcomer(n + 1)) {
      NewcomerStep(n);
    }
    RunToTwo(NewcomerRun());
  }

  lemma ThirdWakes()
    ensures Step(TwoRunning(), Wake(2)) == Three(Node(2, Single(0), Leaf), Some(1), BIG, 2 * BIG, 0, 0, 0)
  {
  }

  lemma {:induction false} RoundInACircle()
    ensures var t := Three(Node(2, Single(0), Leaf), Some(1), BIG, 2 * BIG, 0, 0, 0); var comp := ByStride(t.stride);
      && Runnable(t) == {0, 1, 2} && Lt(comp, 0, 1) && Lt(comp, 1, 2) && Lt(comp, 2, 0)
      && !TotalPreorder(comp, Runnable(t))
  {
    var t := Three(Node(2, Single(0), Leaf), Some(1), BIG, 2 * BIG, 0, 0, 0);
    assert Runnable(t) == {0, 1, 2};
    assert !Le(ByStride(t.stride), 2, 1);
  }

  // A process is created with stride 0, and then need not fit: all is in order until a
  // third process is created, and then the three go round in a circle.
  lemma {:induction false} NewcomerBreaksOrder()
    ensures LegalRun(Start(), NewcomerRun()) && OrderedThroughout(Start(), NewcomerRun())
    ensures var s := Run(Start(), NewcomerRun()); s == TwoRunning() && 2 !in Runnable(s) && s.stride[2] == 0
    ensures var t := Step(TwoRunning(), Wake(2)); var comp := ByStride(t.stride);
      && Runnable(t) == {0, 1, 2} && Lt(comp, 0, 1) && Lt(comp, 1, 2) && Lt(comp, 2, 0)
      && !TotalPreorder(comp, Runnable(t))
  {
    TwoHaveRun();
    ThirdWakes();
    RoundInACircle();
  }

  // ---------------------------------------------------------------- priorities

  // Two processes are created and each asks for a priority in its first turn.
  function PriorityRun(p: nat, q: nat): seq<Event<int>> {
    [Wake(0), Wake(1), Schedule(true), SetPriority(q), Schedule(true), SetPriority(p)]
  }

  function Asking(p: nat, q: nat, n: nat): State<int> {
    if n == 0 then Start()
    else if n == 1 then Three(Single(0), None, 0, 0, 0, 0, 0)
    else if n == 2 then Three(Node(1, Single(0), Leaf), None, 0, 0, 0, 0, 0)
    else if n == 3 then Three(Single(0), Some(1), 0, BIG, 0, 0, 0)
    else if n == 4 then Three(Single(0), Some(1), 0, BIG, 0, 0, q)
    else if n == 5 then BothAsked(0, q)
    else BothAsked(p, q)
  }

  function BothAsked(p: nat, q: nat): State<int> {
    Three(Single(1), Some(0), BIG, BIG, 0, p, q)
  }

  lemma OneWakes(p: nat, q: nat)
    ensures LeadsTo(Asking(p, q, 0), PriorityRun(p, q)[0], Asking(p, q, 1))
  {
    assert AheadOf(Start().stride, {0}, 0);
  }

  lemma OtherWakes(p: nat, q: nat)
    ensures LeadsTo(Asking(p, q, 1), PriorityRun(p, q)[1], Asking(p, q, 2))
  {
    var s := Asking(p, q, 1);
    assert AheadOf(s.stride, {0, 1}, s.stride[1]);
    assert Runnable(s) + {1} == {0, 1};
  }

  lemma OtherRuns(p: nat, q: nat)
    ensures LeadsTo(Asking(p, q, 2), PriorityRun(p, q)[2], Asking(p, q, 3))
  {
  }

  lemma OtherAsks(p: nat, q: nat)
    requires p > 0 && q > 0
    ensures LeadsTo(Asking(p, q, 3), PriorityRun(p, q)[3], Asking(p, q, 4))
  {
  }

  lemma OneRuns(p: nat, q: nat)
    ensures LeadsTo(Asking(p, q, 4), PriorityRun(p, q)[4], Asking(p, q, 5))
  {
    var s := Three(Node(0, Single(1), Leaf), None, 0, BIG, 0, 0, q);
    assert Requeue(Asking(p, q, 4), true) == s;
    assert Advance(s, 0) == Three(Node(0, Single(1), Leaf), None, BIG, BIG, 0, 0, q);
  }

  lemma OneAsks(p: nat, q: nat)
    requires p > 0 && q > 0
    ensures LeadsTo(Asking(p, q, 5), PriorityRun(p, q)[5], Asking(p, q, 6))
  {
  }

  lemma AskingStep(p: nat, q: nat, n: nat)
    requires n < 6 && p > 0 && q > 0
    ensures LeadsTo(Asking(p, q, n), PriorityRun(p, q)[n], Asking(p, q, n + 1))
  {
    if n == 0 {
      OneWakes(p, q);
    } else if n == 1 {
      OtherWakes(p, q);
    } else if n == 2 {
      OtherRuns(p, q);
    } else if n == 3 {
      OtherAsks(p, q);
    } else if n == 4 {
      OneRuns(p, q);
    } else {
      OneAsks(p, q);
    }
  }

  lemma {:induction false} RunToLevel(p: nat, q: nat, es: seq<Event<int>>)
    requires |es| == 6 && forall n | 0 <= n < 6 :: LeadsTo(Asking(p, q, n), es[n], Asking(p, q, n + 1))
    ensures LegalRun(Start(), es) && OrderedThroughout(Start(), es)
    ensures Run(Start(), es) == BothAsked(p, q) && Inv(BothAsked(p, q))
  {
    StartIsOrdered();
    RunOfStates(n => Asking(p, q, n), es, 0);
    assert es[0..] == es;
  }

  // They are level then, whatever they asked for.
  lemma {:induction false} LevelAfterAsking(p: nat, q: nat)
    requires p > 0 && q > 0
    ensures LegalRun(Start(), PriorityRun(p, q)) && OrderedThroughout(Start(), PriorityRun(p, q))
    ensures Run(Start(), PriorityRun(p, q)) == BothAsked(p, q)
    ensures Inv(BothAsked(p, q)) && Runnable(BothAsked(p, q)) == {0, 1}
  {
    forall n | 0 <= n < 6 ensures LeadsTo(Asking(p, q, n), PriorityRun(p, q)[n], Asking(p, q, n + 1)) {
      AskingStep(p, q, n);
    }
    RunToLevel(p, q, PriorityRun(p, q));
  }

  lemma TieStays(p: nat, q: nat)
    ensures Turns(BothAsked(p, q), 1).current == Some(0)
  {
    assert Requeue(BothAsked(p, q), true).pool == Node(0, Single(1), Leaf);
  }

  lemma {:induction false} OneMoreTurnComes(p: nat, q: nat, n: nat)
    requires n > 0
    ensures Got(BothAsked(p, q), n, 0) >= 1
  {
    TieStays(p, q);
    GotMonotone(BothAsked(p, q), 1, n, 0);
  }

  // With priorities 1 and 2^31, the first process gets the next turn and no other after it.
  lemma {:induction false} ThirdTurnNeverComes(n: nat)
    requires n > 0
    ensures Got(BothAsked(1, 0x8000_0000), n, 0) == 1
  {
    LevelAfterAsking(1, 0x8000_0000);
    HugePriorityStarves(BothAsked(1, 0x8000_0000), n, 1, 0);
    OneMoreTurnComes(1, 0x8000_0000, n);
  }

  lemma {:induction false} EqualPassesAlike(p: nat, q: nat, n: nat)
    requires 0 < p <= BIG && 0 < q <= BIG && Pass(p) == Pass(q)
    ensures -1 <= Got(BothAsked(p, q), n, 0) - Got(BothAsked(p, q), n, 1) <= 1
  {
    LevelAfterAsking(p, q);
    NeverFarAhead(BothAsked(p, q), n, 0, 1);
    NeverFarAhead(BothAsked(p, q), n, 1, 0);
  }

  // Unequal priorities whose quotients are equal: neither process ever gets two turns more
  // than the other.
  lemma {:induction false} UnequalPrioritiesAlike(n: nat)
    ensures var s := BothAsked(0x4000_0000, 0x7FFF_FFFF);
      -1 <= Got(s, n, 0) - Got(s, n, 1) <= 1
  {
    EqualPassesAlike(0x4000_0000, 0x7FFF_FFFF, n);
  }
}
