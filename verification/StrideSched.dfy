// The stride scheduler of lab8/kern/schedule/default_sched_stride.c, driven by schedule()
// and wakeup_proc() of lab8/kern/schedule/sched.c, over the skew heap.
module StrideSched {
  import opened SkewTree
  import opened StrideOrder
  import opened Words

  const BIG_STRIDE: int := 0x7FFF_FFFF

  datatype Option<T> = None | Some(value: T)

  // pool is the run queue and current the running process (None for the idle process).
  // stride holds the wrapped 32-bit counters of all processes.
  datatype State<K> = State(pool: Tree<K>, current: Option<K>, stride: map<K, int>, priority: map<K, nat>)

  // By how much a turn advances the stride.
  function Pass(priority: nat): (p: nat)
    ensures p <= BIG_STRIDE
    ensures p == 0 <==> priority > BIG_STRIDE
  {
    if priority == 0 then BIG_STRIDE else BIG_STRIDE / priority
  }

  // The quotient of BIG_STRIDE by the priority.
  lemma PassIsQuotient(priority: nat)
    ensures priority > 0 ==> Pass(priority) * priority <= 0x7FFF_FFFF < (Pass(priority) + 1) * priority
    ensures Pass(0) == 0x7FFF_FFFF
  {
  }

  ghost predicate Known<K>(s: State<K>) {
    && s.stride.Keys == s.priority.Keys
    && Keys(s.pool) <= s.stride.Keys
    && (s.current.Some? ==> s.current.value in s.stride)
  }

  // The processes competing for the processor.
  function Runnable<K>(s: State<K>): set<K> {
    Keys(s.pool) + (if s.current.Some? then {s.current.value} else {})
  }

  // ---------------------------------------------------------------- steps

  // stride_enqueue.
  function Enqueue<K>(s: State<K>, k: K): (r: State<K>)
    ensures Keys(r.pool) == Keys(s.pool) + {k}
  {
    s.(pool := Insert(ByStride(s.stride), s.pool, k))
  }

  // stride_pick_next: the root, whose stride advances while it is still in the pool.
  function Advance<K>(s: State<K>, k: K): State<K>
    requires k in s.stride && k in s.priority
  {
    s.(stride := Charge(s.stride, k, Pass(s.priority[k])))
  }

  // stride_dequeue.
  function Dequeue<K>(s: State<K>, k: K): State<K>
    requires k in Keys(s.pool)
  {
    s.(pool := Remove(ByStride(s.stride), s.pool, k))
  }

  datatype Event<K> =
    | Schedule(stillRunnable: bool)   // schedule(), the current process staying runnable or not
    | Wake(proc: K)                   // wakeup_proc()
    | SetPriority(priority: nat)      // lab6_set_priority() by the current process

  // schedule(): the current process goes back to the queue if it is runnable, then the
  // queue's choice leaves the queue and runs.
  function Requeue<K>(s: State<K>, stillRunnable: bool): (r: State<K>)
    ensures Known(s) ==> Known(r)
  {
    if s.current.Some? && stillRunnable then Enqueue(s, s.current.value).(current := None)
    else s.(current := None)
  }

  function RunNext<K>(s: State<K>): State<K>
    requires Known(s)
  {
    if s.pool.Leaf? then s
    else Dequeue(Advance(s, s.pool.key), s.pool.key).(current := Some(s.pool.key))
  }

  ghost predicate Legal<K>(s: State<K>, e: Event<K>) {
    e.Wake? ==> e.proc in s.stride
  }

  ghost function Step<K>(s: State<K>, e: Event<K>): (t: State<K>)
    requires Known(s) && Legal(s, e)
    ensures Known(t) && t.stride.Keys == s.stride.Keys
  {
    match e
    case Schedule(r) => RunNext(Requeue(s, r))
    case Wake(k) => if k in Runnable(s) then s else Enqueue(s, k)
    case SetPriority(p) =>
      if s.current.None? then s
      else s.(priority := s.priority[s.current.value := if p == 0 then 1 else p])
  }

  // ---------------------------------------------------------------- invariant

  // What holds whatever the strides are.
  ghost predicate Formed<K>(s: State<K>) {
    && Known(s)
    && Distinct(s.pool)
    && (s.current.Some? ==> s.current.value !in Keys(s.pool))
    && forall k | k in s.stride :: 0 <= s.stride[k] < TWO_32
  }

  // What makes the queue a priority queue.
  ghost predicate Ordered<K>(s: State<K>) {
    && TotalPreorder(ByStride(s.stride), Runnable(s))
    && HeapOrdered(ByStride(s.stride), s.pool)
  }

  ghost predicate Inv<K>(s: State<K>) {
    Formed(s) && Ordered(s)
  }

  // Together with the competitors, a waking process fits in half the circle of strides.
  ghost predicate Fits<K>(s: State<K>, e: Event<K>)
    requires Known(s) && Legal(s, e)
  {
    e.Wake? ==> InWindow(s.stride, Runnable(s) + {e.proc})
  }

  lemma {:induction false} EnqueueFormed<K>(s: State<K>, k: K)
    requires Known(s) && Distinct(s.pool) && k !in Keys(s.pool)
    ensures Distinct(Enqueue(s, k).pool)
  {
    MergeDistinct(ByStride(s.stride), s.pool, Single(k));
  }

  lemma {:induction false} StepKeepsFormed<K>(s: State<K>, e: Event<K>)
    requires Formed(s) && Legal(s, e)
    ensures Formed(Step(s, e))
  {
    match e
    case Wake(k) =>
      if k !in Runnable(s) {
        EnqueueFormed(s, k);
      }
    case SetPriority(_) =>
    case Schedule(r) =>
      if r && s.current.Some? {
        EnqueueFormed(s, s.current.value);
      }
      RunNextFormed(Requeue(s, r));
  }

  lemma {:induction false} RunNextFormed<K>(s: State<K>)
    requires Formed(s) && s.current == None
    ensures Formed(RunNext(s))
    ensures Runnable(RunNext(s)) == Runnable(s)
  {
    if s.pool.Node? {
      RemoveKeys(ByStride(Advance(s, s.pool.key).stride), s.pool, s.pool.key);
    }
  }

  // Heap order depends on the comparator only where the heap's entries are compared.
  lemma {:induction false} HeapOrderedAgree<K>(comp: (K, K) -> int, comp': (K, K) -> int, t: Tree<K>)
    requires HeapOrdered(comp, t)
    requires forall a, b | a in Keys(t) && b in Keys(t) :: comp(a, b) == comp'(a, b)
    ensures HeapOrdered(comp', t)
  {
    if t.Node? {
      HeapOrderedAgree(comp, comp', t.left);
      HeapOrderedAgree(comp, comp', t.right);
    }
  }

  lemma {:induction false} EnqueueKeepsOrder<K>(s: State<K>, k: K)
    requires TotalPreorder(ByStride(s.stride), Keys(s.pool) + {k})
    requires HeapOrdered(ByStride(s.stride), s.pool)
    ensures HeapOrdered(ByStride(s.stride), Enqueue(s, k).pool)
  {
    MergeHeapOrdered(ByStride(s.stride), s.pool, Single(k));
  }

  // The process that runs next is below all others, and has the least of any counters
  // that unwrap the strides.
  lemma {:induction false} PicksMinimum<K>(s: State<K>)
    requires Inv(s) && s.pool.Node?
    ensures Below(ByStride(s.stride), s.pool.key, Keys(s.pool))
    ensures exists counter :: Unwraps(counter, s.stride, Keys(s.pool))
    ensures forall counter, x | Unwraps(counter, s.stride, Keys(s.pool)) && x in Keys(s.pool) ::
              counter[s.pool.key] <= counter[x]
  {
    RootIsMinimum(ByStride(s.stride), s.pool);
    UnwrapsIffPreorder(s.stride, Keys(s.pool));
    forall counter, x | Unwraps(counter, s.stride, Keys(s.pool)) && x in Keys(s.pool)
      ensures counter[s.pool.key] <= counter[x]
    {
      assert Le(ByStride(s.stride), s.pool.key, x);
    }
  }

  lemma {:induction false} AdvanceKeepsPreorder<K>(s: State<K>)
    requires Inv(s) && s.pool.Node?
    ensures TotalPreorder(ByStride(Advance(s, s.pool.key).stride), Keys(s.pool))
  {
    RootIsMinimum(ByStride(s.stride), s.pool);
    ChargeKeepsPreorder(s.stride, Keys(s.pool), s.pool.key, Pass(s.priority[s.pool.key]));
  }

  // The root's stride changes while it is in the pool; the two subtrees do not notice.
  lemma {:induction false} AdvanceOrder<K>(s: State<K>)
    requires Inv(s) && s.pool.Node?
    ensures var a := Advance(s, s.pool.key); var m := Merge(ByStride(a.stride), s.pool.left, s.pool.right);
      HeapOrdered(ByStride(a.stride), m) && Distinct(m) && Keys(m) == Keys(s.pool) - {s.pool.key}
  {
    var a, l, r := Advance(s, s.pool.key), s.pool.left, s.pool.right;
    var comp := ByStride(a.stride);
    HeapOrderedAgree(ByStride(s.stride), comp, l);
    HeapOrderedAgree(ByStride(s.stride), comp, r);
    AdvanceKeepsPreorder(s);
    MergeDistinct(comp, l, r);
    MergeHeapOrdered(comp, l, r);
  }

  lemma {:induction false} RunNextKeeps<K>(s: State<K>)
    requires Inv(s) && s.current == None
    ensures Inv(RunNext(s)) && Runnable(RunNext(s)) == Runnable(s)
  {
    RunNextFormed(s);
    if s.pool.Node? {
      AdvanceKeepsPreorder(s);
      AdvanceOrder(s);
      assert RunNext(s).pool == Merge(ByStride(Advance(s, s.pool.key).stride), s.pool.left, s.pool.right);
    }
  }

  lemma {:induction false} RequeueKeeps<K>(s: State<K>, r: bool)
    requires Inv(s)
    ensures Inv(Requeue(s, r)) && Runnable(Requeue(s, r)) <= Runnable(s)
    ensures r ==> Runnable(Requeue(s, r)) == Runnable(s)
  {
    if s.current.Some? && r {
      assert Runnable(s) == Keys(s.pool) + {s.current.value};
      EnqueueFormed(s, s.current.value);
      EnqueueKeepsOrder(s, s.current.value);
    }
  }

  lemma {:induction false} ScheduleKeeps<K>(s: State<K>, r: bool)
    requires Inv(s)
    ensures Inv(Step(s, Schedule(r)))
  {
    RequeueKeeps(s, r);
    RunNextKeeps(Requeue(s, r));
  }

  lemma {:induction false} JoinKeepsIff<K>(s: State<K>, k: K)
    requires Inv(s) && k in s.stride && k !in Runnable(s)
    ensures Inv(Step(s, Wake(k))) <==> TotalPreorder(ByStride(s.stride), Runnable(s) + {k})
  {
    EnqueueFormed(s, k);
    assert Runnable(Enqueue(s, k)) == Runnable(s) + {k};
    if TotalPreorder(ByStride(s.stride), Runnable(s) + {k}) {
      EnqueueKeepsOrder(s, k);
    }
  }

  lemma {:induction false} RunnableFits<K>(s: State<K>, k: K)
    requires Inv(s) && k in Runnable(s)
    ensures Fits(s, Wake(k))
  {
    PreorderIffWindow(s.stride, Runnable(s));
    assert Runnable(s) + {k} == Runnable(s);
  }

  lemma {:induction false} WakeKeepsIff<K>(s: State<K>, k: K)
    requires Inv(s) && k in s.stride
    ensures Inv(Step(s, Wake(k))) <==> Fits(s, Wake(k))
  {
    PreorderIffWindow(s.stride, Runnable(s) + {k});
    if k in Runnable(s) {
      RunnableFits(s, k);
    } else {
      JoinKeepsIff(s, k);
    }
  }

  // A legal step keeps the invariant exactly when whoever wakes fits.
  lemma {:induction false} StepKeepsInvariantIff<K>(s: State<K>, e: Event<K>)
    requires Inv(s) && Legal(s, e)
    ensures Inv(Step(s, e)) <==> Fits(s, e)
  {
    match e
    case Wake(k) => WakeKeepsIff(s, k);
    case SetPriority(_) =>
    case Schedule(r) => ScheduleKeeps(s, r);
  }

  // ---------------------------------------------------------------- what an event does

  // After schedule() those compete who did before, except for the current process if it has
  // blocked.  If there are any, one of them runs, below all others and charged its pass;
  // no other stride and no priority changes.
  lemma {:induction false} ScheduleEffect<K>(s: State<K>, stillRunnable: bool)
    requires Formed(s)
    ensures var t := Step(s, Schedule(stillRunnable)); var c := if stillRunnable then Runnable(s) else Keys(s.pool);
      && Runnable(t) == c && t.priority == s.priority
      && (c == {} ==> t.current == None && t.stride == s.stride)
      && (c != {} ==>
            && t.current.Some? && t.current.value in c
            && t.stride == Charge(s.stride, t.current.value, Pass(s.priority[t.current.value])))
      && (c != {} && Inv(s) ==> Below(ByStride(s.stride), t.current.value, c))
  {
    var q := Requeue(s, stillRunnable);
    if s.current.Some? && stillRunnable {
      EnqueueFormed(s, s.current.value);
    }
    RunNextFormed(q);
    if Inv(s) && q.pool.Node? {
      RequeueKeeps(s, stillRunnable);
      RootIsMinimum(ByStride(q.stride), q.pool);
    }
  }

  // A waking process competes; nothing else changes.
  lemma {:induction false} WakeEffect<K>(s: State<K>, k: K)
    requires Known(s) && k in s.stride
    ensures var t := Step(s, Wake(k));
      && Runnable(t) == Runnable(s) + {k}
      && t.current == s.current && t.stride == s.stride && t.priority == s.priority
  {
  }

  // Only the priority of the current process changes, to what it asked for or at least 1.
  lemma {:induction false} SetPriorityEffect<K>(s: State<K>, p: nat)
    requires Known(s)
    ensures var t := Step(s, SetPriority(p));
      && t.pool == s.pool && t.current == s.current && t.stride == s.stride
      && t.priority.Keys == s.priority.Keys
      && forall k | k in s.priority :: t.priority[k] == if s.current == Some(k) then (if p > 1 then p else 1) else s.priority[k]
  {
  }

  // ---------------------------------------------------------------- runs

  ghost predicate LegalRun<K>(s: State<K>, es: seq<Event<K>>)
    requires Known(s)
    decreases |es|
  {
    es != [] ==> Legal(s, es[0]) && LegalRun(Step(s, es[0]), es[1..])
  }

  // The state after all events.
  ghost function Run<K>(s: State<K>, es: seq<Event<K>>): (t: State<K>)
    requires Known(s) && LegalRun(s, es)
    ensures Known(t)
    decreases |es|
  {
    if es == [] then s else Run(Step(s, es[0]), es[1..])
  }

  // Who is running before each event.
  ghost function Runners<K>(s: State<K>, es: seq<Event<K>>): (r: seq<Option<K>>)
    requires Known(s) && LegalRun(s, es)
    ensures |r| == |es|
    decreases |es|
  {
    if es == [] then [] else [s.current] + Runners(Step(s, es[0]), es[1..])
  }

  // The reference: who wakes competes, and who blocks while it runs does so no longer.
  function Competitors<K>(c: set<K>, es: seq<Event<K>>, runners: seq<Option<K>>): set<K>
    requires |runners| == |es|
    decreases |es|
  {
    if es == [] then c
    else
      var c' :=
        match es[0]
        case Wake(k) => c + {k}
        case Schedule(r) => if !r && runners[0].Some? then c - {runners[0].value} else c
        case SetPriority(_) => c;
      Competitors(c', es[1..], runners[1..])
  }

  lemma {:induction false} EventCompetitors<K>(s: State<K>, e: Event<K>)
    requires Formed(s) && Legal(s, e)
    ensures Runnable(Step(s, e)) ==
      match e
      case Wake(k) => Runnable(s) + {k}
      case Schedule(r) => if !r && s.current.Some? then Runnable(s) - {s.current.value} else Runnable(s)
      case SetPriority(_) => Runnable(s)
  {
    match e
    case Wake(k) => WakeEffect(s, k);
    case Schedule(r) => ScheduleEffect(s, r);
    case SetPriority(p) => SetPriorityEffect(s, p);
  }

  // Over any run nobody gets lost and nobody comes in unasked.
  lemma {:induction false} RunCompetitors<K>(s: State<K>, es: seq<Event<K>>)
    requires Formed(s) && LegalRun(s, es)
    ensures Runnable(Run(s, es)) == Competitors(Runnable(s), es, Runners(s, es))
    decreases |es|
  {
    if es != [] {
      var t := Step(s, es[0]);
      EventCompetitors(s, es[0]);
      StepKeepsFormed(s, es[0]);
      RunCompetitors(t, es[1..]);
      assert Runners(s, es)[1..] == Runners(t, es[1..]);
    }
  }

  // The invariant holds at the start and after every event.
  ghost predicate OrderedThroughout<K>(s: State<K>, es: seq<Event<K>>)
    requires Known(s) && LegalRun(s, es)
    decreases |es|
  {
    Inv(s) && (es != [] ==> OrderedThroughout(Step(s, es[0]), es[1..]))
  }

  // Whoever wakes fits at that moment.
  ghost predicate FitThroughout<K>(s: State<K>, es: seq<Event<K>>)
    requires Known(s) && LegalRun(s, es)
    decreases |es|
  {
    es != [] ==> Fits(s, es[0]) && FitThroughout(Step(s, es[0]), es[1..])
  }

  // Over any run, the comparator is a total preorder on the competitors and the pool is in
  // heap order at every moment, exactly when everyone who wakes fits at that moment.
  lemma {:induction false} RunOrderedIff<K>(s: State<K>, es: seq<Event<K>>)
    requires Inv(s) && LegalRun(s, es)
    ensures OrderedThroughout(s, es) <==> FitThroughout(s, es)
    decreases |es|
  {
    if es != [] {
      StepKeepsInvariantIff(s, es[0]);
      if Inv(Step(s, es[0])) {
        RunOrderedIff(Step(s, es[0]), es[1..]);
      }
    }
  }

  // The event e leads from s to t, and if someone wakes it fits.
  ghost predicate LeadsTo<K>(s: State<K>, e: Event<K>, t: State<K>) {
    Known(s) && Legal(s, e) && Fits(s, e) && Step(s, e) == t
  }

  // A run is known from its states.
  lemma {:induction false} RunOfStates<K>(state: nat -> State<K>, es: seq<Event<K>>, n: nat)
    requires n <= |es| && Inv(state(n))
    requires forall m | n <= m < |es| :: LeadsTo(state(m), es[m], state(m + 1))
    ensures LegalRun(state(n), es[n..]) && OrderedThroughout(state(n), es[n..])
    ensures Run(state(n), es[n..]) == state(|es|) && Inv(state(|es|))
    decreases |es| - n
  {
    if n < |es| {
      assert LeadsTo(state(n), es[n], state(n + 1));
      StepKeepsInvariantIff(state(n), es[n]);
      RunOfStates(state, es, n + 1);
      assert es[n..][1..] == es[n + 1..];
    }
  }
}
