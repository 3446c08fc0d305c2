// The stride scheduler on linked heap entries: default_sched_stride.c, the parts of sched.c
// that drive it, and lab6_set_priority().  A process is named by its heap entry
// lab6_run_pool; its lab6_stride, lab6_priority and time_slice are kept in maps from entries.
module StrideQueue {
  import opened SkewTree
  import opened SkewHeap
  import opened StrideOrder
  import opened StrideSched
  import opened Words

  class Scheduler {
    const maxTimeSlice: int
    var pool: Entry?
    var procNum: nat
    var current: Option<Entry>
    var stride: map<Entry, int>
    var priority: map<Entry, nat>
    var timeSlice: map<Entry, int>
    ghost var tree: Tree<Entry>

    // What the queue operations rely on.
    ghost predicate Linked()
      reads this, Keys(tree)
    {
      && IsHeap(pool, tree)
      && procNum == Size(tree)
      && Known(View())
      && timeSlice.Keys == stride.Keys
    }

    // Between two scheduling operations the current process is not in the queue.
    ghost predicate Valid()
      reads this, Keys(tree)
    {
      Linked() && (current.Some? ==> current.value !in Keys(tree))
    }

    // The state of the scheduler as a value.
    ghost function View(): State<Entry>
      reads this
    {
      State(tree, current, stride, priority)
    }

    // stride_init.
    constructor (maxTimeSlice: int, stride: map<Entry, int>, priority: map<Entry, nat>, timeSlice: map<Entry, int>)
      requires stride.Keys == priority.Keys == timeSlice.Keys
      ensures Valid() && View() == State(Leaf, None, stride, priority)
      ensures this.maxTimeSlice == maxTimeSlice && this.timeSlice == timeSlice
    {
      this.maxTimeSlice := maxTimeSlice;
      pool, procNum, current := null, 0, None;
      this.stride, this.priority, this.timeSlice := stride, priority, timeSlice;
      tree := Leaf;
    }

    // What stride_enqueue leaves of a time slice: a used up or overlong one is renewed.
    function Renewed(slice: int): (r: int)
      ensures maxTimeSlice > 0 ==> (0 < r <= maxTimeSlice <==> slice >= 0)
    {
      if slice == 0 || slice > maxTimeSlice then maxTimeSlice else slice
    }

    method Renew(p: Entry)
      requires Linked() && p in stride
      modifies `timeSlice
      ensures Linked() && timeSlice == old(timeSlice)[p := Renewed(old(timeSlice[p]))]
    {
      if timeSlice[p] == 0 || timeSlice[p] > maxTimeSlice {
        timeSlice := timeSlice[p := maxTimeSlice];
      }
    }

    // stride_enqueue.
    method Enqueue(p: Entry)
      requires Linked() && p !in Keys(tree) && p in stride
      modifies `pool, `procNum, `tree, `timeSlice, Keys(tree), p
      ensures Linked() && View() == StrideSched.Enqueue(old(View()), p)
      ensures var slice := old(timeSlice[p]);
        timeSlice == old(timeSlice)[p := if slice == 0 || slice > maxTimeSlice then maxTimeSlice else slice]
    {
      ghost var calls;
      pool, calls := SkewHeap.Insert(pool, p, ByStride(stride), tree);
      procNum := procNum + 1;
      tree := SkewTree.Insert(ByStride(stride), tree, p);
      Renew(p);
    }

    // stride_dequeue.
    method Dequeue(p: Entry)
      requires Linked() && p in Keys(tree)
      modifies `pool, `procNum, `tree, Keys(tree)
      ensures Linked() && View() == StrideSched.Dequeue(old(View()), p)
      ensures p !in Keys(tree)
    {
      ghost var calls;
      RemoveKeys(ByStride(stride), tree, p);
      pool, calls := RemoveEntry(pool, p, ByStride(stride), tree);
      procNum := procNum - 1;
      tree := Remove(ByStride(stride), tree, p);
    }

    // stride_pick_next.
    method PickNext() returns (p: Entry?)
      requires Linked()
      modifies `stride
      ensures Linked()
      ensures p == null <==> old(tree).Leaf?
      ensures p == null ==> View() == old(View())
      ensures p != null ==> p == old(tree).key && View() == Advance(old(View()), p)
      ensures p != null ==>
        var pass := if priority[p] == 0 then 0x7FFF_FFFF else 0x7FFF_FFFF / priority[p];
        stride == old(stride)[p := (old(stride)[p] + pass) % 0x1_0000_0000]
    {
      if pool == null {
        return null;
      }
      p := pool;
      var pass := if priority[p] == 0 then BIG_STRIDE else BIG_STRIDE / priority[p];
      stride := stride[p := (stride[p] + pass) % TWO_32];
    }

    // The scheduling decision of schedule().
    method Schedule(stillRunnable: bool)
      requires Valid()
      modifies `pool, `procNum, `current, `stride, `timeSlice, `tree, Keys(tree),
        if current.Some? then {current.value} else {}
      ensures Valid() && View() == Step(old(View()), StrideSched.Schedule(stillRunnable))
      ensures timeSlice ==
        if old(current).Some? && stillRunnable
        then old(timeSlice)[old(current).value := Renewed(old(timeSlice)[old(current).value])]
        else old(timeSlice)
    {
      if current.Some? && stillRunnable {
        Enqueue(current.value);
      }
      current := None;
      assert View() == Requeue(old(View()), stillRunnable);
      RunNext();
    }

    // Its second half: the queue's choice leaves the queue and runs.
    method RunNext()
      requires Linked() && current.None?
      modifies `pool, `procNum, `current, `stride, `tree, Keys(tree)
      ensures Valid() && View() == StrideSched.RunNext(old(View()))
    {
      var next := PickNext();
      if next != null {
        Dequeue(next);
        current := Some(next);
      }
    }

    // The queueing done by wakeup_proc(): runnable is whether the process is in the queue
    // already, which for a process other than the current one its state tells.
    method Wake(p: Entry, runnable: bool)
      requires Valid() && p in stride
      requires current != Some(p) ==> (runnable <==> p in Keys(tree))
      modifies `pool, `procNum, `tree, `timeSlice, Keys(tree), p
      ensures Valid() && View() == Step(old(View()), StrideSched.Wake(p))
      ensures timeSlice ==
        if p in old(Runnable(View())) then old(timeSlice) else old(timeSlice)[p := Renewed(old(timeSlice)[p])]
    {
      if !runnable && current != Some(p) {
        Enqueue(p);
      }
    }

    // lab6_set_priority().
    method SetPriority(priority: nat)
      requires Valid()
      modifies `priority
      ensures Valid() && View() == Step(old(View()), StrideSched.SetPriority(priority))
    {
      if current.Some? {
        this.priority := this.priority[current.value := if priority == 0 then 1 else priority];
      }
    }
  }
}
