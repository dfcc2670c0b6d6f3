/** The scheduler's queue of tasks waiting for their time. */
module TaskQueue {
  import opened Ticks
  import opened PairingHeap

  datatype Result = Popped(task: Task) | IndexError
  datatype Option<+T> = Some(value: T) | None

  class TaskQueue {
    const clock: Clock
    var heap: Heap
    /** The number of pushes so far, which the code does not keep. */
    var pushes: nat
    /** The tasks that have been pushed and neither popped nor removed. */
    ghost var waiting: set<Task>

    ghost predicate Valid()
      reads this
    {
      && clock.Valid() && HasShape(heap) && Contents(heap) == waiting && Distinct(waiting)
      && forall x :: x in waiting ==> x.born < pushes
    }
    /** The heap is in time order, and all its times lie in a window shorter than half a period. */
    ghost predicate InTime()
      reads this
    {
      IsHeap(heap) && Window(clock, waiting)
    }

    constructor (clock: Clock)
      requires clock.Valid()
      ensures Valid() && InTime() && waiting == {} && this.clock == clock
    {
      this.clock := clock;
      heap, waiting, pushes := Empty, {}, 0;
    }

    /** `push`, for a task that is not in the queue, with the ticks of a time as its key. The heap stays
        in time order if the new time, too, lies in a window with those waiting. */
    method Push(id: nat, due: int)
      requires Valid() && forall x :: x in waiting ==> x.id != id
      modifies this
      ensures Valid() && pushes == old(pushes) + 1
      ensures waiting == old(waiting) + {Task(id, due, old(pushes))}
      ensures old(InTime()) && (forall x :: x in old(waiting) ==> -(clock.P() / 2) < x.due - due < clock.P() / 2) ==> InTime()
    {
      hide Meld, IsHeap, HasShape, Contents;
      var task := Task(id, due, pushes);
      var one := Top(Node(task, Nil));
      HalfIsPositive(clock);
      OneTask(task);
      MeldShaped(clock, one, heap);
      if IsHeap(heap) && Window(clock, {task} + waiting) {
        MeldKeeps(clock, one, heap);
      }
      heap := Meld(clock, one, heap);
      waiting := waiting + {task};
      pushes := pushes + 1;
    }

    /** `peek`. */
    method Peek() returns (r: Option<Task>)
      requires Valid()
      ensures r == None <==> waiting == {}
      ensures r.Some? ==> r.value in waiting
      ensures r.Some? && InTime() ==> First(r.value, waiting - {r.value})
    {
      if heap.Empty? {
        return None;
      }
      assert heap.tree.task in waiting;
      return Some(heap.tree.task);
    }

    /** `pop`: a task that waits; in time order the one due first, and of those due at the same time the
        one pushed first. A queue that has run empty is in time order again. */
    method Pop() returns (r: Result)
      requires Valid()
      modifies this`heap, this`waiting
      ensures Valid()
      ensures r == IndexError <==> old(waiting) == {}
      ensures r == IndexError ==> waiting == {}
      ensures r.Popped? ==> r.task in old(waiting) && waiting == old(waiting) - {r.task}
      ensures old(InTime()) || waiting == {} ==> InTime()
      ensures r.Popped? && old(InTime()) ==> First(r.task, waiting)
    {
      if heap.Empty? {
        return IndexError;
      }
      var head, child := heap.tree.task, heap.tree.child;
      WithoutTop(clock, heap.tree);
      hide HasShape, IsHeap, First, Distinct, Window, Contents;
      heap := Pairing(clock, child);
      waiting := waiting - {head};
      EmptyInTime(clock, heap);
      return Popped(head);
    }

    /** `remove`. */
    method Remove(id: nat)
      requires Valid()
      modifies this`heap, this`waiting
      ensures Valid() && waiting == Others(old(waiting), id)
      ensures old(InTime()) || waiting == {} ==> InTime()
    {
      if heap.Top? {
        DeleteShaped(clock, heap.tree, id);
        if InTime() {
          DeleteKeeps(clock, heap.tree, id);
        }
        hide Delete, IsHeap, HasShape, Contents;
        heap := Delete(clock, heap.tree, id);
        waiting := Others(waiting, id);
      }
      EmptyInTime(clock, heap);
    }
  }

  /** What is left after the top has been taken. */
  lemma WithoutTop(c: Clock, t: Tree)
    requires Shaped(t) && Distinct(Tasks(t))
    ensures var s, h := Tasks(t) - {t.task}, PairUp(c, Empty, t.child);
            && HasShape(h) && Contents(h) == s && Distinct(s)
            && (Ordered(t) && Window(c, Tasks(t)) ==> IsHeap(h) && Window(c, s) && First(t.task, s))
  {
    assert AllTasks(t.child) == Tasks(t) - {t.task};
    PairingShaped(c, Empty, t.child);
    if Ordered(t) && Window(c, Tasks(t)) {
      PairingKeeps(c, Empty, t.child);
    }
  }
  lemma OneTask(task: Task)
    ensures var h := Top(Node(task, Nil)); HasShape(h) && IsHeap(h) && Contents(h) == {task}
  {}
  lemma EmptyInTime(c: Clock, h: Heap)
    requires c.Valid()
    ensures Contents(h) == {} ==> IsHeap(h) && Window(c, Contents(h))
  {
    assert h.Top? ==> h.tree.task in Contents(h);
  }
  lemma HalfIsPositive(c: Clock)
    requires c.Valid()
    ensures c.P() / 2 > 0
  {
    Half(c);
  }
}
