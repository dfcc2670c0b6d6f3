/** The pairing heap under the task queue. A node's children are a list from `child` along `next`. The
    heap is stable: among tasks due at the same time the one pushed first comes first. */
module PairingHeap {
  import opened Ticks

  /** A task: what it is due at in true time, of which the code only sees the ticks, and the number of
      its push, which the code does not see at all. */
  datatype Task = Task(id: nat, due: int, born: nat)

  datatype Tree = Node(task: Task, child: Forest)
  datatype Forest = Nil | Cons(head: Tree, next: Forest)
  datatype Heap = Empty | Top(tree: Tree)

  /** The order in which tasks should come out. */
  predicate Before(a: Task, b: Task) {
    a.due < b.due || (a.due == b.due && a.born < b.born)
  }
  /** `task_lt`: the ticks are compared. */
  predicate TaskLt(c: Clock, a: Task, b: Task) {
    c.Lt(At(c, a.due), At(c, b.due))
  }
  /** Times in a window shorter than half a period. */
  ghost predicate Window(c: Clock, s: set<Task>) {
    c.Valid() && forall a, b :: a in s && b in s ==> a.due - b.due < c.P() / 2
  }

  // ---- contents and shape ----

  function Tasks(t: Tree): (s: set<Task>)
    ensures t.task in s
  {
    {t.task} + AllTasks(t.child)
  }
  function AllTasks(f: Forest): set<Task> {
    match f
    case Nil => {}
    case Cons(t, next) => Tasks(t) + AllTasks(next)
  }
  function Contents(h: Heap): set<Task> {
    if h.Empty? then {} else Tasks(h.tree)
  }
  ghost predicate Newer(a: set<Task>, b: set<Task>) {
    forall x, y :: x in a && y in b ==> x.born > y.born
  }
  ghost predicate First(x: Task, s: set<Task>) {
    forall y :: y in s ==> Before(x, y)
  }
  /** The top of every tree comes before all the rest of it; and of the children of a node, whatever is
      in an earlier one was pushed after whatever is in a later one. */
  ghost predicate Ordered(t: Tree) {
    First(t.task, AllTasks(t.child)) && OrderedList(t.child)
  }
  ghost predicate OrderedList(f: Forest) {
    match f
    case Nil => true
    case Cons(t, next) => Ordered(t) && OrderedList(next) && Newer(Tasks(t), AllTasks(next))
  }
  ghost predicate IsHeap(h: Heap) {
    h.Empty? || Ordered(h.tree)
  }
  /** What holds of the trees whatever the times are: no task is there twice, and siblings stand in
      the order of their pushes, the newest first. */
  ghost predicate Shaped(t: Tree) {
    t.task !in AllTasks(t.child) && ShapedList(t.child)
  }
  ghost predicate ShapedList(f: Forest) {
    match f
    case Nil => true
    case Cons(t, next) => Shaped(t) && ShapedList(next) && Newer(Tasks(t), AllTasks(next))
  }
  ghost predicate HasShape(h: Heap) {
    h.Empty? || Shaped(h.tree)
  }

  // ---- the operations ----

  /** Append a child, through `child_last`. */
  function Append(f: Forest, t: Tree): Forest {
    match f
    case Nil => Cons(t, Nil)
    case Cons(u, next) => Cons(u, Append(next, t))
  }
  /** `mp_pairheap_meld`. */
  function Meld(c: Clock, h1: Heap, h2: Heap): Heap {
    if h1.Empty? then h2
    else if h2.Empty? then h1
    else Top(MeldTrees(c, h1.tree, h2.tree))
  }
  function MeldTrees(c: Clock, a: Tree, b: Tree): Tree {
    if TaskLt(c, a.task, b.task) then Node(a.task, Append(a.child, b))
    else Node(b.task, Cons(a, b.child))
  }
  /** `mp_pairheap_pairing`, from a heap already made of earlier children. */
  function PairUp(c: Clock, h: Heap, f: Forest): Heap
    decreases f
  {
    match f
    case Nil => h
    case Cons(t, Nil) => Meld(c, h, Top(t))
    case Cons(t, Cons(u, next)) => PairUp(c, Meld(c, h, Meld(c, Top(t), Top(u))), next)
  }
  method Pairing(c: Clock, child: Forest) returns (heap: Heap)
    ensures heap == PairUp(c, Empty, child)
  {
    var rest := child;
    heap := Empty;
    while rest.Cons?
      invariant PairUp(c, heap, rest) == PairUp(c, Empty, child)
      decreases rest
    {
      var n1 := Top(rest.head);
      rest := rest.next;
      if rest.Cons? {
        var n2 := Top(rest.head);
        rest := rest.next;
        n1 := Meld(c, n1, n2);
      }
      heap := Meld(c, heap, n1);
    }
  }
  /** `mp_pairheap_delete`: the node is replaced, in its place among its siblings, by the pairing of
      its children. */
  function Delete(c: Clock, t: Tree, id: nat): Heap
    decreases t
  {
    if t.task.id == id then PairUp(c, Empty, t.child) else Top(Node(t.task, DeleteBelow(c, t.child, id)))
  }
  function DeleteBelow(c: Clock, f: Forest, id: nat): Forest
    decreases f
  {
    match f
    case Nil => Nil
    case Cons(t, next) =>
      var h := Delete(c, t, id);
      if h.Empty? then DeleteBelow(c, next, id) else Cons(h.tree, DeleteBelow(c, next, id))
  }

  // ---- what they keep, whatever the times ----

  lemma {:induction false} AppendShaped(f: Forest, t: Tree)
    requires ShapedList(f) && Shaped(t) && Newer(AllTasks(f), Tasks(t))
    ensures ShapedList(Append(f, t)) && AllTasks(Append(f, t)) == AllTasks(f) + Tasks(t)
  {
    if f.Cons? {
      hide Shaped, Tasks;
      AppendShaped(f.next, t);
    }
  }
  lemma TreesShaped(c: Clock, a: Tree, b: Tree)
    requires Shaped(a) && Shaped(b) && Newer(Tasks(a), Tasks(b))
    ensures Shaped(MeldTrees(c, a, b)) && Tasks(MeldTrees(c, a, b)) == Tasks(a) + Tasks(b)
  {
    hide TaskLt;
    AppendShaped(a.child, b);
    assert a.task !in Tasks(b) && b.task !in Tasks(a);
    if TaskLt(c, a.task, b.task) {
      assert Shaped(Node(a.task, Append(a.child, b)));
    } else {
      assert ShapedList(Cons(a, b.child));
    }
  }
  lemma MeldShaped(c: Clock, a: Heap, b: Heap)
    requires HasShape(a) && HasShape(b) && Newer(Contents(a), Contents(b))
    ensures HasShape(Meld(c, a, b)) && Contents(Meld(c, a, b)) == Contents(a) + Contents(b)
  {
    if a.Top? && b.Top? {
      TreesShaped(c, a.tree, b.tree);
    }
  }
  lemma {:induction false} PairingShaped(c: Clock, h: Heap, f: Forest)
    requires HasShape(h) && ShapedList(f) && Newer(Contents(h), AllTasks(f))
    ensures HasShape(PairUp(c, h, f)) && Contents(PairUp(c, h, f)) == Contents(h) + AllTasks(f)
    decreases f
  {
    match f
    case Nil =>
    case Cons(t, Nil) => MeldShaped(c, h, Top(t));
    case Cons(t, Cons(u, next)) =>
      hide Meld, Shaped, Tasks;
      MeldShaped(c, Top(t), Top(u));
      MeldShaped(c, h, Meld(c, Top(t), Top(u)));
      PairingShaped(c, Meld(c, h, Meld(c, Top(t), Top(u))), next);
  }
  /** Deletion takes the task out, and no other. */
  lemma {:induction false} DeleteShaped(c: Clock, t: Tree, id: nat)
    requires Shaped(t) && Distinct(Tasks(t))
    ensures HasShape(Delete(c, t, id)) && Contents(Delete(c, t, id)) == Others(Tasks(t), id)
    decreases t
  {
    if t.task.id == id {
      PairingShaped(c, Empty, t.child);
    } else {
      DeleteBelowShaped(c, t.child, id);
    }
  }
  lemma {:induction false} DeleteBelowShaped(c: Clock, f: Forest, id: nat)
    requires ShapedList(f) && Distinct(AllTasks(f))
    ensures ShapedList(DeleteBelow(c, f, id)) && AllTasks(DeleteBelow(c, f, id)) == Others(AllTasks(f), id)
    decreases f
  {
    if f.Cons? {
      DeleteShaped(c, f.head, id);
      DeleteBelowShaped(c, f.next, id);
    }
  }

  // ---- what they keep if the times lie in a window ----

  lemma {:induction false} AppendKeeps(f: Forest, t: Tree)
    requires OrderedList(f) && Ordered(t) && Newer(AllTasks(f), Tasks(t))
    ensures OrderedList(Append(f, t)) && AllTasks(Append(f, t)) == AllTasks(f) + Tasks(t)
  {
    if f.Cons? {
      AppendKeeps(f.next, t);
    }
  }
  lemma TreesMeld(c: Clock, a: Tree, b: Tree)
    requires Ordered(a) && Ordered(b) && Newer(Tasks(a), Tasks(b)) && Window(c, Tasks(a) + Tasks(b))
    ensures Ordered(MeldTrees(c, a, b)) && Tasks(MeldTrees(c, a, b)) == Tasks(a) + Tasks(b)
  {
    LtIsEarlier(c, a.task.due, b.task.due);
    AppendKeeps(a.child, b);
  }
  lemma MeldKeeps(c: Clock, a: Heap, b: Heap)
    requires IsHeap(a) && IsHeap(b) && Newer(Contents(a), Contents(b)) && Window(c, Contents(a) + Contents(b))
    ensures IsHeap(Meld(c, a, b)) && Contents(Meld(c, a, b)) == Contents(a) + Contents(b)
  {
    if a.Top? && b.Top? {
      TreesMeld(c, a.tree, b.tree);
    }
  }
  lemma {:induction false} PairingKeeps(c: Clock, h: Heap, f: Forest)
    requires IsHeap(h) && OrderedList(f) && Newer(Contents(h), AllTasks(f)) && Window(c, Contents(h) + AllTasks(f))
    ensures IsHeap(PairUp(c, h, f)) && Contents(PairUp(c, h, f)) == Contents(h) + AllTasks(f)
    decreases f
  {
    match f
    case Nil =>
    case Cons(t, Nil) => MeldKeeps(c, h, Top(t));
    case Cons(t, Cons(u, next)) =>
      hide Meld, Ordered, Tasks, Window;
      PairKeeps(c, h, t, u, next);
      PairingKeeps(c, Meld(c, h, Meld(c, Top(t), Top(u))), next);
  }
  lemma PairKeeps(c: Clock, h: Heap, t: Tree, u: Tree, next: Forest)
    requires var f := Cons(t, Cons(u, next));
             IsHeap(h) && OrderedList(f) && Newer(Contents(h), AllTasks(f)) && Window(c, Contents(h) + AllTasks(f))
    ensures var h' := Meld(c, h, Meld(c, Top(t), Top(u)));
            && IsHeap(h') && Contents(h') == Contents(h) + Tasks(t) + Tasks(u)
            && OrderedList(next) && Newer(Contents(h'), AllTasks(next)) && Window(c, Contents(h') + AllTasks(next))
            && AllTasks(Cons(t, Cons(u, next))) == Tasks(t) + Tasks(u) + AllTasks(next)
  {
    hide Meld, Ordered, Tasks;
    MeldKeeps(c, Top(t), Top(u));
    MeldKeeps(c, h, Meld(c, Top(t), Top(u)));
  }
  function Others(s: set<Task>, id: nat): set<Task> {
    set x | x in s && x.id != id
  }
  /** No two tasks of the tree have the same number. */
  ghost predicate Distinct(s: set<Task>) {
    forall x, y :: x in s && y in s && x.id == y.id ==> x == y
  }
  lemma {:induction false} DeleteKeeps(c: Clock, t: Tree, id: nat)
    requires Ordered(t) && Distinct(Tasks(t)) && Window(c, Tasks(t))
    ensures IsHeap(Delete(c, t, id)) && Contents(Delete(c, t, id)) == Others(Tasks(t), id)
    decreases t
  {
    if t.task.id == id {
      PairingKeeps(c, Empty, t.child);
    } else {
      DeleteBelowKeeps(c, t.child, id);
    }
  }
  lemma {:induction false} DeleteBelowKeeps(c: Clock, f: Forest, id: nat)
    requires OrderedList(f) && Distinct(AllTasks(f)) && Window(c, AllTasks(f))
    ensures OrderedList(DeleteBelow(c, f, id)) && AllTasks(DeleteBelow(c, f, id)) == Others(AllTasks(f), id)
    decreases f
  {
    if f.Cons? {
      DeleteKeeps(c, f.head, id);
      DeleteBelowKeeps(c, f.next, id);
    }
  }

  // ---- emptying a heap ----

  lemma {:induction false} RootNotBelow(t: Tree)
    requires Ordered(t)
    ensures t.task !in AllTasks(t.child) && |AllTasks(t.child)| == |Tasks(t)| - 1
  {
    assert !Before(t.task, t.task);
    assert AllTasks(t.child) == Tasks(t) - {t.task};
  }
  /** All that is popped from a heap until it is empty. */
  function Drained(c: Clock, h: Heap): seq<Task>
    requires IsHeap(h) && Window(c, Contents(h))
    decreases |Contents(h)|
  {
    if h.Empty? then []
    else
      RootNotBelow(h.tree);
      PairingKeeps(c, Empty, h.tree.child);
      [h.tree.task] + Drained(c, PairUp(c, Empty, h.tree.child))
  }
  /** A list of exactly the tasks of a set, each once, in the order they should come out. */
  ghost predicate InOrder(out: seq<Task>, s: set<Task>) {
    && |out| == |s|
    && (forall x :: x in out <==> x in s)
    && (forall i, j :: 0 <= i < j < |out| ==> Before(out[i], out[j]))
  }
  lemma PutFirst(x: Task, out: seq<Task>, s: set<Task>)
    requires InOrder(out, s) && First(x, s) && x !in s
    ensures InOrder([x] + out, {x} + s)
  {
    var all := [x] + out;
    forall i, j | 0 <= i < j < |all| ensures Before(all[i], all[j]) {
      assert all[j] in out;
    }
  }
  /** Every task comes out once, in time order, and in the order of the pushes among those due at the
      same time. */
  lemma {:induction false} DrainedInOrder(c: Clock, h: Heap)
    requires IsHeap(h) && Window(c, Contents(h))
    ensures InOrder(Drained(c, h), Contents(h))
    decreases |Contents(h)|
  {
    if h.Top? {
      RootNotBelow(h.tree);
      PairingKeeps(c, Empty, h.tree.child);
      var rest := PairUp(c, Empty, h.tree.child);
      DrainedInOrder(c, rest);
      hide InOrder, PairUp;
      PutFirst(h.tree.task, Drained(c, rest), AllTasks(h.tree.child));
    }
  }
}
