/** `heapq`: a binary heap kept in a list, with the bottom-out sift of CPython. */
module HeapQueue {

  function Parent(i: nat): nat
    requires i > 0
  {
    (i - 1) / 2
  }

  /** What `<` must satisfy for heap order to mean anything: a strict weak order. */
  ghost predicate WeakOrder<T(!new)>(lt: (T, T) -> bool) {
    && (forall a, b :: lt(a, b) ==> !lt(b, a))
    && (forall a, b, c :: lt(a, c) ==> lt(a, b) || lt(b, c))
  }
  /** Node `i` is not below its parent. */
  predicate Edge<T>(lt: (T, T) -> bool, s: seq<T>, i: nat)
    requires 0 < i < |s|
  {
    !lt(s[i], s[Parent(i)])
  }
  /** Heap order on the subtrees rooted at `start` and beyond. */
  ghost predicate HeapFrom<T>(lt: (T, T) -> bool, s: seq<T>, start: nat) {
    forall i :: 0 < i < |s| && Parent(i) >= start ==> Edge(lt, s, i)
  }
  ghost predicate IsHeap<T>(lt: (T, T) -> bool, s: seq<T>) { HeapFrom(lt, s, 0) }

  /** `pos` lies in the subtree of `start`. */
  predicate Below(start: nat, pos: nat) {
    pos == start || (pos > start && Below(start, Parent(pos)))
  }

  /** Heap order from `start` on, except perhaps between `pos` and its parent; the children of
      `pos` are already in order with the parent of `pos`. */
  ghost predicate HeapButUp<T>(lt: (T, T) -> bool, s: seq<T>, start: nat, pos: nat)
    requires pos < |s|
  {
    && (forall i :: 0 < i < |s| && Parent(i) >= start && i != pos ==> Edge(lt, s, i))
    && Bridged(lt, s, start, pos)
  }
  /** Heap order from `start` on, except at the hole `pos`; its children are in order with its
      parent. */
  ghost predicate HeapButHole<T>(lt: (T, T) -> bool, s: seq<T>, start: nat, pos: nat)
    requires pos < |s|
  {
    && (forall i :: 0 < i < |s| && Parent(i) >= start && i != pos && Parent(i) != pos ==> Edge(lt, s, i))
    && Bridged(lt, s, start, pos)
  }
  ghost predicate Bridged<T>(lt: (T, T) -> bool, s: seq<T>, start: nat, pos: nat)
    requires pos < |s|
  {
    pos > start ==> forall c :: 0 < c < |s| && Parent(c) == pos ==> !lt(s[c], s[Parent(pos)])
  }

  lemma MultisetSwap<T>(s: seq<T>, i: nat, j: nat)
    requires i < |s| && j < |s|
    ensures multiset(s[i := s[j]][j := s[i]]) == multiset(s)
  {}

  /** Moving the element at `j` into the hole at `i` is an exchange with the item held aside. */
  lemma HoleMove<T>(items: seq<T>, item: T, i: nat, j: nat)
    requires i < |items| && j < |items| && i != j
    ensures var s := items[i := item];
            && items[i := items[j]][j := item] == s[i := s[j]][j := s[i]]
            && multiset(items[i := items[j]][j := item]) == multiset(s)
  {
    var s := items[i := item];
    assert items[i := items[j]][j := item] == s[i := s[j]][j := s[i]];
    MultisetSwap(s, i, j);
  }

  /** One round of `siftdown`: the item, at `pos`, is smaller than its parent and goes up. */
  lemma UpStep<T(!new)>(lt: (T, T) -> bool, s: seq<T>, start: nat, pos: nat)
    requires WeakOrder(lt) && start < pos < |s| && Below(start, pos)
    requires HeapButUp(lt, s, start, pos) && lt(s[pos], s[Parent(pos)])
    ensures HeapButUp(lt, s[pos := s[Parent(pos)]][Parent(pos) := s[pos]], start, Parent(pos))
  {
    var p := Parent(pos);
    var t := s[pos := s[p]][p := s[pos]];
    forall i | 0 < i < |t| && Parent(i) >= start && i != p ensures Edge(lt, t, i) {
      if i != pos && Parent(i) == p {
        assert Edge(lt, s, i);
      } else if i != pos && Parent(i) != pos {
        assert Edge(lt, s, i);
      }
    }
    if p > start {
      assert Below(start, p) && Below(start, Parent(p));
      assert Edge(lt, s, p);
      forall c | 0 < c < |t| && Parent(c) == p ensures !lt(t[c], t[Parent(p)]) {
        if c != pos {
          assert Edge(lt, s, c);
        }
      }
    }
  }

  lemma UpDone<T>(lt: (T, T) -> bool, s: seq<T>, start: nat, pos: nat)
    requires start <= pos < |s| && HeapButUp(lt, s, start, pos)
    requires pos > start ==> !lt(s[pos], s[Parent(pos)])
    ensures HeapFrom(lt, s, start)
  {}

  /** One round of the first loop of `siftup`: the smaller child `c` moves into the hole. */
  lemma DownStep<T(!new)>(lt: (T, T) -> bool, s: seq<T>, start: nat, pos: nat, c: nat)
    requires WeakOrder(lt) && start <= pos < c < |s| && Parent(c) == pos
    requires HeapButHole(lt, s, start, pos)
    requires forall d :: 0 < d < |s| && Parent(d) == pos ==> !lt(s[d], s[c])
    ensures HeapButHole(lt, s[pos := s[c]][c := s[pos]], start, c)
  {
    var t := s[pos := s[c]][c := s[pos]];
    forall i | 0 < i < |t| && Parent(i) >= start && i != c && Parent(i) != c ensures Edge(lt, t, i) {
      if i != pos && Parent(i) != pos {
        assert Edge(lt, s, i);
      }
    }
    forall d | 0 < d < |t| && Parent(d) == c ensures !lt(t[d], t[Parent(c)]) {
      assert Edge(lt, s, d);
    }
  }

  lemma SmallerChild<T(!new)>(lt: (T, T) -> bool, s: seq<T>, pos: nat, c: nat)
    requires WeakOrder(lt) && c < |s|
    requires (c == 2 * pos + 1 && (c + 1 < |s| ==> lt(s[c], s[c + 1]))) || (c == 2 * pos + 2 && !lt(s[c - 1], s[c]))
    ensures forall d :: 0 < d < |s| && Parent(d) == pos ==> !lt(s[d], s[c])
  {
    assert !lt(s[c], s[c]);
    forall d | 0 < d < |s| && Parent(d) == pos ensures d == 2 * pos + 1 || d == 2 * pos + 2 {}
  }
  /** The body of the first loop of `siftup`, `c` being the child it chose. */
  lemma DownRound<T(!new)>(lt: (T, T) -> bool, items: seq<T>, item: T, start: nat, pos: nat, c: nat, sound: bool)
    requires pos < c < |items| && Below(start, pos) && start <= pos
    requires || (c == 2 * pos + 1 && (c + 1 < |items| ==> lt(items[c], items[c + 1])))
             || (c == 2 * pos + 2 && !lt(items[c - 1], items[c]))
    requires sound ==> WeakOrder(lt) && HeapButHole(lt, items[pos := item], start, pos)
    ensures multiset(items[pos := items[c]][c := item]) == multiset(items[pos := item]) && Below(start, c)
    ensures sound ==> HeapButHole(lt, items[pos := items[c]][c := item], start, c)
  {
    HoleMove(items, item, pos, c);
    if sound {
      SmallerChild(lt, items[pos := item], pos, c);
      DownStep(lt, items[pos := item], start, pos, c);
    }
  }
  lemma BelowSelf(i: nat)
    ensures Below(i, i)
  {}
  lemma HoleStart<T>(lt: (T, T) -> bool, s: seq<T>, start: nat)
    requires start < |s| && HeapFrom(lt, s, start + 1)
    ensures HeapButHole(lt, s, start, start)
  {}
  lemma HoleEnd<T>(lt: (T, T) -> bool, s: seq<T>, start: nat, pos: nat)
    requires pos < |s| <= 2 * pos + 1 && HeapButHole(lt, s, start, pos)
    ensures HeapButUp(lt, s, start, pos)
  {}

  /** No element of a heap is smaller than the first. */
  lemma {:induction false} RootIsLeast<T(!new)>(lt: (T, T) -> bool, s: seq<T>, i: nat)
    requires WeakOrder(lt) && IsHeap(lt, s) && i < |s|
    ensures !lt(s[i], s[0])
  {
    if i > 0 {
      RootIsLeast(lt, s, Parent(i));
      assert Edge(lt, s, i);
    }
  }

  lemma RootBelowAll<T(!new)>(lt: (T, T) -> bool, s: seq<T>)
    ensures WeakOrder(lt) && IsHeap(lt, s) ==> forall x :: x in s ==> !lt(x, s[0])
  {
    hide WeakOrder, IsHeap;
    if WeakOrder(lt) && IsHeap(lt, s) {
      forall x | x in s ensures !lt(x, s[0]) {
        var i :| 0 <= i < |s| && s[i] == x;
        RootIsLeast(lt, s, i);
      }
    }
  }
  /** What `heappop` does before it sifts: the last item replaces the first. */
  lemma LastToFront<T>(lt: (T, T) -> bool, s: seq<T>)
    requires s != []
    ensures var t := s[..|s| - 1];
            if t == [] then multiset(t) + multiset{s[0]} == multiset(s) && IsHeap(lt, t)
            else
              var u := t[0 := s[|s| - 1]];
              && multiset(u) + multiset{s[0]} == multiset(s)
              && (IsHeap(lt, s) ==> HeapFrom(lt, u, 1))
  {
    if |s| > 1 {
      SameItems(s);
      var u := s[..|s| - 1][0 := s[|s| - 1]];
      assert forall i :: 0 < i < |u| && Parent(i) >= 1 && Edge(lt, s, i) ==> Edge(lt, u, i);
    } else {
      assert s == [s[0]];
    }
  }
  lemma SameItems<T>(s: seq<T>)
    requires |s| > 1
    ensures multiset(s[..|s| - 1][0 := s[|s| - 1]]) + multiset{s[0]} == multiset(s)
  {
    var mid, last := s[1..|s| - 1], s[|s| - 1];
    assert s == [s[0]] + mid + [last] && s[..|s| - 1][0 := last] == [last] + mid;
  }

  datatype Result<+T> = Ok(value: T) | IndexError

  class Heap<T(!new, ==)> {
    var items: seq<T>
    const lt: (T, T) -> bool

    constructor (items: seq<T>, lt: (T, T) -> bool)
      ensures this.items == items && this.lt == lt
    {
      this.items, this.lt := items, lt;
    }

    method SiftDown(startPos: nat, pos0: nat)
      requires startPos <= pos0 < |items| && Below(startPos, pos0)
      modifies this
      ensures |items| == |old(items)| && multiset(items) == multiset(old(items))
      ensures WeakOrder(lt) && old(HeapButUp(lt, items, startPos, pos0)) ==> HeapFrom(lt, items, startPos)
    {
      hide HeapButUp, WeakOrder, HeapFrom;
      var item, pos := items[pos0], pos0;
      ghost var sound := WeakOrder(lt) && HeapButUp(lt, items, startPos, pos0);
      assert items[pos := item] == items;
      while pos > startPos
        invariant startPos <= pos < |items| == |old(items)| && Below(startPos, pos)
        invariant multiset(items[pos := item]) == multiset(old(items))
        invariant sound ==> HeapButUp(lt, items[pos := item], startPos, pos)
      {
        var parentPos := (pos - 1) / 2;
        var parent := items[parentPos];
        if lt(item, parent) {
          HoleMove(items, item, pos, parentPos);
          if sound {
            UpStep(lt, items[pos := item], startPos, pos);
          }
          items := items[pos := parent];
          pos := parentPos;
        } else {
          if sound {
            UpDone(lt, items[pos := item], startPos, pos);
          }
          break;
        }
      }
      if sound && pos == startPos {
        UpDone(lt, items[pos := item], startPos, pos);
      }
      items := items[pos := item];
    }

    method SiftUp(startPos: nat)
      requires startPos < |items|
      modifies this
      ensures |items| == |old(items)| && multiset(items) == multiset(old(items))
      ensures WeakOrder(lt) && old(HeapFrom(lt, items, startPos + 1)) ==> HeapFrom(lt, items, startPos)
    {
      hide HeapButUp, WeakOrder, HeapFrom, HeapButHole, Below;
      BelowSelf(startPos);
      var pos, endPos, item := startPos, |items|, items[startPos];
      ghost var sound := WeakOrder(lt) && HeapFrom(lt, items, startPos + 1);
      assert items[pos := item] == items;
      if sound {
        HoleStart(lt, items, startPos);
      }
      var childPos := 2 * pos + 1;
      while childPos < endPos
        invariant startPos <= pos < |items| == |old(items)| == endPos && Below(startPos, pos)
        invariant childPos == 2 * pos + 1
        invariant multiset(items[pos := item]) == multiset(old(items))
        invariant sound ==> HeapButHole(lt, items[pos := item], startPos, pos)
        decreases endPos - pos
      {
        if childPos + 1 < endPos && !lt(items[childPos], items[childPos + 1]) {
          childPos := childPos + 1;
        }
        DownRound(lt, items, item, startPos, pos, childPos, sound);
        items := items[pos := items[childPos]];
        pos := childPos;
        childPos := 2 * pos + 1;
      }
      if sound {
        HoleEnd(lt, items[pos := item], startPos, pos);
      }
      items := items[pos := item];
      SiftDown(startPos, pos);
    }

    method HeapPush(item: T)
      modifies this
      ensures multiset(items) == multiset(old(items)) + multiset{item}
      ensures WeakOrder(lt) && old(IsHeap(lt, items)) ==> IsHeap(lt, items)
    {
      ghost var s := items;
      items := items + [item];
      assert IsHeap(lt, s) ==> HeapButUp(lt, items, 0, |items| - 1) by {
        assert forall i :: 0 < i < |s| && Edge(lt, s, i) ==> Edge(lt, items, i);
      }
      BelowRoot(|items| - 1);
      SiftDown(0, |items| - 1);
    }

    method HeapPop() returns (r: Result<T>)
      modifies this
      ensures r.IndexError? <==> old(items) == []
      ensures r.IndexError? ==> items == old(items)
      ensures r.Ok? ==> multiset(items) + multiset{r.value} == multiset(old(items))
      ensures WeakOrder(lt) && old(IsHeap(lt, items)) ==> IsHeap(lt, items)
      ensures r.Ok? && WeakOrder(lt) && old(IsHeap(lt, items)) ==> forall x :: x in old(items) ==> !lt(x, r.value)
    {
      if items == [] {
        return IndexError;
      }
      RootBelowAll(lt, items);
      LastToFront(lt, items);
      hide *;
      var item, last := items[0], items[|items| - 1];
      items := items[..|items| - 1];
      if items != [] {
        items := items[0 := last];
        SiftUp(0);
      }
      return Ok(item);
    }

    method Heapify()
      modifies this
      ensures multiset(items) == multiset(old(items))
      ensures WeakOrder(lt) ==> IsHeap(lt, items)
    {
      var i := |items| / 2;
      while i > 0
        invariant 0 <= i <= |items| / 2 && |items| == |old(items)|
        invariant multiset(items) == multiset(old(items))
        invariant WeakOrder(lt) ==> HeapFrom(lt, items, i)
      {
        i := i - 1;
        SiftUp(i);
      }
    }
  }

  lemma BelowRoot(i: nat)
    ensures Below(0, i)
  {}

  // ---- sorting: heapify, then pop until empty ----

  ghost predicate SortedBy<T>(lt: (T, T) -> bool, s: seq<T>) {
    forall i, j :: 0 <= i < j < |s| ==> !lt(s[j], s[i])
  }
  /** What the contracts of the operations give a client: the elements come out in order, and
      none is lost or invented. */
  method Drain<T(!new, ==)>(heap: Heap<T>) returns (sorted: seq<T>)
    requires WeakOrder(heap.lt)
    modifies heap
    ensures SortedBy(heap.lt, sorted) && multiset(sorted) == multiset(old(heap.items)) && heap.items == []
  {
    heap.Heapify();
    sorted := [];
    while heap.items != []
      invariant IsHeap(heap.lt, heap.items) && SortedBy(heap.lt, sorted)
      invariant multiset(sorted) + multiset(heap.items) == multiset(old(heap.items))
      invariant forall x, i :: x in heap.items && 0 <= i < |sorted| ==> !heap.lt(x, sorted[i])
      decreases |heap.items|
    {
      ghost var before := heap.items;
      var r := heap.HeapPop();
      assert multiset(heap.items) + multiset{r.value} == multiset(before);
      assert |multiset(before)| == |before| && |multiset(heap.items)| == |heap.items|;
      forall x | x in heap.items ensures x in before {
        assert x in multiset(heap.items) && x in multiset(before);
      }
      assert r.value in before by {
        assert r.value in multiset(before);
      }
      sorted := sorted + [r.value];
    }
  }
}
