/** The accept queue of a listening lwIP socket: a ring of waiting connections that two network
    callbacks and the user's `accept` work on. */
module AcceptQueue {

  /** A connection; 0 is the null pointer. */
  type Pcb = nat
  const NULL: Pcb := 0

  /** Slot number `k` counted from `i`, going round. */
  function At(i: nat, k: nat, cap: nat): (s: nat)
    requires i < cap && k <= cap
    ensures s < cap
  {
    if i + k < cap then i + k else i + k - cap
  }
  lemma AtUnique(i: nat, j: nat, k: nat, cap: nat)
    requires i < cap && j < cap && k < cap && At(i, j, cap) == At(i, k, cap)
    ensures j == k
  {}

  lemma AtNext(i: nat, k: nat, cap: nat, alloc: nat)
    requires i < cap == (if alloc == 0 then 1 else alloc) && k < cap
    ensures At(i, k + 1, cap) == if At(i, k, cap) + 1 >= alloc then 0 else At(i, k, cap) + 1
  {}

  ghost predicate Distinct(q: seq<Pcb>) {
    && NULL !in q
    && (forall j, k :: 0 <= j < k < |q| ==> q[j] != q[k])
  }
  /** The queue without `pcb`, the others in their order. */
  function Without(q: seq<Pcb>, pcb: Pcb): seq<Pcb> {
    if q == [] then [] else if q[0] == pcb then q[1..] else [q[0]] + Without(q[1..], pcb)
  }
  lemma {:induction false} WithoutAt(q: seq<Pcb>, pcb: Pcb, p: nat)
    requires p < |q| && q[p] == pcb && pcb !in q[..p]
    ensures Without(q, pcb) == q[..p] + q[p + 1..]
  {
    if p > 0 {
      assert q[0] in q[..p];
      assert pcb !in q[1..][..p - 1] by {
        assert q[1..][..p - 1] == q[..p][1..];
      }
      WithoutAt(q[1..], pcb, p - 1);
    }
  }
  lemma {:induction false} WithoutNone(q: seq<Pcb>, pcb: Pcb)
    requires pcb !in q
    ensures Without(q, pcb) == q
  {
    if q != [] {
      WithoutNone(q[1..], pcb);
    }
  }

  datatype Err = ERR_OK | ERR_BUF | ERR_MEM
  datatype Result<+T> = Ok(value: T) | EAGAIN | ETIMEDOUT | StillWaiting

  class Listener {
    const alloc: nat
    const slots: array<Pcb>
    var iget: nat
    var iput: nat
    ghost var queue: seq<Pcb>

    ghost predicate Valid()
      reads this, slots
    {
      var cap := slots.Length;
      && cap == (if alloc == 0 then 1 else alloc)
      && iget < cap && |queue| <= cap && Distinct(queue)
      && iput == At(iget, |queue|, cap)
      && (forall k :: 0 <= k < cap ==> slots[At(iget, k, cap)] == if k < |queue| then queue[k] else NULL)
    }

    /** `listen`: room for `backlog` connections, one if the backlog is one or less. */
    constructor (backlog: int)
      requires backlog <= 255
      ensures Valid() && queue == [] && slots.Length == (if backlog <= 1 then 1 else backlog)
      ensures fresh(slots)
    {
      alloc := if backlog <= 1 then 0 else backlog;
      slots := new Pcb[if backlog <= 1 then 1 else backlog](_ => NULL);
      iget, iput, queue := 0, 0, [];
    }

    /** The occupied slots are the cyclic range from `iget` to `iput`: all or none of the slots
        when the two are equal. */
    lemma OccupiedRange(s: nat)
      requires Valid() && s < slots.Length
      ensures iget < iput ==> (slots[s] != NULL <==> iget <= s < iput)
      ensures iget > iput ==> (slots[s] != NULL <==> s >= iget || s < iput)
      ensures iget == iput ==> (slots[s] != NULL <==> queue != [])
    {
      var cap := slots.Length;
      var k := if s >= iget then s - iget else s + cap - iget;
      assert At(iget, k, cap) == s;
      assert k < |queue| ==> queue[k] in queue;
    }

    /** `_lwip_tcp_accept`. */
    method TcpAccept(newpcb: Pcb, err: Err) returns (r: Err)
      requires Valid() && newpcb != NULL && newpcb !in queue
      modifies this`iput, this`queue, slots
      ensures Valid()
      ensures r == ERR_BUF <==> err == ERR_OK && |old(queue)| == slots.Length
      ensures r == ERR_OK || r == ERR_BUF
      ensures queue == old(queue) + if err == ERR_OK && r == ERR_OK then [newpcb] else []
    {
      if err != ERR_OK {
        return ERR_OK;
      }
      ghost var cap, n := slots.Length, |queue|;
      assert n < cap ==> slots[At(iget, n, cap)] == NULL;
      assert n == cap ==> slots[At(iget, 0, cap)] == queue[0] && queue[0] in queue;
      if slots[iput] == NULL {
        slots[iput] := newpcb;
        forall k | 0 <= k < cap
          ensures slots[At(iget, k, cap)] == if k <= n then (queue + [newpcb])[k] else NULL
        {
          if k != n && At(iget, k, cap) == iput {
            AtUnique(iget, k, n, cap);
          }
        }
        iput := iput + 1;
        if iput >= alloc {
          iput := 0;
        }
        queue := queue + [newpcb];
        return ERR_OK;
      }
      return ERR_BUF;
    }

    /** The slot to be taken next holds nothing. */
    method Empty() returns (empty: bool)
      requires Valid()
      ensures empty <==> queue == []
    {
      assert slots[At(iget, 0, slots.Length)] == if queue != [] then queue[0] else NULL;
      assert queue != [] ==> queue[0] in queue;
      return slots[iget] == NULL;
    }

    /** The part of `accept` that takes a connection off the queue, if there is one. */
    method Take() returns (r: Result<Pcb>)
      requires Valid()
      modifies this`iget, this`queue, slots
      ensures Valid()
      ensures old(queue) == [] ==> r == EAGAIN && queue == []
      ensures old(queue) != [] ==> r == Ok(old(queue)[0]) && queue == old(queue)[1..]
    {
      ghost var cap, q, i0 := slots.Length, queue, iget;
      assert slots[At(iget, 0, cap)] == if q != [] then q[0] else NULL;
      assert q != [] ==> q[0] in q;
      if slots[iget] == NULL {
        return EAGAIN;
      }
      var slot := iget;
      var pcb := slots[slot];
      iget := iget + 1;
      if iget >= alloc {
        iget := 0;
      }
      slots[slot] := NULL;
      queue := q[1..];
      forall k | 0 <= k < cap ensures slots[At(iget, k, cap)] == if k < |queue| then queue[k] else NULL {
        if k + 1 < cap {
          assert At(iget, k, cap) == At(i0, k + 1, cap);
          AtShift(i0, k + 1, cap);
        } else {
          assert At(iget, k, cap) == i0;
        }
      }
      return Ok(pcb);
    }
    lemma AtShift(i: nat, k: nat, cap: nat)
      requires i < cap && 0 < k < cap
      ensures At(i, k, cap) != i
    {}

    /** The slots while the connections behind position `p` are moving up, `k` having been visited. */
    ghost predicate Moving(found: bool, p: nat, k: nat)
      requires iget < slots.Length
      reads this, slots
    {
      forall m :: 0 <= m < slots.Length ==> slots[At(iget, m, slots.Length)] == Shifted(queue, found, p, k, m)
    }
    lemma NotMovedYet(found: bool, p: nat, k: nat)
      requires iget < slots.Length && k < slots.Length && Moving(found, p, k)
      ensures slots[At(iget, k, slots.Length)] == if k < |queue| then queue[k] else NULL
      ensures !found ==> Moving(false, p, k + 1) && Moving(true, k, k + 1)
    {}

    /** One step of the removal: the connection in slot `i` moves up into the slot before it. */
    method MoveUp(i: nat, shiftDown: nat, ghost p: nat, ghost k: nat)
      requires iget < slots.Length && p < k < |queue| <= slots.Length
      requires i == At(iget, k, slots.Length) && shiftDown == At(iget, k - 1, slots.Length)
      requires Moving(true, p, k)
      modifies slots
      ensures Moving(true, p, k + 1)
    {
      ghost var cap := slots.Length;
      assert slots[i] == queue[k];
      slots[shiftDown] := slots[i];
      forall m | 0 <= m < cap ensures slots[At(iget, m, cap)] == Shifted(queue, true, p, k + 1, m) {
        if At(iget, m, cap) == shiftDown {
          AtUnique(iget, m, k - 1, cap);
        }
      }
    }

    /** The end of the removal: the last slot that moved up is emptied and becomes the next to fill. */
    method Cut(shiftDown: nat, pcb: Pcb, ghost p: nat)
      requires iget < slots.Length && p < |queue| <= slots.Length && Distinct(queue)
      requires slots.Length == if alloc == 0 then 1 else alloc
      requires queue[p] == pcb && pcb !in queue[..p] && shiftDown == At(iget, |queue| - 1, slots.Length)
      requires Moving(true, p, |queue|)
      modifies this`iput, this`queue, slots
      ensures Valid() && queue == Without(old(queue), pcb)
    {
      ghost var cap, q, rest := slots.Length, queue, queue[..p] + queue[p + 1..];
      slots[shiftDown] := NULL;
      forall m | 0 <= m < cap ensures slots[At(iget, m, cap)] == if m < |rest| then rest[m] else NULL {
        if At(iget, m, cap) == shiftDown {
          AtUnique(iget, m, |q| - 1, cap);
        }
      }
      WithoutAt(q, pcb, p);
      iput := shiftDown;
      queue := rest;
      DistinctWithout(q, p);
    }

    /** The search and the removal in it, `k` slots having been visited: `shiftDown` is negative until
        `pcb` is found (at `p`), and then the last slot visited. */
    ghost predicate Scan(shiftDown: int, pcb: Pcb, p: nat, k: nat)
      reads this, slots
    {
      && iget < slots.Length && k <= slots.Length
      && Moving(shiftDown >= 0, p, k)
      && (shiftDown < 0 ==> pcb !in queue[..if k < |queue| then k else |queue|])
      && (shiftDown >= 0 ==> p < k <= |queue| && queue[p] == pcb && pcb !in queue[..p]
                             && shiftDown == At(iget, k - 1, slots.Length))
    }

    method Visit(i: nat, shiftDown: int, pcb: Pcb, ghost k: nat, ghost p: nat)
      returns (shiftDown': int, ghost p': nat)
      requires Scan(shiftDown, pcb, p, k) && pcb != NULL && |queue| <= slots.Length
      requires k < (if queue == [] then slots.Length else |queue|) && i == At(iget, k, slots.Length)
      modifies slots
      ensures Scan(shiftDown', pcb, p', k + 1)
    {
      shiftDown', p' := shiftDown, p;
      NotMovedYet(shiftDown >= 0, p, k);
      if shiftDown < 0 {
        if slots[i] == pcb {
          shiftDown', p' := i, k;
        }
      } else {
        MoveUp(i, shiftDown, p, k);
        shiftDown' := i;
      }
    }

    /** `_lwip_tcp_err_unaccepted`: a connection that failed before it was accepted leaves the
        queue; those behind it move up. */
    method ErrUnaccepted(pcb: Pcb)
      requires Valid() && pcb != NULL
      modifies this`iput, this`queue, slots
      ensures Valid()
      ensures queue == Without(old(queue), pcb)
    {
      ghost var cap, q, end := slots.Length, queue, if queue == [] then slots.Length else |queue|;
      var shiftDown: int := -1;
      var i := iget;
      ghost var k, p := 0, 0;
      while true
        invariant iput == old(iput) && queue == q && k < end && i == At(iget, k, cap)
        invariant Scan(shiftDown, pcb, p, k)
        decreases end - k
      {
        hide *;
        shiftDown, p := Visit(i, shiftDown, pcb, k, p);
        AtNext(iget, k, cap, alloc);
        i := i + 1;
        if i >= alloc {
          i := 0;
        }
        k := k + 1;
        if i == iput {
          StopsAtEnd(iget, k, |q|, cap);
          break;
        }
        NotYet(iget, k, |q|, cap);
      }
      if shiftDown >= 0 {
        Cut(shiftDown, pcb, p);
      } else {
        assert q == q[..|q|];
        WithoutNone(q, pcb);
      }
    }
  }

  /** Slot `m` while the elements behind position `p` are moving up, `k` slots having been visited. */
  function Shifted(q: seq<Pcb>, found: bool, p: nat, k: nat, m: nat): Pcb {
    if found && p <= m && m + 1 < k && m + 1 < |q| then q[m + 1] else if m < |q| then q[m] else NULL
  }
  lemma StopsAtEnd(i: nat, k: nat, n: nat, cap: nat)
    requires i < cap && n <= cap && 0 < k <= (if n == 0 then cap else n) && At(i, k, cap) == At(i, n, cap)
    ensures k == if n == 0 then cap else n
  {}
  lemma NotYet(i: nat, k: nat, n: nat, cap: nat)
    requires i < cap && n <= cap && 0 < k <= (if n == 0 then cap else n) && At(i, k, cap) != At(i, n, cap)
    ensures k < if n == 0 then cap else n
  {}
  lemma DistinctWithout(q: seq<Pcb>, p: nat)
    requires Distinct(q) && p < |q|
    ensures Distinct(q[..p] + q[p + 1..])
  {}

  // ---- whole runs ----

  /** What happens to a listener: an arrival (with room in the queue or not), an error on a
      connection that has not been accepted, or the user's accept. */
  datatype Event = Arrives(pcb: Pcb) | Fails(pcb: Pcb) | Accepts

  /** The queue, and the histories of what was queued, what failed while queued, what was accepted. */
  datatype Run = Run(queue: seq<Pcb>, queued: seq<Pcb>, failed: set<Pcb>, accepted: seq<Pcb>)

  /** The effect of an event, as the contracts of the three methods state it. */
  function After(r: Run, e: Event, cap: nat): Run {
    match e
    case Arrives(pcb) =>
      if |r.queue| < cap && pcb != NULL && pcb !in r.queued
      then r.(queue := r.queue + [pcb], queued := r.queued + [pcb]) else r
    case Fails(pcb) =>
      if pcb in r.queue then r.(queue := Without(r.queue, pcb), failed := r.failed + {pcb}) else r
    case Accepts =>
      if r.queue == [] then r else r.(queue := r.queue[1..], accepted := r.accepted + [r.queue[0]])
  }
  function AfterAll(r: Run, es: seq<Event>, cap: nat): Run
    decreases |es|
  {
    if es == [] then r else After(AfterAll(r, es[..|es| - 1], cap), es[|es| - 1], cap)
  }
  /** Those of `q` that are not in `gone`, in order. */
  function Keep(q: seq<Pcb>, gone: set<Pcb>): seq<Pcb> {
    if q == [] then [] else (if q[0] in gone then [] else [q[0]]) + Keep(q[1..], gone)
  }
  lemma {:induction false} KeepCat(a: seq<Pcb>, b: seq<Pcb>, gone: set<Pcb>)
    ensures Keep(a + b, gone) == Keep(a, gone) + Keep(b, gone)
  {
    if a == [] {
      assert a + b == b;
    } else {
      assert (a + b)[1..] == a[1..] + b;
      KeepCat(a[1..], b, gone);
    }
  }
  lemma {:induction false} KeepMembers(q: seq<Pcb>, gone: set<Pcb>)
    ensures forall x :: x in Keep(q, gone) <==> x in q && x !in gone
    ensures Distinct(q) ==> Distinct(Keep(q, gone))
  {
    if q != [] {
      KeepMembers(q[1..], gone);
      assert q == [q[0]] + q[1..];
      assert Distinct(q) ==> Distinct(q[1..]) && q[0] !in q[1..];
      assert Keep(q, gone) == (if q[0] in gone then [] else [q[0]]) + Keep(q[1..], gone);
    }
  }
  /** Dropping one more from a list without repetitions. */
  lemma {:induction false} KeepDrops(q: seq<Pcb>, gone: set<Pcb>, pcb: Pcb)
    requires Distinct(q)
    ensures Keep(q, gone + {pcb}) == Without(Keep(q, gone), pcb)
  {
    if q != [] {
      assert q == [q[0]] + q[1..] && Distinct(q[1..]) && q[0] !in q[1..];
      KeepDrops(q[1..], gone, pcb);
      KeepMembers(q[1..], gone);
      var rest := Keep(q[1..], gone);
      var head := if q[0] in gone then [] else [q[0]];
      assert Keep(q, gone) == head + rest;
      assert head != [] ==> (head + rest)[1..] == rest;
      assert [] + rest == rest && [] + Keep(q[1..], gone + {pcb}) == Keep(q[1..], gone + {pcb});
      if q[0] == pcb {
        WithoutNone(rest, pcb);
      }
    }
  }
  lemma {:induction false} WithoutCat(a: seq<Pcb>, b: seq<Pcb>, pcb: Pcb)
    requires pcb !in a
    ensures Without(a + b, pcb) == a + Without(b, pcb)
  {
    if a == [] {
      assert a + b == b;
    } else {
      assert (a + b)[1..] == a[1..] + b;
      WithoutCat(a[1..], b, pcb);
    }
  }
  ghost predicate RunInv(r: Run, cap: nat) {
    && Distinct(r.queued) && |r.queue| <= cap
    && r.accepted + r.queue == Keep(r.queued, r.failed)
    && (forall x :: x in r.failed ==> x in r.queued)
  }
  lemma FailsKeeps(r: Run, pcb: Pcb, cap: nat)
    requires RunInv(r, cap)
    ensures RunInv(After(r, Fails(pcb), cap), cap)
  {
    hide Keep, Without;
    KeepMembers(r.queued, r.failed);
    if pcb in r.queue {
      KeepDrops(r.queued, r.failed, pcb);
      FailedWasNotAccepted(r, pcb);
      WithoutCat(r.accepted, r.queue, pcb);
      WithoutShorter(r.queue, pcb);
      assert pcb in r.accepted + r.queue;
    }
  }
  lemma AfterKeeps(r: Run, e: Event, cap: nat)
    requires RunInv(r, cap)
    ensures RunInv(After(r, e, cap), cap)
  {
    KeepMembers(r.queued, r.failed);
    match e
    case Arrives(pcb) =>
      KeepCat(r.queued, [pcb], r.failed);
      if |r.queue| < cap && pcb != NULL && pcb !in r.queued {
        assert pcb !in r.failed;
        assert Keep([pcb], r.failed) == [pcb] by { assert [pcb][1..] == []; }
        assert r.accepted + (r.queue + [pcb]) == r.accepted + r.queue + [pcb];
      }
    case Fails(pcb) =>
      FailsKeeps(r, pcb, cap);
    case Accepts =>
      if r.queue != [] {
        assert r.accepted + [r.queue[0]] + r.queue[1..] == r.accepted + r.queue;
      }
  }
  /** The listener's own methods take the steps of the run: lwIP hands each callback a connection it
      has not handed out before. */
  method Handle(l: Listener, e: Event, ghost r: Run) returns (got: Result<Pcb>)
    requires l.Valid() && RunInv(r, l.slots.Length) && l.queue == r.queue
    requires !e.Accepts? ==> e.pcb != NULL
    requires e.Arrives? ==> e.pcb !in r.queued
    modifies l`iget, l`iput, l`queue, l.slots
    ensures l.Valid() && l.queue == After(r, e, l.slots.Length).queue
    ensures e.Accepts? ==> After(r, e, l.slots.Length).accepted
                           == r.accepted + if got.Ok? then [got.value] else []
  {
    got := EAGAIN;
    match e
    case Arrives(pcb) =>
      KeepMembers(r.queued, r.failed);
      assert forall x :: x in r.queue ==> x in r.accepted + r.queue;
      var err := l.TcpAccept(pcb, ERR_OK);
    case Fails(pcb) =>
      if pcb !in l.queue {
        WithoutNone(l.queue, pcb);
      }
      l.ErrUnaccepted(pcb);
    case Accepts =>
      got := l.Take();
  }
  // ---- accept, with its waiting ----

  /** What the network may do: each connection it hands over is a new one. */
  ghost predicate Network(r: Run, es: seq<Event>, cap: nat) {
    forall k :: 0 <= k < |es| ==> MayHappen(AfterAll(r, es[..k], cap), es[k])
  }
  ghost predicate MayHappen(r: Run, e: Event) {
    !e.Accepts? && e.pcb != NULL && (e.Arrives? ==> e.pcb !in r.queued)
  }
  /** After some turns of waiting, in each of which the network may do several things. */
  function AfterTurns(r: Run, turns: seq<seq<Event>>, cap: nat): Run {
    if turns == [] then r else AfterAll(AfterTurns(r, turns[..|turns| - 1], cap), turns[|turns| - 1], cap)
  }
  ghost predicate NetworkTurns(r: Run, turns: seq<seq<Event>>, cap: nat) {
    forall n :: 0 <= n < |turns| ==> Network(AfterTurns(r, turns[..n], cap), turns[n], cap)
  }
  lemma TurnNext(r: Run, turns: seq<seq<Event>>, cap: nat, n: nat)
    requires n < |turns|
    ensures AfterTurns(r, turns[..n + 1], cap) == AfterAll(AfterTurns(r, turns[..n], cap), turns[n], cap)
  {
    assert turns[..n + 1][..n] == turns[..n];
  }
  /** One turn: the callbacks do what the network asks for. */
  method Turn(l: Listener, es: seq<Event>, ghost r: Run)
    requires l.Valid() && RunInv(r, l.slots.Length) && l.queue == r.queue && Network(r, es, l.slots.Length)
    modifies l`iget, l`iput, l`queue, l.slots
    ensures l.Valid() && RunInv(AfterAll(r, es, l.slots.Length), l.slots.Length)
    ensures l.queue == AfterAll(r, es, l.slots.Length).queue
  {
    hide After, RunInv, Listener.Valid;
    assert es[..0] == [] && es[..|es|] == es;
    var k := 0;
    while k < |es|
      invariant k <= |es| && l.Valid() && RunInv(AfterAll(r, es[..k], l.slots.Length), l.slots.Length)
      invariant l.queue == AfterAll(r, es[..k], l.slots.Length).queue
    {
      ghost var now := AfterAll(r, es[..k], l.slots.Length);
      assert es[..k + 1][..k] == es[..k];
      assert MayHappen(now, es[k]);
      AfterKeeps(now, es[k], l.slots.Length);
      var _ := Handle(l, es[k], now);
      k := k + 1;
    }
  }
  /** The turns `accept` may wait: none, one for each 100 milliseconds, or (the timeout being -1) all. */
  function Patience(timeout: int, turns: nat): nat
    requires timeout >= -1
  {
    if timeout == -1 then turns else timeout / 100
  }
  /** Before turn `n` nothing had come. */
  ghost predicate NothingBefore(r: Run, turns: seq<seq<Event>>, cap: nat, n: nat)
    requires n <= |turns|
  {
    forall m :: 0 <= m < n ==> AfterTurns(r, turns[..m], cap).queue == []
  }
  /** The listener stands where `n` turns have brought it. */
  ghost predicate Stands(l: Listener, r: Run, turns: seq<seq<Event>>, n: nat)
    requires n <= |turns|
    reads l, l.slots
  {
    var now := AfterTurns(r, turns[..n], l.slots.Length);
    l.Valid() && RunInv(now, l.slots.Length) && l.queue == now.queue
  }
  method OneTurn(l: Listener, turns: seq<seq<Event>>, n: nat, ghost r: Run)
    requires n < |turns| && Stands(l, r, turns, n) && l.queue == []
    requires NetworkTurns(r, turns, l.slots.Length) && NothingBefore(r, turns, l.slots.Length, n)
    modifies l`iget, l`iput, l`queue, l.slots
    ensures Stands(l, r, turns, n + 1) && NothingBefore(r, turns, l.slots.Length, n + 1)
  {
    hide RunInv, Listener.Valid, AfterAll, AfterTurns;
    TurnNext(r, turns, l.slots.Length, n);
    Turn(l, turns[n], AfterTurns(r, turns[..n], l.slots.Length));
  }
  /** The waiting loops of `accept`. */
  method Wait(l: Listener, timeout: int, turns: seq<seq<Event>>, ghost r: Run) returns (got: bool, n: nat)
    requires Stands(l, r, turns, 0) && timeout >= -1
    requires NetworkTurns(r, turns, l.slots.Length) && Patience(timeout, |turns|) <= |turns|
    modifies l`iget, l`iput, l`queue, l.slots
    ensures n <= Patience(timeout, |turns|) <= |turns|
    ensures Stands(l, r, turns, n) && NothingBefore(r, turns, l.slots.Length, n)
    ensures got <==> l.queue != []
    ensures !got ==> n == Patience(timeout, |turns|)
  {
    hide AfterTurns, NetworkTurns, RunInv;
    n := 0;
    var retries := timeout / 100;
    var empty := l.Empty();
    while empty
      invariant n <= Patience(timeout, |turns|) && (timeout != -1 ==> retries == timeout / 100 - n)
      invariant Stands(l, r, turns, n) && NothingBefore(r, turns, l.slots.Length, n) && (empty <==> l.queue == [])
      decreases |turns| - n
    {
      if if timeout == -1 then n == |turns| else retries == 0 {
        return false, n;
      }
      OneTurn(l, turns, n, r);
      n, retries := n + 1, retries - 1;
      empty := l.Empty();
    }
    return true, n;
  }
  /** `accept`, `turns` being what the network does while it waits. It takes the first connection of
      the queue as soon as there is one, after as many turns as that needs, and otherwise gives up when
      its time is over, which is at once for a timeout of zero; without a timeout it never does. */
  method Accept(l: Listener, timeout: int, turns: seq<seq<Event>>, ghost r: Run) returns (got: Result<Pcb>, n: nat)
    requires l.Valid() && RunInv(r, l.slots.Length) && l.queue == r.queue && timeout >= -1
    requires NetworkTurns(r, turns, l.slots.Length) && Patience(timeout, |turns|) <= |turns|
    modifies l`iget, l`iput, l`queue, l.slots
    ensures n <= Patience(timeout, |turns|) && NothingBefore(r, turns, l.slots.Length, n)
    ensures var now := AfterTurns(r, turns[..n], l.slots.Length);
            && l.Valid() && l.queue == After(now, Accepts, l.slots.Length).queue
            && RunInv(After(now, Accepts, l.slots.Length), l.slots.Length)
            && if now.queue != [] then got == Ok(now.queue[0])
               else n == Patience(timeout, |turns|)
                    && got == if timeout == 0 then EAGAIN else if timeout == -1 then StillWaiting else ETIMEDOUT
  {
    assert Stands(l, r, turns, 0) by {
      assert turns[..0] == [];
    }
    hide AfterTurns, NetworkTurns, NothingBefore, RunInv, Listener.Valid;
    var ready;
    ready, n := Wait(l, timeout, turns, r);
    AfterKeeps(AfterTurns(r, turns[..n], l.slots.Length), Accepts, l.slots.Length);
    if ready {
      got := l.Take();
    } else {
      got := if timeout == 0 then EAGAIN else if timeout == -1 then StillWaiting else ETIMEDOUT;
    }
  }
  lemma FailedWasNotAccepted(r: Run, pcb: Pcb)
    requires Distinct(r.accepted + r.queue) && pcb in r.queue
    ensures pcb !in r.accepted
  {
    var all := r.accepted + r.queue;
    var k :| 0 <= k < |r.queue| && r.queue[k] == pcb;
    assert all[|r.accepted| + k] == pcb;
    assert forall j :: 0 <= j < |r.accepted| ==> all[j] == r.accepted[j];
  }
  lemma {:induction false} WithoutShorter(q: seq<Pcb>, pcb: Pcb)
    ensures |Without(q, pcb)| <= |q|
  {
    if q != [] {
      WithoutShorter(q[1..], pcb);
    }
  }
  /** Over every run: those accepted so far, followed by those still waiting, are the queued
      connections in the order of their arrival, less those that failed while they waited. */
  lemma {:induction false} AcceptsInOrder(es: seq<Event>, cap: nat)
    ensures var r := AfterAll(Run([], [], {}, []), es, cap);
            && |r.queue| <= cap && Distinct(r.queued)
            && r.accepted + r.queue == Keep(r.queued, r.failed)
    decreases |es|
  {
    RunKeeps(es, cap);
  }
  lemma {:induction false} RunKeeps(es: seq<Event>, cap: nat)
    ensures RunInv(AfterAll(Run([], [], {}, []), es, cap), cap)
    decreases |es|
  {
    if es != [] {
      RunKeeps(es[..|es| - 1], cap);
      AfterKeeps(AfterAll(Run([], [], {}, []), es[..|es| - 1], cap), es[|es| - 1], cap);
    }
  }
}
