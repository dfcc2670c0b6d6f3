/** The I2S ring buffer: single producer, single consumer, no locks. */
module I2sRing {
  import opened Arithmetic

  type Byte = bv8

  // ---- the buffer as an object, used by one side at a time ----

  /** The bytes from `head` up to `tail`, going round the end. */
  function Cyclic(b: seq<Byte>, head: nat, tail: nat): seq<Byte>
    requires head < |b| && tail < |b|
  {
    if head <= tail then b[head..tail] else b[head..] + b[..tail]
  }

  /** `(i + 1) % n` for a slot `i`. */
  function After(i: nat, n: nat): (j: nat)
    requires i < n
    ensures j == (i + 1) % n && j < n
  {
    if i + 1 < n then i + 1 else 0
  }
  lemma CyclicLength(b: seq<Byte>, head: nat, tail: nat)
    requires head < |b| && tail < |b|
    ensures |Cyclic(b, head, tail)| == (if head <= tail then tail - head else tail + |b| - head) == (tail + |b| - head) % |b|
    ensures After(tail, |b|) == head <==> |Cyclic(b, head, tail)| == |b| - 1
    ensures head == tail <==> Cyclic(b, head, tail) == []
  {
    if head <= tail {
      DivUnique(tail + |b| - head, |b|, 1, tail - head);
    }
  }
  lemma CyclicPush(b: seq<Byte>, head: nat, tail: nat, data: Byte)
    requires head < |b| && tail < |b| && After(tail, |b|) != head
    ensures Cyclic(b[tail := data], head, After(tail, |b|)) == Cyclic(b, head, tail) + [data]
  {}
  lemma CyclicPop(b: seq<Byte>, head: nat, tail: nat)
    requires head < |b| && tail < |b| && head != tail
    ensures Cyclic(b, head, tail) == [b[head]] + Cyclic(b, After(head, |b|), tail)
  {}

  class RingBuf {
    const buffer: array<Byte>
    var head: nat
    var tail: nat

    ghost predicate Valid()
      reads this, buffer
    {
      head < buffer.Length && tail < buffer.Length
    }
    ghost function Contents(): seq<Byte>
      requires Valid()
      reads this, buffer
    {
      Cyclic(buffer[..], head, tail)
    }

    constructor (buffer: array<Byte>)
      requires buffer.Length > 0
      ensures Valid() && this.buffer == buffer && Contents() == []
    {
      this.buffer, head, tail := buffer, 0, 0;
    }

    method Push(data: Byte) returns (ok: bool)
      requires Valid()
      modifies this`tail, buffer
      ensures Valid()
      ensures ok <==> |old(Contents())| < buffer.Length - 1
      ensures Contents() == old(Contents()) + if ok then [data] else []
    {
      hide Cyclic;
      var nextTail := (tail + 1) % buffer.Length;
      ghost var b := buffer[..];
      assert nextTail == After(tail, buffer.Length);
      CyclicLength(b, head, tail);
      if nextTail != head {
        CyclicPush(b, head, tail, data);
        buffer[tail] := data;
        assert buffer[..] == b[tail := data];
        tail := nextTail;
        return true;
      }
      return false;
    }

    method Pop() returns (ok: bool, data: Byte)
      requires Valid()
      modifies this`head
      ensures Valid()
      ensures ok <==> old(Contents()) != []
      ensures ok ==> old(Contents()) == [data] + Contents()
      ensures !ok ==> Contents() == old(Contents())
    {
      hide Cyclic;
      CyclicLength(buffer[..], head, tail);
      if head == tail {
        return false, 0;
      }
      CyclicPop(buffer[..], head, tail);
      assert After(head, buffer.Length) == (head + 1) % buffer.Length;
      data := buffer[head];
      head := (head + 1) % buffer.Length;
      return true, data;
    }

    method AvailableData() returns (n: nat)
      requires Valid()
      ensures n == |Contents()|
    {
      CyclicLength(buffer[..], head, tail);
      hide Cyclic;
      n := (tail + buffer.Length - head) % buffer.Length;
    }
    method AvailableSpace() returns (n: nat)
      requires Valid()
      ensures n + |Contents()| + 1 == buffer.Length
    {
      var used := AvailableData();
      n := buffer.Length - used - 1;
    }
  }

  /** An I2S object that sends from an application buffer in non-blocking mode. */
  class Sender {
    const ring: RingBuf
    const appbuf: seq<Byte>
    const copySize: nat
    var index: nat
    var copyInProgress: bool
    var callbacks: nat

    ghost predicate Valid()
      reads this, ring, ring.buffer
    {
      ring.Valid() && index <= |appbuf|
    }

    /** The callback has been scheduled once if the copy is over, and not yet otherwise. */
    ghost predicate Once()
      reads this
    {
      && callbacks == (if copyInProgress then 0 else 1)
      && (!copyInProgress ==> index == |appbuf|)
    }

    constructor (ring: RingBuf, appbuf: seq<Byte>, copySize: nat)
      requires ring.Valid()
      ensures Valid() && this.ring == ring && this.appbuf == appbuf && this.copySize == copySize
      ensures index == 0 && copyInProgress && callbacks == 0 && Once()
    {
      this.ring, this.appbuf, this.copySize := ring, appbuf, copySize;
      index, copyInProgress, callbacks := 0, true, 0;
    }

    /** `copy_appbuf_to_ringbuf` in asyncio mode: up to the first push that fails. */
    method CopyUntilFull() returns (n: nat)
      requires ring.Valid()
      modifies ring`tail, ring.buffer
      ensures ring.Valid() && n <= |appbuf|
      ensures ring.Contents() == old(ring.Contents()) + appbuf[..n]
      ensures n < |appbuf| ==> |ring.Contents()| == ring.buffer.Length - 1
    {
      hide Cyclic;
      n := 0;
      assert appbuf[..0] == [];
      while n < |appbuf|
        invariant ring.Valid() && n <= |appbuf|
        invariant ring.Contents() == old(ring.Contents()) + appbuf[..n]
      {
        var ok := ring.Push(appbuf[n]);
        if !ok {
          CyclicLength(ring.buffer[..], ring.head, ring.tail);
          break;
        }
        assert appbuf[..n + 1] == appbuf[..n] + [appbuf[n]];
        n := n + 1;
      }
    }

    /** `copy_appbuf_to_ringbuf_non_blocking`: the next block goes out whole or not at all, and
        the callback is scheduled when the last byte has gone. */
    method CopyNonBlocking()
      requires Valid()
      modifies this`index, this`copyInProgress, this`callbacks, ring`tail, ring.buffer
      ensures Valid()
      ensures var left := |appbuf| - old(index);
              var n := if copySize < left then copySize else left;
              var fits := n + |old(ring.Contents())| < ring.buffer.Length;
              && index == old(index) + (if fits then n else 0)
              && ring.Contents() == old(ring.Contents()) + appbuf[old(index)..index]
              && callbacks == old(callbacks) + (if fits && index == |appbuf| then 1 else 0)
              && copyInProgress == (old(copyInProgress) && !(fits && index == |appbuf|))
    {
      hide Cyclic;
      assert appbuf[index..index] == [];
      var left := |appbuf| - index;
      var n := if copySize < left then copySize else left;
      var space := ring.AvailableSpace();
      if space >= n {
        PushBlock(n);
        index := index + n;
        if index >= |appbuf| {
          copyInProgress := false;
          callbacks := callbacks + 1;
        }
      } else {
        assert ring.Contents() + appbuf[index..index] == ring.Contents();
      }
    }

    /** The copy loop; the result of each push is ignored, and none is refused. */
    method PushBlock(n: nat)
      requires Valid() && index + n <= |appbuf| && n + |ring.Contents()| < ring.buffer.Length
      modifies ring`tail, ring.buffer
      ensures ring.Valid() && ring.Contents() == old(ring.Contents()) + appbuf[index..index + n]
    {
      hide Cyclic;
      assert appbuf[index..index] == [];
      for i := 0 to n
        invariant ring.Valid()
        invariant ring.Contents() == old(ring.Contents()) + appbuf[index..index + i]
      {
        var _ := ring.Push(appbuf[index + i]);
        assert appbuf[index..index + i + 1] == appbuf[index..index + i] + [appbuf[index + i]];
      }
    }
  }

  /** The ports call the copier from their interrupt while a copy is in progress, and not otherwise;
      between interrupts the consumer takes bytes out of the ring. */
  method Interrupts(s: Sender, pops: seq<nat>) returns (popped: seq<Byte>)
    requires s.Valid() && s.Once()
    modifies s`index, s`copyInProgress, s`callbacks, s.ring`head, s.ring`tail, s.ring.buffer
    ensures s.Valid() && s.Once() && old(s.index) <= s.index && s.callbacks <= 1
    ensures popped + s.ring.Contents() == old(s.ring.Contents()) + s.appbuf[old(s.index)..s.index]
  {
    hide Cyclic;
    popped := [];
    ghost var c0, i0 := s.ring.Contents(), s.index;
    assert s.appbuf[i0..i0] == [] && [] + c0 == c0 + [];
    for k := 0 to |pops|
      invariant s.Valid() && s.Once() && i0 <= s.index
      invariant popped + s.ring.Contents() == c0 + s.appbuf[i0..s.index]
    {
      var taken := PopSome(s.ring, pops[k]);
      popped := popped + taken;
      Interrupt(s, popped, c0, i0);
    }
  }
  method Interrupt(s: Sender, ghost popped: seq<Byte>, ghost c0: seq<Byte>, ghost i0: nat)
    requires s.Valid() && s.Once() && i0 <= s.index && popped + s.ring.Contents() == c0 + s.appbuf[i0..s.index]
    modifies s`index, s`copyInProgress, s`callbacks, s.ring`tail, s.ring.buffer
    ensures s.Valid() && s.Once() && i0 <= s.index && popped + s.ring.Contents() == c0 + s.appbuf[i0..s.index]
  {
    hide Cyclic;
    if s.copyInProgress {
      ghost var i1, c1 := s.index, s.ring.Contents();
      s.CopyNonBlocking();
      assert s.appbuf[i0..s.index] == s.appbuf[i0..i1] + s.appbuf[i1..s.index];
      assert popped + (c1 + s.appbuf[i1..s.index]) == (popped + c1) + s.appbuf[i1..s.index];
      assert c0 + s.appbuf[i0..i1] + s.appbuf[i1..s.index] == c0 + (s.appbuf[i0..i1] + s.appbuf[i1..s.index]);
    }
  }
  /** The consumer: up to `n` bytes, stopping at an empty ring. */
  method PopSome(ring: RingBuf, n: nat) returns (taken: seq<Byte>)
    requires ring.Valid()
    modifies ring`head
    ensures ring.Valid() && old(ring.Contents()) == taken + ring.Contents()
  {
    hide Cyclic;
    taken := [];
    assert old(ring.Contents()) == [] + ring.Contents();
    for i := 0 to n
      invariant ring.Valid() && old(ring.Contents()) == taken + ring.Contents()
    {
      ghost var before := ring.Contents();
      var ok, data := ring.Pop();
      if !ok {
        return;
      }
      assert taken + ([data] + ring.Contents()) == (taken + [data]) + ring.Contents();
      taken := taken + [data];
    }
  }

  // ---- producer and consumer interleaved, one memory access at a time ----

  /** Where the producer stands in `ringbuf_push`. */
  datatype Producer =
    | PIdle
    | PNext(data: Byte, nextTail: nat)
    | PRoom(data: Byte, nextTail: nat)
    | PStored(data: Byte, nextTail: nat)
  /** Where the consumer stands in `ringbuf_pop`. */
  datatype Consumer =
    | CIdle
    | CHead(head: nat)
    | CData(head: nat)
    | CTaken(head: nat, data: Byte)

  /** The shared buffer, the two program counters, and the histories of completed calls. */
  datatype Shared = Shared(
    buffer: seq<Byte>, head: nat, tail: nat, producer: Producer, consumer: Consumer,
    pushed: seq<Byte>, popped: seq<Byte>)

  datatype Step = StartPush(data: Byte) | Produce | StartPop | Consume

  ghost predicate Shape(s: Shared) { s.head < |s.buffer| && s.tail < |s.buffer| }

  function Init(buffer: seq<Byte>): Shared
    requires buffer != []
  {
    Shared(buffer, 0, 0, PIdle, CIdle, [], [])
  }

  /** One atomic step; a step that its side is not ready for changes nothing. */
  function Next(s: Shared, step: Step): Shared
    requires s.buffer != []
  {
    match step
    case StartPush(data) =>
      if s.producer.PIdle? then s.(producer := PNext(data, (s.tail + 1) % |s.buffer|)) else s
    case Produce =>
      (match s.producer
       case PIdle => s
       case PNext(data, nextTail) =>
         if nextTail != s.head then s.(producer := PRoom(data, nextTail)) else s.(producer := PIdle)
       case PRoom(data, nextTail) =>
         if s.tail < |s.buffer| then s.(buffer := s.buffer[s.tail := data], producer := PStored(data, nextTail)) else s
       case PStored(data, nextTail) =>
         s.(tail := nextTail, producer := PIdle, pushed := s.pushed + [data]))
    case StartPop =>
      if s.consumer.CIdle? then s.(consumer := CHead(s.head)) else s
    case Consume =>
      (match s.consumer
       case CIdle => s
       case CHead(head) => if head == s.tail then s.(consumer := CIdle) else s.(consumer := CData(head))
       case CData(head) =>
         if head < |s.buffer| then s.(consumer := CTaken(head, s.buffer[head])) else s
       case CTaken(head, data) =>
         s.(head := (head + 1) % |s.buffer|, consumer := CIdle, popped := s.popped + [data]))
  }
  function Run(s: Shared, steps: seq<Step>): Shared
    requires s.buffer != []
    decreases |steps|
  {
    if steps == [] then s
    else
      var r := Run(s, steps[..|steps| - 1]);
      if r.buffer == [] then r else Next(r, steps[|steps| - 1])
  }

  /** How many bytes are in the buffer. */
  function Held(s: Shared): int { |s.pushed| - |s.popped| }

  /** What holds between any two atomic steps. */
  ghost predicate Inv(s: Shared) {
    var n := |s.buffer|;
    && n > 0
    && s.popped <= s.pushed && Held(s) <= n - 1
    && s.head == |s.popped| % n && s.tail == |s.pushed| % n
    && (forall k :: |s.popped| <= k < |s.pushed| ==> s.buffer[k % n] == s.pushed[k])
    && (s.producer.PIdle? || s.producer.nextTail == (|s.pushed| + 1) % n)
    && (s.producer.PRoom? || s.producer.PStored? ==> Held(s) < n - 1)
    && (s.producer.PStored? ==> s.buffer[s.tail] == s.producer.data)
    && (s.consumer.CIdle? || s.consumer.head == s.head)
    && (s.consumer.CData? || s.consumer.CTaken? ==> Held(s) > 0)
    && (s.consumer.CTaken? ==> s.consumer.data == s.pushed[|s.popped|])
  }

  /** Positions less than a buffer apart have different slots. */
  lemma SlotsDiffer(j: nat, k: nat, n: nat)
    requires n > 0 && j < k < j + n
    ensures j % n != k % n
  {
    if j % n == k % n {
      assert j == j / n * n + j % n && k == k / n * n + k % n;
      assert (k / n - j / n) * n == k - j;
      MulSign(k / n - j / n, n);
    }
  }
  lemma SlotNext(k: nat, n: nat)
    requires n > 0
    ensures (k % n + 1) % n == (k + 1) % n
  {
    var q, r := k / n, k % n;
    assert k == q * n + r;
    if r + 1 < n {
      DivUnique(k + 1, n, q, r + 1);
    } else {
      Distribute(n, q, 1);
      DivUnique(k + 1, n, q + 1, 0);
    }
  }
  lemma SlotRound(k: nat, n: nat)
    requires n > 0
    ensures (k + n) % n == k % n
  {
    Distribute(n, k / n, 1);
    DivUnique(k + n, n, k / n + 1, k % n);
  }

  /** The producer's test finds the buffer full exactly when `n - 1` bytes are held. */
  lemma FullTest(pushed: nat, popped: nat, n: nat)
    requires n > 0 && popped <= pushed <= popped + n - 1
    ensures (pushed + 1) % n == popped % n <==> pushed - popped == n - 1
  {
    if pushed - popped == n - 1 {
      SlotRound(popped, n);
    } else {
      SlotsDiffer(popped, pushed + 1, n);
    }
  }
  lemma EmptyTest(pushed: nat, popped: nat, n: nat)
    requires n > 0 && popped <= pushed <= popped + n - 1
    ensures pushed % n == popped % n <==> pushed == popped
  {
    if pushed != popped {
      SlotsDiffer(popped, pushed, n);
    }
  }
  /** The slot the producer writes holds no unread byte. */
  lemma NoUnreadOverwritten(s: Shared, k: nat)
    requires Inv(s) && s.producer.PRoom? && |s.popped| <= k < |s.pushed|
    ensures k % |s.buffer| != s.tail
  {
    SlotsDiffer(k, |s.pushed|, |s.buffer|);
  }

  lemma ProduceKeeps(s: Shared)
    requires Inv(s)
    ensures Inv(Next(s, Produce))
  {
    var n, s' := |s.buffer|, Next(s, Produce);
    match s.producer
    case PIdle =>
    case PNext(_, _) =>
      FullTest(|s.pushed|, |s.popped|, n);
    case PRoom(data, _) =>
      forall k | |s.popped| <= k < |s.pushed| ensures s'.buffer[k % n] == s.pushed[k] {
        NoUnreadOverwritten(s, k);
      }
    case PStored(data, _) =>
      SlotNext(|s.pushed|, n);
  }
  lemma ConsumeKeeps(s: Shared)
    requires Inv(s)
    ensures Inv(Next(s, Consume))
  {
    var n := |s.buffer|;
    match s.consumer
    case CIdle =>
    case CHead(_) =>
      EmptyTest(|s.pushed|, |s.popped|, n);
    case CData(_) =>
      assert s.buffer[|s.popped| % n] == s.pushed[|s.popped|];
    case CTaken(_, data) =>
      SlotNext(|s.popped|, n);
      assert s.popped + [data] == s.pushed[..|s.popped| + 1];
  }
  lemma NextKeeps(s: Shared, step: Step)
    requires Inv(s)
    ensures Inv(Next(s, step))
  {
    match step
    case StartPush(_) =>
      SlotNext(|s.pushed|, |s.buffer|);
    case Produce => ProduceKeeps(s);
    case StartPop =>
    case Consume => ConsumeKeeps(s);
  }
  lemma {:induction false} RunKeeps(buffer: seq<Byte>, steps: seq<Step>)
    requires buffer != []
    ensures var s := Run(Init(buffer), steps); Inv(s) && |s.buffer| == |buffer|
    decreases |steps|
  {
    if steps != [] {
      RunKeeps(buffer, steps[..|steps| - 1]);
      NextKeeps(Run(Init(buffer), steps[..|steps| - 1]), steps[|steps| - 1]);
    }
  }
  /** Over every interleaving the bytes popped are the first bytes pushed, in order; one byte
      less than the buffer's size is held at most; and when the producer is about to store, no
      unread byte lies in the slot it stores to. */
  lemma EveryInterleaving(buffer: seq<Byte>, steps: seq<Step>)
    requires buffer != []
    ensures var s := Run(Init(buffer), steps);
            && s.popped <= s.pushed && |s.pushed| - |s.popped| <= |buffer| - 1
            && (s.producer.PRoom? ==> forall k :: |s.popped| <= k < |s.pushed| ==> k % |buffer| != s.tail)
  {
    RunKeeps(buffer, steps);
    var s := Run(Init(buffer), steps);
    if s.producer.PRoom? {
      forall k | |s.popped| <= k < |s.pushed| ensures k % |buffer| != s.tail {
        NoUnreadOverwritten(s, k);
      }
    }
  }

  // ---- the interrupt-driven copier as the producer ----

  /** The copier: idle between interrupts, or with `i` of `n` bytes handed to the ring. */
  datatype Copier = Waiting | Copying(n: nat, i: nat) | Pushing(n: nat, i: nat)

  /** The copier, its application buffer, and the ring it shares with a consumer. */
  datatype System = System(ring: Shared, copier: Copier, appbuf: seq<Byte>, index: nat, copySize: nat, failed: bool)

  /** The interrupt, one atomic step of the copier, or one of the consumer. */
  datatype Event = Interrupt | Copy | ConsumerStarts | ConsumerSteps

  function Min(a: nat, b: nat): nat { if a < b then a else b }
  function FreeSpace(s: Shared): int
    requires Shape(s)
  {
    |s.buffer| - (s.tail + |s.buffer| - s.head) % |s.buffer| - 1
  }

  function SystemNext(y: System, e: Event): System
    requires Shape(y.ring)
  {
    var s := y.ring;
    match e
    case ConsumerStarts => y.(ring := Next(s, StartPop))
    case ConsumerSteps => y.(ring := Next(s, Consume))
    case Interrupt =>
      if !y.copier.Waiting? || y.index > |y.appbuf| then y
      else
        var n := Min(y.copySize, |y.appbuf| - y.index);
        if FreeSpace(s) >= n then y.(copier := Copying(n, 0)) else y
    case Copy =>
      (match y.copier
       case Waiting => y
       case Copying(n, i) =>
         if i >= n then y.(copier := Waiting, index := y.index + n)
         else if y.index + i < |y.appbuf| then
           y.(ring := Next(s, StartPush(y.appbuf[y.index + i])), copier := Pushing(n, i))
         else y
       case Pushing(n, i) =>
         var s' := Next(s, Produce);
         var refused := s.producer.PNext? && s'.producer.PIdle?;
         y.(ring := s', failed := y.failed || refused,
            copier := if s'.producer.PIdle? then Copying(n, i + 1) else Pushing(n, i)))
  }
  function SystemRun(y: System, es: seq<Event>): System
    requires Shape(y.ring)
    decreases |es|
  {
    if es == [] then y
    else
      var r := SystemRun(y, es[..|es| - 1]);
      if r.ring.head < |r.ring.buffer| && r.ring.tail < |r.ring.buffer| then SystemNext(r, es[|es| - 1]) else r
  }

  /** Bytes handed over so far. */
  function Handed(y: System): nat {
    y.index + if y.copier.Waiting? then 0 else y.copier.i
  }
  ghost predicate SystemInv(y: System) {
    var s := y.ring;
    && Inv(s) && !y.failed
    && Handed(y) <= |y.appbuf| && s.pushed == y.appbuf[..Handed(y)]
    && (match y.copier
        case Waiting => s.producer.PIdle?
        case Copying(n, i) =>
          && s.producer.PIdle? && i <= n && y.index + n <= |y.appbuf|
          && Held(s) + (n - i) <= |s.buffer| - 1
        case Pushing(n, i) =>
          && !s.producer.PIdle? && i < n && y.index + n <= |y.appbuf|
          && Held(s) + (n - i) <= |s.buffer| - 1
          && s.producer.data == y.appbuf[y.index + i])
  }
  lemma FreeSpaceHeld(s: Shared)
    requires Inv(s)
    ensures Shape(s) && FreeSpace(s) == |s.buffer| - 1 - Held(s)
  {
    HeadBehindTail(|s.pushed|, |s.popped|, |s.buffer|);
  }
  lemma HeadBehindTail(p: nat, q: nat, n: nat)
    requires n > 0 && q <= p <= q + n - 1
    ensures (p % n + n - q % n) % n == p - q
  {
    var m, k, h := p - q, q / n, q % n;
    assert q == k * n + h;
    if h + m < n {
      DivUnique(p, n, k, h + m);
      DivUnique(m + n, n, 1, m);
    } else {
      Distribute(n, k, 1);
      DivUnique(p, n, k + 1, h + m - n);
      DivUnique(m, n, 0, m);
    }
  }
  /** The room that was checked for is still there when a push looks at the ring. */
  lemma PushStep(s: Shared)
    requires Inv(s) && !s.producer.PIdle? && Held(s) < |s.buffer| - 1
    ensures var s' := Next(s, Produce);
            && Inv(s') && s'.popped == s.popped && |s'.buffer| == |s.buffer|
            && (s'.producer.PIdle? <==> s.producer.PStored?)
            && (s.producer.PStored? ==> s'.pushed == s.pushed + [s.producer.data])
            && (!s.producer.PStored? ==> s'.pushed == s.pushed && s'.producer.data == s.producer.data)
  {
    NextKeeps(s, Produce);
    if s.producer.PNext? {
      FullTest(|s.pushed|, |s.popped|, |s.buffer|);
    }
  }
  lemma CopyKeeps(y: System)
    requires SystemInv(y)
    ensures SystemInv(SystemNext(y, Copy))
  {
    hide Inv;
    var s := y.ring;
    if y.copier.Copying? && y.copier.i < y.copier.n {
      StartKeeps(s, y.appbuf[y.index + y.copier.i]);
    } else if y.copier.Pushing? {
      var k := y.index + y.copier.i;
      PushStep(s);
      assert y.appbuf[..k] + [y.appbuf[k]] == y.appbuf[..k + 1];
    }
  }
  lemma StartKeeps(s: Shared, data: Byte)
    requires Inv(s) && s.producer.PIdle?
    ensures var s' := Next(s, StartPush(data));
            Inv(s') && s'.producer.PNext? && s'.producer.data == data
            && s' == s.(producer := s'.producer)
  {
    NextKeeps(s, StartPush(data));
  }
  lemma ConsumerKeeps(y: System, step: Step)
    requires SystemInv(y) && step in {StartPop, Consume}
    ensures SystemInv(y.(ring := Next(y.ring, step)))
  {
    hide Inv, Next;
    NextKeeps(y.ring, step);
    ConsumerTakes(y.ring, step);
  }
  lemma ConsumerTakes(s: Shared, step: Step)
    requires Inv(s) && step in {StartPop, Consume}
    ensures var s' := Next(s, step);
            s'.producer == s.producer && s'.pushed == s.pushed && |s'.buffer| == |s.buffer| && Held(s') <= Held(s)
  {}
  lemma SystemNextKeeps(y: System, e: Event)
    requires SystemInv(y)
    ensures SystemInv(SystemNext(y, e))
  {
    match e
    case Interrupt => FreeSpaceHeld(y.ring);
    case Copy => CopyKeeps(y);
    case ConsumerStarts => ConsumerKeeps(y, StartPop);
    case ConsumerSteps => ConsumerKeeps(y, Consume);
  }
  lemma {:induction false} SystemRunKeeps(y: System, es: seq<Event>)
    requires SystemInv(y)
    ensures var z := SystemRun(y, es); SystemInv(z) && z.appbuf == y.appbuf
    decreases |es|
  {
    if es != [] {
      SystemRunKeeps(y, es[..|es| - 1]);
      SystemNextKeeps(SystemRun(y, es[..|es| - 1]), es[|es| - 1]);
    }
  }
  /** Over every interleaving of interrupts, copying and consuming, no push of the copier is
      refused, what has been pushed is exactly the application buffer up to where the copier
      stands, and what the consumer has taken is a prefix of that buffer. */
  lemma CopierNeverFails(buffer: seq<Byte>, appbuf: seq<Byte>, copySize: nat, es: seq<Event>)
    requires buffer != []
    ensures var y := SystemRun(System(Init(buffer), Waiting, appbuf, 0, copySize, false), es);
            && !y.failed && Handed(y) <= |appbuf|
            && y.ring.pushed == appbuf[..Handed(y)] && y.ring.popped <= appbuf
  {
    var y := System(Init(buffer), Waiting, appbuf, 0, copySize, false);
    assert appbuf[..0] == [];
    SystemRunKeeps(y, es);
    var z := SystemRun(y, es);
    assert z.ring.popped <= z.ring.pushed <= appbuf;
  }
}
