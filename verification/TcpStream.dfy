/** The receiving side of an lwIP stream socket: packets arrive in callbacks and are kept in a chain
    of buffers; reads take bytes from the front of the chain, possibly part of a buffer at a time. */
module TcpStream {

  type Byte = bv8
  type Chain = seq<seq<Byte>>

  function Flat(c: Chain): seq<Byte> {
    if c == [] then [] else c[0] + Flat(c[1..])
  }
  lemma {:induction false} FlatCat(a: Chain, b: Chain)
    ensures Flat(a + b) == Flat(a) + Flat(b)
  {
    if a == [] {
      assert a + b == b;
    } else {
      assert (a + b)[1..] == a[1..] + b;
      FlatCat(a[1..], b);
    }
  }
  ghost predicate NoEmpty(c: Chain) {
    forall i :: 0 <= i < |c| ==> c[i] != []
  }

  // ---- the connection as a value ----

  const NEW := 0
  const CONNECTED := 3
  const PEER_CLOSED := 4

  /** What lwIP tells the socket; `Failed` carries a negative lwIP error. */
  datatype Event = Packet(chain: Chain) | Closed | Failed(err: int)

  /** The socket's fields, with the histories of the bytes received and delivered and the number of
      bytes the peer has been told it may send again. */
  datatype Conn = Conn(state: int, chain: Chain, offset: nat, received: seq<Byte>, delivered: seq<Byte>, credited: nat)

  /** Bytes that have arrived and have not been delivered. */
  function Unread(c: Conn): seq<Byte> {
    if c.offset <= |Flat(c.chain)| then Flat(c.chain)[c.offset..] else []
  }

  function OnEvent(c: Conn, e: Event): Conn {
    match e
    case Packet(p) => c.(chain := c.chain + p, received := c.received + Flat(p))
    case Closed => c.(state := PEER_CLOSED)
    case Failed(err) => c.(state := err, chain := [])
  }
  function OnEvents(c: Conn, es: seq<Event>): Conn
    decreases |es|
  {
    if es == [] then c else OnEvents(OnEvent(c, es[0]), es[1..])
  }

  /** The bytes a read of at most `len` takes: those left in the first buffer, cut at `len`. */
  function Portion(c: Conn, len: nat): seq<Byte>
    requires c.chain != [] && c.offset <= |c.chain[0]|
  {
    var rest := c.chain[0][c.offset..];
    if len < |rest| then rest[..len] else rest
  }
  /** The connection after the first bytes have been handed over. */
  function Read(c: Conn, len: nat): Conn
    requires c.chain != [] && c.offset <= |c.chain[0]|
  {
    var bytes := Portion(c, len);
    var done := c.offset + |bytes| == |c.chain[0]|;
    c.(chain := if done then c.chain[1..] else c.chain,
       offset := if done then 0 else c.offset + |bytes|,
       delivered := c.delivered + bytes,
       credited := c.credited + |bytes|)
  }

  /** While the connection has not failed: nothing lost, nothing twice, nothing out of order. In every
      state: what was delivered came first, and exactly that much was credited. */
  ghost predicate Sound(c: Conn) {
    && c.credited == |c.delivered|
    && c.delivered <= c.received
    && (c.state >= 0 ==>
          && c.delivered + Unread(c) == c.received
          && (if c.chain == [] then c.offset == 0 else c.offset == 0 || c.offset < |c.chain[0]|))
  }
  lemma EventKeeps(c: Conn, e: Event)
    requires Sound(c) && c.state >= 0
    requires e.Failed? ==> e.err < 0
    ensures Sound(OnEvent(c, e))
  {
    if e.Packet? {
      FlatCat(c.chain, e.chain);
      var d := OnEvent(c, e);
      if c.chain == [] {
        assert c.chain + e.chain == e.chain;
      }
      assert c.offset <= |Flat(c.chain)|;
      assert Unread(d) == Unread(c) + Flat(e.chain);
      assert c.delivered + (Unread(c) + Flat(e.chain)) == c.received + Flat(e.chain);
    }
  }
  lemma PortionIsFirst(c: Conn, len: nat)
    requires c.chain != [] && c.offset <= |c.chain[0]|
    ensures |Portion(c, len)| <= len
    ensures Unread(c) == Portion(c, len) + Unread(Read(c, len))
  {
    hide Flat;
    FlatFirst(c.chain);
    ReadIs(c, len);
    hide Portion, Read;
    var b, rest := c.chain[0], Flat(c.chain[1..]);
    SplitAt(b, rest, c.offset, c.offset + |Portion(c, len)|);
  }
  /** A read cuts the first buffer in two. */
  lemma ReadIs(c: Conn, len: nat)
    requires c.chain != [] && c.offset <= |c.chain[0]|
    ensures var rest := |c.chain[0]| - c.offset;
            var n := if len > rest then rest else len;
            && Portion(c, len) == c.chain[0][c.offset..c.offset + n] && |Portion(c, len)| == n
            && Read(c, len) == Taken(c, n)
  {}
  function Taken(c: Conn, n: nat): Conn
    requires c.chain != [] && c.offset + n <= |c.chain[0]|
  {
    var m := c.offset + n;
    c.(chain := if m == |c.chain[0]| then c.chain[1..] else c.chain, offset := if m == |c.chain[0]| then 0 else m,
       delivered := c.delivered + c.chain[0][c.offset..m], credited := c.credited + n)
  }
  lemma SplitAt<T>(a: seq<T>, b: seq<T>, k: nat, m: nat)
    requires k <= m <= |a|
    ensures (a + b)[k..] == a[k..m] + (a + b)[m..]
    ensures m == |a| ==> (a + b)[m..] == b
  {}
  lemma FlatFirst(c: Chain)
    requires c != []
    ensures Flat(c) == c[0] + Flat(c[1..])
  {}
  lemma ReadKeeps(c: Conn, len: nat)
    requires Sound(c) && c.state >= 0 && c.chain != []
    ensures Sound(Read(c, len))
    ensures |Portion(c, len)| <= len
    ensures len > 0 && c.chain[0] != [] ==> Portion(c, len) != []
  {
    hide Flat, Unread;
    PortionIsFirst(c, len);
    var d, bytes := Read(c, len), Portion(c, len);
    assert c.delivered + (bytes + Unread(d)) == (c.delivered + bytes) + Unread(d);
  }

  // ---- whole runs ----

  /** A step of a run: lwIP calls back, or the user asks for at most `len` bytes. */
  datatype Step = Event(e: Event) | Recv(len: nat)

  ghost predicate Possible(s: Step) {
    s.Event? && s.e.Failed? ==> s.e.err < 0
  }
  function AfterStep(c: Conn, s: Step): Conn {
    if c.state < 0 then c
    else if s.Event? then OnEvent(c, s.e)
    else if c.chain != [] && c.offset <= |c.chain[0]| then Read(c, s.len) else c
  }
  function AfterSteps(c: Conn, steps: seq<Step>): Conn
    decreases |steps|
  {
    if steps == [] then c else AfterSteps(AfterStep(c, steps[0]), steps[1..])
  }
  /** Over every run of callbacks and reads: the bytes delivered, followed by those still in the
      chain from the read offset on, are the bytes received; the window is credited with exactly the
      bytes delivered. */
  lemma {:induction false} StreamIsPreserved(c: Conn, steps: seq<Step>)
    requires Sound(c) && forall s :: s in steps ==> Possible(s)
    ensures Sound(AfterSteps(c, steps))
    decreases |steps|
  {
    if steps != [] {
      var s := steps[0];
      assert s in steps;
      if c.state >= 0 && s.Event? {
        EventKeeps(c, s.e);
      } else if c.state >= 0 && c.chain != [] {
        ReadKeeps(c, s.len);
      }
      StreamIsPreserved(AfterStep(c, s), steps[1..]);
    }
  }

  // ---- what a failure costs ----

  /** Every byte received is delivered or can still be read. */
  ghost predicate Whole(c: Conn) {
    c.delivered + Unread(c) == c.received
  }
  /** A failure loses something exactly if something is unread when it comes. */
  lemma FailureLoses(c: Conn, err: int)
    requires Sound(c) && c.state >= 0 && err < 0
    ensures Whole(OnEvent(c, Failed(err))) <==> Unread(c) == []
  {
    assert |c.received| == |c.delivered| + |Unread(c)|;
    assert Unread(OnEvent(c, Failed(err))) == [];
    assert c.delivered + [] == c.delivered;
  }
  /** Step `k` of a run is a failure that finds bytes unread. */
  ghost predicate LosesAt(c: Conn, steps: seq<Step>, k: nat)
    requires k < |steps|
  {
    var d := AfterSteps(c, steps[..k]);
    d.state >= 0 && steps[k].Event? && steps[k].e.Failed? && Unread(d) != []
  }
  lemma LosesLater(c: Conn, steps: seq<Step>, k: nat)
    requires k + 1 < |steps|
    ensures LosesAt(c, steps, k + 1) <==> LosesAt(AfterStep(c, steps[0]), steps[1..], k)
  {
    assert steps[..k + 1][1..] == steps[1..][..k];
  }
  lemma {:induction false} FrozenAfter(c: Conn, steps: seq<Step>)
    requires c.state < 0
    ensures AfterSteps(c, steps) == c
    decreases |steps|
  {
    if steps != [] {
      FrozenAfter(c, steps[1..]);
    }
  }
  /** Over every run: the stream is whole at the end if and only if no failure came while bytes were
      unread. */
  lemma {:induction false} WholeUnlessLost(c: Conn, steps: seq<Step>)
    requires Sound(c) && c.state >= 0 && forall s :: s in steps ==> Possible(s)
    ensures Whole(AfterSteps(c, steps)) <==> forall k :: 0 <= k < |steps| ==> !LosesAt(c, steps, k)
    decreases |steps|
  {
    if steps != [] {
      var s, d := steps[0], AfterStep(c, steps[0]);
      hide Sound, Whole, Unread;
      FirstLoss(c, steps);
      if d.state >= 0 {
        WholeUnlessLost(d, steps[1..]);
        forall k | 0 <= k < |steps| ensures LosesAt(c, steps, k) <==> k > 0 && LosesAt(d, steps[1..], k - 1) {
          if k > 0 {
            LosesLater(c, steps, k - 1);
          }
        }
        assert forall k :: 0 <= k < |steps[1..]| ==> LosesAt(d, steps[1..], k) == LosesAt(c, steps, k + 1);
      }
    } else {
      SoundIsWhole(c);
    }
  }
  lemma SoundIsWhole(c: Conn)
    requires Sound(c) && c.state >= 0
    ensures Whole(c)
  {}
  /** The first step: the connection goes on, or the run is decided. */
  lemma FirstLoss(c: Conn, steps: seq<Step>)
    requires Sound(c) && c.state >= 0 && steps != [] && forall s :: s in steps ==> Possible(s)
    ensures var d := AfterStep(c, steps[0]);
            && (d.state >= 0 ==> Sound(d) && !LosesAt(c, steps, 0))
            && (d.state < 0 ==> (Whole(AfterSteps(c, steps)) <==> !LosesAt(c, steps, 0))
                                && forall k :: 0 < k < |steps| ==> !LosesAt(c, steps, k))
  {
    var s, d := steps[0], AfterStep(c, steps[0]);
    assert s in steps && steps[..0] == [];
    if s.Event? {
      EventKeeps(c, s.e);
    } else if c.chain != [] {
      ReadKeeps(c, s.len);
    }
    if d.state < 0 {
      FailureLoses(c, s.e.err);
      FrozenAfter(d, steps[1..]);
      forall k | 0 < k < |steps| ensures !LosesAt(c, steps, k) {
        FrozenAfter(d, steps[..k][1..]);
      }
    }
  }
  /** A run in which bytes are lost: a packet, and a failure before it is read. */
  lemma FailureExample()
    ensures var c := Conn(CONNECTED, [], 0, [], [], 0);
            Sound(c) && !Whole(AfterSteps(c, [Step.Event(Packet([[1]])), Step.Event(Failed(-14))]))
  {
    var c := Conn(CONNECTED, [], 0, [], [], 0);
    var d := OnEvent(c, Packet([[1]]));
    assert [[1]][1..] == [] && Flat([[1]]) == [1];
    assert d.received == [1] && d.chain == [[1]];
    var steps := [Step.Event(Packet([[1]])), Step.Event(Failed(-14))];
    assert steps[1..] == [Step.Event(Failed(-14))] && steps[1..][1..] == [];
    assert AfterSteps(c, steps) == OnEvent(d, Failed(-14));
  }

  // ---- what a read answers ----

  datatype Error = EAGAIN | ETIMEDOUT | ENOTCONN | Pending(err: int)
  datatype Reply = Ok(n: nat) | Err(error: Error) | StillWaiting

  /** The answer, once there is nothing more to wait for. */
  function Answer(c: Conn, timeout: int, len: nat): Reply
    requires c.state >= 0 && c.chain != [] ==> c.offset <= |c.chain[0]|
  {
    if c.state < 0 then Err(Pending(c.state))
    else if c.chain != [] then Ok(|Portion(c, len)|)
    else if c.state == PEER_CLOSED then Ok(0)
    else if timeout == 0 then Err(EAGAIN)
    else if c.state == CONNECTED then Err(ETIMEDOUT)
    else Err(ENOTCONN)
  }
  /** For a positive request over buffers that hold something, zero means that the peer has closed
      and nothing is left. */
  lemma ZeroMeansClosed(c: Conn, timeout: int, len: nat)
    requires Sound(c) && NoEmpty(c.chain) && len > 0
    ensures Answer(c, timeout, len) == Ok(0) <==> c.state == PEER_CLOSED && Unread(c) == []
  {
    if c.state >= 0 && c.chain != [] {
      ReadKeeps(c, len);
    }
  }

  /** One turn of the waiting loop: the time it took and the callbacks that ran meanwhile. */
  datatype Poll = Poll(ms: nat, events: seq<Event>)

  function AfterPolls(c: Conn, polls: seq<Poll>): Conn
    decreases |polls|
  {
    if polls == [] then c else OnEvents(AfterPolls(c, polls[..|polls| - 1]), polls[|polls| - 1].events)
  }
  function Elapsed(polls: seq<Poll>): nat
    decreases |polls|
  {
    if polls == [] then 0 else Elapsed(polls[..|polls| - 1]) + polls[|polls| - 1].ms
  }
  ghost predicate CanHappen(es: seq<Event>) {
    && (forall i :: 0 <= i < |es| && es[i].Failed? ==> es[i].err < 0)
    && (forall i :: 0 <= i < |es| - 1 ==> !es[i].Failed?)
  }
  ghost predicate WasUp(c: Conn) {
    c.state == CONNECTED || c.state == PEER_CLOSED || c.state < 0
  }
  /** A failure is the last thing lwIP says about a connection. */
  lemma {:induction false} EventsKeep(c: Conn, es: seq<Event>)
    requires Sound(c) && c.state >= 0 && CanHappen(es)
    ensures Sound(OnEvents(c, es)) && OnEvents(c, es).delivered == c.delivered
    ensures WasUp(c) ==> WasUp(OnEvents(c, es))
    decreases |es|
  {
    if es != [] {
      EventKeeps(c, es[0]);
      if |es| > 1 {
        EventsKeep(OnEvent(c, es[0]), es[1..]);
      }
    }
  }
  ghost predicate Waiting(c: Conn) {
    c.state == CONNECTED && c.chain == []
  }

  class Socket {
    var state: int
    var chain: Chain
    var recvOffset: nat
    const timeout: int
    ghost var received: seq<Byte>
    ghost var delivered: seq<Byte>
    ghost var credited: nat
    /** What the network is going to do while the socket waits. */
    var network: seq<Poll>

    ghost function Value(): Conn
      reads this
    {
      Conn(state, chain, recvOffset, received, delivered, credited)
    }
    ghost predicate Valid()
      reads this
    {
      Sound(Value()) && forall i :: 0 <= i < |network| ==> CanHappen(network[i].events)
    }

    /** `_lwip_tcp_recv`; no packet means that the peer closed. */
    method TcpRecv(p: Event)
      requires !p.Failed?
      modifies this
      ensures Value() == OnEvent(old(Value()), p) && network == old(network)
    {
      if p.Closed? {
        state := PEER_CLOSED;
        return;
      }
      if chain == [] {
        chain := p.chain;
        assert [] + p.chain == p.chain;
      } else {
        chain := chain + p.chain;
      }
      received := received + Flat(p.chain);
    }

    /** `_lwip_tcp_error`. */
    method TcpError(err: int)
      modifies this
      ensures Value() == OnEvent(old(Value()), Failed(err)) && network == old(network)
    {
      chain := [];
      state := err;
    }

    /** `poll_sockets`: the callbacks run. */
    method PollSockets() returns (ms: nat)
      requires network != []
      modifies this
      ensures ms == old(network)[0].ms && network == old(network)[1..]
      ensures Value() == OnEvents(old(Value()), old(network)[0].events)
    {
      var events := network[0].events;
      ms, network := network[0].ms, network[1..];
      ghost var rest := network;
      while events != []
        invariant OnEvents(Value(), events) == OnEvents(old(Value()), old(network)[0].events)
        invariant network == rest
        decreases |events|
      {
        if events[0].Failed? {
          TcpError(events[0].err);
        } else {
          TcpRecv(events[0]);
        }
        events := events[1..];
      }
    }

    /** The waiting loop of `lwip_tcp_receive`: over when there is data, when the connection is no
        longer up, or when the time is up; `k` turns were taken. */
    method Wait() returns (timedOut: bool, ghost k: nat)
      requires Valid() && timeout >= -1
      modifies this
      ensures Valid() && k <= |old(network)| && network == old(network)[k..]
      ensures Value() == AfterPolls(old(Value()), old(network)[..k])
      ensures forall i :: 0 <= i < k ==> Waiting(AfterPolls(old(Value()), old(network)[..i]))
      ensures delivered == old(delivered) && (WasUp(Value()) || Value() == old(Value()))
      ensures timedOut ==> timeout != -1 && Waiting(Value()) && Elapsed(old(network)[..k]) > timeout
      ensures !timedOut && Waiting(Value()) ==> network == []
    {
      hide OnEvent, OnEvents;
      ghost var c0, polls := Value(), network;
      var elapsed := 0;
      k := 0;
      timedOut := false;
      while state == CONNECTED && chain == []
        invariant Valid() && k <= |polls| && network == polls[k..]
        invariant Value() == AfterPolls(c0, polls[..k]) && elapsed == Elapsed(polls[..k])
        invariant forall i :: 0 <= i < k ==> Waiting(AfterPolls(c0, polls[..i]))
        invariant delivered == c0.delivered && (WasUp(Value()) || Value() == c0)
        decreases |network|
      {
        if timeout != -1 && elapsed > timeout {
          timedOut := true;
          return;
        }
        if network == [] {
          return;
        }
        EventsKeep(Value(), network[0].events);
        assert polls[..k + 1][..k] == polls[..k];
        var ms := PollSockets();
        elapsed := elapsed + ms;
        k := k + 1;
      }
    }

    /** `lwip_tcp_receive`. The answer is that of the connection as it is after `k` turns of waiting,
        none unless there was nothing to read on a connection that is up; and it changes the
        connection only by the bytes it hands over, which are at the front of `buf`. */
    method Receive(buf: array<Byte>) returns (r: Reply, ghost k: nat)
      requires Valid() && timeout >= -1
      modifies this, buf
      ensures Valid() && k <= |old(network)| && network == old(network)[k..]
      ensures forall i :: 0 <= i < k ==> timeout != 0 && Waiting(AfterPolls(old(Value()), old(network)[..i]))
      ensures var c := AfterPolls(old(Value()), old(network)[..k]);
              && Sound(c)
              && r == (if r.StillWaiting? then r else Answer(c, timeout, buf.Length))
              && Value() == (if r.Ok? && c.chain != [] then Read(c, buf.Length) else c)
              && (r.StillWaiting? ==> Waiting(c) && network == [])
              && (r == Err(ETIMEDOUT) ==> timeout != -1 && Elapsed(old(network)[..k]) > timeout)
      ensures r.Ok? ==> r.n <= buf.Length && delivered == old(delivered) + buf[..r.n] && buf[r.n..] == old(buf[r.n..])
      ensures !r.Ok? ==> delivered == old(delivered) && buf[..] == old(buf[..])
    {
      k := 0;
      ghost var polls := network;
      assert polls[..0] == [];
      if state < 0 {
        return Err(Pending(state)), k;
      }
      if chain == [] {
        if timeout == 0 {
          return (if state == PEER_CLOSED then Ok(0) else Err(EAGAIN)), k;
        }
        var timedOut;
        timedOut, k := Wait();
        if timedOut {
          return Err(ETIMEDOUT), k;
        }
        if state == CONNECTED && chain == [] {
          return StillWaiting, k;
        }
        if state == PEER_CLOSED {
          if chain == [] {
            return Ok(0), k;
          }
        } else if state != CONNECTED {
          return (if state >= NEW then Err(ENOTCONN) else Err(Pending(state))), k;
        }
      }
      var n := CopyOut(buf);
      r := Ok(n);
    }

    /** The copy at the end of `lwip_tcp_receive`. */
    method CopyOut(buf: array<Byte>) returns (n: nat)
      requires Valid() && state >= 0 && chain != []
      modifies this, buf
      ensures Valid() && network == old(network)
      ensures Value() == Read(old(Value()), buf.Length)
      ensures n == |Portion(old(Value()), buf.Length)| <= buf.Length
      ensures buf[..n] == Portion(old(Value()), buf.Length) && buf[n..] == old(buf[n..])
    {
      ghost var c := Value();
      ReadKeeps(c, buf.Length);
      ReadIs(c, buf.Length);
      hide Sound, Unread, Flat, Portion, Read, Taken, CanHappen;
      var p := chain[0];
      var remaining := |p| - recvOffset;
      n := if buf.Length > remaining then remaining else buf.Length;
      Copy(buf, p, recvOffset, n);
      Advance(n);
    }
    method Advance(n: nat)
      requires chain != [] && recvOffset + n <= |chain[0]|
      modifies this
      ensures Value() == Taken(old(Value()), n)
      ensures network == old(network)
    {
      delivered := delivered + chain[0][recvOffset..recvOffset + n];
      credited := credited + n;
      var remaining := |chain[0]| - recvOffset - n;
      if remaining == 0 {
        chain := chain[1..];
        recvOffset := 0;
      } else {
        recvOffset := recvOffset + n;
      }
    }
    static method Copy(buf: array<Byte>, p: seq<Byte>, from: nat, n: nat)
      requires n <= buf.Length && from + n <= |p|
      modifies buf
      ensures buf[..n] == p[from..from + n] && buf[n..] == old(buf[n..])
    {
      for i := 0 to n
        invariant buf[..i] == p[from..from + i] && buf[n..] == old(buf[n..])
      {
        buf[i] := p[from + i];
      }
    }
  }
}
