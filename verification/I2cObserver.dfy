/** What an observer of the two wires makes of transfers, one after the other, with or without a STOP
    between them (sections 3.1.3 to 3.1.6 of NXP UM10204). */
module I2cObserver {
  import opened I2cWire
  import opened SoftI2c

  // ---- the observer ----

  /** How a message ended: with a STOP, with the START of the next, or not yet. */
  datatype End = Stopped | Restarted | Open
  datatype Message = Message(frames: seq<Frame>, end: End)
  /** The observer between two events: no START heard, or the bits since the last one. */
  datatype Ear = Deaf | Hearing(bits: seq<bool>)

  /** A START begins a message, a START or a STOP ends it. Of the clock periods heard whole frames
      count: the period in which a START or STOP is made belongs to none. */
  function Over(ear: Ear, end: End): seq<Message> {
    if ear.Deaf? then [] else [Message(Frames(ear.bits), end)]
  }
  function OnEvent(e: Event, ear: Ear): (seq<Message>, Ear) {
    match e
    case START => (Over(ear, Restarted), Hearing([]))
    case STOP => (Over(ear, Stopped), Deaf)
    case Bit(b) => ([], if ear.Deaf? then Deaf else Hearing(ear.bits + [b]))
  }
  function Listen(es: seq<Event>, ear: Ear): (seq<Message>, Ear)
    decreases |es|
  {
    if es == [] then ([], ear)
    else
      var (first, ear1) := OnEvent(es[0], ear);
      var (rest, ear2) := Listen(es[1..], ear1);
      (first + rest, ear2)
  }
  /** All the messages in what was seen. */
  function Hear(es: seq<Event>): seq<Message> {
    var (ms, ear) := Listen(es, Deaf);
    ms + Over(ear, Open)
  }
  lemma {:induction false} ListenCat(a: seq<Event>, b: seq<Event>, ear: Ear)
    ensures var (ms, ear1) := Listen(a, ear); var (ns, ear2) := Listen(b, ear1);
            Listen(a + b, ear) == (ms + ns, ear2)
    decreases |a|
  {
    hide OnEvent;
    if a == [] {
      assert a + b == b;
      assert [] + Listen(b, ear).0 == Listen(b, ear).0;
    } else {
      var (first, ear1) := OnEvent(a[0], ear);
      assert (a + b)[1..] == a[1..] + b;
      ListenCat(a[1..], b, ear1);
      var (ms, ear2) := Listen(a[1..], ear1);
      assert first + (ms + Listen(b, ear2).0) == first + ms + Listen(b, ear2).0;
    }
  }
  lemma ListenOne(e: Event, ear: Ear)
    ensures Listen([e], ear) == OnEvent(e, ear)
  {
    assert [e][1..] == [];
    assert OnEvent(e, ear).0 + [] == OnEvent(e, ear).0;
  }
  /** Clock periods are collected. */
  lemma {:induction false} ListenBits(bits: seq<bool>, had: seq<bool>)
    ensures Listen(Bits(bits), Hearing(had)) == ([], Hearing(had + bits))
    decreases |bits|
  {
    if bits == [] {
      assert had + bits == had;
    } else {
      assert Bits(bits)[1..] == Bits(bits[1..]) && Bits(bits)[0] == Bit(bits[0]);
      ListenBits(bits[1..], had + [bits[0]]);
      assert had + [bits[0]] + bits[1..] == had + bits;
      assert [] + Listen(Bits(bits)[1..], Hearing(had + [bits[0]])).0 == [];
    }
  }
  /** One clock period more makes no frame. */
  lemma ExtraBit(bits: seq<bool>, b: bool)
    requires |bits| % 9 == 0
    ensures Frames(bits + [b]) == Frames(bits)
  {
    FramesCat(bits, [b]);
    assert Frames([b]) == [] && Frames(bits) + [] == Frames(bits);
  }

  // ---- one transfer ----

  /** What is known of a completed transfer: what was asked, whether a STOP was made, and the clock
      periods in which it began and ended. */
  datatype Transfer = Transfer(read: bool, addr: nat, data: seq<Byte>, nacks: seq<bool>, stop: bool, p: nat, now: nat)

  ghost predicate Seen(t: Transfer, was: seq<Event>, seen: seq<Event>, high: bool, slave: nat -> bool) {
    Exchanged(was, seen, high, t.read, AddressByte(t.addr, t.read), t.data, t.nacks, t.stop, slave, t.p, t.now)
  }
  /** The slave keeps to its side of the protocol: it lets go of the data wire for the START and the
      STOP, while it is being sent the address and data, and for the master's acknowledges. */
  ghost predicate Polite(t: Transfer, slave: nat -> bool) {
    && slave(t.p) && (t.stop ==> slave(t.now)) && LetsGo(slave, t.p + 1)
    && (!slave(t.p + 9) && t.read ==> TalksFor(slave, t.p + 10, |t.nacks|))
    && (!slave(t.p + 9) && !t.read ==> ListensFor(slave, t.p + 10, |Offered(t.data, slave, t.p + 10)|))
  }
  /** The bytes of a transfer with their acknowledges: the address byte, and unless that is refused
      everything sent or received. */
  function FramesOf(t: Transfer, slave: nat -> bool): seq<Frame> {
    [Frame(AddressByte(t.addr, t.read), slave(t.p + 9))]
    + if slave(t.p + 9) then [] else PayloadFrames(t.read, t.data, t.nacks, slave, t.p + 10)
  }
  function PayloadFrames(read: bool, data: seq<Byte>, nacks: seq<bool>, slave: nat -> bool, p: nat): seq<Frame> {
    if read then Received(nacks, slave, p) else Sent(Offered(data, slave, p), slave, p)
  }
  /** The bits of a transfer. */
  function BitsOf(t: Transfer, slave: nat -> bool): seq<bool> {
    OnWire(Exchange(t.read, AddressByte(t.addr, t.read), t.data, t.nacks, slave, t.p + 1), slave, t.p + 1)
  }
  lemma BitsAreFrames(t: Transfer, slave: nat -> bool)
    requires Polite(t, slave)
    ensures |BitsOf(t, slave)| % 9 == 0 && Frames(BitsOf(t, slave)) == FramesOf(t, slave)
  {
    hide Frames, OnWire, LetsGo, SendLevels, SendAll, ReceiveAll, Sent, Received;
    var a := AddressByte(t.addr, t.read);
    SentFrame(a, slave, t.p + 1);
    if slave(t.p + 9) {
      assert SendLevels(a) + [] == SendLevels(a);
    } else {
      var payload := PayloadLevels(t.read, t.data, t.nacks, slave, t.p + 10);
      FramesOnWire(SendLevels(a), payload, slave, t.p + 1);
      if t.read {
        ReceivedFrames(t.nacks, slave, t.p + 10);
      } else {
        SentFrames(Offered(t.data, slave, t.p + 10), slave, t.p + 10);
      }
    }
  }
  /** The events of a transfer on a bus that was idle (`high`) or held by the transfer before. */
  function EventsOf(t: Transfer, high: bool, slave: nat -> bool): seq<Event> {
    (if high then [] else [Bit(true)]) + [START] + Bits(BitsOf(t, slave)) + if t.stop then [Bit(false), STOP] else []
  }
  lemma EventsSeen(t: Transfer, was: seq<Event>, seen: seq<Event>, high: bool, slave: nat -> bool)
    requires Seen(t, was, seen, high, slave) && Polite(t, slave)
    ensures seen == was + EventsOf(t, high, slave)
  {
    hide OnWire, Exchange, LetsGo, ListensFor, TalksFor;
  }
  /** Where the observer is after a transfer. */
  function EarAfter(t: Transfer, slave: nat -> bool): Ear {
    if t.stop then Deaf else Hearing(BitsOf(t, slave))
  }
  /** The message of a transfer, if its STOP has ended it. */
  function Finished(t: Transfer, slave: nat -> bool): seq<Message> {
    if t.stop then [Message(FramesOf(t, slave), Stopped)] else []
  }
  /** A held bus may be heard from the transfer before, or by an observer who comes late. */
  predicate EarBefore(ear: Ear, high: bool) {
    ear.Deaf? || (!high && |ear.bits| % 9 == 0)
  }
  lemma ListenTransfer(t: Transfer, high: bool, slave: nat -> bool, ear: Ear)
    requires Polite(t, slave) && EarBefore(ear, high)
    ensures Listen(EventsOf(t, high, slave), ear)
         == (Over(ear, Restarted) + Finished(t, slave), EarAfter(t, slave))
  {
    hide BitsOf, FramesOf, Polite, Frames, Bits, Listen;
    BitsAreFrames(t, slave);
    var bits := BitsOf(t, slave);
    var lead: seq<Event> := if high then [] else [Bit(true)];
    ListenStart(high, ear);
    ListenBits(bits, []);
    assert [] + bits == bits;
    ListenCat(lead + [START], Bits(bits), ear);
    assert Over(ear, Restarted) + [] == Over(ear, Restarted);
    if t.stop {
      ListenStop(bits);
      ListenCat(lead + [START] + Bits(bits), [Bit(false), STOP], ear);
    } else {
      assert lead + [START] + Bits(bits) + [] == lead + [START] + Bits(bits);
    }
  }
  lemma ListenStart(high: bool, ear: Ear)
    requires EarBefore(ear, high)
    ensures Listen((if high then [] else [Bit(true)]) + [START], ear) == (Over(ear, Restarted), Hearing([]))
  {
    ListenOne(START, ear);
    if high {
      assert [] + [START] == [START];
    } else {
      hide Frames;
      ListenOne(Bit(true), ear);
      ListenCat([Bit(true)], [START], ear);
      var ear1 := OnEvent(Bit(true), ear).1;
      ListenOne(START, ear1);
      if ear.Hearing? {
        ExtraBit(ear.bits, true);
      }
      assert [] + Over(ear1, Restarted) == Over(ear, Restarted);
    }
  }
  lemma ListenStop(bits: seq<bool>)
    requires |bits| % 9 == 0
    ensures Listen([Bit(false), STOP], Hearing(bits)) == ([Message(Frames(bits), Stopped)], Deaf)
  {
    hide Frames;
    assert [Bit(false), STOP] == [Bit(false)] + [STOP];
    ListenCat([Bit(false)], [STOP], Hearing(bits));
    ListenOne(Bit(false), Hearing(bits));
    ListenOne(STOP, Hearing(bits + [false]));
    ExtraBit(bits, false);
    assert [] + [Message(Frames(bits), Stopped)] == [Message(Frames(bits), Stopped)];
  }

  /** For every transfer, from an idle or a held bus, with or without a STOP: the observer hears one
      message, which is the address byte and all data bytes with their acknowledges. */
  lemma ObserverRecovers(t: Transfer, was: seq<Event>, seen: seq<Event>, high: bool, slave: nat -> bool)
    requires Seen(t, was, seen, high, slave) && Polite(t, slave)
    ensures |was| <= |seen| && seen[..|was|] == was
    ensures Hear(seen[|was|..]) == [Message(FramesOf(t, slave), if t.stop then Stopped else Open)]
  {
    hide Frames, Listen, EventsOf, FramesOf, Polite, BitsOf;
    EventsSeen(t, was, seen, high, slave);
    ListenTransfer(t, high, slave, Deaf);
    BitsAreFrames(t, slave);
    assert seen[|was|..] == EventsOf(t, high, slave);
  }

  // ---- runs of transfers ----

  /** Transfers one after the other: each begins on the bus the one before has left, held if that made
      no STOP. `seen` is what had been seen before the first and after each. */
  ghost predicate RunSeen(ts: seq<Transfer>, seen: seq<seq<Event>>, high: bool, slave: nat -> bool) {
    && |seen| == |ts| + 1
    && forall i :: 0 <= i < |ts| ==> Polite(ts[i], slave) && Seen(ts[i], seen[i], seen[i + 1], HighAt(ts, i, high), slave)
  }
  predicate HighAt(ts: seq<Transfer>, i: nat, high: bool)
    requires i <= |ts|
  {
    if i == 0 then high else ts[i - 1].stop
  }
  /** What there is to hear: a message for each, ended by its STOP or the START of the next. */
  function MessageAt(ts: seq<Transfer>, slave: nat -> bool, i: nat): Message
    requires i < |ts|
  {
    Message(FramesOf(ts[i], slave), if ts[i].stop then Stopped else if i + 1 < |ts| then Restarted else Open)
  }
  function Messages(ts: seq<Transfer>, slave: nat -> bool): seq<Message> {
    seq(|ts|, i requires 0 <= i < |ts| => MessageAt(ts, slave, i))
  }
  /** What has been heard to the end before transfer `k`, and where the observer is then. */
  function HeardBefore(ts: seq<Transfer>, slave: nat -> bool, k: nat): seq<Message>
    requires k <= |ts|
  {
    if k == 0 then []
    else
      HeardBefore(ts, slave, k - 1)
      + Over(EarAt(ts, slave, k - 1), Restarted)
      + Finished(ts[k - 1], slave)
  }
  function EarAt(ts: seq<Transfer>, slave: nat -> bool, k: nat): Ear
    requires k <= |ts|
  {
    if k == 0 then Deaf else EarAfter(ts[k - 1], slave)
  }
  lemma {:induction false} RunListened(ts: seq<Transfer>, seen: seq<seq<Event>>, high: bool, slave: nat -> bool, k: nat)
    requires RunSeen(ts, seen, high, slave) && k <= |ts|
    ensures |seen[0]| <= |seen[k]| && seen[k][..|seen[0]|] == seen[0]
    ensures Listen(seen[k][|seen[0]|..], Deaf) == (HeardBefore(ts, slave, k), EarAt(ts, slave, k))
    decreases k
  {
    hide *;
    RunSize(ts, seen, high, slave);
    RunStarts(seen);
    if k == 0 {
      NothingHeard(ts, slave);
    } else {
      RunListened(ts, seen, high, slave, k - 1);
      RunAt(ts, seen, high, slave, k - 1);
      EarFits(ts, slave, k - 1, high);
      ListenNext(ts[k - 1], seen[0], seen[k - 1], seen[k], HighAt(ts, k - 1, high), slave,
                 HeardBefore(ts, slave, k - 1), EarAt(ts, slave, k - 1));
      HeardNext(ts, slave, k);
    }
  }
  lemma RunSize(ts: seq<Transfer>, seen: seq<seq<Event>>, high: bool, slave: nat -> bool)
    requires RunSeen(ts, seen, high, slave)
    ensures |seen| == |ts| + 1
    ensures forall j :: 0 <= j < |ts| ==> Polite(ts[j], slave)
  {}
  lemma RunStarts(seen: seq<seq<Event>>)
    requires seen != []
    ensures seen[0][|seen[0]|..] == [] && seen[0][..|seen[0]|] == seen[0]
  {}
  lemma NothingHeard(ts: seq<Transfer>, slave: nat -> bool)
    ensures Listen([], Deaf) == (HeardBefore(ts, slave, 0), EarAt(ts, slave, 0))
  {}
  lemma RunAt(ts: seq<Transfer>, seen: seq<seq<Event>>, high: bool, slave: nat -> bool, i: nat)
    requires RunSeen(ts, seen, high, slave) && i < |ts|
    ensures |seen| == |ts| + 1 && Seen(ts[i], seen[i], seen[i + 1], HighAt(ts, i, high), slave)
    ensures forall j :: 0 <= j < |ts| ==> Polite(ts[j], slave)
  {
    hide Seen, Polite;
  }
  lemma HeardNext(ts: seq<Transfer>, slave: nat -> bool, k: nat)
    requires 0 < k <= |ts|
    ensures HeardBefore(ts, slave, k)
         == HeardBefore(ts, slave, k - 1) + Over(EarAt(ts, slave, k - 1), Restarted) + Finished(ts[k - 1], slave)
    ensures EarAt(ts, slave, k) == EarAfter(ts[k - 1], slave)
  {
    hide FramesOf, EarAfter, Frames;
  }
  /** One transfer more on what had been seen since `start`. */
  lemma ListenNext(t: Transfer, start: seq<Event>, was: seq<Event>, seen: seq<Event>, high: bool, slave: nat -> bool,
                   heard: seq<Message>, ear: Ear)
    requires |start| <= |was| && was[..|start|] == start && Listen(was[|start|..], Deaf) == (heard, ear)
    requires Seen(t, was, seen, high, slave) && Polite(t, slave) && EarBefore(ear, high)
    ensures |start| <= |seen| && seen[..|start|] == start
    ensures Listen(seen[|start|..], Deaf) == (heard + Over(ear, Restarted) + Finished(t, slave), EarAfter(t, slave))
  {
    hide Listen, EventsOf, FramesOf, Polite, Seen, EarAfter, EarBefore, Frames;
    EventsSeen(t, was, seen, high, slave);
    var es := EventsOf(t, high, slave);
    assert seen[|start|..] == was[|start|..] + es;
    ListenTransfer(t, high, slave, ear);
    ListenCat(was[|start|..], es, Deaf);
    Grouped(heard, Over(ear, Restarted), Finished(t, slave));
  }
  lemma Grouped(a: seq<Message>, b: seq<Message>, c: seq<Message>)
    ensures a + (b + c) == a + b + c
  {}
  lemma EarFits(ts: seq<Transfer>, slave: nat -> bool, k: nat, high: bool)
    requires k <= |ts| && forall i :: 0 <= i < |ts| ==> Polite(ts[i], slave)
    ensures EarBefore(EarAt(ts, slave, k), HighAt(ts, k, high))
  {
    if k > 0 {
      BitsAreFrames(ts[k - 1], slave);
    }
  }
  lemma {:induction false} HeardIsMessages(ts: seq<Transfer>, slave: nat -> bool, k: nat)
    requires k <= |ts| && forall i :: 0 <= i < |ts| ==> Polite(ts[i], slave)
    ensures HeardBefore(ts, slave, k) + Over(EarAt(ts, slave, k), if k < |ts| then Restarted else Open)
         == Messages(ts, slave)[..k]
    decreases k
  {
    hide *;
    MessagesAre(ts, slave);
    if k == 0 {
      NothingOver(ts, slave);
    } else {
      HeardIsMessages(ts, slave, k - 1);
      HeardNext(ts, slave, k);
      LastOver(ts[k - 1], slave, if k < |ts| then Restarted else Open);
      OneMore(ts, slave, k);
      Grouped(HeardBefore(ts, slave, k - 1) + Over(EarAt(ts, slave, k - 1), Restarted), Finished(ts[k - 1], slave),
              Over(EarAfter(ts[k - 1], slave), if k < |ts| then Restarted else Open));
    }
  }
  lemma MessagesAre(ts: seq<Transfer>, slave: nat -> bool)
    ensures |Messages(ts, slave)| == |ts|
  {}
  lemma NothingOver(ts: seq<Transfer>, slave: nat -> bool)
    ensures forall end :: HeardBefore(ts, slave, 0) + Over(EarAt(ts, slave, 0), end) == []
    ensures Messages(ts, slave)[..0] == []
  {}
  lemma OneMore(ts: seq<Transfer>, slave: nat -> bool, k: nat)
    requires 0 < k <= |ts|
    ensures Messages(ts, slave)[..k]
         == Messages(ts, slave)[..k - 1]
            + [Message(FramesOf(ts[k - 1], slave), if ts[k - 1].stop then Stopped else if k < |ts| then Restarted else Open)]
  {
    hide FramesOf;
  }
  lemma LastOver(t: Transfer, slave: nat -> bool, end: End)
    requires Polite(t, slave)
    ensures Finished(t, slave) + Over(EarAfter(t, slave), end)
         == [Message(FramesOf(t, slave), if t.stop then Stopped else end)]
  {
    hide FramesOf, Frames, BitsOf, Polite;
    BitsAreFrames(t, slave);
  }
  /** Over every run of transfers, with or without STOPs between them, the observer hears exactly one
      message for each, in order, with all its bytes. */
  lemma RunHeard(ts: seq<Transfer>, seen: seq<seq<Event>>, high: bool, slave: nat -> bool)
    requires RunSeen(ts, seen, high, slave)
    ensures |seen[0]| <= |seen[|ts|]| && seen[|ts|][..|seen[0]|] == seen[0]
    ensures Hear(seen[|ts|][|seen[0]|..]) == Messages(ts, slave)
  {
    RunListened(ts, seen, high, slave, |ts|);
    HeardIsMessages(ts, slave, |ts|);
    assert Messages(ts, slave)[..|ts|] == Messages(ts, slave);
  }

  // ---- transfers of one buffer, and the two of `readfrom_mem` ----

  /** What one transfer of one buffer has done, and what it has left of the buffer. */
  ghost predicate Done(t: Transfer, ret: int, held: seq<Byte>, holds: seq<Byte>, slave: nat -> bool) {
    && t.nacks == Nacks(|held|, |held| > 0) && |holds| == |held|
    && (slave(t.p + 9) ==> ret == -ENODEV && t.stop && holds == held)
    && (!slave(t.p + 9) && !t.read ==> ret == Accepted(t.data, slave, t.p + 10) && holds == held)
    && (!slave(t.p + 9) && t.read ==> ret == 0 && holds == SlaveBytes(slave, t.p + 10, |held|))
  }
  /** `mp_machine_i2c_readfrom` and `mp_machine_i2c_writeto`. */
  method TransferOne(m: Master, addr: nat, buf: array<Byte>, read: bool, stop: bool) returns (ret: int, ghost t: Transfer)
    requires m.Valid() && (m.sda || !m.scl)
    modifies m, buf
    ensures m.Valid() && m.sda && (m.Patient() ==> ret != -ETIMEDOUT) && ret >= -ETIMEDOUT
    ensures t == Transfer(read, addr, old(buf[..]), t.nacks, stop || ret == -ENODEV, old(m.period), m.period)
    ensures ret >= 0 || m.Patient() ==>
              && Done(t, ret, old(buf[..]), buf[..], m.slave) && m.scl == t.stop
              && Seen(t, old(m.Seen()), m.Seen(), old(m.scl), m.slave)
    ensures !read || ret == -ENODEV ==> buf[..] == old(buf[..])
  {
    hide Exchanged, Accepted, SlaveBytes, Nacks, AllNacks, AddressByte, Hold, Delivered, Flat;
    ghost var parts := [buf[..]];
    OneBuffer(buf, parts);
    ret := m.Transfer(addr, [buf], read, stop, parts);
    OneHolds(buf, parts, m.slave, old(m.period) + 10);
    t := Transfer(read, addr, parts[0], AllNacks([buf]), stop || ret == -ENODEV, old(m.period), m.period);
  }
  lemma OneBuffer(buf: array<Byte>, parts: seq<seq<Byte>>)
    requires parts == [buf[..]]
    ensures Hold([buf], parts) && Flat(parts) == parts[0]
    ensures AllNacks([buf]) == Nacks(buf.Length, buf.Length > 0)
  {
    assert parts[..0] == [] && Flat(parts[..0]) == [];
    assert [buf][..0] == [] && Total([buf][..0]) == 0;
  }
  lemma OneHolds(buf: array<Byte>, parts: seq<seq<Byte>>, slave: nat -> bool, p: nat)
    requires |parts| == 1
    ensures Hold([buf], parts) ==> buf[..] == parts[0]
    ensures Delivered([buf], slave, p) ==> buf[..] == SlaveBytes(slave, p, buf.Length)
  {
    hide SlaveBytes;
    assert [buf][..0] == [] && Total([buf][..0]) == 0;
  }

  /** The device takes its address and every byte. */
  ghost predicate Took(t: Transfer, slave: nat -> bool) {
    !slave(t.p + 9) && Accepted(t.data, slave, t.p + 10) == |t.data|
  }
  /** What the observer hears of the two transfers. */
  ghost predicate HeardBoth(first: Transfer, second: Transfer, was: seq<Event>, seen: seq<Event>, slave: nat -> bool) {
    Polite(first, slave) && Polite(second, slave) ==>
      && |was| <= |seen| && seen[..|was|] == was
      && Hear(seen[|was|..]) == [Message(FramesOf(first, slave), if first.stop then Stopped else Restarted),
                                 Message(FramesOf(second, slave), Stopped)]
  }
  lemma TwoHeard(first: Transfer, second: Transfer, was: seq<Event>, mid: seq<Event>, seen: seq<Event>, high: bool,
                 slave: nat -> bool)
    requires Seen(first, was, mid, high, slave) && Seen(second, mid, seen, first.stop, slave) && second.stop
    ensures HeardBoth(first, second, was, seen, slave)
  {
    hide Seen, Polite, FramesOf, Hear;
    if Polite(first, slave) && Polite(second, slave) {
      RunHeard([first, second], [was, mid, seen], high, slave);
    }
  }
  /** What `read_mem` has done with the buffer, which held `held` and now holds `holds`. */
  ghost predicate MemoryRead(first: Transfer, second: Transfer, ret: int, held: seq<Byte>, holds: seq<Byte>,
                             slave: nat -> bool) {
    if Took(first, slave) then second.read && Done(second, ret, held, holds, slave)
    else
      && !second.read && second.data == [] && holds == held
      && ret == if slave(first.p + 9) then -ENODEV else Accepted(first.data, slave, first.p + 10)
  }
  lemma TwoDone(first: Transfer, second: Transfer, wrote: int, ret: int, bytes: seq<Byte>, held: seq<Byte>,
                holds: seq<Byte>, slave: nat -> bool)
    requires Done(first, wrote, bytes, bytes, slave) && !first.read && first.data == bytes
    requires first.stop == (wrote == -ENODEV)
    requires if wrote == |bytes| then second.read && Done(second, ret, held, holds, slave)
             else !second.read && second.data == [] && holds == held && ret == wrote
    ensures MemoryRead(first, second, ret, held, holds, slave) && (first.stop <==> slave(first.p + 9))
  {
    hide SlaveBytes, Nacks;
  }
  /** `read_mem`: the memory address is written without a STOP and the bytes are read in a second
      transfer; if the memory address is not taken, an empty write makes the STOP. Whatever the device
      does, the bus is idle in the end, and what is heard is the write, ended by the START of the read,
      and the read, ended by its STOP. */
  method ReadMem(m: Master, addr: nat, memaddr: array<Byte>, buf: array<Byte>)
    returns (ret: int, ghost first: Transfer, ghost second: Transfer)
    requires m.Valid() && (m.sda || !m.scl) && memaddr != buf
    modifies m, memaddr, buf
    ensures m.Valid() && m.sda && memaddr[..] == old(memaddr[..])
    ensures first.p == old(m.period) && !first.read && first.addr == addr && first.data == old(memaddr[..])
    ensures second.p == first.now && second.addr == addr && second.stop
    ensures m.Patient() ==>
              && m.scl && (first.stop <==> m.slave(first.p + 9))
              && HeardBoth(first, second, old(m.Seen()), m.Seen(), m.slave)
              && MemoryRead(first, second, ret, old(buf[..]), buf[..], m.slave)
  {
    hide *;
    ghost var was, high, held, bytes := m.Seen(), m.scl, buf[..], memaddr[..];
    ret, first := TransferOne(m, addr, memaddr, false, false);
    ghost var mid, wrote := m.Seen(), ret;
    if ret != memaddr.Length {
      var none := new Byte[0];
      var ignored;
      ignored, second := TransferOne(m, addr, none, false, true);
    } else {
      ret, second := TransferOne(m, addr, buf, true, true);
    }
    if m.Patient() {
      TwoHeard(first, second, was, mid, m.Seen(), high, m.slave);
      TwoDone(first, second, wrote, ret, bytes, held, buf[..], m.slave);
    }
  }
  /** The callers of `read_mem` look at nothing but the sign of its result. Success means that the
      buffer holds what the device sends if and only if the device took the whole memory address: if it
      took its own address but not all of that, no error is seen and the buffer is as it was. */
  lemma SuccessMeansRead(first: Transfer, second: Transfer, ret: int, held: seq<Byte>, holds: seq<Byte>,
                         slave: nat -> bool)
    requires MemoryRead(first, second, ret, held, holds, slave)
    ensures ret >= 0 <==> !slave(first.p + 9) && (Took(first, slave) ==> !slave(second.p + 9))
    ensures ret >= 0 && Took(first, slave) ==> holds == SlaveBytes(slave, second.p + 10, |held|)
    ensures ret >= 0 && !Took(first, slave) ==> holds == held && ret < |first.data|
  {
    hide SlaveBytes;
  }

  /** A device that takes its address and refuses the memory address: a success that reads nothing. */
  lemma MissedExample()
    ensures var slave := (n: nat) => n != 9;
            var first := Transfer(false, 8, [7], Nacks(1, true), false, 0, 19);
            var second := Transfer(false, 8, [], [], true, 19, 29);
            && Polite(first, slave) && !Took(first, slave)
            && forall held: seq<Byte> :: MemoryRead(first, second, 0, held, held, slave)
  {
    var slave := (n: nat) => n != 9;
    assert Accepted([7], slave, 10) == 0;
  }

  /** The address byte names a seven-bit address and the direction. */
  lemma AddressRecovered(addr: nat, read: bool)
    requires addr < 128
    ensures AddressByte(addr, read) / 2 == addr && (AddressByte(addr, read) % 2 == 1 <==> read)
  {}
  /** The last byte received, if the last buffer holds any, is the only one the master refuses. */
  lemma NackExactlyLast(bufs: seq<array<Byte>>, slave: nat -> bool, p: nat, j: nat)
    requires j < Total(bufs)
    ensures |Received(AllNacks(bufs), slave, p)| == Total(bufs)
    ensures Received(AllNacks(bufs), slave, p)[j].byte == SlaveByte(slave, p + 9 * j)
    ensures Received(AllNacks(bufs), slave, p)[j].nack <==> j == Total(bufs) - 1 && bufs[|bufs| - 1].Length > 0
  {
    hide SlaveByte;
    assert bufs != [];
  }
}
