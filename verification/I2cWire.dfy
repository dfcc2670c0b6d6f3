/** The two wires of an I2C bus as an observer sees them, and the bytes the observer makes of them
    (sections 3.1.3 to 3.1.6 of NXP UM10204). */
module I2cWire {
  import Arithmetic

  type Byte = b: int | 0 <= b < 256

  /** The levels of the clock and data wires; `true` is high. */
  datatype Wire = Wire(scl: bool, sda: bool)

  /** What an observer distinguishes: data is sampled when the clock rises, and a change of data while
      the clock is high is a START (falling) or a STOP (rising). */
  datatype Event = START | STOP | Bit(level: bool)

  function Edge(was: Wire, now: Wire): seq<Event> {
    if !was.scl && now.scl then [Bit(now.sda)]
    else if was.scl && now.scl && was.sda && !now.sda then [START]
    else if was.scl && now.scl && !was.sda && now.sda then [STOP]
    else []
  }
  function Observed(trace: seq<Wire>): seq<Event> {
    if |trace| < 2 then []
    else Observed(trace[..|trace| - 1]) + Edge(trace[|trace| - 2], trace[|trace| - 1])
  }
  lemma ObservedNext(trace: seq<Wire>, w: Wire)
    requires trace != []
    ensures Observed(trace + [w]) == Observed(trace) + Edge(trace[|trace| - 1], w)
  {
    assert (trace + [w])[..|trace|] == trace;
  }

  // ---- bytes as bits, the most significant first ----

  function Pow2(n: nat): (p: nat)
    ensures p > 0
  {
    if n == 0 then 1 else 2 * Pow2(n - 1)
  }
  function ToBits(v: nat, n: nat): (bits: seq<bool>)
    ensures |bits| == n
  {
    if n == 0 then [] else ToBits(v / 2, n - 1) + [v % 2 == 1]
  }
  function FromBits(bits: seq<bool>): (v: nat)
    ensures v < Pow2(|bits|)
  {
    if bits == [] then 0
    else 2 * FromBits(bits[..|bits| - 1]) + if bits[|bits| - 1] then 1 else 0
  }
  lemma {:induction false} BitsRoundTrip(v: nat, n: nat)
    requires v < Pow2(n)
    ensures FromBits(ToBits(v, n)) == v
  {
    if n > 0 {
      BitsRoundTrip(v / 2, n - 1);
      assert ToBits(v, n)[..n - 1] == ToBits(v / 2, n - 1);
    }
  }
  /** Bit `i` of a number, as a shift and a mask find it. */
  lemma {:induction false} BitAt(v: nat, n: nat, i: nat)
    requires i < n
    ensures ToBits(v, n)[n - 1 - i] == ((v / Pow2(i)) % 2 == 1)
  {
    if i > 0 {
      BitAt(v / 2, n - 1, i - 1);
      HalfFirst(v, Pow2(i - 1));
    }
  }
  lemma HalfFirst(v: nat, p: nat)
    requires p > 0
    ensures v / 2 / p == v / (2 * p)
  {
    var q, r := v / 2 / p, v / 2 % p;
    assert v / 2 == p * q + r;
    assert v == (2 * p) * q + (2 * r + v % 2);
    Arithmetic.DivUnique(v, 2 * p, q, 2 * r + v % 2);
  }
  // ---- bits on the wire ----

  /** The data wire is high when both ends let go of it: what the master puts out and the slave's
      level in the same clock period. Period numbers start at `q`. */
  function OnWire(master: seq<bool>, slave: nat -> bool, q: nat): (bits: seq<bool>)
    ensures |bits| == |master|
  {
    seq(|master|, i requires 0 <= i < |master| => master[i] && slave(q + i))
  }
  lemma OnWireCat(a: seq<bool>, b: seq<bool>, slave: nat -> bool, q: nat)
    ensures OnWire(a + b, slave, q) == OnWire(a, slave, q) + OnWire(b, slave, q + |a|)
  {}
  function Bits(bits: seq<bool>): (es: seq<Event>)
    ensures |es| == |bits|
  {
    seq(|bits|, i requires 0 <= i < |bits| => Bit(bits[i]))
  }
  lemma BitsCat(a: seq<bool>, b: seq<bool>)
    ensures Bits(a + b) == Bits(a) + Bits(b)
  {}

  /** What the master puts out to send a byte: its bits, then it lets go for the acknowledge. */
  function SendLevels(v: Byte): (m: seq<bool>)
    ensures |m| == 9
  {
    ToBits(v, 8) + [true]
  }
  /** What the master puts out to receive a byte: it lets go for the bits, then acknowledges or not. */
  function ReceiveLevels(nack: bool): (m: seq<bool>)
    ensures |m| == 9
  {
    [true, true, true, true, true, true, true, true, nack]
  }
  function SendAll(data: seq<Byte>): (m: seq<bool>)
    ensures |m| == 9 * |data|
  {
    if data == [] then [] else SendAll(data[..|data| - 1]) + SendLevels(data[|data| - 1])
  }
  function ReceiveAll(nacks: seq<bool>): (m: seq<bool>)
    ensures |m| == 9 * |nacks|
  {
    if nacks == [] then [] else ReceiveAll(nacks[..|nacks| - 1]) + ReceiveLevels(nacks[|nacks| - 1])
  }

  // ---- the observer's bytes ----

  /** Nine clock periods: a byte and whether it was refused (the data wire left high). */
  datatype Frame = Frame(byte: nat, nack: bool)

  /** Whole frames only: the clock period in which a START or STOP is made belongs to none. */
  function Frames(bits: seq<bool>): seq<Frame> {
    if |bits| < 9 then [] else [Frame(FromBits(bits[..8]), bits[8])] + Frames(bits[9..])
  }
  lemma {:induction false} FramesCat(a: seq<bool>, b: seq<bool>)
    requires |a| % 9 == 0
    ensures Frames(a + b) == Frames(a) + Frames(b)
  {
    if a == [] {
      assert a + b == b;
    } else {
      assert |a| >= 9;
      assert (a + b)[9..] == a[9..] + b;
      assert (a + b)[..8] == a[..8];
      FramesCat(a[9..], b);
    }
  }

  lemma FramesOnWire(a: seq<bool>, b: seq<bool>, slave: nat -> bool, q: nat)
    requires |a| % 9 == 0
    ensures Frames(OnWire(a + b, slave, q)) == Frames(OnWire(a, slave, q)) + Frames(OnWire(b, slave, q + |a|))
  {
    OnWireCat(a, b, slave, q);
    FramesCat(OnWire(a, slave, q), OnWire(b, slave, q + |a|));
  }

  /** The slave lets go of the data wire in the eight periods from `q`. */
  ghost predicate LetsGo(slave: nat -> bool, q: nat) {
    forall k :: q <= k < q + 8 ==> slave(k)
  }
  /** The slave lets go of the data wire while the master sends `n` bytes from period `q` on. */
  ghost predicate ListensFor(slave: nat -> bool, q: nat, n: nat) {
    forall j :: 0 <= j < n ==> LetsGo(slave, q + 9 * j)
  }
  /** The slave lets go of the data wire for the master's acknowledge of `n` bytes. */
  ghost predicate TalksFor(slave: nat -> bool, q: nat, n: nat) {
    forall j :: 0 <= j < n ==> slave(q + 9 * j + 8)
  }
  /** The byte a slave puts on the wire in the eight periods from `q`. */
  function SlaveByte(slave: nat -> bool, q: nat): (b: Byte) {
    var bits := seq(8, i requires i >= 0 => slave(q + i));
    assert Pow2(8) == 256;
    FromBits(bits)
  }

  /** The observer recovers a byte sent by the master, and sees the slave's acknowledge. */
  lemma SentFrame(v: Byte, slave: nat -> bool, q: nat)
    requires LetsGo(slave, q)
    ensures Frames(OnWire(SendLevels(v), slave, q)) == [Frame(v, slave(q + 8))]
  {
    var bits := OnWire(SendLevels(v), slave, q);
    forall i | 0 <= i < 8 ensures bits[i] == ToBits(v, 8)[i] {
      assert slave(q + i);
    }
    assert bits[..8] == ToBits(v, 8);
    assert Pow2(8) == 256;
    BitsRoundTrip(v, 8);
    assert Frames(bits[9..]) == [];
  }
  lemma ReceivedFrame(nack: bool, slave: nat -> bool, q: nat)
    requires slave(q + 8)
    ensures Frames(OnWire(ReceiveLevels(nack), slave, q)) == [Frame(SlaveByte(slave, q), nack)]
  {
    var bits := OnWire(ReceiveLevels(nack), slave, q);
    assert bits[..8] == seq(8, i requires i >= 0 => slave(q + i));
    assert Frames(bits[9..]) == [];
  }
  function Sent(data: seq<Byte>, slave: nat -> bool, q: nat): seq<Frame> {
    seq(|data|, j requires 0 <= j < |data| => Frame(data[j], slave(q + 9 * j + 8)))
  }
  function Received(nacks: seq<bool>, slave: nat -> bool, q: nat): seq<Frame> {
    seq(|nacks|, j requires 0 <= j < |nacks| => Frame(SlaveByte(slave, q + 9 * j), nacks[j]))
  }
  lemma SentNext(data: seq<Byte>, slave: nat -> bool, q: nat)
    requires data != []
    ensures var n := |data| - 1;
            Sent(data, slave, q) == Sent(data[..n], slave, q) + [Frame(data[n], slave(q + 9 * n + 8))]
  {}
  lemma ReceivedNext(nacks: seq<bool>, slave: nat -> bool, q: nat)
    requires nacks != []
    ensures var n := |nacks| - 1;
            Received(nacks, slave, q) == Received(nacks[..n], slave, q) + [Frame(SlaveByte(slave, q + 9 * n), nacks[n])]
  {
    hide SlaveByte;
  }
  lemma SentNone(slave: nat -> bool, q: nat)
    ensures Frames(OnWire(SendAll([]), slave, q)) == Sent([], slave, q)
  {}
  lemma ReceivedNone(slave: nat -> bool, q: nat)
    ensures Frames(OnWire(ReceiveAll([]), slave, q)) == Received([], slave, q)
  {}
  lemma SendAllNext(data: seq<Byte>)
    requires data != []
    ensures SendAll(data) == SendAll(data[..|data| - 1]) + SendLevels(data[|data| - 1])
  {}
  lemma ReceiveAllNext(nacks: seq<bool>)
    requires nacks != []
    ensures ReceiveAll(nacks) == ReceiveAll(nacks[..|nacks| - 1]) + ReceiveLevels(nacks[|nacks| - 1])
  {}
  lemma ListensLess(slave: nat -> bool, q: nat, n: nat)
    requires ListensFor(slave, q, n + 1)
    ensures ListensFor(slave, q, n) && LetsGo(slave, q + 9 * n)
  {}
  lemma TalksLess(slave: nat -> bool, q: nat, n: nat)
    requires TalksFor(slave, q, n + 1)
    ensures TalksFor(slave, q, n) && slave(q + 9 * n + 8)
  {}
  /** The observer recovers all the bytes the master sends, and which of them were refused. */
  lemma {:induction false} SentFrames(data: seq<Byte>, slave: nat -> bool, q: nat)
    requires ListensFor(slave, q, |data|)
    ensures Frames(OnWire(SendAll(data), slave, q)) == Sent(data, slave, q)
  {
    hide *;
    if data == [] {
      SentNone(slave, q);
    } else {
      var n := |data| - 1;
      ListensLess(slave, q, n);
      SendAllNext(data);
      SentNext(data, slave, q);
      SentFrames(data[..n], slave, q);
      var q' := q + 9 * n;
      SentFrame(data[n], slave, q');
      FramesOnWire(SendAll(data[..n]), SendLevels(data[n]), slave, q);
    }
  }
  /** The observer recovers all the bytes the slave sends, and which of them the master refused. */
  lemma {:induction false} ReceivedFrames(nacks: seq<bool>, slave: nat -> bool, q: nat)
    requires TalksFor(slave, q, |nacks|)
    ensures Frames(OnWire(ReceiveAll(nacks), slave, q)) == Received(nacks, slave, q)
  {
    hide *;
    if nacks == [] {
      ReceivedNone(slave, q);
    } else {
      var n := |nacks| - 1;
      TalksLess(slave, q, n);
      ReceiveAllNext(nacks);
      ReceivedNext(nacks, slave, q);
      ReceivedFrames(nacks[..n], slave, q);
      var q' := q + 9 * n;
      ReceivedFrame(nacks[n], slave, q');
      FramesOnWire(ReceiveAll(nacks[..n]), ReceiveLevels(nacks[n]), slave, q);
    }
  }
}
