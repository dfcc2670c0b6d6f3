/** The bit-banged I2C master: what its pin operations put on the two wires. */
module SoftI2c {
  import opened I2cWire

  const ETIMEDOUT := 110
  const ENODEV := 19

  /** The events of a run of clock periods from period `q` on. */
  function Line(master: seq<bool>, slave: nat -> bool, q: nat): (es: seq<Event>)
    ensures |es| == |master|
  {
    Bits(OnWire(master, slave, q))
  }
  lemma LineCat(a: seq<bool>, b: seq<bool>, slave: nat -> bool, q: nat)
    ensures Line(a + b, slave, q) == Line(a, slave, q) + Line(b, slave, q + |a|)
  {
    OnWireCat(a, b, slave, q);
    BitsCat(OnWire(a, slave, q), OnWire(b, slave, q + |a|));
  }
  lemma LineNext(m: seq<bool>, k: nat, slave: nat -> bool, q: nat)
    requires k < |m|
    ensures Line(m[..k + 1], slave, q) == Line(m[..k], slave, q) + [Bit(m[k] && slave(q + k))]
  {
    assert m[..k + 1] == m[..k] + [m[k]];
    LineCat(m[..k], [m[k]], slave, q);
  }

  /** What was seen has grown by `es`. */
  ghost predicate Grew(was: seq<Event>, now: seq<Event>, es: seq<Event>) {
    now == was + es
  }
  lemma GrewOn(a: seq<Event>, b: seq<Event>, c: seq<Event>, es: seq<Event>, more: seq<Event>)
    requires Grew(a, b, es) && Grew(b, c, more)
    ensures Grew(a, c, es + more)
  {
    assert a + es + more == a + (es + more);
  }
  lemma GrewNot(a: seq<Event>)
    ensures Grew(a, a, [])
  {
    assert a + [] == a;
  }

  class Master {
    /** The clock wire and the master's own output on the data wire; `true` is high or let go. */
    var scl: bool
    var sda: bool
    /** How often the clock has fallen, which is the number of the clock period the bus is in. */
    var period: nat
    var releases: nat
    const usTimeout: nat
    /** The slave's level on the data wire in each clock period: it changes only after the clock has
        fallen. And how long it holds the clock down after each release. */
    const slave: nat -> bool
    const stretch: nat -> nat
    ghost var trace: seq<Wire>

    ghost predicate Valid()
      reads this
    {
      trace != [] && trace[|trace| - 1] == Wire(scl, sda && slave(period))
    }
    ghost function Seen(): seq<Event>
      reads this
    {
      Observed(trace)
    }
    /** The slave never holds the clock down for as long as the timeout. */
    ghost predicate Patient()
    {
      usTimeout > 0 && forall r :: stretch(r) < usTimeout
    }

    constructor (slave: nat -> bool, stretch: nat -> nat, usTimeout: nat)
      ensures Valid() && scl && sda && Seen() == []
      ensures this.slave == slave && this.stretch == stretch && this.usTimeout == usTimeout
    {
      this.slave, this.stretch, this.usTimeout := slave, stretch, usTimeout;
      scl, sda, period, releases := true, true, 0, 0;
      trace := [Wire(true, slave(0))];
    }

    // ---- pins ----

    /** Pull the data wire down or let it go. */
    method SetSda(level: bool)
      requires Valid()
      modifies this`sda, this`trace
      ensures Valid() && sda == level
      ensures Seen() == if scl && slave(period) && level != old(sda)
                        then old(Seen()) + [if level then STOP else START] else old(Seen())
    {
      ObservedNext(trace, Wire(scl, level && slave(period)));
      sda := level;
      trace := trace + [Wire(scl, sda && slave(period))];
    }

    /** Pull the clock down; the slave then puts out its next level. */
    method SclLow()
      requires Valid()
      modifies this`scl, this`period, this`trace
      ensures Valid() && !scl && period == old(period) + (if old(scl) then 1 else 0)
      ensures Seen() == old(Seen())
    {
      if scl {
        var fallen := Wire(false, sda && slave(period));
        ObservedNext(trace, fallen);
        ObservedNext(trace + [fallen], Wire(false, sda && slave(period + 1)));
        scl, period := false, period + 1;
        trace := trace + [fallen] + [Wire(false, sda && slave(period))];
      }
    }

    /** Let the clock go and wait until it is high: the data wire is sampled then. */
    method SclRelease() returns (ret: int)
      requires Valid()
      modifies this`scl, this`releases, this`trace
      ensures Valid() && (ret == 0 || ret == -ETIMEDOUT)
      ensures Patient() ==> ret == 0
      ensures ret == 0 ==> scl && Seen() == if old(scl) then old(Seen()) else old(Seen()) + [Bit(sda && slave(period))]
    {
      var high, count := WaitHigh();
      if high && !scl {
        Rise();
      }
      releases := releases + 1;
      return if count == 0 then -ETIMEDOUT else 0;
    }
    /** Poll the clock, once per microsecond, until it is high or the time is up. */
    method WaitHigh() returns (high: bool, count: nat)
      ensures Patient() ==> count > 0
      ensures count > 0 || scl ==> high
    {
      count := usTimeout;
      var waited := 0;
      while !(scl || stretch(releases) <= waited) && count > 0
        invariant count + waited == usTimeout
        invariant waited > 0 ==> waited <= stretch(releases)
        decreases count
      {
        count, waited := count - 1, waited + 1;
      }
      high := scl || stretch(releases) <= waited;
    }
    method Rise()
      requires Valid() && !scl
      modifies this`scl, this`trace
      ensures Valid() && scl && Seen() == old(Seen()) + [Bit(sda && slave(period))]
    {
      ObservedNext(trace, Wire(true, sda && slave(period)));
      scl := true;
      trace := trace + [Wire(true, sda && slave(period))];
    }

    // ---- bits and bytes ----

    method Start() returns (ret: int)
      requires Valid() && (sda || !scl)
      modifies this
      ensures ret != 0 ==> sda
      ensures Valid() && (ret == 0 || ret == -ETIMEDOUT) && (Patient() ==> ret == 0)
      ensures ret == 0 ==> scl && !sda && period == old(period)
                           && Grew(old(Seen()), Seen(), Opening(old(scl), slave, period))
    {
      hide Valid, Seen, Patient;
      SetSda(true);
      ret := SclRelease();
      if ret != 0 {
        return;
      }
      SetSda(false);
    }

    method Stop() returns (ret: int)
      requires Valid() && !scl
      modifies this
      ensures sda
      ensures Valid() && (ret == 0 || ret == -ETIMEDOUT) && (Patient() ==> ret == 0)
      ensures ret == 0 ==> scl && sda && period == old(period)
                           && Grew(old(Seen()), Seen(), Closing(slave, period))
    {
      hide Valid, Seen, Patient;
      SetSda(false);
      ret := SclRelease();
      SetSda(true);
    }

    /** One clock period up to the sampling of the data wire. */
    method Clock(level: bool) returns (ret: int)
      requires Valid() && !scl
      modifies this
      ensures sda == level
      ensures Valid() && (ret == 0 || ret == -ETIMEDOUT) && (Patient() ==> ret == 0)
      ensures ret == 0 ==> scl && sda == level && period == old(period)
                           && Grew(old(Seen()), Seen(), [Bit(level && slave(period))])
    {
      hide Valid, Seen, Patient;
      SetSda(level);
      ret := SclRelease();
    }

    method WriteBit(level: bool) returns (ret: int)
      requires Valid() && !scl
      modifies this
      ensures ret != 0 ==> sda
      ensures Valid() && (ret == 0 || ret == -ETIMEDOUT) && (Patient() ==> ret == 0)
      ensures ret == 0 ==> !scl && period == old(period) + 1
                           && Grew(old(Seen()), Seen(), [Bit(level && slave(old(period)))])
    {
      hide *;
      ret := Clock(level);
      if ret != 0 {
        SetSda(true);
        return;
      }
      SclLow();
    }

    method ReadBit() returns (ret: int, level: bool)
      requires Valid() && !scl && sda
      modifies this
      ensures sda
      ensures Valid() && (ret == 0 || ret == -ETIMEDOUT) && (Patient() ==> ret == 0)
      ensures ret == 0 ==> !scl && sda && period == old(period) + 1 && level == slave(old(period))
                           && Grew(old(Seen()), Seen(), [Bit(level)])
    {
      hide Valid, Seen, Patient;
      ret := SclRelease();
      level := sda && slave(period);
      if ret == 0 {
        SclLow();
      }
    }

    /** The period in which the next bit will be put out. */
    ghost function Next(): nat
      reads this
    {
      period + if scl then 1 else 0
    }

    method WriteByte(val: Byte) returns (ret: int)
      requires Valid()
      modifies this
      ensures ret < 0 ==> sda
      ensures Valid() && ret >= -ETIMEDOUT && (ret < 0 ==> ret == -ETIMEDOUT) && (Patient() ==> ret >= 0)
      ensures ret >= 0 ==> !scl && sda && period == old(Next()) + 9
                           && Grew(old(Seen()), Seen(), Line(SendLevels(val), slave, old(Next())))
                           && ret == if slave(old(Next()) + 8) then 1 else 0
    {
      ghost var q, m := Next(), SendLevels(val);
      LineNext(m, 8, slave, q);
      assert m[..9] == m && m[..8] == ToBits(val, 8) && m[8];
      assert q == period + if scl then 1 else 0;
      hide *;
      SclLow();
      ret := WriteEight(val, q);
      if ret != 0 {
        return;
      }
      ghost var seen := Seen();
      ret := Clock(true);
      if ret != 0 {
        return;
      }
      GrewOn(old(Seen()), seen, Seen(), Line(m[..8], slave, q), [Bit(m[8] && slave(q + 8))]);
      ret := if sda && slave(period) then 1 else 0;
      SclLow();
    }
    method WriteEight(val: Byte, ghost q: nat) returns (ret: int)
      requires Valid() && !scl && period == q
      modifies this
      ensures ret != 0 ==> sda
      ensures Valid() && (ret == 0 || ret == -ETIMEDOUT) && (Patient() ==> ret == 0)
      ensures ret == 0 ==> !scl && period == q + 8 && Grew(old(Seen()), Seen(), Line(ToBits(val, 8), slave, q))
    {
      ghost var m, k := ToBits(val, 8), 0;
      assert m[..8] == m && Line(m[..0], slave, q) == [];
      GrewNot(Seen());
      hide *;
      var i: int := 7;
      while i >= 0
        invariant i == 7 - k && k <= 8 && Valid() && !scl && period == q + k
        invariant Grew(old(Seen()), Seen(), Line(m[..k], slave, q))
      {
        BitAt(val, 8, i);
        LineNext(m, k, slave, q);
        ghost var seen := Seen();
        ret := WriteBit((val / Pow2(i)) % 2 == 1);
        if ret != 0 {
          return;
        }
        GrewOn(old(Seen()), seen, Seen(), Line(m[..k], slave, q), [Bit(m[k] && slave(q + k))]);
        i, k := i - 1, k + 1;
      }
      ret := 0;
    }

    method ReadByte(nack: bool) returns (ret: int, val: Byte)
      requires Valid() && sda
      modifies this
      ensures sda
      ensures Valid() && (ret == 0 || ret == -ETIMEDOUT) && (Patient() ==> ret == 0)
      ensures ret == 0 ==> !scl && sda && period == old(Next()) + 9
                           && Grew(old(Seen()), Seen(), Line(ReceiveLevels(nack), slave, old(Next())))
                           && val == SlaveByte(slave, old(Next()))
    {
      ghost var q, m := Next(), ReceiveLevels(nack);
      assert m[..8] == EIGHT && m[..9] == m && m[8] == nack;
      LineNext(m, 8, slave, q);
      hide *;
      ret, val := ReadBits();
      if ret != 0 {
        return;
      }
      ghost var seen := Seen();
      ret := SendAck(nack);
      if ret == 0 {
        GrewOn(old(Seen()), seen, Seen(), Line(m[..8], slave, q), [Bit(m[8] && slave(q + 8))]);
      }
    }

    /** The eight data bits. */
    method ReadBits() returns (ret: int, val: Byte)
      requires Valid() && sda
      modifies this
      ensures sda
      ensures Valid() && (ret == 0 || ret == -ETIMEDOUT) && (Patient() ==> ret == 0)
      ensures ret == 0 ==> !scl && sda && period == old(Next()) + 8
                           && Grew(old(Seen()), Seen(), Line(EIGHT, slave, old(Next())))
                           && val == SlaveByte(slave, old(Next()))
    {
      ghost var q := Next();
      val := 0;
      SclLow();
      assert forall k :: 0 <= k < 8 ==> EIGHT[k];
      ret, val := ReadEight(EIGHT, q);
    }
    method ReadEight(ghost m: seq<bool>, ghost q: nat) returns (ret: int, val: Byte)
      requires Valid() && !scl && sda && period == q
      requires |m| == 8 && forall k :: 0 <= k < 8 ==> m[k]
      modifies this
      ensures sda
      ensures Valid() && (ret == 0 || ret == -ETIMEDOUT) && (Patient() ==> ret == 0)
      ensures ret == 0 ==> !scl && sda && period == q + 8
                           && Grew(old(Seen()), Seen(), Line(m, slave, q)) && val == SlaveByte(slave, q)
    {
      val := 0;
      assert m[..8] == m && Line(m[..0], slave, q) == [];
      assert SlaveBits(slave, q, 0) == [] && FromBits([]) == 0;
      SlaveBitsAll(slave, q);
      GrewNot(Seen());
      hide *;
      var data, i: int := 0, 7;
      ghost var k := 0;
      while i >= 0
        invariant i == 7 - k && k <= 8 && Valid() && !scl && sda && period == q + k
        invariant Grew(old(Seen()), Seen(), Line(m[..k], slave, q))
        invariant data == FromBits(SlaveBits(slave, q, k))
      {
        LineNext(m, k, slave, q);
        SlaveBitsNext(slave, q, k);
        ghost var seen := Seen();
        var level;
        ret, level := ReadBit();
        if ret != 0 {
          return;
        }
        GrewOn(old(Seen()), seen, Seen(), Line(m[..k], slave, q), [Bit(m[k] && slave(q + k))]);
        data := ShiftIn(data, level);
        i, k := i - 1, k + 1;
      }
      ret := 0;
      val := data;
    }

    /** The acknowledge bit, or its absence. */
    method SendAck(nack: bool) returns (ret: int)
      requires Valid() && !scl && sda
      modifies this
      ensures sda
      ensures Valid() && (ret == 0 || ret == -ETIMEDOUT) && (Patient() ==> ret == 0)
      ensures ret == 0 ==> !scl && sda && period == old(period) + 1
                           && Grew(old(Seen()), Seen(), [Bit(nack && slave(old(period)))])
    {
      hide Valid, Seen, Patient;
      if !nack {
        SetSda(false);
      }
      ret := SclRelease();
      if ret != 0 {
        SetSda(true);
        return;
      }
      SclLow();
      SetSda(true);
    }

    // ---- transfers ----

    /** The bytes of one buffer, up to and including the first that is refused. */
    method SendBuffer(data: seq<Byte>) returns (ret: int, acks: nat)
      requires Valid() && !scl && sda
      modifies this
      ensures sda
      ensures Valid() && (ret == 0 || ret == 1 || ret == -ETIMEDOUT) && (Patient() ==> ret >= 0)
      ensures ret >= 0 ==> !scl && sda && acks == Accepted(data, slave, old(period)) && (ret == 1 <==> acks < |data|)
                           && PutOut(old(Seen()), Seen(), Offered(data, slave, old(period)), slave, old(period), period)
    {
      ghost var p := period;
      acks := 0;
      PutOutNothing(Seen(), slave, p);
      assert data[..0] == [] && data[..|data|] == data;
      AllAccepted(data, slave, p);
      hide *;
      while acks < |data|
        invariant acks <= Accepted(data, slave, p) && Valid() && !scl && sda && period == p + 9 * acks
        invariant PutOut(old(Seen()), Seen(), data[..acks], slave, p, period)
      {
        AcceptedStep(data, acks, slave, p);
        ghost var seen, mid := Seen(), period;
        ret := WriteByte(data[acks]);
        if ret < 0 {
          return;
        }
        PutOutByte(old(Seen()), seen, Seen(), data, acks, slave, p, mid);
        if ret != 0 {
          return;
        }
        acks := acks + 1;
      }
      ret := 0;
    }

    method SendBuffers(bufs: seq<array<Byte>>, ghost parts: seq<seq<Byte>>) returns (ret: int, acks: nat)
      requires Valid() && !scl && sda && Hold(bufs, parts)
      modifies this
      ensures sda
      ensures Valid() && (ret == 0 || ret == -ETIMEDOUT) && (Patient() ==> ret == 0)
      ensures ret == 0 ==> !scl && sda && acks == Accepted(Flat(parts), slave, old(period))
                           && PutOut(old(Seen()), Seen(), Offered(Flat(parts), slave, old(period)), slave, old(period), period)
      ensures Hold(bufs, parts)
    {
      ghost var p := period;
      acks := 0;
      var j := 0;
      PutOutNothing(Seen(), slave, p);
      assert parts[..|parts|] == parts && |bufs| == |parts|;
      assert Flat(parts[..0]) == [] && Accepted([], slave, p) == 0;
      AllAccepted(Flat(parts), slave, p);
      hide *;
      while j < |bufs|
        invariant j <= |bufs| && Valid() && !scl && sda && Hold(bufs, parts)
        invariant acks == |Flat(parts[..j])| == Accepted(Flat(parts[..j]), slave, p)
        invariant period == p + 9 * acks && PutOut(old(Seen()), Seen(), Flat(parts[..j]), slave, p, period)
      {
        HoldAt(bufs, parts, j);
        ghost var seen, mid := Seen(), period;
        var n;
        ret, n := SendBuffer(bufs[j][..]);
        acks := acks + n;
        if ret < 0 {
          return;
        }
        PutOutOn(old(Seen()), seen, Seen(), Flat(parts[..j]), Offered(parts[j], slave, mid), slave, p, mid, period);
        if ret != 0 {
          BufferRefused(parts, j, slave, p, mid);
          ret := 0;
          return;
        }
        BufferTaken(parts, j, slave, p, mid);
        j := j + 1;
      }
      ret := 0;
    }

    method ReceiveBuffer(buf: array<Byte>, last: bool) returns (ret: int)
      requires Valid() && !scl && sda
      modifies this, buf
      ensures sda
      ensures Valid() && (ret == 0 || ret == -ETIMEDOUT) && (Patient() ==> ret == 0)
      ensures ret == 0 ==> !scl && sda && buf[..] == SlaveBytes(slave, old(period), buf.Length)
                           && TookIn(old(Seen()), Seen(), Nacks(buf.Length, last), slave, old(period), period)
    {
      hide *;
      ghost var p, nacks, want := period, Nacks(buf.Length, last), SlaveBytes(slave, period, buf.Length);
      var k := 0;
      TookInNothing(Seen(), slave, p);
      ReceiveWhole(buf.Length, last, slave, p);
      while k < buf.Length
        invariant k <= buf.Length && Valid() && !scl && sda && period == p + 9 * k
        invariant buf[..k] == want[..k]
        invariant TookIn(old(Seen()), Seen(), nacks[..k], slave, p, period)
      {
        ReceiveAt(buf.Length, last, slave, p, k);
        NextIs();
        ghost var seen := Seen();
        var val;
        ret, val := ReadByte(last && k + 1 == buf.Length);
        if ret != 0 {
          return;
        }
        TookInByte(old(Seen()), seen, Seen(), nacks, k, slave, p);
        buf[k] := val;
        k := k + 1;
      }
      ret := 0;
    }

    method ReceiveBuffers(bufs: seq<array<Byte>>) returns (ret: int)
      requires Valid() && !scl && sda
      modifies this, bufs
      ensures sda
      ensures Valid() && (ret == 0 || ret == -ETIMEDOUT) && (Patient() ==> ret == 0)
      ensures ret == 0 ==> !scl && sda && TookIn(old(Seen()), Seen(), AllNacks(bufs), slave, old(period), period)
      ensures ret == 0 ==> Delivered(bufs, slave, old(period))
    {
      ghost var p := period;
      var j := 0;
      TookInNothing(Seen(), slave, p);
      NacksSoFar(bufs);
      assert Filled(bufs, 0, slave, p);
      hide *;
      while j < |bufs|
        invariant j <= |bufs| && Valid() && !scl && sda && period == p + 9 * Total(bufs[..j])
        invariant TookIn(old(Seen()), Seen(), SomeNacks(bufs, j), slave, p, period)
        invariant Distinct(bufs) ==> Filled(bufs, j, slave, p)
      {
        ghost var seen, mid := Seen(), period;
        ret := ReceiveNext(bufs, j, p);
        if ret != 0 {
          return;
        }
        NacksOn(bufs, j);
        TookInOn(old(Seen()), seen, Seen(), SomeNacks(bufs, j), Nacks(bufs[j].Length, j == |bufs| - 1), slave, p, mid, period);
        TookInTo(seen, Seen(), Nacks(bufs[j].Length, j == |bufs| - 1), slave, mid, period);
        j := j + 1;
      }
      ret := 0;
    }

    /** Buffer `j`; the ones before it stay filled if no two are the same. */
    method ReceiveNext(bufs: seq<array<Byte>>, j: nat, ghost p: nat) returns (ret: int)
      requires Valid() && !scl && sda && j < |bufs| && period == p + 9 * Total(bufs[..j])
      requires Distinct(bufs) ==> Filled(bufs, j, slave, p)
      modifies this, bufs[j]
      ensures sda
      ensures Valid() && (ret == 0 || ret == -ETIMEDOUT) && (Patient() ==> ret == 0)
      ensures ret == 0 ==> !scl && sda
                           && TookIn(old(Seen()), Seen(), Nacks(bufs[j].Length, j == |bufs| - 1), slave, old(period), period)
      ensures ret == 0 && Distinct(bufs) ==> Filled(bufs, j + 1, slave, p)
    {
      hide SlaveBytes, Total, TookIn, Nacks, Valid, Seen, Patient;
      ret := ReceiveBuffer(bufs[j], j == |bufs| - 1);
    }

    /** The part of a transfer after an accepted address. */
    method Payload(bufs: seq<array<Byte>>, read: bool, stop: bool, ghost parts: seq<seq<Byte>>, ghost data: seq<Byte>)
      returns (ret: int)
      requires Valid() && !scl && sda && Hold(bufs, parts) && data == Flat(parts)
      modifies this, bufs
      ensures !read ==> Hold(bufs, parts)
      ensures sda
      ensures Valid() && (ret >= 0 || ret == -ETIMEDOUT) && (Patient() ==> ret >= 0)
      ensures ret >= 0 ==> sda && scl == stop
                           && PayloadSeen(old(Seen()), Seen(), read, data, AllNacks(bufs), stop, slave, old(period), period)
      ensures ret >= 0 ==> ret == if read then 0 else Accepted(data, slave, old(period))
      ensures ret >= 0 && read ==> Delivered(bufs, slave, old(period))
    {
      assert ETIMEDOUT == 110 && ENODEV == 19;
      hide *;
      var transferRet := 0;
      ghost var p, was, nacks := period, Seen(), AllNacks(bufs);
      if read {
        ret := ReceiveBuffers(bufs);
      } else {
        ret, transferRet := SendBuffers(bufs, parts);
      }
      if ret != 0 {
        return;
      }
      PayloadDone(was, Seen(), read, data, nacks, slave, p, period);
      ghost var seen := Seen();
      if stop {
        ret := FinalStop(bufs, p, parts);
        if ret != 0 {
          return;
        }
      }
      if stop {
        PayloadStopped(was, seen, Seen(), read, data, nacks, slave, p, period);
      }
      ret := transferRet;
    }

    /** `mp_machine_soft_i2c_transfer`. Unless the slave holds the clock down too long, the wires show
        a START, the address byte, the bytes offered or received with their acknowledges, and a STOP if
        it was asked for or the address was refused; and nothing else. `parts` is what the buffers hold. */
    method Transfer(addr: nat, bufs: seq<array<Byte>>, read: bool, stop: bool, ghost parts: seq<seq<Byte>>)
      returns (ret: int)
      requires Valid() && (sda || !scl) && Hold(bufs, parts)
      modifies this, bufs
      ensures !read || ret == -ENODEV ==> Hold(bufs, parts)
      ensures sda
      ensures Valid() && (ret >= 0 || ret == -ETIMEDOUT || ret == -ENODEV) && (Patient() ==> ret != -ETIMEDOUT)
      ensures ret >= 0 || Patient() ==>
                && (ret == -ENODEV <==> slave(old(period) + 9))
                && sda && scl == (stop || ret == -ENODEV)
                && Exchanged(old(Seen()), Seen(), old(scl), read, AddressByte(addr, read), Flat(parts),
                             AllNacks(bufs), stop || ret == -ENODEV, slave, old(period), period)
      ensures ret >= 0 ==> ret == if read then 0 else Accepted(Flat(parts), slave, old(period) + 10)
      ensures ret >= 0 && read ==> Delivered(bufs, slave, old(period) + 10)
    {
      assert ETIMEDOUT == 110 && ENODEV == 19;
      hide *;
      ghost var p, a, nacks := period, AddressByte(addr, read), AllNacks(bufs);
      ghost var was, high := Seen(), scl;
      ret := Address(addr, read, bufs, parts);
      if ret >= 0 {
        ret := Follow(ret != 0, was, high, read, stop, a, bufs, parts, nacks, p);
      }
    }

    /** What follows the address byte. */
    method Follow(refused: bool, ghost was: seq<Event>, ghost high: bool, read: bool, stop: bool, ghost a: Byte,
                  bufs: seq<array<Byte>>, ghost parts: seq<seq<Byte>>, ghost nacks: seq<bool>, ghost p: nat)
      returns (ret: int)
      requires Valid() && !scl && sda && period == p + 10 && Hold(bufs, parts) && nacks == AllNacks(bufs)
      requires Opened(was, Seen(), high, a, slave, p) && refused == slave(p + 9)
      modifies this, bufs
      ensures Valid() && sda && (ret >= 0 || ret == -ETIMEDOUT || ret == -ENODEV) && (Patient() ==> ret != -ETIMEDOUT)
      ensures !read || ret == -ENODEV ==> Hold(bufs, parts)
      ensures ret >= 0 || Patient() ==>
                && (ret == -ENODEV <==> slave(p + 9)) && scl == (stop || ret == -ENODEV)
                && Exchanged(was, Seen(), high, read, a, Flat(parts), nacks, stop || ret == -ENODEV, slave, p, period)
      ensures ret >= 0 ==> ret == if read then 0 else Accepted(Flat(parts), slave, p + 10)
      ensures ret >= 0 && read ==> Delivered(bufs, slave, p + 10)
    {
      assert ETIMEDOUT == 110 && ENODEV == 19;
      hide *;
      if refused {
        GiveUp(was, high, read, a, bufs, parts, Flat(parts), nacks, p);
        ret := -ENODEV;
      } else {
        ret := GoOn(was, high, read, stop, a, bufs, parts, nacks, p);
      }
    }

    /** The address was taken: the bytes follow. */
    method GoOn(ghost was: seq<Event>, ghost high: bool, read: bool, stop: bool, ghost a: Byte, bufs: seq<array<Byte>>,
                ghost parts: seq<seq<Byte>>, ghost nacks: seq<bool>, ghost p: nat) returns (ret: int)
      requires Valid() && !scl && sda && !slave(p + 9) && period == p + 10 && Hold(bufs, parts) && nacks == AllNacks(bufs)
      requires Opened(was, Seen(), high, a, slave, p)
      modifies this, bufs
      ensures Valid() && sda && (ret >= 0 || ret == -ETIMEDOUT) && (Patient() ==> ret >= 0)
      ensures !read ==> Hold(bufs, parts)
      ensures ret >= 0 ==> scl == stop && ret == if read then 0 else Accepted(Flat(parts), slave, p + 10)
      ensures ret >= 0 ==> Exchanged(was, Seen(), high, read, a, Flat(parts), nacks, stop, slave, p, period)
      ensures ret >= 0 && read ==> Delivered(bufs, slave, p + 10)
    {
      hide *;
      ghost var seen, data := Seen(), Flat(parts);
      ret := Payload(bufs, read, stop, parts, data);
      if ret >= 0 {
        Answered(was, seen, Seen(), high, read, a, data, nacks, stop, slave, p, period);
      }
    }

    /** The address was refused: the bus is released, and what stop says is not looked at. */
    method GiveUp(ghost was: seq<Event>, ghost high: bool, ghost read: bool, ghost a: Byte, ghost bufs: seq<array<Byte>>,
                  ghost parts: seq<seq<Byte>>, ghost data: seq<Byte>, ghost nacks: seq<bool>, ghost p: nat)
      requires Valid() && !scl && slave(p + 9) && period == p + 10 && Hold(bufs, parts)
      requires Opened(was, Seen(), high, a, slave, p)
      modifies this
      ensures Valid() && sda && Hold(bufs, parts)
      ensures Patient() ==> scl && Exchanged(was, Seen(), high, read, a, data, nacks, true, slave, p, period)
    {
      hide *;
      ghost var seen := Seen();
      var stopped := Stop();
      if stopped == 0 {
        Refused(was, seen, Seen(), high, read, a, data, nacks, slave, p);
      }
    }

    /** The START and the address byte; the buffers are not touched. */
    method Address(addr: nat, read: bool, ghost bufs: seq<array<Byte>>, ghost parts: seq<seq<Byte>>) returns (ret: int)
      requires Valid() && (sda || !scl) && Hold(bufs, parts)
      modifies this
      ensures Hold(bufs, parts)
      ensures ret < 0 ==> sda
      ensures Valid() && ret >= -ETIMEDOUT && (ret < 0 ==> ret == -ETIMEDOUT) && (Patient() ==> ret >= 0)
      ensures ret >= 0 ==> !scl && sda && ret == (if slave(old(period) + 9) then 1 else 0) && period == old(period) + 10
                           && Opened(old(Seen()), Seen(), old(scl), AddressByte(addr, read), slave, old(period))
    {
      assert ETIMEDOUT == 110;
      hide *;
      ghost var was, high := Seen(), scl;
      ret := Start();
      if ret != 0 {
        return;
      }
      ghost var seen := Seen();
      NextIs();
      ret := WriteByte(AddressByte(addr, read));
      if ret >= 0 {
        OpenedBy(was, seen, Seen(), high, AddressByte(addr, read), slave, old(period));
      }
    }

    lemma NextIs()
      ensures Next() == period + if scl then 1 else 0
    {}
    /** STOP does not touch the buffers. */
    method FinalStop(bufs: seq<array<Byte>>, ghost p: nat, ghost parts: seq<seq<Byte>>) returns (ret: int)
      requires Valid() && !scl
      modifies this
      ensures old(Hold(bufs, parts)) ==> Hold(bufs, parts)
      ensures old(Delivered(bufs, slave, p)) ==> Delivered(bufs, slave, p)
      ensures sda
      ensures Valid() && (ret == 0 || ret == -ETIMEDOUT) && (Patient() ==> ret == 0)
      ensures ret == 0 ==> scl && sda && period == old(period) && Grew(old(Seen()), Seen(), Closing(slave, period))
    {
      hide *;
      ret := Stop();
    }
  }

  // ---- the bytes of a transfer ----

  ghost predicate Hold(bufs: seq<array<Byte>>, parts: seq<seq<Byte>>)
    reads bufs
  {
    |bufs| == |parts| && forall i :: 0 <= i < |bufs| ==> bufs[i][..] == parts[i]
  }
  lemma HoldAt(bufs: seq<array<Byte>>, parts: seq<seq<Byte>>, j: nat)
    requires Hold(bufs, parts) && j < |bufs|
    ensures bufs[j][..] == parts[j]
  {}
  function Flat(parts: seq<seq<Byte>>): seq<Byte> {
    if parts == [] then [] else Flat(parts[..|parts| - 1]) + parts[|parts| - 1]
  }
  lemma FlatNext(parts: seq<seq<Byte>>, j: nat)
    requires j < |parts|
    ensures Flat(parts[..j + 1]) == Flat(parts[..j]) + parts[j]
  {
    assert parts[..j + 1][..j] == parts[..j];
  }
  lemma {:induction false} FlatSplit(parts: seq<seq<Byte>>, j: nat)
    requires j <= |parts|
    ensures Flat(parts) == Flat(parts[..j]) + Flat(parts[j..])
  {
    var n := |parts| - 1;
    if j <= n {
      FlatSplit(parts[..n], j);
      assert parts[..n][..j] == parts[..j] && parts[..n][j..] == parts[j..][..n - j];
    } else {
      assert parts[..j] == parts;
    }
  }

  /** How many bytes the slave takes before it refuses one. */
  function Accepted(data: seq<Byte>, slave: nat -> bool, q: nat): (n: nat)
    ensures n <= |data|
  {
    if data == [] || slave(q + 8) then 0 else 1 + Accepted(data[1..], slave, q + 9)
  }
  /** Those that are put on the wire: the accepted ones and the one that is refused. */
  function Offered(data: seq<Byte>, slave: nat -> bool, q: nat): seq<Byte> {
    var n := Accepted(data, slave, q);
    if n < |data| then data[..n + 1] else data
  }
  lemma AcceptedCat(a: seq<Byte>, b: seq<Byte>, slave: nat -> bool, q: nat)
    ensures var n := Accepted(a, slave, q);
            && (n < |a| ==> Accepted(a + b, slave, q) == n && Offered(a + b, slave, q) == Offered(a, slave, q))
            && (n == |a| ==> Accepted(a + b, slave, q) == n + Accepted(b, slave, q + 9 * n)
                             && Offered(a + b, slave, q) == a + Offered(b, slave, q + 9 * n))
  {
    AcceptedMore(a, b, slave, q);
    hide Accepted;
    var n := Accepted(a, slave, q);
    if n < |a| {
      assert (a + b)[..n + 1] == a[..n + 1];
    } else {
      var k := Accepted(b, slave, q + 9 * n);
      if k < |b| {
        assert (a + b)[..n + k + 1] == a + b[..k + 1];
      }
    }
  }
  lemma {:induction false} AcceptedMore(a: seq<Byte>, b: seq<Byte>, slave: nat -> bool, q: nat)
    ensures var n := Accepted(a, slave, q);
            Accepted(a + b, slave, q) == if n < |a| then n else n + Accepted(b, slave, q + 9 * n)
  {
    if a == [] {
      assert a + b == b;
    } else {
      assert (a + b)[1..] == a[1..] + b;
      AcceptedMore(a[1..], b, slave, q + 9);
    }
  }
  lemma {:induction false} SendAllCat(a: seq<Byte>, b: seq<Byte>)
    ensures SendAll(a + b) == SendAll(a) + SendAll(b)
  {
    if b == [] {
      assert a + b == a;
    } else {
      var n := |b| - 1;
      assert (a + b)[..|a| + n] == a + b[..n];
      SendAllCat(a, b[..n]);
    }
  }
  lemma AllAccepted(data: seq<Byte>, slave: nat -> bool, q: nat)
    ensures Accepted(data, slave, q) == |data| ==> Offered(data, slave, q) == data
    ensures Accepted(data, slave, q) < |data| ==> |Offered(data, slave, q)| == Accepted(data, slave, q) + 1
  {}
  lemma {:induction false} AcceptedStep(data: seq<Byte>, k: nat, slave: nat -> bool, q: nat)
    requires k < |data| && k <= Accepted(data, slave, q)
    ensures if slave(q + 9 * k + 8) then Accepted(data, slave, q) == k && Offered(data, slave, q) == data[..k + 1]
            else Accepted(data, slave, q) > k
  {
    if k > 0 {
      AcceptedStep(data[1..], k - 1, slave, q + 9);
    }
  }
  /** One more buffer, after `j` buffers whose bytes were all accepted. */
  lemma BufferTaken(parts: seq<seq<Byte>>, j: nat, slave: nat -> bool, q: nat, mid: nat)
    requires j < |parts| && Accepted(Flat(parts[..j]), slave, q) == |Flat(parts[..j])|
    requires mid == q + 9 * |Flat(parts[..j])| && Accepted(parts[j], slave, mid) == |parts[j]|
    ensures Flat(parts[..j + 1]) == Flat(parts[..j]) + Offered(parts[j], slave, mid)
    ensures Accepted(Flat(parts[..j + 1]), slave, q) == |Flat(parts[..j + 1])|
    ensures |Flat(parts[..j + 1])| == |Flat(parts[..j])| + |parts[j]|
  {
    hide *;
    FlatNext(parts, j);
    AcceptedCat(Flat(parts[..j]), parts[j], slave, q);
    AllAccepted(parts[j], slave, mid);
  }
  lemma BufferRefused(parts: seq<seq<Byte>>, j: nat, slave: nat -> bool, q: nat, mid: nat)
    requires j < |parts| && Accepted(Flat(parts[..j]), slave, q) == |Flat(parts[..j])|
    requires mid == q + 9 * |Flat(parts[..j])| && Accepted(parts[j], slave, mid) < |parts[j]|
    ensures Accepted(Flat(parts), slave, q) == |Flat(parts[..j])| + Accepted(parts[j], slave, mid)
    ensures Offered(Flat(parts), slave, q) == Flat(parts[..j]) + Offered(parts[j], slave, mid)
  {
    hide *;
    FlatNext(parts, j);
    FlatSplit(parts, j + 1);
    AcceptedCat(Flat(parts[..j]), parts[j], slave, q);
    AcceptedCat(Flat(parts[..j + 1]), Flat(parts[j + 1..]), slave, q);
  }
  /** The bytes `data` have been put on the wire from period `p` on, up to period `now`. */
  ghost predicate PutOut(was: seq<Event>, seen: seq<Event>, data: seq<Byte>, slave: nat -> bool, p: nat, now: nat) {
    now == p + 9 * |data| && Grew(was, seen, Line(SendAll(data), slave, p))
  }
  lemma PutOutNothing(seen: seq<Event>, slave: nat -> bool, p: nat)
    ensures PutOut(seen, seen, [], slave, p, p)
  {
    assert Line(SendAll([]), slave, p) == [];
    GrewNot(seen);
  }
  lemma PutOutOn(was: seq<Event>, seen: seq<Event>, after: seq<Event>, a: seq<Byte>, b: seq<Byte>,
                 slave: nat -> bool, p: nat, mid: nat, now: nat)
    requires PutOut(was, seen, a, slave, p, mid) && PutOut(seen, after, b, slave, mid, now)
    ensures PutOut(was, after, a + b, slave, p, now)
  {
    hide Grew, Line, SendAll;
    SendAllCat(a, b);
    LineCat(SendAll(a), SendAll(b), slave, p);
    GrewOn(was, seen, after, Line(SendAll(a), slave, p), Line(SendAll(b), slave, mid));
  }
  lemma PutOutByte(was: seq<Event>, seen: seq<Event>, after: seq<Event>, data: seq<Byte>, k: nat,
                   slave: nat -> bool, p: nat, mid: nat)
    requires k < |data| && PutOut(was, seen, data[..k], slave, p, mid)
    requires Grew(seen, after, Line(SendLevels(data[k]), slave, mid))
    ensures PutOut(was, after, data[..k + 1], slave, p, mid + 9)
  {
    assert data[..k + 1] == data[..k] + [data[k]];
    assert SendAll([data[k]]) == SendLevels(data[k]);
    PutOutOn(was, seen, after, data[..k], [data[k]], slave, p, mid, mid + 9);
  }
  /** Bytes have been received with these acknowledges. */
  ghost predicate TookIn(was: seq<Event>, seen: seq<Event>, nacks: seq<bool>, slave: nat -> bool, p: nat, now: nat) {
    now == p + 9 * |nacks| && Grew(was, seen, Line(ReceiveAll(nacks), slave, p))
  }
  lemma TookInNothing(seen: seq<Event>, slave: nat -> bool, p: nat)
    ensures TookIn(seen, seen, [], slave, p, p)
  {
    assert Line(ReceiveAll([]), slave, p) == [];
    GrewNot(seen);
  }
  lemma TookInOn(was: seq<Event>, seen: seq<Event>, after: seq<Event>, a: seq<bool>, b: seq<bool>,
                 slave: nat -> bool, p: nat, mid: nat, now: nat)
    requires TookIn(was, seen, a, slave, p, mid) && TookIn(seen, after, b, slave, mid, now)
    ensures TookIn(was, after, a + b, slave, p, now)
  {
    hide Grew, Line, ReceiveAll;
    ReceiveAllCat(a, b);
    LineCat(ReceiveAll(a), ReceiveAll(b), slave, p);
    GrewOn(was, seen, after, Line(ReceiveAll(a), slave, p), Line(ReceiveAll(b), slave, mid));
  }
  lemma TookInByte(was: seq<Event>, seen: seq<Event>, after: seq<Event>, nacks: seq<bool>, k: nat,
                   slave: nat -> bool, p: nat)
    requires k < |nacks| && TookIn(was, seen, nacks[..k], slave, p, p + 9 * k)
    requires Grew(seen, after, Line(ReceiveLevels(nacks[k]), slave, p + 9 * k))
    ensures TookIn(was, after, nacks[..k + 1], slave, p, p + 9 * k + 9)
  {
    assert nacks[..k + 1] == nacks[..k] + [nacks[k]];
    assert ReceiveAll([nacks[k]]) == ReceiveLevels(nacks[k]);
    TookInOn(was, seen, after, nacks[..k], [nacks[k]], slave, p, p + 9 * k, p + 9 * k + 9);
  }
  lemma {:induction false} ReceiveAllCat(a: seq<bool>, b: seq<bool>)
    ensures ReceiveAll(a + b) == ReceiveAll(a) + ReceiveAll(b)
  {
    if b == [] {
      assert a + b == a;
    } else {
      var n := |b| - 1;
      assert (a + b)[..|a| + n] == a + b[..n];
      ReceiveAllCat(a, b[..n]);
    }
  }
  ghost predicate Distinct(bufs: seq<array<Byte>>) {
    forall i, j :: 0 <= i < j < |bufs| ==> bufs[i] != bufs[j]
  }
  function Total(bufs: seq<array<Byte>>): nat {
    if bufs == [] then 0 else Total(bufs[..|bufs| - 1]) + bufs[|bufs| - 1].Length
  }
  lemma TotalNext(bufs: seq<array<Byte>>, j: nat)
    requires j < |bufs|
    ensures Total(bufs[..j + 1]) == Total(bufs[..j]) + bufs[j].Length
  {
    assert bufs[..j + 1][..j] == bufs[..j];
  }
  /** The first `j` buffers hold what the slave put out, one after the other. */
  ghost predicate Filled(bufs: seq<array<Byte>>, j: nat, slave: nat -> bool, p: nat)
    requires j <= |bufs|
    reads bufs
  {
    forall i :: 0 <= i < j ==> bufs[i][..] == SlaveBytes(slave, p + 9 * Total(bufs[..i]), bufs[i].Length)
  }
  /** All of them do, unless some are the same. */
  ghost predicate Delivered(bufs: seq<array<Byte>>, slave: nat -> bool, p: nat)
    reads bufs
  {
    Distinct(bufs) ==> Filled(bufs, |bufs|, slave, p)
  }
  /** The master refuses the last byte of the last buffer, if there is one, and no other. */
  function AllNacks(bufs: seq<array<Byte>>): seq<bool> {
    Nacks(Total(bufs), bufs != [] && bufs[|bufs| - 1].Length > 0)
  }
  function SomeNacks(bufs: seq<array<Byte>>, j: nat): seq<bool>
    requires j <= |bufs|
  {
    if j < |bufs| then Nacks(Total(bufs[..j]), false) else AllNacks(bufs)
  }
  lemma NacksSoFar(bufs: seq<array<Byte>>)
    ensures SomeNacks(bufs, |bufs|) == AllNacks(bufs)
    ensures SomeNacks(bufs, 0) == [] && Total(bufs[..0]) == 0
  {}
  lemma NacksOn(bufs: seq<array<Byte>>, j: nat)
    requires j < |bufs|
    ensures SomeNacks(bufs, j + 1) == SomeNacks(bufs, j) + Nacks(bufs[j].Length, j == |bufs| - 1)
    ensures Total(bufs[..j + 1]) == Total(bufs[..j]) + bufs[j].Length
  {
    TotalNext(bufs, j);
    assert j + 1 == |bufs| ==> bufs[..j + 1] == bufs;
    hide Total;
  }
  lemma TookInTo(was: seq<Event>, seen: seq<Event>, nacks: seq<bool>, slave: nat -> bool, p: nat, now: nat)
    requires TookIn(was, seen, nacks, slave, p, now)
    ensures now == p + 9 * |nacks|
  {}
  function AddressByte(addr: nat, read: bool): Byte {
    (addr * 2 + if read then 1 else 0) % 256
  }
  function Ending(stop: bool, slave: nat -> bool, p: nat): seq<Event> {
    if stop then Closing(slave, p) else []
  }
  function PayloadLevels(read: bool, data: seq<Byte>, nacks: seq<bool>, slave: nat -> bool, p: nat): seq<bool> {
    if read then ReceiveAll(nacks) else SendAll(Offered(data, slave, p))
  }
  /** The payload has gone over the wires between periods `p` and `now`, and a STOP if asked for. */
  ghost predicate PayloadSeen(was: seq<Event>, seen: seq<Event>, read: bool, data: seq<Byte>, nacks: seq<bool>,
                              stop: bool, slave: nat -> bool, p: nat, now: nat) {
    var m := PayloadLevels(read, data, nacks, slave, p);
    now == p + |m| && Grew(was, seen, Line(m, slave, p) + Ending(stop, slave, now))
  }
  lemma PayloadDone(was: seq<Event>, seen: seq<Event>, read: bool, data: seq<Byte>, nacks: seq<bool>,
                    slave: nat -> bool, p: nat, now: nat)
    requires if read then TookIn(was, seen, nacks, slave, p, now)
             else PutOut(was, seen, Offered(data, slave, p), slave, p, now)
    ensures PayloadSeen(was, seen, read, data, nacks, false, slave, p, now)
  {
    var m := PayloadLevels(read, data, nacks, slave, p);
    assert Line(m, slave, p) + [] == Line(m, slave, p);
  }
  lemma PayloadStopped(was: seq<Event>, seen: seq<Event>, after: seq<Event>, read: bool, data: seq<Byte>,
                       nacks: seq<bool>, slave: nat -> bool, p: nat, now: nat)
    requires PayloadSeen(was, seen, read, data, nacks, false, slave, p, now) && Grew(seen, after, Closing(slave, now))
    ensures PayloadSeen(was, after, read, data, nacks, true, slave, p, now)
  {
    var e := Line(PayloadLevels(read, data, nacks, slave, p), slave, p);
    hide Line, PayloadLevels, Closing;
    assert e + [] == e;
    GrewOn(was, seen, after, e, Closing(slave, now));
  }
  /** A whole transfer has been seen: it began in period `p` and ended in period `now`. */
  ghost predicate Exchanged(was: seq<Event>, seen: seq<Event>, high: bool, read: bool, a: Byte, data: seq<Byte>,
                            nacks: seq<bool>, stop: bool, slave: nat -> bool, p: nat, now: nat) {
    var m := Exchange(read, a, data, nacks, slave, p + 1);
    && now == p + 1 + |m|
    && Grew(was, seen, Opening(high, slave, p) + Line(m, slave, p + 1) + Ending(stop, slave, now))
  }
  ghost predicate Opened(was: seq<Event>, seen: seq<Event>, high: bool, a: Byte, slave: nat -> bool, p: nat) {
    Grew(was, seen, Opening(high, slave, p) + Line(SendLevels(a), slave, p + 1))
  }
  lemma OpenedBy(was: seq<Event>, mid: seq<Event>, seen: seq<Event>, high: bool, a: Byte, slave: nat -> bool, p: nat)
    requires Grew(was, mid, Opening(high, slave, p)) && Grew(mid, seen, Line(SendLevels(a), slave, p + 1))
    ensures Opened(was, seen, high, a, slave, p)
  {
    GrewOn(was, mid, seen, Opening(high, slave, p), Line(SendLevels(a), slave, p + 1));
  }
  lemma Refused(was: seq<Event>, mid: seq<Event>, seen: seq<Event>, high: bool, read: bool, a: Byte,
                data: seq<Byte>, nacks: seq<bool>, slave: nat -> bool, p: nat)
    requires Opened(was, mid, high, a, slave, p) && Grew(mid, seen, Closing(slave, p + 10)) && slave(p + 9)
    ensures Exchanged(was, seen, high, read, a, data, nacks, true, slave, p, p + 10)
  {
    assert SendLevels(a) + [] == SendLevels(a);
    hide Line, SendLevels, Opening, Closing;
    GrewOn(was, mid, seen, Opening(high, slave, p) + Line(SendLevels(a), slave, p + 1), Closing(slave, p + 10));
  }
  lemma Answered(was: seq<Event>, mid: seq<Event>, seen: seq<Event>, high: bool, read: bool, a: Byte,
                 data: seq<Byte>, nacks: seq<bool>, stop: bool, slave: nat -> bool, p: nat, now: nat)
    requires Opened(was, mid, high, a, slave, p) && !slave(p + 9)
    requires PayloadSeen(mid, seen, read, data, nacks, stop, slave, p + 10, now)
    ensures Exchanged(was, seen, high, read, a, data, nacks, stop, slave, p, now)
  {
    var m := PayloadLevels(read, data, nacks, slave, p + 10);
    var o, b, c, e := Opening(high, slave, p), Line(SendLevels(a), slave, p + 1), Line(m, slave, p + 10), Ending(stop, slave, now);
    LineCat(SendLevels(a), m, slave, p + 1);
    hide Line, SendLevels, Opening, Ending, PayloadLevels, Grew;
    GrewOn(was, mid, seen, o + b, c + e);
    Regroup(o, b, c, e);
  }
  lemma Regroup(a: seq<Event>, b: seq<Event>, c: seq<Event>, d: seq<Event>)
    ensures a + b + (c + d) == a + (b + c) + d
  {}
  /** What the master puts out between START and STOP, nine periods for each byte. */
  function Exchange(read: bool, a: Byte, data: seq<Byte>, nacks: seq<bool>, slave: nat -> bool, q: nat): seq<bool> {
    SendLevels(a) + if slave(q + 8) then [] else PayloadLevels(read, data, nacks, slave, q + 9)
  }
  lemma ReceiveWhole(n: nat, last: bool, slave: nat -> bool, q: nat)
    ensures |SlaveBytes(slave, q, n)| == n && SlaveBytes(slave, q, n)[..n] == SlaveBytes(slave, q, n)
    ensures Nacks(n, last)[..0] == [] && Nacks(n, last)[..n] == Nacks(n, last)
  {}
  lemma ReceiveAt(n: nat, last: bool, slave: nat -> bool, q: nat, j: nat)
    requires j < n
    ensures Nacks(n, last)[j] == (last && j + 1 == n)
    ensures |SlaveBytes(slave, q, n)| == n && SlaveBytes(slave, q, n)[j] == SlaveByte(slave, q + 9 * j)
  {
    hide SlaveByte;
  }
  function SlaveBytes(slave: nat -> bool, q: nat, n: nat): seq<Byte> {
    seq(n, j requires j >= 0 => SlaveByte(slave, q + 9 * j))
  }
  /** The master refuses the last byte, and no other, if `last` is set. */
  function Nacks(n: nat, last: bool): (nacks: seq<bool>)
    ensures |nacks| == n
  {
    seq(n, j => last && j == n - 1)
  }

  const EIGHT: seq<bool> := [true, true, true, true, true, true, true, true]

  function Opening(high: bool, slave: nat -> bool, p: nat): seq<Event> {
    (if high then [] else [Bit(slave(p))]) + (if slave(p) then [START] else [])
  }
  function Closing(slave: nat -> bool, p: nat): seq<Event> {
    [Bit(false)] + (if slave(p) then [STOP] else [])
  }
  function SlaveBits(slave: nat -> bool, q: nat, n: nat): (bits: seq<bool>)
    ensures |bits| == n
  {
    seq(n, i requires i >= 0 => slave(q + i))
  }
  /** Shift a bit into the eight-bit data variable. */
  function ShiftIn(data: int, level: bool): Byte {
    (data * 2 + if level then 1 else 0) % 256
  }
  lemma SlaveBitsNext(slave: nat -> bool, q: nat, n: nat)
    requires n < 8
    ensures FromBits(SlaveBits(slave, q, n + 1)) == ShiftIn(FromBits(SlaveBits(slave, q, n)), slave(q + n))
  {
    assert SlaveBits(slave, q, n + 1)[..n] == SlaveBits(slave, q, n);
    PowUpTo(n);
  }
  lemma PowUpTo(n: nat)
    requires n < 8
    ensures Pow2(n) <= 128
  {
    assert Pow2(7) == 128;
    if n < 7 {
      PowGrows(n, 7);
    }
  }
  lemma {:induction false} PowGrows(n: nat, m: nat)
    requires n <= m
    ensures Pow2(n) <= Pow2(m)
  {
    if n < m {
      PowGrows(n, m - 1);
    }
  }
  lemma SlaveBitsAll(slave: nat -> bool, q: nat)
    ensures FromBits(SlaveBits(slave, q, 8)) == SlaveByte(slave, q)
  {
    assert SlaveBits(slave, q, 8) == seq(8, i requires i >= 0 => slave(q + i));
  }
}
