/** WebSocket framing (sections 5.2 and 5.3 of RFC 6455): the incremental reader, whose result
    does not depend on how the transport cuts the byte stream, and the writer. */
module WebSocket {

  type Byte = n: int | 0 <= n < 256
  type Bytes = seq<Byte>

  /** Exclusive or of the low `n` bits. */
  function BitXor(a: nat, b: nat, n: nat): (r: nat) {
    if n == 0 then 0 else 2 * BitXor(a / 2, b / 2, n - 1) + (a + b) % 2
  }
  lemma {:induction false} XorBound(a: nat, b: nat, n: nat)
    ensures BitXor(a, b, n) < Pow2(n)
  {
    if n > 0 {
      XorBound(a / 2, b / 2, n - 1);
    }
  }
  function Pow2(n: nat): nat { if n == 0 then 1 else 2 * Pow2(n - 1) }
  function Xor(a: Byte, b: Byte): Byte {
    XorBound(a, b, 8);
    assert Pow2(8) == 256;
    BitXor(a, b, 8)
  }
  lemma {:induction false} BitXorTwice(a: nat, b: nat, n: nat)
    requires a < Pow2(n)
    ensures BitXor(BitXor(a, b, n), b, n) == a
  {
    hide BitXor;
    BitXorStep(a, b, n);
    if n > 0 {
      BitXorTwice(a / 2, b / 2, n - 1);
      var x := BitXor(a / 2, b / 2, n - 1);
      LowBit(x, a, b);
      BitXorStep(2 * x + (a + b) % 2, b, n);
    }
  }
  lemma BitXorStep(a: nat, b: nat, n: nat)
    ensures BitXor(a, b, n) == if n == 0 then 0 else 2 * BitXor(a / 2, b / 2, n - 1) + (a + b) % 2
  {}
  lemma LowBit(x: nat, a: nat, b: nat)
    ensures var r := 2 * x + (a + b) % 2; r / 2 == x && (r + b) % 2 == a % 2
  {}
  lemma XorTwice(a: Byte, k: Byte)
    ensures Xor(Xor(a, k), k) == a
  {
    assert Pow2(8) == 256;
    BitXorTwice(a, k, 8);
  }
  lemma {:induction false} BitXorZero(a: nat, n: nat)
    requires a < Pow2(n)
    ensures BitXor(a, 0, n) == a
  {
    if n > 0 {
      BitXorZero(a / 2, n - 1);
    }
  }
  lemma XorZero(a: Byte)
    ensures Xor(a, 0) == a
  {
    assert Pow2(8) == 256;
    BitXorZero(a, 8);
  }

  // ---- the reference reader: one byte at a time ----

  const FRAME_CONT := 0
  const FRAME_TXT := 1
  const FRAME_CLOSE := 8

  datatype Phase =
    | Head(got: Bytes)
    | Opt(first: Byte, size: nat, need: nat, got: Bytes)
    | Body(left: nat, mask: Bytes, pos: nat)
    | Outside
  /** `flags` is the copy of the last frame's flags that `ioctl` reports. */
  datatype Reader = Reader(phase: Phase, flags: Byte)

  const NO_MASK: Bytes := [0, 0, 0, 0]

  ghost predicate WellFormed(p: Phase) {
    match p
    case Head(got) => |got| < 2
    case Opt(_, _, need, got) => need in {2, 4, 6} && |got| < need
    case Body(left, mask, pos) => left > 0 && |mask| == 4 && pos < 4
    case Outside => true
  }

  /** Both header bytes are there.  Fragments, 64-bit lengths, CLOSE, and control frames with
      a payload are outside this reader (the first two stop the program in the source). */
  function AfterHeader(a: Byte, b: Byte): (p: Phase)
    ensures WellFormed(p)
  {
    var need := (if b % 128 == 126 then 2 else 0) + (if b >= 128 then 4 else 0);
    if a < 128 || b % 128 == 127 then Outside
    else if need == 0 then StartBody(a, b % 128, NO_MASK)
    else Opt(a, b % 128, need, [])
  }
  function StartBody(first: Byte, size: nat, mask: Bytes): (p: Phase)
    requires |mask| == 4
    ensures WellFormed(p)
  {
    if size == 0 then if first % 16 == FRAME_CLOSE then Outside else Head([])
    else if first % 16 >= FRAME_CLOSE then Outside
    else Body(size, mask, 0)
  }
  function AfterOpt(first: Byte, size: nat, got: Bytes): Phase
    requires |got| in {2, 4, 6}
  {
    var size' := if |got| % 4 == 2 then 256 * got[0] + got[1] else size;
    StartBody(first, size', if |got| >= 4 then got[|got| - 4..] else NO_MASK)
  }
  /** A continuation keeps the opcode that was recorded; any other frame, control frames
      included, replaces it. */
  function NewFlags(flags: Byte, first: Byte): Byte {
    if first % 16 == FRAME_CONT then flags % 16 + (first - first % 16) else first
  }

  function Feed(r: Reader, b: Byte): (n: (Reader, Bytes))
    requires WellFormed(r.phase)
    ensures WellFormed(n.0.phase)
  {
    match r.phase
    case Head(got) =>
      if got == [] then (r.(phase := Head([b])), [])
      else (Reader(AfterHeader(got[0], b), NewFlags(r.flags, got[0])), [])
    case Opt(first, size, need, got) =>
      (r.(phase := if |got| + 1 < need then Opt(first, size, need, got + [b]) else AfterOpt(first, size, got + [b])), [])
    case Body(left, mask, pos) =>
      (r.(phase := if left > 1 then Body(left - 1, mask, (pos + 1) % 4) else Head([])), [Xor(b, mask[pos])])
    case Outside => (r, [])
  }
  function FeedAll(r: Reader, s: Bytes): (n: (Reader, Bytes))
    requires WellFormed(r.phase)
    ensures WellFormed(n.0.phase)
    decreases |s|
  {
    if s == [] then (r, [])
    else
      var (r1, out1) := Feed(r, s[0]);
      var (r2, out2) := FeedAll(r1, s[1..]);
      (r2, out1 + out2)
  }
  lemma {:induction false} FeedCat(r: Reader, a: Bytes, b: Bytes)
    requires WellFormed(r.phase)
    ensures var r1 := FeedAll(r, a).0;
            FeedAll(r, a + b) == (FeedAll(r1, b).0, FeedAll(r, a).1 + FeedAll(r1, b).1)
    decreases |a|
  {
    if a == [] {
      assert a + b == b;
      assert [] + FeedAll(r, b).1 == FeedAll(r, b).1;
    } else {
      var (r1, o1) := Feed(r, a[0]);
      FeedCat(r1, a[1..], b);
      assert (a + b)[1..] == a[1..] + b;
      var (r2, o2) := FeedAll(r1, a[1..]);
      var (r3, o3) := FeedAll(r2, b);
      assert o1 + (o2 + o3) == o1 + o2 + o3;
    }
  }
  lemma FeedOne(r: Reader, b: Byte, s: Bytes)
    requires WellFormed(r.phase)
    ensures var (r1, o1) := Feed(r, b); var (r2, o2) := FeedAll(r1, s);
            FeedAll(r, [b] + s) == (r2, o1 + o2) && FeedAll(r, [b]) == (r1, o1)
  {
    assert ([b] + s)[1..] == s && [b][1..] == [];
    var o1 := Feed(r, b).1;
    assert o1 + [] == o1;
  }
  lemma {:induction false} OutsideStays(r: Reader, s: Bytes)
    requires r.phase.Outside?
    ensures FeedAll(r, s) == (r, [])
    decreases |s|
  {
    if s != [] {
      OutsideStays(r, s[1..]);
      var none: Bytes := [];
      assert none + none == none;
    }
  }

  /** Bytes of the two-byte header, as far as they go. */
  lemma {:induction false} FeedHead(r: Reader, got: Bytes, s: Bytes)
    requires r.phase == Head(got) && |got| < 2 && |got| + |s| <= 2
    ensures FeedAll(r, s) == (if |got| + |s| < 2 then r.(phase := Head(got + s))
                              else var h := got + s; Reader(AfterHeader(h[0], h[1]), NewFlags(r.flags, h[0])), [])
    decreases |s|
  {
    var none: Bytes := [];
    assert none + none == none;
    if s == [] {
      assert got + s == got;
    } else if got == [] {
      assert [s[0]] + s[1..] == s && got + s == s;
      FeedHead(r.(phase := Head([s[0]])), [s[0]], s[1..]);
    } else {
      assert s == [s[0]] && s[1..] == [] && got + s == [got[0], s[0]];
    }
  }
  /** Bytes of a payload, as far as they go. */
  lemma {:induction false} FeedBody(r: Reader, left: nat, mask: Bytes, pos: nat, s: Bytes)
    requires |mask| == 4 && pos < 4 && |s| <= left && left > 0 && r.phase == Body(left, mask, pos)
    ensures FeedAll(r, s) == (r.(phase := if |s| < left then Body(left - |s|, mask, (pos + |s|) % 4) else Head([])),
                              Masked(s, mask, pos))
    decreases |s|
  {
    if s != [] {
      var r1 := Feed(r, s[0]).0;
      if left > 1 {
        FeedBody(r1, left - 1, mask, (pos + 1) % 4, s[1..]);
      } else {
        assert s[1..] == [];
      }
    }
  }
  /** Two stretches of input, the first of which returned nothing. */
  lemma FeedThen(r0: Reader, a: Bytes, r1: Reader, b: Bytes, r2: Reader, out: Bytes)
    requires WellFormed(r0.phase) && FeedAll(r0, a) == (r1, []) && FeedAll(r1, b) == (r2, out)
    ensures FeedAll(r0, a + b) == (r2, out)
  {
    FeedCat(r0, a, b);
    assert [] + out == out;
  }
  /** Once outside the reader, always outside. */
  lemma FeedOutside(r: Reader, a: Bytes, b: Bytes)
    requires WellFormed(r.phase) && FeedAll(r, a).0.phase.Outside?
    ensures FeedAll(r, a + b).0.phase.Outside?
  {
    hide Feed, FeedAll;
    FeedCat(r, a, b);
    OutsideStays(FeedAll(r, a).0, b);
  }

  // ---- frames ----

  /** A final frame.  `wide` asks for the 16-bit length, whether or not it is needed. */
  datatype Frame = Frame(first: Byte, wide: bool, mask: seq<Byte>, payload: Bytes)

  ghost predicate Encodable(f: Frame) {
    |f.mask| in {0, 4} && |f.payload| < (if f.wide then 65536 else 126)
  }
  /** A data frame, or a control frame other than CLOSE without payload. */
  ghost predicate Readable(f: Frame) {
    && f.first >= 128 && Encodable(f)
    && (f.first % 16 >= FRAME_CLOSE ==> f.payload == [] && f.first % 16 != FRAME_CLOSE)
  }
  function MaskOf(f: Frame): Bytes { if |f.mask| == 4 then f.mask else NO_MASK }
  function Masked(payload: Bytes, mask: Bytes, pos: nat): (r: Bytes)
    requires |mask| == 4 && pos < 4
    ensures |r| == |payload|
  {
    if payload == [] then [] else [Xor(payload[0], mask[pos])] + Masked(payload[1..], mask, (pos + 1) % 4)
  }
  function LengthByte(f: Frame): Byte
    requires Encodable(f)
  {
    (if f.wide then 126 else |f.payload|) + (if |f.mask| == 4 then 128 else 0)
  }
  function LengthBytes(f: Frame): Bytes
    requires Encodable(f)
  {
    if f.wide then [|f.payload| / 256, |f.payload| % 256] else []
  }
  function Encode(f: Frame): Bytes
    requires Encodable(f)
  {
    [f.first, LengthByte(f)] + ((LengthBytes(f) + f.mask) + Masked(f.payload, MaskOf(f), 0))
  }
  function EncodeAll(fs: seq<Frame>): Bytes
    requires forall f :: f in fs ==> Readable(f)
  {
    if fs == [] then []
    else
      assert Readable(fs[0]);
      Encode(fs[0]) + EncodeAll(fs[1..])
  }
  function Payloads(fs: seq<Frame>): Bytes {
    if fs == [] then [] else fs[0].payload + Payloads(fs[1..])
  }
  function FinalFlags(flags: Byte, fs: seq<Frame>): Byte
    decreases fs
  {
    if fs == [] then flags else FinalFlags(NewFlags(flags, fs[0].first), fs[1..])
  }

  lemma {:induction false} FeedMasked(r: Reader, payload: Bytes, mask: Bytes, pos: nat)
    requires payload != [] && |mask| == 4 && pos < 4 && r.phase == Body(|payload|, mask, pos)
    ensures FeedAll(r, Masked(payload, mask, pos)) == (r.(phase := Head([])), payload)
    decreases |payload|
  {
    hide Xor, Feed, FeedAll, Masked;
    var first, pos' := Xor(payload[0], mask[pos]), (pos + 1) % 4;
    var rest := Masked(payload[1..], mask, pos');
    var r1 := Feed(r, first).0;
    MaskedFirst(payload, mask, pos);
    FeedMaskedByte(r, payload[0], |payload|, mask, pos);
    FeedOne(r, first, rest);
    if |payload| > 1 {
      FeedMasked(r1, payload[1..], mask, pos');
    } else {
      assert payload[1..] == [] && |rest| == 0;
      FeedNone(r1);
    }
    assert payload == [payload[0]] + payload[1..];
  }
  lemma MaskedFirst(payload: Bytes, mask: Bytes, pos: nat)
    requires payload != [] && |mask| == 4 && pos < 4
    ensures Masked(payload, mask, pos) == [Xor(payload[0], mask[pos])] + Masked(payload[1..], mask, (pos + 1) % 4)
  {
    hide Xor;
  }
  lemma FeedMaskedByte(r: Reader, b: Byte, left: nat, mask: Bytes, pos: nat)
    requires 0 < left && |mask| == 4 && pos < 4 && r.phase == Body(left, mask, pos)
    ensures Feed(r, Xor(b, mask[pos]))
         == (r.(phase := if left > 1 then Body(left - 1, mask, (pos + 1) % 4) else Head([])), [b])
  {
    hide Xor;
    XorTwice(b, mask[pos]);
  }
  /** Optional header bytes, as far as they go. */
  lemma {:induction false} FeedOpt(r: Reader, first: Byte, size: nat, need: nat, got: Bytes, s: Bytes)
    requires need in {2, 4, 6} && |got| < need && |got| + |s| <= need && r.phase == Opt(first, size, need, got)
    ensures FeedAll(r, s) == (r.(phase := if |got| + |s| < need then Opt(first, size, need, got + s)
                                          else AfterOpt(first, size, got + s)), [])
    decreases |s|
  {
    var none: Bytes := [];
    assert none + none == none;
    if s == [] {
      assert got + s == got;
    } else {
      var r1 := Feed(r, s[0]).0;
      assert s == [s[0]] + s[1..];
      if |got| + 1 < need {
        FeedOpt(r1, first, size, need, got + [s[0]], s[1..]);
        assert got + [s[0]] + s[1..] == got + s;
      } else {
        assert s == [s[0]];
        FeedOne(r, s[0], []);
      }
    }
  }
  lemma FeedHeader(r: Reader, a: Byte, b: Byte)
    requires r.phase == Head([])
    ensures FeedAll(r, [a, b]) == (Reader(AfterHeader(a, b), NewFlags(r.flags, a)), [])
  {
    var r1 := Feed(r, a).0;
    assert [a] + [b] == [a, b];
    FeedOne(r, a, [b]);
    FeedOne(r1, b, []);
    var none: Bytes := [];
    assert none + none == none;
  }
  /** The header of a frame leads to its payload. */
  lemma FeedFrameHeader(r: Reader, f: Frame)
    requires r.phase == Head([]) && Readable(f)
    ensures FeedAll(r, [f.first, LengthByte(f)] + (LengthBytes(f) + f.mask))
         == (Reader(StartBody(f.first, |f.payload|, MaskOf(f)), NewFlags(r.flags, f.first)), [])
  {
    FeedHeader(r, f.first, LengthByte(f));
    var opt := LengthBytes(f) + f.mask;
    FeedCat(r, [f.first, LengthByte(f)], opt);
    var r1 := Reader(AfterHeader(f.first, LengthByte(f)), NewFlags(r.flags, f.first));
    var none: Bytes := [];
    assert none + none == none;
    if opt == [] {
      assert FeedAll(r1, opt) == (r1, []);
    } else {
      OptHeader(f);
      hide AfterHeader, AfterOpt, StartBody, Encode;
      FeedOpt(r1, f.first, LengthByte(f) % 128, |opt|, [], opt);
      assert [] + opt == opt;
    }
  }
  lemma OptHeader(f: Frame)
    requires Readable(f) && LengthBytes(f) + f.mask != []
    ensures var opt := LengthBytes(f) + f.mask;
            && |opt| in {2, 4, 6}
            && AfterHeader(f.first, LengthByte(f)) == Opt(f.first, LengthByte(f) % 128, |opt|, [])
            && AfterOpt(f.first, LengthByte(f) % 128, opt) == StartBody(f.first, |f.payload|, MaskOf(f))
  {
    hide StartBody;
    var opt := LengthBytes(f) + f.mask;
    if |f.mask| == 4 {
      assert opt[|opt| - 4..] == f.mask;
    }
    assert 256 * (|f.payload| / 256) + |f.payload| % 256 == |f.payload|;
  }
  lemma FeedFrame(r: Reader, f: Frame)
    requires r.phase == Head([]) && Readable(f)
    ensures FeedAll(r, Encode(f)) == (Reader(Head([]), NewFlags(r.flags, f.first)), f.payload)
  {
    hide Feed, FeedAll, Masked, NewFlags;
    FeedFrameHeader(r, f);
    var head, body := [f.first, LengthByte(f)] + (LengthBytes(f) + f.mask), Masked(f.payload, MaskOf(f), 0);
    assert Encode(f) == head + body;
    FeedCat(r, head, body);
    var r1 := FeedAll(r, head).0;
    if f.payload == [] {
      FeedNone(r1);
    } else {
      FeedMasked(r1, f.payload, MaskOf(f), 0);
    }
    assert [] + f.payload == f.payload;
  }
  /** Any sequence of final frames reads as the concatenation of its payloads. */
  lemma {:induction false} ReadsAllFrames(r: Reader, fs: seq<Frame>)
    requires r.phase == Head([]) && forall f :: f in fs ==> Readable(f)
    ensures FeedAll(r, EncodeAll(fs)) == (Reader(Head([]), FinalFlags(r.flags, fs)), Payloads(fs))
    decreases |fs|
  {
    if fs != [] {
      FeedFrame(r, fs[0]);
      FeedCat(r, Encode(fs[0]), EncodeAll(fs[1..]));
      ReadsAllFrames(FeedAll(r, Encode(fs[0])).0, fs[1..]);
    }
  }

  /** The source's comment says control frames leave the recorded data flags alone.  They do
      not: after any control frame the recorded opcode is a control opcode. */
  lemma ControlFrameReplacesFlags(flags: Byte, first: Byte)
    ensures (NewFlags(flags, first) % 16 == flags % 16) <==> first % 16 in {FRAME_CONT, flags % 16}
  {}

  // ---- the transport ----

  /** What a stream read or write reports. */
  datatype Outcome = Got(n: nat) | Eof | Error | AssertionFailed

  /** A transport with the bytes it will still deliver.  How many it hands over at each read,
      and when it has none for now, is not determined. */
  class Transport {
    ghost var rest: Bytes
    var source: Bytes
    var sent: Bytes

    ghost predicate Valid()
      reads this
    {
      rest == source
    }
    constructor (stream: Bytes)
      ensures Valid() && rest == stream && sent == []
    {
      source, rest, sent := stream, stream, [];
    }

    method Recv(dst: array<Byte>, at: nat, size: nat) returns (r: Outcome)
      requires Valid() && at + size <= dst.Length
      modifies this`rest, this`source, dst
      ensures Valid()
      ensures r.Got? ==> 0 < r.n <= size && r.n <= |old(rest)|
      ensures r.Got? ==> rest == old(rest)[r.n..] && dst[at..at + r.n] == old(rest)[..r.n]
      ensures !r.Got? ==> rest == old(rest) && !r.AssertionFailed?
      ensures forall i :: 0 <= i < dst.Length && !(r.Got? && at <= i < at + r.n) ==> dst[i] == old(dst[i])
    {
      var n :| 0 <= n <= size && n <= |source|;
      if n == 0 {
        var closed :| closed || !closed;
        return if closed then Eof else Error;
      }
      forall i | 0 <= i < n {
        dst[at + i] := source[i];
      }
      source := source[n..];
      rest := source;
      return Got(n);
    }

    /** `mp_stream_write_exactly`: all of it, or an error after a part. */
    method SendAll(data: Bytes) returns (ok: bool)
      modifies this`sent
      ensures ok ==> sent == old(sent) + data
      ensures !ok ==> exists n :: 0 <= n <= |data| && sent == old(sent) + data[..n]
    {
      var n :| 0 <= n <= |data|;
      sent := sent + data[..n];
      ok := n == |data|;
      assert ok ==> data[..n] == data;
    }
  }

  // ---- the reader ----

  datatype State = FRAME_HEADER | FRAME_OPT | PAYLOAD | CONTROL

  class WebSocket {
    const sock: Transport
    const buf: array<Byte>
    var msgSz: nat
    var mask: Bytes
    var state: State
    var toRecv: nat
    var maskPos: Byte
    var bufPos: nat
    var opts: Byte
    var wsFlags: Byte
    var lastFlags: Byte

    /** The object between two rounds of the loop: at most six header bytes are buffered. */
    ghost predicate Running()
      reads this, sock, buf
    {
      && sock.Valid() && buf.Length == 6 && |mask| == 4
      && bufPos + toRecv <= 6
      && (state == FRAME_HEADER ==> bufPos + toRecv == 2 && toRecv > 0 && maskPos == 0)
      && (state == FRAME_OPT ==> bufPos + toRecv in {2, 4, 6} && toRecv > 0 && maskPos == 0 && mask == NO_MASK)
      && (state in {PAYLOAD, CONTROL} ==> toRecv == 0)
      && (state == CONTROL <==> state in {PAYLOAD, CONTROL} && lastFlags % 16 >= FRAME_CLOSE)
    }
    /** Between two calls no empty payload is pending. */
    ghost predicate Valid()
      reads this, sock, buf
    {
      Running() && (state in {PAYLOAD, CONTROL} ==> msgSz > 0)
    }
    /** The reference reader that this object stands for. */
    ghost function Abs(): Reader
      requires Running()
      reads this, sock, buf
    {
      if state == FRAME_HEADER then Reader(Head(buf[..bufPos]), wsFlags)
      else if state == FRAME_OPT then Reader(Opt(lastFlags, msgSz, bufPos + toRecv, buf[..bufPos]), wsFlags)
      else if msgSz == 0 then Reader(if lastFlags % 16 == FRAME_CLOSE then Outside else Head([]), wsFlags)
      else if lastFlags % 16 >= FRAME_CLOSE then Reader(Outside, wsFlags)
      else Reader(Body(msgSz, mask, maskPos % 4), wsFlags)
    }

    constructor (sock: Transport, blockingWrite: bool)
      requires sock.Valid()
      ensures Valid() && this.sock == sock && fresh(buf)
      ensures Abs().phase == Head([]) && opts == FRAME_TXT + if blockingWrite then 0x80 else 0
    {
      this.sock := sock;
      buf := new Byte[6](_ => 0);
      state, toRecv, maskPos, bufPos := FRAME_HEADER, 2, 0, 0;
      opts := FRAME_TXT + if blockingWrite then 0x80 else 0;
      msgSz, mask, wsFlags, lastFlags := 0, NO_MASK, 0, 0;
    }

    /** The first part of a round: more header bytes.  They are buffered behind those already
        there; the reference reader has read the same bytes. */
    method FillHeader() returns (r: Outcome)
      requires Running() && toRecv > 0
      modifies this`bufPos, this`toRecv, sock, buf
      ensures sock.Valid() && bufPos + toRecv == old(bufPos + toRecv) && old(bufPos) <= bufPos
      ensures r.Got? ==> 0 < r.n && bufPos == old(bufPos) + r.n && r.n <= |old(sock.rest)|
                         && sock.rest == old(sock.rest)[r.n..] && sock.sent == old(sock.sent)
                         && buf[..bufPos] == old(buf[..bufPos]) + old(sock.rest)[..r.n]
      ensures !r.Got? ==> !r.AssertionFailed? && bufPos == old(bufPos) && sock.rest == old(sock.rest) && buf[..bufPos] == old(buf[..bufPos])
      ensures sock.sent == old(sock.sent)
    {
      r := sock.Recv(buf, bufPos, toRecv);
      if r.Got? {
        assert buf[..bufPos + r.n] == buf[..bufPos] + buf[bufPos..bufPos + r.n];
        assert buf[..bufPos] == old(buf[..bufPos]);
        bufPos := bufPos + r.n;
        toRecv := toRecv - r.n;
      } else {
        assert buf[..bufPos] == old(buf[..bufPos]);
      }
    }

    /** State FRAME_HEADER, both bytes there. */
    method TakeHeader()
      requires sock.Valid() && buf.Length == 6 && state == FRAME_HEADER && bufPos == 2 && toRecv == 0 && maskPos == 0
      requires buf[0] >= 128 && buf[1] % 128 != 127
      modifies this`msgSz, this`mask, this`state, this`toRecv, this`bufPos, this`wsFlags, this`lastFlags
      ensures Running()
      ensures Abs() == Reader(AfterHeader(buf[0], buf[1]), NewFlags(old(wsFlags), buf[0]))
      ensures state != FRAME_HEADER
    {
      var frameType := buf[0] % 16;
      lastFlags := buf[0];
      wsFlags := if frameType == FRAME_CONT then wsFlags % 16 + (buf[0] - frameType) else buf[0];
      mask := NO_MASK;
      var more, sz := 0, buf[1] % 128;
      if sz == 126 {
        more := more + 2;
      }
      if buf[1] >= 128 {
        more := more + 4;
      }
      bufPos, toRecv, msgSz := 0, more, sz;
      if more != 0 {
        state := FRAME_OPT;
        assert buf[..bufPos] == [];
      } else {
        EnterBody();
      }
    }

    /** The header is complete: the payload of a control or of a data frame comes next. */
    method EnterBody()
      requires sock.Valid() && buf.Length == 6 && |mask| == 4 && toRecv == 0 && maskPos == 0
      modifies this`state, this`bufPos
      ensures Running() && state in {PAYLOAD, CONTROL}
      ensures Abs() == Reader(StartBody(lastFlags, msgSz, mask), wsFlags)
    {
      bufPos := 0;
      if lastFlags % 16 >= FRAME_CLOSE {
        state := CONTROL;
      } else {
        state := PAYLOAD;
      }
    }

    /** State FRAME_OPT, all optional header bytes there. */
    method TakeOpt()
      requires sock.Valid() && buf.Length == 6 && |mask| == 4 && state == FRAME_OPT && maskPos == 0
      requires bufPos in {2, 4, 6} && toRecv == 0 && mask == NO_MASK
      modifies this`msgSz, this`mask, this`state, this`bufPos
      ensures Running()
      ensures Abs() == Reader(AfterOpt(lastFlags, old(msgSz), old(buf[..bufPos])), wsFlags)
      ensures state != FRAME_OPT
    {
      hide Feed, FeedAll, Xor, AfterOpt, StartBody, Abs, Running;
      ghost var sz := msgSz;
      ghost var got := buf[..bufPos];
      assert got[0] == buf[0] && got[1] == buf[1];
      if bufPos % 4 == 2 {
        msgSz := 256 * (buf[0] as int) + buf[1];
      }
      if bufPos >= 4 {
        mask := buf[bufPos - 4..bufPos];
        assert mask == got[|got| - 4..];
      }
      AfterOptIs(lastFlags, sz, got);
      EnterBody();
    }

    /** The header states: read on, and take the header when it is complete. */
    method ReadHeader() returns (r: Outcome, ghost eaten: Bytes)
      requires Running() && state in {FRAME_HEADER, FRAME_OPT}
      modifies this, sock, buf
      ensures opts == old(opts) && sock.sent == old(sock.sent) && sock.Valid()
      ensures old(sock.rest) == eaten + sock.rest
      ensures r.Got? ==> Running() && eaten != []
      ensures r.Eof? || r.Error? ==> Valid()
      ensures !r.AssertionFailed? ==> FeedAll(old(Abs()), eaten) == (Abs(), [])
      ensures r.AssertionFailed? ==> FeedAll(old(Abs()), eaten).0.phase.Outside?
    {
      hide Feed, FeedAll, AfterOpt, StartBody, NewFlags;
      ghost var r0, got := Abs(), buf[..bufPos];
      ghost var rest0 := sock.rest;
      r := FillHeader();
      eaten := if r.Got? then rest0[..r.n] else [];
      assert rest0 == eaten + sock.rest && buf[..bufPos] == got + eaten;
      if state == FRAME_HEADER {
        FeedHead(r0, got, eaten);
      } else {
        FeedOpt(r0, lastFlags, msgSz, bufPos + toRecv, got, eaten);
      }
      if !r.Got? {
        return;
      }
      if toRecv != 0 {
        r := Error;
        return;
      }
      if state == FRAME_HEADER {
        assert buf[..2] == [buf[0], buf[1]];
        if buf[0] < 128 || buf[1] % 128 == 127 {
          r := AssertionFailed;
          return;
        }
        TakeHeader();
      } else {
        TakeOpt();
      }
    }

    /** Undo the mask in the caller's buffer. */
    method Unmask(out: array<Byte>, n: nat)
      requires n <= out.Length && out != buf && |mask| == 4
      modifies this`maskPos, out
      ensures out[..n] == Masked(old(out[..n]), mask, old(maskPos) % 4)
      ensures maskPos == (old(maskPos) as int + n) % 256
    {
      hide Masked, Xor;
      ghost var data, p0 := out[..n], maskPos % 4;
      MaskedNone(data[..0], mask, p0);
      var i := 0;
      while i < n
        invariant 0 <= i <= n && maskPos == (old(maskPos) as int + i) % 256
        invariant out[..i] == Masked(data[..i], mask, p0)
        invariant forall k :: i <= k < n ==> out[k] == data[k]
      {
        MaskedNext(data, mask, p0, i);
        ghost var before := out[..i];
        MaskPosition(old(maskPos), i);
        out[i] := Xor(out[i], mask[maskPos % 4]);
        assert out[..i + 1] == before + [out[i]];
        maskPos := (maskPos as int + 1) % 256;
        i := i + 1;
      }
      assert data[..n] == data;
    }

    /** Read into the caller's buffer and unmask. */
    method RecvPayload(out: array<Byte>, size: nat) returns (r: Outcome, ghost eaten: Bytes)
      requires Running() && state in {PAYLOAD, CONTROL} && msgSz > 0 && out != buf && size <= out.Length
      modifies sock, out, this`msgSz, this`maskPos
      ensures Running() && old(sock.rest) == eaten + sock.rest && !r.AssertionFailed?
      ensures r.Got? ==> 0 < r.n <= size && eaten != []
      ensures !r.Got? ==> msgSz == old(msgSz)
      ensures !old(Abs()).phase.Outside? ==>
                FeedAll(old(Abs()), eaten) == (Abs(), if r.Got? then out[..r.n] else [])
    {
      hide Feed, FeedAll, Masked, Xor;
      ghost var r0, rest0, left, p0 := Abs(), sock.rest, msgSz, maskPos % 4;
      var sz := if size < msgSz then size else msgSz;
      r := sock.Recv(out, 0, sz);
      if !r.Got? {
        eaten := [];
        FeedNone(r0);
        return;
      }
      eaten := rest0[..r.n];
      assert out[..r.n] == eaten;
      Unmask(out, r.n);
      msgSz := msgSz - r.n;
      if !r0.phase.Outside? {
        FeedBody(r0, left, mask, p0, eaten);
        MaskPosition(old(maskPos), r.n);
      }
    }

    /** The payload states.  `Continue` stands for the `continue` of the source. */
    method ReadBody(out: array<Byte>, size: nat) returns (r: Round, ghost eaten: Bytes)
      requires Running() && state in {PAYLOAD, CONTROL} && out != buf && size <= out.Length
      modifies this, sock, out
      ensures Running() && opts == old(opts) && old(sock.rest) == eaten + sock.rest
      ensures r.Return? && r.result.Got? ==> 0 < r.result.n <= size
      ensures r.Continue? && eaten == [] ==> state == FRAME_HEADER
      ensures !old(Abs()).phase.Outside? ==>
                && (r.Return? ==> Valid() && !r.result.AssertionFailed?)
                && FeedAll(old(Abs()), eaten) == (Abs(), if r.Return? && r.result.Got? then out[..r.result.n] else [])
    {
      hide Feed, FeedAll;
      FeedNone(Abs());
      eaten := [];
      var outSz := 0;
      if msgSz != 0 {
        var got;
        got, eaten := RecvPayload(out, size);
        if !got.Got? {
          return Return(got), eaten;
        }
        outSz := got.n;
      }
      if msgSz == 0 {
        var lastState := state;
        state, toRecv, maskPos, bufPos := FRAME_HEADER, 2, 0, 0;
        assert buf[..bufPos] == [];
        if lastState == CONTROL {
          if lastFlags % 16 == FRAME_CLOSE {
            var _ := Write([0x88, 0]);
            return Return(Eof), eaten;
          }
          return Continue, eaten;
        }
      }
      if outSz != 0 {
        return Return(Got(outSz)), eaten;
      }
      return Continue, eaten;
    }

    /** `websocket_read`.  However the transport cuts the stream, the bytes returned and the state
        left behind are those of the reference reader on the bytes taken so far. */
    method Read(out: array<Byte>, size: nat) returns (r: Outcome, ghost eaten: Bytes)
      requires Valid() && out != buf && size <= out.Length
      modifies this, sock, buf, out
      ensures opts == old(opts) && old(sock.rest) == eaten + sock.rest && sock.Valid()
      ensures r.Got? ==> 0 < r.n <= size
      ensures !FeedAll(old(Abs()), eaten).0.phase.Outside? ==>
                && Valid() && !r.AssertionFailed?
                && FeedAll(old(Abs()), eaten) == (Abs(), if r.Got? then out[..r.n] else [])
    {
      hide Feed, FeedAll;
      ghost var r0, rest0 := Abs(), sock.rest;
      eaten := [];
      FeedNone(r0);
      while true
        invariant Running() && opts == old(opts) && rest0 == eaten + sock.rest
        invariant FeedAll(r0, eaten).0.phase.Outside? || FeedAll(r0, eaten) == (Abs(), [])
        decreases |sock.rest|, if state in {PAYLOAD, CONTROL} then 1 else 0
      {
        ghost var r1, more := Abs(), [];
        if state in {FRAME_HEADER, FRAME_OPT} {
          r, more := ReadHeader();
          Advance(r0, eaten, r1, more);
          eaten := eaten + more;
          if !r.Got? {
            return;
          }
        } else {
          var round;
          round, more := ReadBody(out, size);
          Advance(r0, eaten, r1, more);
          eaten := eaten + more;
          if round.Return? {
            r := round.result;
            return;
          }
        }
      }
    }

    /** `websocket_write`: one final frame with the object's opcode, unmasked. */
    method Write(data: Bytes) returns (ok: bool)
      requires |data| < 0x10000
      modifies sock`sent
      ensures ok ==> sock.sent == old(sock.sent) + Encode(WriterFrame(opts, data))
    {
      hide Encode, Masked, WriterFrame;
      var header: Bytes;
      if |data| < 126 {
        header := [0x80 + opts % 16, |data|];
      } else {
        var hi, lo := |data| / 256, |data| % 256;
        header := [0x80 + opts % 16, 126, hi, lo];
      }
      ghost var sent0 := sock.sent;
      ok := sock.SendAll(header);
      if ok {
        ok := sock.SendAll(data);
      }
      WriterEncodes(opts, data, header);
      assert sent0 + header + data == sent0 + (header + data);
    }
  }

  datatype Round = Return(result: Outcome) | Continue

  lemma AfterOptIs(first: Byte, size: nat, got: Bytes)
    requires |got| in {2, 4, 6}
    ensures AfterOpt(first, size, got)
         == StartBody(first, if |got| == 4 then size else 256 * (got[0] as int) + got[1],
                      if |got| == 2 then NO_MASK else got[|got| - 4..])
  {}
  lemma MaskPosition(p: Byte, i: nat)
    ensures (p as int + i) % 256 % 4 == (p as int % 4 + i) % 4
    ensures ((p as int + i) % 256 + 1) % 256 == (p as int + (i + 1)) % 256
  {}
  lemma MaskedNone(data: Bytes, mask: Bytes, pos: nat)
    requires |mask| == 4 && pos < 4 && data == []
    ensures Masked(data, mask, pos) == []
  {}
  lemma {:induction false} MaskedNext(data: Bytes, mask: Bytes, pos: nat, i: nat)
    requires |mask| == 4 && pos < 4 && i < |data|
    ensures Masked(data[..i + 1], mask, pos) == Masked(data[..i], mask, pos) + [Xor(data[i], mask[(pos + i) % 4])]
    decreases i
  {
    if i > 0 {
      MaskedNext(data[1..], mask, (pos + 1) % 4, i - 1);
      assert data[..i + 1][1..] == data[1..][..i] && data[..i][1..] == data[1..][..i - 1];
      assert ((pos + 1) % 4 + (i - 1)) % 4 == (pos + i) % 4;
    } else {
      assert data[..1][1..] == [] && data[..0] == [];
    }
  }

  lemma FeedNone(r: Reader)
    requires WellFormed(r.phase)
    ensures FeedAll(r, []) == (r, [])
  {}
  lemma Advance(r0: Reader, a: Bytes, r1: Reader, b: Bytes)
    requires WellFormed(r0.phase) && WellFormed(r1.phase)
    requires FeedAll(r0, a).0.phase.Outside? || FeedAll(r0, a) == (r1, [])
    ensures FeedAll(r0, a).0.phase.Outside? ==> FeedAll(r0, a + b).0.phase.Outside?
    ensures !FeedAll(r0, a).0.phase.Outside? ==> FeedAll(r0, a + b) == FeedAll(r1, b)
  {
    hide Feed, FeedAll;
    if FeedAll(r0, a).0.phase.Outside? {
      FeedOutside(r0, a, b);
    } else {
      var n := FeedAll(r1, b);
      FeedThen(r0, a, r1, b, n.0, n.1);
    }
  }

  // ---- the writer ----

  function WriterFrame(opts: Byte, data: Bytes): Frame {
    Frame(0x80 + opts % 16, |data| >= 126, [], data)
  }
  lemma {:induction false} MaskedByZero(data: Bytes, pos: nat)
    requires pos < 4
    ensures Masked(data, NO_MASK, pos) == data
    decreases |data|
  {
    if data != [] {
      XorZero(data[0]);
      MaskedByZero(data[1..], (pos + 1) % 4);
    }
  }
  lemma WriterEncodes(opts: Byte, data: Bytes, header: Bytes)
    requires |data| < 0x10000
    requires header == if |data| < 126 then [0x80 + opts % 16, |data|]
                       else [0x80 + opts % 16, 126, |data| / 256, |data| % 256]
    ensures Encode(WriterFrame(opts, data)) == header + data
  {
    hide Masked, LengthByte, LengthBytes;
    MaskedByZero(data, 0);
    var f := WriterFrame(opts, data);
    WriterHeader(opts, data, header);
    assert MaskOf(f) == NO_MASK;
  }
  lemma WriterHeader(opts: Byte, data: Bytes, header: Bytes)
    requires |data| < 0x10000
    requires header == if |data| < 126 then [0x80 + opts % 16, |data|]
                       else [0x80 + opts % 16, 126, |data| / 256, |data| % 256]
    ensures var f := WriterFrame(opts, data);
            Encodable(f) && [f.first, LengthByte(f)] + (LengthBytes(f) + f.mask) == header
  {}
  /** What a writer with a data opcode sends, a reader returns. */
  lemma WriterThenReader(opts: Byte, data: Bytes, flags: Byte)
    requires |data| < 0x10000 && opts % 16 < FRAME_CLOSE
    ensures var r := Reader(Head([]), flags);
            FeedAll(r, Encode(WriterFrame(opts, data))) == (Reader(Head([]), NewFlags(flags, 0x80 + opts % 16)), data)
  {
    FeedFrame(Reader(Head([]), flags), WriterFrame(opts, data));
  }

  // ---- whole connections ----

  /** Any series of reads with buffers of any sizes, over a stream of final frames: what has
      been returned is always a prefix of the payloads, and all of them once the stream is used up. */
  method ReadMany(ws: WebSocket, sizes: seq<nat>, ghost fs: seq<Frame>) returns (data: Bytes)
    requires ws.Valid() && ws.Abs().phase == Head([])
    requires (forall f :: f in fs ==> Readable(f)) && ws.sock.rest == EncodeAll(fs)
    modifies ws, ws.sock, ws.buf
    ensures data <= Payloads(fs)
    ensures ws.sock.rest == [] ==> data == Payloads(fs) && ws.wsFlags == FinalFlags(old(ws.wsFlags), fs)
  {
    hide Feed, FeedAll, Encode, EncodeAll;
    ghost var r0, stream, eaten := ws.Abs(), ws.sock.rest, [];
    ReadsAllFrames(r0, fs);
    data := [];
    FeedNone(r0);
    for i := 0 to |sizes|
      invariant ws.Valid() && stream == eaten + ws.sock.rest
      invariant FeedAll(r0, eaten) == (ws.Abs(), data)
    {
      var out := new Byte[sizes[i]];
      ghost var r1 := ws.Abs();
      var r, more := ws.Read(out, sizes[i]);
      assert eaten + (more + ws.sock.rest) == stream;
      StillInside(r0, eaten, r1, data, more, ws.sock.rest);
      FeedCat(r0, eaten, more);
      eaten := eaten + more;
      if r.Got? {
        data := data + out[..r.n];
      } else {
        assert data + [] == data;
      }
    }
    FeedCat(r0, eaten, ws.sock.rest);
    if ws.sock.rest == [] {
      assert eaten == stream;
    }
  }
  lemma StillInside(r0: Reader, a: Bytes, r1: Reader, data: Bytes, b: Bytes, c: Bytes)
    requires WellFormed(r0.phase) && WellFormed(r1.phase) && FeedAll(r0, a) == (r1, data)
    requires !FeedAll(r0, a + (b + c)).0.phase.Outside?
    ensures !FeedAll(r1, b).0.phase.Outside?
  {
    FeedCat(r0, a, b + c);
    if FeedAll(r1, b).0.phase.Outside? {
      FeedOutside(r1, b, c);
    }
  }
}
