/** The base64 encoder, which works in two passes over its output buffer, and the tolerant decoder,
    which collects bits in a 32-bit register (section 4 of RFC 4648). Masks and shifts by constants
    are written as remainders and quotients. */
module Base64 {
  import Arithmetic

  type Byte = b: int | 0 <= b < 256
  type Sextet = v: int | 0 <= v < 64

  const PAD: Byte := 61
  const NEWLINE: Byte := 10

  datatype Option<+T> = Some(value: T) | None
  datatype Result = Ok(bytes: seq<Byte>) | IncorrectPadding

  // ---- the alphabet ----

  /** `mod_binascii_sextet`. */
  function SextetOf(ch: Byte): Option<Sextet> {
    if 'A' as int <= ch <= 'Z' as int then Some(ch - 'A' as int)
    else if 'a' as int <= ch <= 'z' as int then Some(ch - 'a' as int + 26)
    else if '0' as int <= ch <= '9' as int then Some(ch - '0' as int + 52)
    else if ch == '+' as int then Some(62)
    else if ch == '/' as int then Some(63)
    else None
  }
  /** The second pass of the encoder on one number; 64 stands for padding. */
  function CharOf(v: Byte): Byte
    requires v <= 64
  {
    if v < 26 then v + 'A' as int
    else if v < 52 then v + 'a' as int - 26
    else if v < 62 then v + '0' as int - 52
    else if v == 62 then '+' as int
    else if v == 63 then '/' as int
    else PAD
  }
  /** The alphabet is a one-to-one table: each of the two functions undoes the other. */
  lemma Alphabet(v: Byte, ch: Byte)
    requires v <= 64
    ensures SextetOf(CharOf(v)) == if v < 64 then Some(v) else None
    ensures SextetOf(ch).Some? ==> CharOf(SextetOf(ch).value) == ch
    ensures CharOf(v) == PAD <==> v == 64
  {}
  predicate Junk(ch: Byte) {
    SextetOf(ch) == None && ch != PAD
  }

  // ---- what a text means ----

  /** How many bits of the last sextet are waiting in the register after `n` sextets. */
  function Waiting(n: nat): nat {
    if n % 4 == 0 then 0 else if n % 4 == 1 then 6 else if n % 4 == 2 then 4 else 2
  }
  lemma WaitingNext(n: nat)
    ensures Waiting(n + 1) == if Waiting(n) == 0 then 6 else Waiting(n) - 2
    ensures Waiting(n) == 0 || Waiting(n) == 2 || Waiting(n) == 4 || Waiting(n) == 6
  {}
  /** The bytes whose bits are those of the sextets, in order; bits left over make no byte. Every bit
      is in a byte or waiting. */
  function Bytes(s: seq<Sextet>): (b: seq<Byte>)
    ensures 8 * |b| + Waiting(|s|) == 6 * |s|
  {
    if s == [] then []
    else
      var n: nat := |s| - 1;
      WaitingNext(n);
      Bytes(s[..n]) + if n % 4 == 0 then [] else [Byte4(n % 4, s[n - 1], s[n])]
  }
  /** The byte whose bits are the last of one sextet and the first of the next, the second of the two
      being number `k` of its group of four. */
  function Byte4(k: nat, a: int, b: int): Byte
    requires 0 < k < 4 && 0 <= a < 64 && 0 <= b < 64
  {
    if k == 1 then a * 4 + b / 16 else if k == 2 then a % 16 * 16 + b / 4 else a % 4 * 64 + b
  }
  /** The meaning of the rest of a text after the sextets `s`, a pad character since the last of them
      or not: three sextets and a pad, or two and two, end it; otherwise the sextets must come out
      even. */
  function Meaning(text: seq<Byte>, s: seq<Sextet>, padded: bool): Result {
    if text == [] then if |s| % 4 == 0 then Ok(Bytes(s)) else IncorrectPadding
    else if text[0] == PAD then
      if |s| % 4 == 3 || (|s| % 4 == 2 && padded) then Ok(Bytes(s)) else Meaning(text[1..], s, true)
    else match SextetOf(text[0])
      case Some(v) => Meaning(text[1..], s + [v], false)
      case None => Meaning(text[1..], s, padded)
  }
  function Decoded(text: seq<Byte>): Result {
    Meaning(text, [], false)
  }

  /** Characters outside the alphabet do not matter, wherever they are. */
  lemma {:induction false} JunkInserted(a: seq<Byte>, junk: seq<Byte>, b: seq<Byte>, s: seq<Sextet>, padded: bool)
    requires forall i :: 0 <= i < |junk| ==> Junk(junk[i])
    ensures Meaning(a + junk + b, s, padded) == Meaning(a + b, s, padded)
    decreases |a| + |junk|
  {
    var t := a + junk + b;
    if a != [] {
      assert t[1..] == a[1..] + junk + b && (a + b)[1..] == a[1..] + b;
      JunkInserted(a[1..], junk, b, s, true);
      JunkInserted(a[1..], junk, b, s, padded);
      if SextetOf(a[0]).Some? {
        JunkInserted(a[1..], junk, b, s + [SextetOf(a[0]).value], false);
      }
    } else if junk != [] {
      assert t[1..] == a + junk[1..] + b;
      JunkInserted(a, junk[1..], b, s, padded);
    } else {
      assert t == a + b;
    }
  }
  lemma JunkIgnored(a: seq<Byte>, junk: seq<Byte>, b: seq<Byte>)
    requires forall i :: 0 <= i < |junk| ==> Junk(junk[i])
    ensures Decoded(a + junk + b) == Decoded(a + b)
  {
    JunkInserted(a, junk, b, [], false);
  }
  /** Decoding does not make more bytes than three for four characters. */
  lemma {:induction false} DecodedLength(text: seq<Byte>, s: seq<Sextet>, padded: bool)
    ensures var r := Meaning(text, s, padded); r.Ok? ==> 4 * |r.bytes| <= 3 * (|s| + |text|)
  {
    if text != [] {
      DecodedLength(text[1..], s, true);
      DecodedLength(text[1..], s, padded);
      if SextetOf(text[0]).Some? {
        DecodedLength(text[1..], s + [SextetOf(text[0]).value], false);
      }
    }
  }

  // ---- the decoder ----

  /** The low bits of the register are those bits. */
  ghost predicate InRegister(shift: int, s: seq<Sextet>) {
    var n := |s|;
    && (n % 4 == 1 ==> shift % 64 == s[n - 1])
    && (n % 4 == 2 ==> shift % 16 == s[n - 1] % 16)
    && (n % 4 == 3 ==> shift % 4 == s[n - 1] % 4)
  }
  function Push(shift: int, v: Sextet): (r: int) {
    (shift * 64) % 0x1_0000_0000 + v
  }
  /** The eight bits above the lowest `nbits`. */
  function TopByte(shift: int, nbits: nat): Byte
    requires nbits == 0 || nbits == 2 || nbits == 4
  {
    (if nbits == 0 then shift else if nbits == 2 then shift / 4 else shift / 16) % 256
  }
  /** Whatever falls off the top of the register, the low bits are as if nothing had. */
  lemma PushLow(shift: int, v: Sextet)
    requires 0 <= shift < 0x1_0000_0000
    ensures var r := Push(shift, v);
            && 0 <= r < 0x1_0000_0000 && r % 64 == v && r % 16 == v % 16 && r % 4 == v % 4
            && r / 16 % 256 == shift % 64 * 4 + v / 16
            && r / 4 % 256 == shift % 16 * 16 + v / 4
            && r % 256 == shift % 4 * 64 + v
  {
    var k, u := shift / 0x400_0000, shift % 0x400_0000;
    Arithmetic.DivUnique(shift * 64, 0x1_0000_0000, k, u * 64);
    hide Push;
    FourthByte(u, v);
    SecondByte(u, v);
    ThirdByte(u, v);
    Fold(k, u, 64);
    Fold(k, u, 16);
    Fold(k, u, 4);
  }
  /** The register's top does not matter to a remainder by a small power of two. */
  lemma Fold(k: nat, u: nat, m: nat)
    requires m == 4 || m == 16 || m == 64
    ensures (k * 0x400_0000 + u) % m == u % m
  {
    Arithmetic.DivUnique(k * 0x400_0000 + u, m, k * (0x400_0000 / m) + u / m, u % m);
  }
  lemma SecondByte(u: nat, v: Sextet)
    ensures (u * 64 + v) / 16 % 256 == u % 64 * 4 + v / 16
  {
    Arithmetic.DivUnique(u * 64 + v, 16, u * 4 + v / 16, v % 16);
    Arithmetic.DivUnique(u * 4 + v / 16, 256, u / 64, u % 64 * 4 + v / 16);
  }
  lemma ThirdByte(u: nat, v: Sextet)
    ensures (u * 64 + v) / 4 % 256 == u % 16 * 16 + v / 4
  {
    Arithmetic.DivUnique(u * 64 + v, 4, u * 16 + v / 4, v % 4);
    Arithmetic.DivUnique(u * 16 + v / 4, 256, u / 16, u % 16 * 16 + v / 4);
  }
  lemma FourthByte(u: nat, v: Sextet)
    ensures (u * 64 + v) % 256 == u % 4 * 64 + v && (u * 64 + v) % 64 == v
    ensures (u * 64 + v) % 16 == v % 16 && (u * 64 + v) % 4 == v % 4
  {
    Arithmetic.DivUnique(u * 64 + v, 256, u / 4, u % 4 * 64 + v);
    Arithmetic.DivUnique(u * 64 + v, 64, u, v);
    Arithmetic.DivUnique(u * 64 + v, 16, u * 4 + v / 16, v % 16);
    Arithmetic.DivUnique(u * 64 + v, 4, u * 16 + v / 4, v % 4);
  }
  /** One more sextet pushed into the register: the byte that can be taken out, if any, is the next
      byte of the meaning. */
  lemma PushStep(shift: int, s: seq<Sextet>, v: Sextet)
    requires 0 <= shift < 0x1_0000_0000 && InRegister(shift, s)
    ensures 0 <= Push(shift, v) < 0x1_0000_0000 && InRegister(Push(shift, v), s + [v])
    ensures Waiting(|s|) == 0 ==> Bytes(s + [v]) == Bytes(s)
    ensures Waiting(|s|) != 0 ==> Bytes(s + [v]) == Bytes(s) + [TopByte(Push(shift, v), Waiting(|s|) - 2)]
  {
    PushLow(shift, v);
    BytesNext(s, v);
    RegisterNext(shift, Push(shift, v), s, v);
    hide Push, Bytes, InRegister;
  }
  lemma BytesNext(s: seq<Sextet>, v: Sextet)
    ensures var k := |s| % 4;
            Bytes(s + [v]) == if k == 0 then Bytes(s) else Bytes(s) + [Byte4(k, s[|s| - 1], v)]
  {
    assert (s + [v])[..|s|] == s;
  }
  lemma RegisterNext(shift: int, t: int, s: seq<Sextet>, v: Sextet)
    requires InRegister(shift, s) && t % 64 == v && t % 16 == v % 16 && t % 4 == v % 4
    requires t / 16 % 256 == shift % 64 * 4 + v / 16
    requires t / 4 % 256 == shift % 16 * 16 + v / 4
    requires t % 256 == shift % 4 * 64 + v
    ensures InRegister(t, s + [v])
    ensures Waiting(|s|) != 0 ==> TopByte(t, Waiting(|s|) - 2) == Byte4(|s| % 4, s[|s| - 1], v)
  {}

  lemma MeaningNext(text: seq<Byte>, i: nat, s: seq<Sextet>, padded: bool)
    requires i < |text|
    ensures Meaning(text[i..], s, padded)
         == (if text[i] == PAD && (Waiting(|s|) == 2 || (Waiting(|s|) == 4 && padded)) then Ok(Bytes(s))
             else match SextetOf(text[i])
                  case Some(v) => Meaning(text[i + 1..], s + [v], false)
                  case None => Meaning(text[i + 1..], s, padded || text[i] == PAD))
  {
    assert text[i..][1..] == text[i + 1..];
  }
  method Put(out: array<Byte>, len: nat, b: Byte)
    requires len < out.Length
    modifies out
    ensures out[..len + 1] == old(out[..len]) + [b]
  {
    out[len] := b;
  }

  /** What the decoder has taken in so far is in the output and in the register. */
  ghost predicate Collected(out: seq<Byte>, shift: int, nbits: int, s: seq<Sextet>) {
    && out == Bytes(s) && nbits == Waiting(|s|)
    && 0 <= shift < 0x1_0000_0000 && InRegister(shift, s)
  }
  /** The decoder's step on a character of the alphabet. */
  method Shift(out: array<Byte>, len: nat, shift: int, nbits: int, v: Sextet, ghost s: seq<Sextet>)
    returns (len': nat, shift': int, nbits': int)
    requires len < out.Length && Collected(out[..len], shift, nbits, s)
    modifies out
    ensures len' <= out.Length && Collected(out[..len'], shift', nbits', s + [v])
  {
    hide Bytes, InRegister, Push, TopByte, Waiting;
    PushStep(shift, s, v);
    WaitingNext(|s|);
    len', shift', nbits' := len, Push(shift, v), nbits + 6;
    if nbits' >= 8 {
      nbits' := nbits' - 8;
      Put(out, len, TopByte(shift', nbits'));
      len' := len + 1;
    }
  }
  lemma CollectedSize(out: seq<Byte>, shift: int, nbits: int, s: seq<Sextet>)
    requires Collected(out, shift, nbits, s)
    ensures 4 * |out| <= 3 * |s| && nbits == Waiting(|s|) && out == Bytes(s)
  {}

  /** `mod_binascii_a2b_base64`. */
  method A2b(input: seq<Byte>) returns (r: Result)
    ensures r == Decoded(input)
  {
    var out := new Byte[|input| * 3 / 4 + 1];
    var len := 0;
    var shift := 0;
    var nbits := 0;
    var hadpad := false;
    ghost var s: seq<Sextet> := [];
    var i := 0;
    assert input[0..] == input;
    while i < |input|
      invariant i <= |input| && |s| <= i && 0 <= len <= out.Length && Collected(out[..len], shift, nbits, s)
      invariant Decoded(input) == Meaning(input[i..], s, hadpad)
    {
      MeaningNext(input, i, s, hadpad);
      CollectedSize(out[..len], shift, nbits, s);
      hide Decoded, Meaning, Collected, SextetOf;
      if input[i] == PAD {
        if nbits == 2 || (nbits == 4 && hadpad) {
          nbits := 0;
          break;
        }
        hadpad := true;
      }
      var sextet := SextetOf(input[i]);
      i := i + 1;
      if sextet.None? {
        continue;
      }
      hadpad := false;
      len, shift, nbits := Shift(out, len, shift, nbits, sextet.value, s);
      s := s + [sextet.value];
    }
    assert input[|input|..] == [];
    if nbits != 0 {
      return IncorrectPadding;
    }
    return Ok(out[..len]);
  }

  // ---- the encoder ----

  /** The numbers of the first pass: four for three bytes, with 64 for what is missing at the end. */
  function Values(x: seq<Byte>): (v: seq<Byte>)
    ensures |v| == (|x| + 2) / 3 * 4
    ensures forall i :: 0 <= i < |v| ==> v[i] <= 64
  {
    if x == [] then []
    else if |x| == 1 then [x[0] / 4, x[0] % 4 * 16, 64, 64]
    else if |x| == 2 then [x[0] / 4, Middle(x[0] % 4 * 16, x[1] / 16), x[1] % 16 * 4, 64]
    else Quad(x[0], x[1], x[2]) + Values(x[3..])
  }
  function Quad(a: Byte, b: Byte, c: Byte): (v: seq<Sextet>)
    ensures |v| == 4
  {
    [a / 4, Middle(a % 4 * 16, b / 16), Middle(b % 16 * 4, c / 64), c % 64]
  }
  function Middle(high: int, low: int): Sextet
    requires 0 <= high && 0 <= low && high + low < 64
  {
    high + low
  }
  function Chars(v: seq<Byte>): seq<Byte>
    requires forall i :: 0 <= i < |v| ==> v[i] <= 64
  {
    seq(|v|, i requires 0 <= i < |v| => CharOf(v[i]))
  }
  function Encoded(x: seq<Byte>, newline: bool): seq<Byte> {
    Chars(Values(x)) + if newline then [NEWLINE] else []
  }

  /** `mod_binascii_b2a_base64`. */
  method B2a(input: seq<Byte>, newline: bool) returns (out: array<Byte>)
    ensures out[..] == Encoded(input, newline)
    ensures fresh(out)
  {
    var n := if |input| != 0 then ((|input| - 1) / 3 + 1) * 4 else 0;
    out := new Byte[n + if newline then 1 else 0](_ => 0);
    FirstPass(input, out, n);
    SecondPass(out, n, Values(input));
    if newline {
      out[n] := NEWLINE;
    }
    assert out[..] == out[..n] + if newline then [NEWLINE] else [];
  }
  /** The first pass of the encoder. */
  method FirstPass(input: seq<Byte>, out: array<Byte>, n: nat)
    requires n == |Values(input)| <= out.Length
    modifies out
    ensures out[..n] == Values(input)
  {
    var i, p, o := |input|, 0, 0;
    assert input[0..] == input && out[..0] == [];
    assert Joined([], Values(input), Values(input)) by { assert [] + Values(input) == Values(input); }
    while i >= 3
      invariant i == |input| - p >= 0 && 0 <= p && 0 <= o && o + |Values(input[p..])| == n
      invariant Joined(out[..o], Values(input[p..]), Values(input))
    {
      hide Values, Quad, Joined;
      ValuesNext(input, p);
      var q := Quad(input[p], input[p + 1], input[p + 2]);
      MoveOver(out[..o], q, Values(input[p + 3..]), Values(input));
      PutFour(out, o, q);
      i, p, o := i - 3, p + 3, o + 4;
    }
    LastGroup(input[p..], out, o);
  }
  ghost predicate Joined(done: seq<Byte>, rest: seq<Byte>, whole: seq<Byte>) {
    done + rest == whole
  }
  lemma MoveOver(done: seq<Byte>, q: seq<Byte>, rest: seq<Byte>, whole: seq<Byte>)
    requires Joined(done, q + rest, whole)
    ensures Joined(done + q, rest, whole)
  {
    assert done + q + rest == done + (q + rest);
  }
  /** One or two bytes left over, or none. */
  method LastGroup(rest: seq<Byte>, out: array<Byte>, o: nat)
    requires |rest| < 3 && o + |Values(rest)| <= out.Length
    modifies out
    ensures out[..o + |Values(rest)|] == old(out[..o]) + Values(rest)
  {
    if |rest| != 0 {
      var a, b := rest[0], if |rest| == 2 then rest[1] else 0;
      if |rest| == 2 {
        PutFour(out, o, [a / 4, Middle(a % 4 * 16, b / 16), b % 16 * 4, 64]);
      } else {
        PutFour(out, o, [a / 4, a % 4 * 16, 64, 64]);
      }
    } else {
      assert out[..o] + [] == out[..o];
    }
  }
  method PutFour(out: array<Byte>, o: nat, v: seq<Byte>)
    requires o + 4 <= out.Length && |v| == 4
    modifies out
    ensures out[..o + 4] == old(out[..o]) + v
  {
    out[o], out[o + 1], out[o + 2], out[o + 3] := v[0], v[1], v[2], v[3];
  }
  lemma ValuesNext(x: seq<Byte>, p: nat)
    requires p + 3 <= |x|
    ensures Values(x[p..]) == Quad(x[p], x[p + 1], x[p + 2]) + Values(x[p + 3..])
  {
    assert x[p..][3..] == x[p + 3..];
  }
  /** The second pass, in place. */
  method SecondPass(out: array<Byte>, n: nat, ghost v: seq<Byte>)
    requires n <= out.Length && out[..n] == v && forall i :: 0 <= i < |v| ==> v[i] <= 64
    modifies out
    ensures out[..n] == Chars(v)
  {
    var j := 0;
    while j < n
      invariant j <= n
      invariant forall i :: 0 <= i < n ==> out[i] == if i < j then CharOf(v[i]) else v[i]
    {
      hide CharOf;
      out[j] := CharOf(out[j]);
      j := j + 1;
    }
  }
  /** The encoding is as long as the buffer allocated for it. */
  lemma EncodedLength(x: seq<Byte>, newline: bool)
    ensures |Encoded(x, newline)| == (if x != [] then ((|x| - 1) / 3 + 1) * 4 else 0) + if newline then 1 else 0
  {}

  // ---- there and back ----

  lemma JoinBits(a: Byte, b: Byte, c: Byte)
    ensures var q := Quad(a, b, c); Byte4(1, q[0], q[1]) == a && Byte4(2, q[1], q[2]) == b && Byte4(3, q[2], q[3]) == c
  {
    Arithmetic.DivUnique(a % 4 * 16 + b / 16, 16, a % 4, b / 16);
    Arithmetic.DivUnique(b % 16 * 4 + c / 64, 4, b % 16, c / 64);
  }
  lemma BytesPair(s: seq<Sextet>, u: Sextet, v: Sextet, k: nat)
    requires 0 < k < 4 && |s| % 4 == k - 1
    ensures Bytes(s + [u] + [v]) == Bytes(s + [u]) + [Byte4(k, u, v)]
  {
    hide Bytes, Byte4;
    ModNext(|s|, k - 1);
    BytesNext(s + [u], v);
  }
  lemma ModNext(n: nat, k: nat)
    requires n % 4 == k && k < 3
    ensures (n + 1) % 4 == k + 1
  {}
  /** Three bytes, encoded, are decoded to themselves. */
  lemma QuadBack(a: Byte, b: Byte, c: Byte, s: seq<Sextet>)
    requires |s| % 4 == 0
    ensures var q := Quad(a, b, c);
            && Bytes(s + [q[0]] + [q[1]]) == Bytes(s) + [a]
            && Bytes(s + [q[0]] + [q[1]] + [q[2]]) == Bytes(s) + [a] + [b]
            && Bytes(s + [q[0]] + [q[1]] + [q[2]] + [q[3]]) == Bytes(s) + [a] + [b] + [c]
  {
    hide Bytes, Byte4, Quad;
    var q := Quad(a, b, c);
    JoinBits(a, b, c);
    BytesNext(s, q[0]);
    ModNext(|s|, 0);
    ModNext(|s| + 1, 1);
    BytesPair(s, q[0], q[1], 1);
    BytesPair(s + [q[0]], q[1], q[2], 2);
    BytesPair(s + [q[0]] + [q[1]], q[2], q[3], 3);
  }
  lemma ReadsChar(v: Byte, text: seq<Byte>, s: seq<Sextet>, padded: bool)
    requires v < 64
    ensures Meaning([CharOf(v)] + text, s, padded) == Meaning(text, s + [v], false)
  {
    Alphabet(v, CharOf(v));
    assert ([CharOf(v)] + text)[1..] == text;
  }
  lemma ReadsPad(text: seq<Byte>, s: seq<Sextet>, padded: bool)
    requires |s| % 4 == 3 || |s| % 4 == 2
    ensures Meaning([PAD] + text, s, padded)
         == if |s| % 4 == 3 || padded then Ok(Bytes(s)) else Meaning(text, s, true)
  {
    assert ([PAD] + text)[1..] == text;
  }
  /** Four characters of the encoding. */
  lemma ReadsQuad(a: Byte, b: Byte, c: Byte, text: seq<Byte>, s: seq<Sextet>, padded: bool)
    ensures var q := Quad(a, b, c);
            Meaning(Chars(q) + text, s, padded) == Meaning(text, s + [q[0]] + [q[1]] + [q[2]] + [q[3]], false)
  {
    var q := Quad(a, b, c);
    hide Meaning, CharOf, Quad;
    var c3 := [CharOf(q[3])] + text;
    var c2 := [CharOf(q[2])] + c3;
    var c1 := [CharOf(q[1])] + c2;
    assert Chars(q) + text == [CharOf(q[0])] + c1;
    ReadsChar(q[0], c1, s, padded);
    ReadsChar(q[1], c2, s + [q[0]], false);
    ReadsChar(q[2], c3, s + [q[0]] + [q[1]], false);
    ReadsChar(q[3], text, s + [q[0]] + [q[1]] + [q[2]], false);
  }
  lemma OneByOne(a: Byte, b: Byte, c: Byte, d: Byte, t: seq<Byte>)
    ensures [a, b, c, d] + t == [a] + ([b] + ([c] + ([d] + t)))
  {}
  lemma CharsOfOne(a: Byte)
    ensures var q := Quad(a, 0, 0); Chars(Values([a])) == [CharOf(q[0]), CharOf(q[1]), PAD, PAD]
  {}
  lemma CharsOfTwo(a: Byte, b: Byte)
    ensures var q := Quad(a, b, 0); Chars(Values([a, b])) == [CharOf(q[0]), CharOf(q[1]), CharOf(q[2]), PAD]
  {}
  /** The last characters, for one or two bytes. */
  lemma ReadsOne(a: Byte, tail: seq<Byte>, s: seq<Sextet>, padded: bool)
    requires |s| % 4 == 0
    ensures Meaning(Chars(Values([a])) + tail, s, padded) == Ok(Bytes(s) + [a])
  {
    hide *;
    var q := Quad(a, 0, 0);
    CharsOfOne(a);
    QuadBack(a, 0, 0, s);
    ModNext(|s|, 0);
    ModNext(|s| + 1, 1);
    var c2 := [PAD] + ([PAD] + tail);
    var c1 := [CharOf(q[1])] + c2;
    OneByOne(CharOf(q[0]), CharOf(q[1]), PAD, PAD, tail);
    ReadsChar(q[0], c1, s, padded);
    ReadsChar(q[1], c2, s + [q[0]], false);
    ReadsPad([PAD] + tail, s + [q[0]] + [q[1]], false);
    ReadsPad(tail, s + [q[0]] + [q[1]], true);
  }
  lemma ReadsTwo(a: Byte, b: Byte, tail: seq<Byte>, s: seq<Sextet>, padded: bool)
    requires |s| % 4 == 0
    ensures Meaning(Chars(Values([a, b])) + tail, s, padded) == Ok(Bytes(s) + [a] + [b])
  {
    hide *;
    var q := Quad(a, b, 0);
    CharsOfTwo(a, b);
    QuadBack(a, b, 0, s);
    ModNext(|s|, 0);
    ModNext(|s| + 1, 1);
    ModNext(|s| + 2, 2);
    var c3 := [PAD] + tail;
    var c2 := [CharOf(q[2])] + c3;
    var c1 := [CharOf(q[1])] + c2;
    OneByOne(CharOf(q[0]), CharOf(q[1]), CharOf(q[2]), PAD, tail);
    ReadsChar(q[0], c1, s, padded);
    ReadsChar(q[1], c2, s + [q[0]], false);
    ReadsChar(q[2], c3, s + [q[0]] + [q[1]], false);
    ReadsPad(tail, s + [q[0]] + [q[1]] + [q[2]], false);
  }
  lemma CharsCat(u: seq<Byte>, v: seq<Byte>)
    requires forall i :: 0 <= i < |u + v| ==> (u + v)[i] <= 64
    ensures forall i :: 0 <= i < |u| ==> u[i] == (u + v)[i]
    ensures forall i :: 0 <= i < |v| ==> v[i] == (u + v)[|u| + i]
    ensures Chars(u + v) == Chars(u) + Chars(v)
  {
    assert forall i :: 0 <= i < |v| ==> v[i] == (u + v)[|u| + i];
    hide CharOf;
  }
  lemma {:induction false} DecodesChars(x: seq<Byte>, tail: seq<Byte>, s: seq<Sextet>, padded: bool)
    requires |s| % 4 == 0
    requires forall i :: 0 <= i < |tail| ==> Junk(tail[i])
    ensures Meaning(Chars(Values(x)) + tail, s, padded) == Ok(Bytes(s) + x)
  {
    hide Meaning, Bytes, CharOf, Quad, Junk;
    if x == [] {
      assert Chars(Values(x)) + tail == [] + tail + [];
      JunkInserted([], tail, [], s, padded);
      NothingLeft(s, padded);
      assert [] + [] == Chars(Values(x)) && Bytes(s) + [] == Bytes(s);
    } else if |x| == 1 {
      assert x == [x[0]];
      ReadsOne(x[0], tail, s, padded);
    } else if |x| == 2 {
      assert x == [x[0]] + [x[1]] && [x[0]] + [x[1]] == [x[0], x[1]];
      ReadsTwo(x[0], x[1], tail, s, padded);
      assert Bytes(s) + [x[0]] + [x[1]] == Bytes(s) + x;
    } else {
      var q := Quad(x[0], x[1], x[2]);
      DecodesFirst(x, tail, s, padded);
      QuadBack(x[0], x[1], x[2], s);
      DecodesChars(x[3..], tail, s + [q[0]] + [q[1]] + [q[2]] + [q[3]], false);
      Regroup(Bytes(s), x);
    }
  }
  lemma NothingLeft(s: seq<Sextet>, padded: bool)
    requires |s| % 4 == 0
    ensures Meaning([], s, padded) == Ok(Bytes(s))
  {}
  lemma Regroup(b: seq<Byte>, x: seq<Byte>)
    requires |x| >= 3
    ensures b + [x[0]] + [x[1]] + [x[2]] + x[3..] == b + x
  {}
  lemma DecodesFirst(x: seq<Byte>, tail: seq<Byte>, s: seq<Sextet>, padded: bool)
    requires |x| >= 3
    ensures var q := Quad(x[0], x[1], x[2]);
            Meaning(Chars(Values(x)) + tail, s, padded)
            == Meaning(Chars(Values(x[3..])) + tail, s + [q[0]] + [q[1]] + [q[2]] + [q[3]], false)
  {
    var q, rest := Quad(x[0], x[1], x[2]), Values(x[3..]);
    assert Values(x) == q + rest;
    CharsCat(q, rest);
    assert Chars(q) + Chars(rest) + tail == Chars(q) + (Chars(rest) + tail);
    hide Meaning, Chars, Values, Quad;
    ReadsQuad(x[0], x[1], x[2], Chars(rest) + tail, s, padded);
  }
  /** Decoding undoes encoding, for every byte string, with or without the newline. */
  lemma RoundTrip(x: seq<Byte>, newline: bool)
    ensures Decoded(Encoded(x, newline)) == Ok(x)
  {
    DecodesChars(x, if newline then [NEWLINE] else [], [], false);
    assert Bytes([]) + x == x;
  }
}
