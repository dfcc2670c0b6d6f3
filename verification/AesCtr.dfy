/** AES in counter mode over an uninterpreted block cipher (section 6.5 of NIST SP 800-38A). */
module AesCtr {
  import opened Arithmetic

  type Bytes = seq<bv8>
  type Block = b: Bytes | |b| == 16 witness [0, 0, 0, 0, 0, 0, 0, 0, 0, 0, 0, 0, 0, 0, 0, 0]

  // ---- the counter as a number ----

  function Pow256(n: nat): (p: nat)
    ensures p > 0
  {
    if n == 0 then 1 else 256 * Pow256(n - 1)
  }
  function Digit(b: bv8): (n: nat)
    ensures n < 256
  {
    b as nat
  }
  lemma DigitUnique(a: bv8, b: bv8)
    requires Digit(a) == Digit(b)
    ensures a == b
  {
    assert (a as nat) as bv8 == a && (b as nat) as bv8 == b;
  }
  lemma DigitNext(c: bv8)
    ensures if c + 1 == 0 then Digit(c) == 255 && Digit(c + 1) == 0 else Digit(c + 1) == Digit(c) + 1
  {}

  /** Big-endian value. */
  function Value(b: Bytes): nat {
    if b == [] then 0 else 256 * Value(b[..|b| - 1]) + Digit(b[|b| - 1])
  }
  lemma {:induction false} ValueBound(b: Bytes)
    ensures Value(b) < Pow256(|b|)
  {
    if b != [] {
      ValueBound(b[..|b| - 1]);
    }
  }
  lemma ValueSplit(b: Bytes)
    requires b != []
    ensures var h := b[..|b| - 1];
            b == h + [b[|b| - 1]] && Value(b) / 256 == Value(h) && Value(b) % 256 == Digit(b[|b| - 1])
  {
    DivUnique(Value(b), 256, Value(b[..|b| - 1]), Digit(b[|b| - 1]));
  }
  /** Blocks are told apart by their values. */
  lemma {:induction false} ValueUnique(a: Bytes, b: Bytes)
    requires |a| == |b| && Value(a) == Value(b)
    ensures a == b
  {
    hide Digit, Value;
    if a != [] {
      ValueSplit(a);
      ValueSplit(b);
      ValueUnique(a[..|a| - 1], b[..|b| - 1]);
      DigitUnique(a[|a| - 1], b[|b| - 1]);
    }
  }

  /** The carry loop: increment from the last byte, stop when a byte does not wrap. */
  function Increment(b: Bytes): (r: Bytes)
    ensures |r| == |b|
  {
    if b == [] then []
    else
      var h, c := b[..|b| - 1], b[|b| - 1] + 1;
      (if c != 0 then h else Increment(h)) + [c]
  }
  lemma {:induction false} IncrementValue(b: Bytes)
    ensures Value(Increment(b)) == if Value(b) + 1 == Pow256(|b|) then 0 else Value(b) + 1
  {
    hide Digit;
    ValueBound(b);
    if b != [] {
      var h, c, r := b[..|b| - 1], b[|b| - 1], Increment(b);
      DigitNext(c);
      ValueBound(h);
      IncrementValue(h);
      assert r[..|r| - 1] == (if c + 1 != 0 then h else Increment(h)) && r[|r| - 1] == c + 1;
      assert Value(r) == 256 * Value(r[..|r| - 1]) + Digit(c + 1);
    }
  }
  /** The counter block of block number `k`: the IV incremented `k` times. */
  function CounterBlock(iv: Block, k: nat): Block {
    if k == 0 then iv else Increment(CounterBlock(iv, k - 1))
  }
  /** It is the block with value IV + k, modulo 2^128. */
  lemma {:induction false} CounterValue(iv: Block, k: nat)
    ensures Value(CounterBlock(iv, k)) == (Value(iv) + k) % Pow256(16)
    ensures forall b: Block :: Value(b) == (Value(iv) + k) % Pow256(16) ==> b == CounterBlock(iv, k)
  {
    hide Digit, Value, Pow256, Increment;
    ValueBound(CounterBlock(iv, k));
    var m := Pow256(16);
    if k == 0 {
      DivUnique(Value(iv), m, 0, Value(iv));
    } else {
      CounterValue(iv, k - 1);
      IncrementValue(CounterBlock(iv, k - 1));
      ModNext(Value(iv) + k - 1, m);
    }
    forall b: Block | Value(b) == (Value(iv) + k) % m ensures b == CounterBlock(iv, k) {
      ValueUnique(b, CounterBlock(iv, k));
    }
  }
  lemma ModNext(n: nat, m: nat)
    requires m > 0
    ensures (n + 1) % m == if n % m + 1 == m then 0 else n % m + 1
  {
    var q := n / m;
    assert n == q * m + n % m;
    if n % m + 1 < m {
      DivUnique(n + 1, m, q, n % m + 1);
    } else {
      Distribute(m, q, 1);
      DivUnique(n + 1, m, q + 1, 0);
    }
  }

  // ---- the cipher stream ----

  /** Byte `j` of the key stream. */
  function KeyByte(ecb: Block -> Block, iv: Block, j: nat): bv8 {
    ecb(CounterBlock(iv, j / 16))[j % 16]
  }
  /** `data` enciphered (or deciphered) at position `pos` of the stream. */
  function Crypt(ecb: Block -> Block, iv: Block, pos: nat, data: Bytes): (out: Bytes)
    ensures |out| == |data|
    ensures forall j :: 0 <= j < |data| ==> out[j] == data[j] ^ KeyByte(ecb, iv, pos + j)
  {
    seq(|data|, j requires 0 <= j < |data| => data[j] ^ KeyByte(ecb, iv, pos + j))
  }
  lemma CryptCat(ecb: Block -> Block, iv: Block, pos: nat, a: Bytes, b: Bytes)
    ensures Crypt(ecb, iv, pos, a + b) == Crypt(ecb, iv, pos, a) + Crypt(ecb, iv, pos + |a|, b)
  {
    hide KeyByte, Crypt;
    var l, r := Crypt(ecb, iv, pos, a + b), Crypt(ecb, iv, pos, a) + Crypt(ecb, iv, pos + |a|, b);
    forall j | 0 <= j < |a + b| ensures l[j] == r[j] {
      assert j >= |a| ==> pos + |a| + (j - |a|) == pos + j;
    }
  }
  lemma CryptNext(ecb: Block -> Block, iv: Block, pos: nat, data: Bytes, j: nat)
    requires j < |data|
    ensures Crypt(ecb, iv, pos, data[..j + 1]) == Crypt(ecb, iv, pos, data[..j]) + [data[j] ^ KeyByte(ecb, iv, pos + j)]
  {
    hide KeyByte, Crypt;
    var l, r := Crypt(ecb, iv, pos, data[..j + 1]), Crypt(ecb, iv, pos, data[..j]);
    forall i | 0 <= i < j ensures l[i] == r[i] {
      assert data[..j + 1][i] == data[..j][i];
    }
    assert l[j] == data[j] ^ KeyByte(ecb, iv, pos + j);
  }
  lemma CryptNone(ecb: Block -> Block, iv: Block, pos: nat, data: Bytes)
    requires |data| == 0
    ensures Crypt(ecb, iv, pos, data) == []
  {}
  /** Deciphering is enciphering again. */
  lemma CryptTwice(ecb: Block -> Block, iv: Block, pos: nat, data: Bytes)
    ensures Crypt(ecb, iv, pos, Crypt(ecb, iv, pos, data)) == data
  {
    var c := Crypt(ecb, iv, pos, data);
    forall j | 0 <= j < |data| ensures Crypt(ecb, iv, pos, c)[j] == data[j] {
      XorTwice(data[j], KeyByte(ecb, iv, pos + j));
    }
  }
  lemma XorTwice(a: bv8, k: bv8)
    ensures (a ^ k) ^ k == a
  {}

  function Join(chunks: seq<Bytes>): Bytes {
    if chunks == [] then [] else chunks[0] + Join(chunks[1..])
  }
  /** A stream cut into calls, each starting where the one before stopped. */
  function CryptCalls(ecb: Block -> Block, iv: Block, pos: nat, chunks: seq<Bytes>): seq<Bytes>
    decreases chunks
  {
    if chunks == [] then []
    else [Crypt(ecb, iv, pos, chunks[0])] + CryptCalls(ecb, iv, pos + |chunks[0]|, chunks[1..])
  }
  /** How the data is cut into calls does not matter. */
  lemma {:induction false} ChunkingIrrelevant(ecb: Block -> Block, iv: Block, pos: nat, chunks: seq<Bytes>)
    ensures Join(CryptCalls(ecb, iv, pos, chunks)) == Crypt(ecb, iv, pos, Join(chunks))
    decreases chunks
  {
    hide Crypt;
    if chunks != [] {
      ChunkingIrrelevant(ecb, iv, pos + |chunks[0]|, chunks[1..]);
      CryptCat(ecb, iv, pos, chunks[0], Join(chunks[1..]));
      var calls := CryptCalls(ecb, iv, pos, chunks);
      assert calls[1..] == CryptCalls(ecb, iv, pos + |chunks[0]|, chunks[1..]);
    }
  }
  /** Cut one way to encipher and another way to decipher, the data comes back. */
  lemma DecryptsAnySplit(ecb: Block -> Block, iv: Block, chunks: seq<Bytes>, chunks': seq<Bytes>)
    requires Join(chunks') == Join(CryptCalls(ecb, iv, 0, chunks))
    ensures Join(CryptCalls(ecb, iv, 0, chunks')) == Join(chunks)
  {
    ChunkingIrrelevant(ecb, iv, 0, chunks);
    ChunkingIrrelevant(ecb, iv, 0, chunks');
    CryptTwice(ecb, iv, 0, Join(chunks));
  }

  // ---- the object ----

  lemma BlockStep(pos: nat)
    ensures (pos + 1) % 16 == (pos % 16 + 1) % 16
    ensures (pos + 1) / 16 == if (pos + 1) % 16 == 0 then pos / 16 + 1 else pos / 16
  {}

  datatype KeyType = NoKey | Enc | Dec
  datatype Error = OutputTooSmall | MixedDirections
  datatype Result<+T> = Ok(value: T) | ValueError(error: Error)

  class Aes {
    const ecb: Block -> Block
    const counter: array<bv8>
    const encryptedCounter: array<bv8>
    var offset: nat
    var keyType: KeyType
    ghost const iv: Block
    ghost var pos: nat

    ghost predicate Valid()
      reads this, counter, encryptedCounter
    {
      && counter.Length == 16 && encryptedCounter.Length == 16 && counter != encryptedCounter
      && Streaming(offset, pos)
    }
    /** The key stream stands at byte `p`, that is at byte `n` of a block. */
    ghost predicate Streaming(n: nat, p: nat)
      requires counter.Length == 16 && encryptedCounter.Length == 16
      reads counter, encryptedCounter
    {
      && n == p % 16
      && counter[..] == CounterBlock(iv, if n == 0 then p / 16 else p / 16 + 1)
      && (n != 0 ==> encryptedCounter[..] == ecb(CounterBlock(iv, p / 16)))
    }

    constructor (ecb: Block -> Block, iv: Block)
      ensures Valid() && this.ecb == ecb && this.iv == iv && pos == 0 && keyType == NoKey
      ensures fresh(counter) && fresh(encryptedCounter)
    {
      this.ecb, this.iv := ecb, iv;
      var c := new bv8[16](i requires 0 <= i < 16 => iv[i]);
      counter := c;
      encryptedCounter := new bv8[16];
      offset, pos, keyType := 0, 0, NoKey;
      new;
      assert counter[..] == iv;
    }

    /** The 128-bit carry loop. */
    method IncrementCounter()
      requires counter.Length == 16
      modifies counter
      ensures counter[..] == Increment(old(counter[..]))
    {
      ghost var c := counter[..];
      assert c[..16] == c && Increment(c) == Increment(c[..16]) + counter[16..];
      var i := 15;
      while i >= 0
        invariant -1 <= i <= 15
        invariant counter[..i + 1] == c[..i + 1]
        invariant Increment(c) == Increment(c[..i + 1]) + counter[i + 1..]
        decreases i
      {
        ghost var h, rest := c[..i + 1], counter[i + 1..];
        assert h[..|h| - 1] == c[..i] && h[|h| - 1] == counter[i];
        counter[i] := counter[i] + 1;
        assert counter[i..] == [counter[i]] + rest;
        if counter[i] != 0 {
          assert Increment(c) == c[..i] + counter[i..];
          assert counter[..i] == c[..i];
          assert counter[..] == counter[..i] + counter[i..];
          return;
        }
        i := i - 1;
      }
      assert counter[..] == counter[0..];
    }

    /** `aes_process_ctr_impl`.  `output` may be the input buffer itself. */
    method ProcessCtr(input: array<bv8>, output: array<bv8>)
      requires Valid() && output.Length >= input.Length
      requires output != counter && output != encryptedCounter && input != counter && input != encryptedCounter
      modifies this`offset, this`pos, counter, encryptedCounter, output
      ensures Valid() && pos == old(pos) + input.Length
      ensures output[..input.Length] == Crypt(ecb, iv, old(pos), old(input[..]))
      ensures output[input.Length..] == old(output[input.Length..])
    {
      hide Crypt, CounterBlock, Streaming;
      var n, j, inLen := offset, 0, input.Length;
      ghost var data, tail := input[..], output[inLen..];
      CryptNone(ecb, iv, pos, data[..0]);
      while j < inLen
        invariant 0 <= j <= inLen && pos == old(pos) + j && Streaming(n, pos)
        invariant output[..j] == Crypt(ecb, iv, old(pos), data[..j])
        invariant (forall k :: j <= k < inLen ==> input[k] == data[k]) && output[inLen..] == tail
      {
        NextByte(input, output, j, n, data);
        j := j + 1;
        n := (n + 1) % 16;
        pos := pos + 1;
      }
      offset := n;
      assert data[..inLen] == data;
    }

    /** The loop body: a new key block when the last one is used up, then one byte. */
    method NextByte(input: array<bv8>, output: array<bv8>, j: nat, n: nat, ghost data: Bytes)
      requires counter.Length == 16 && encryptedCounter.Length == 16 && counter != encryptedCounter && Streaming(n, pos)
      requires j < input.Length <= output.Length && input.Length == |data| && j <= pos
      requires output != counter && output != encryptedCounter && input != counter && input != encryptedCounter
      requires forall k :: j <= k < input.Length ==> input[k] == data[k]
      requires output[..j] == Crypt(ecb, iv, pos - j, data[..j])
      modifies counter, encryptedCounter, output
      ensures Streaming((n + 1) % 16, pos + 1)
      ensures output[..j + 1] == Crypt(ecb, iv, pos - j, data[..j + 1])
      ensures forall k :: j < k < input.Length ==> input[k] == data[k]
      ensures output[input.Length..] == old(output[input.Length..])
    {
      hide Crypt, CounterBlock;
      BlockStep(pos);
      if n == 0 {
        NextBlock();
      }
      StoreByte(input, output, j, n, data);
    }

    /** `*out++ = *in++ ^ encrypted_counter[n]`. */
    method StoreByte(input: array<bv8>, output: array<bv8>, j: nat, n: nat, ghost data: Bytes)
      requires j < input.Length <= output.Length && input.Length == |data| && j <= pos && n == pos % 16
      requires encryptedCounter.Length == 16 && output != encryptedCounter
      requires encryptedCounter[..] == ecb(CounterBlock(iv, pos / 16))
      requires forall k :: j <= k < input.Length ==> input[k] == data[k]
      requires output[..j] == Crypt(ecb, iv, pos - j, data[..j])
      modifies output
      ensures output[..j + 1] == Crypt(ecb, iv, pos - j, data[..j + 1])
      ensures forall k :: j < k < input.Length ==> input[k] == data[k]
      ensures output[input.Length..] == old(output[input.Length..])
    {
      hide Crypt, CounterBlock;
      CryptNext(ecb, iv, pos - j, data, j);
      assert encryptedCounter[n] == KeyByte(ecb, iv, pos) by {
        assert encryptedCounter[..][n] == encryptedCounter[n];
      }
      ghost var before := output[..j];
      output[j] := input[j] ^ encryptedCounter[n];
      assert output[..j + 1] == before + [output[j]];
    }

    /** Encrypt the counter block and step the counter. */
    method NextBlock()
      requires counter.Length == 16 && encryptedCounter.Length == 16 && counter != encryptedCounter
      requires pos % 16 == 0 && counter[..] == CounterBlock(iv, pos / 16)
      modifies counter, encryptedCounter
      ensures encryptedCounter[..] == ecb(CounterBlock(iv, pos / 16))
      ensures counter[..] == CounterBlock(iv, pos / 16 + 1)
    {
      var block := ecb(counter[..]);
      forall i | 0 <= i < 16 {
        encryptedCounter[i] := block[i];
      }
      assert encryptedCounter[..] == block && counter[..] == CounterBlock(iv, pos / 16);
      IncrementCounter();
    }

    /** `aes_process` for an object in counter mode. */
    method Process(input: array<bv8>, out: array?<bv8>, encrypt: bool) returns (r: Result<array<bv8>>)
      requires Valid() && input != counter && input != encryptedCounter && out != counter && out != encryptedCounter
      modifies this`offset, this`pos, this`keyType, counter, encryptedCounter, out
      ensures Valid()
      ensures r.ValueError? <==> (out != null && out.Length < input.Length) || old(keyType) == (if encrypt then Dec else Enc)
      ensures r.ValueError? ==> (r.error.OutputTooSmall? <==> out != null && out.Length < input.Length)
      ensures r.ValueError? ==> pos == old(pos) && keyType == old(keyType)
      ensures r.Ok? ==> && keyType == (if encrypt then Enc else Dec) && pos == old(pos) + input.Length
                        && r.value.Length >= input.Length && (out != null ==> r.value == out)
                        && r.value[..input.Length] == Crypt(ecb, iv, old(pos), old(input[..]))
      ensures r.Ok? && out == null ==> fresh(r.value) && r.value.Length == input.Length
    {
      if out != null && out.Length < input.Length {
        return ValueError(OutputTooSmall);
      }
      var buf: array<bv8>;
      if out != null {
        buf := out;
      } else {
        buf := new bv8[input.Length];
      }
      if keyType == NoKey {
        keyType := if encrypt then Enc else Dec;
      } else if (encrypt && keyType == Dec) || (!encrypt && keyType == Enc) {
        return ValueError(MixedDirections);
      }
      ProcessCtr(input, buf);
      return Ok(buf);
    }
  }

  /** A second object with the same cipher and IV deciphers what the first one enciphered. */
  method RoundTrip(ecb: Block -> Block, iv: Block, data: array<bv8>) returns (plain: array<bv8>)
    ensures plain[..] == old(data[..])
  {
    hide Crypt;
    var a := new Aes(ecb, iv);
    var r := a.Process(data, null, true);
    var b := new Aes(ecb, iv);
    var s := b.Process(r.value, null, false);
    CryptTwice(ecb, iv, 0, data[..]);
    plain := s.value;
    assert plain[..data.Length] == plain[..];
  }

  /** One object over a list of chunks, a call for each. */
  method ProcessAll(a: Aes, chunks: seq<Bytes>, encrypt: bool) returns (outs: seq<Bytes>)
    requires a.Valid() && a.keyType != (if encrypt then Dec else Enc)
    modifies a`offset, a`pos, a`keyType, a.counter, a.encryptedCounter
    ensures a.Valid() && outs == CryptCalls(a.ecb, a.iv, old(a.pos), chunks)
  {
    ghost var p := a.pos;
    outs := [];
    var j := 0;
    CallsNone(a.ecb, a.iv, p);
    assert chunks[..0] == [] && chunks[..|chunks|] == chunks;
    while j < |chunks|
      invariant 0 <= j <= |chunks| && a.Valid() && a.keyType != (if encrypt then Dec else Enc)
      invariant a.pos == p + |Join(chunks[..j])| && outs == CryptCalls(a.ecb, a.iv, p, chunks[..j])
    {
      hide *;
      CallsNext(a.ecb, a.iv, p, chunks, j);
      var out := ProcessChunk(a, chunks[j], encrypt);
      outs := outs + [out];
      j := j + 1;
    }
  }
  method ProcessChunk(a: Aes, chunk: Bytes, encrypt: bool) returns (out: Bytes)
    requires a.Valid() && a.keyType != (if encrypt then Dec else Enc)
    modifies a`offset, a`pos, a`keyType, a.counter, a.encryptedCounter
    ensures a.Valid() && a.keyType != (if encrypt then Dec else Enc) && a.pos == old(a.pos) + |chunk|
    ensures out == Crypt(a.ecb, a.iv, old(a.pos), chunk)
  {
    hide Crypt, CounterBlock;
    var input := new bv8[|chunk|](i requires 0 <= i < |chunk| => chunk[i]);
    assert input[..] == chunk;
    var r := a.Process(input, null, encrypt);
    out := r.value[..];
    assert r.value[..input.Length] == r.value[..];
  }
  lemma CallsNone(ecb: Block -> Block, iv: Block, pos: nat)
    ensures CryptCalls(ecb, iv, pos, []) == [] && Join([]) == []
  {}
  lemma {:induction false} JoinNext(chunks: seq<Bytes>, j: nat)
    requires j < |chunks|
    ensures |Join(chunks[..j + 1])| == |Join(chunks[..j])| + |chunks[j]|
  {
    if j > 0 {
      assert chunks[..j + 1][1..] == chunks[1..][..j] && chunks[..j][1..] == chunks[1..][..j - 1];
      JoinNext(chunks[1..], j - 1);
    }
  }
  lemma {:induction false} CallsNext(ecb: Block -> Block, iv: Block, pos: nat, chunks: seq<Bytes>, j: nat)
    requires j < |chunks|
    ensures |Join(chunks[..j + 1])| == |Join(chunks[..j])| + |chunks[j]|
    ensures CryptCalls(ecb, iv, pos, chunks[..j + 1])
         == CryptCalls(ecb, iv, pos, chunks[..j]) + [Crypt(ecb, iv, pos + |Join(chunks[..j])|, chunks[j])]
    decreases j
  {
    hide Crypt;
    JoinNext(chunks, j);
    if j == 0 {
      assert chunks[..1][1..] == [] && chunks[..0] == [];
    } else {
      assert chunks[..j + 1][1..] == chunks[1..][..j] && chunks[..j][1..] == chunks[1..][..j - 1];
      CallsNext(ecb, iv, pos + |chunks[0]|, chunks[1..], j - 1);
    }
  }
  /** Two objects with the same cipher and IV, the data cut one way into calls of the first and the
      result cut any other way into calls of the second. */
  method RoundTripInPieces(ecb: Block -> Block, iv: Block, chunks: seq<Bytes>, cut: Bytes -> seq<Bytes>)
    returns (plain: seq<Bytes>)
    requires forall c :: Join(cut(c)) == c
    ensures Join(plain) == Join(chunks)
  {
    hide *;
    var a := new Aes(ecb, iv);
    var sealed := ProcessAll(a, chunks, true);
    var b := new Aes(ecb, iv);
    var chunks' := cut(Join(sealed));
    plain := ProcessAll(b, chunks', false);
    DecryptsAnySplit(ecb, iv, chunks, chunks');
  }
}
