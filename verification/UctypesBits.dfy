/** Bit fields of uctypes structures in native layout: reading a field of a word in memory, and
    writing one without disturbing its neighbours. Words and bytes are their bits, the least
    significant first, and words are little-endian in memory. */
module UctypesBits {

  type Byte = b: seq<bool> | |b| == 8 witness seq(8, i => false)
  type Word = w: seq<bool> | |w| == 32 witness seq(32, i => false)

  // ---- the operations of a 32-bit machine ----

  function And(x: Word, y: Word): Word {
    seq(32, i requires 0 <= i < 32 => x[i] && y[i])
  }
  function Or(x: Word, y: Word): Word {
    seq(32, i requires 0 <= i < 32 => x[i] || y[i])
  }
  function Not(x: Word): Word {
    seq(32, i requires 0 <= i < 32 => !x[i])
  }
  function Shl(x: Word, n: nat): Word {
    seq(32, i requires 0 <= i < 32 => i >= n && x[i - n])
  }
  function Shr(x: Word, n: nat): Word {
    seq(32, i requires 0 <= i < 32 => i + n < 32 && x[i + n])
  }
  /** `(1 << len) - 1`. */
  function Ones(len: nat): Word {
    seq(32, i requires 0 <= i < 32 => i < len)
  }

  // ---- words in memory ----

  predicate Size(n: nat) {
    n == 1 || n == 2 || n == 4
  }
  /** The word in the first `n` bytes, extended with zeros. */
  function Load(s: seq<Byte>, n: nat): Word
    requires Size(n) && n <= |s|
  {
    seq(32, i requires 0 <= i < 32 => i < 8 * n && s[i / 8][i % 8])
  }
  /** The low `n` bytes of a word. */
  function Bytes(w: Word, n: nat): (s: seq<Byte>)
    requires Size(n)
    ensures |s| == n
  {
    seq(n, j requires 0 <= j < n => w[8 * j..8 * j + 8])
  }
  lemma LoadBytes(w: Word, n: nat, i: nat)
    requires Size(n) && i < 32
    ensures Load(Bytes(w, n), n)[i] == (i < 8 * n && w[i])
  {
    if i < 8 * n {
      assert i == 8 * (i / 8) + i % 8;
      assert Bytes(w, n)[i / 8] == w[8 * (i / 8)..8 * (i / 8) + 8];
    }
  }

  // ---- bit fields ----

  /** A bit field: its first bit and its length in the word; both are five-bit numbers. */
  datatype Field = Field(offset: nat, len: nat)

  /** The value of a field, as a word. */
  function FieldOf(w: Word, f: Field): Word {
    seq(32, i requires 0 <= i < 32 => i < f.len && f.offset + i < 32 && w[f.offset + i])
  }

  /** The bit field branch of `uctypes_struct_attr_op`, reading: the field of the word at `p`. */
  method Get(mem: array<Byte>, p: nat, n: nat, f: Field) returns (val: Word)
    requires Size(n) && p + n <= mem.Length
    ensures val == FieldOf(Load(mem[p..], n), f)
  {
    val := Load(mem[p..p + n], n);
    assert Load(mem[p..p + n], n) == Load(mem[p..], n);
    val := Shr(val, f.offset);
    val := And(val, Ones(f.len));
  }

  /** The word after a field has been written: the field has the low bits of the value, all other bits
      are as before. */
  ghost predicate Written(was: Word, now: Word, f: Field, value: Word) {
    forall i :: 0 <= i < 32 ==> now[i] == if f.offset <= i < f.offset + f.len then value[i - f.offset] else was[i]
  }

  /** Writing: of the memory, only the `n` bytes at `p` change, and of their bits only the field's. */
  method Set(mem: array<Byte>, p: nat, n: nat, f: Field, value: Word)
    requires Size(n) && p + n <= mem.Length
    modifies mem
    ensures exists w: Word ::
              Written(Load(old(mem[p..]), n), w, f, value)
              && mem[..] == old(mem[..p]) + Bytes(w, n) + old(mem[p + n..])
  {
    var was := Load(mem[p..p + n], n);
    assert was == Load(mem[p..], n);
    var setVal := And(value, Ones(f.len));
    setVal := Shl(setVal, f.offset);
    var mask := Shl(Ones(f.len), f.offset);
    var val := Or(And(was, Not(mask)), setVal);
    assert Written(was, val, f, value);
    var bytes := Bytes(val, n);
    Put(mem, p, bytes);
  }
  method Put(mem: array<Byte>, p: nat, s: seq<Byte>)
    requires p + |s| <= mem.Length
    modifies mem
    ensures mem[..] == old(mem[..p]) + s + old(mem[p + |s|..])
  {
    for j := 0 to |s|
      invariant mem[..p] == old(mem[..p]) && mem[p..p + j] == s[..j] && mem[p + j..] == old(mem[p + j..])
    {
      mem[p + j] := s[j];
    }
    assert mem[..] == mem[..p] + mem[p..p + |s|] + mem[p + |s|..];
  }

  /** What reads back after writing. A field that fits in the word reads back the low bits of the
      value written; the bits of a field beyond the word's `n` bytes are lost and read as zero. */
  lemma ReadsBack(was: Word, now: Word, f: Field, value: Word, n: nat)
    requires Size(n) && f.len <= 32 && Written(was, now, f, value)
    ensures forall i :: 0 <= i < 32 ==>
              FieldOf(Load(Bytes(now, n), n), f)[i] == (i < f.len && f.offset + i < 8 * n && value[i])
    ensures f.offset + f.len <= 8 * n ==> FieldOf(Load(Bytes(now, n), n), f) == And(value, Ones(f.len))
  {
    forall i | 0 <= i < 32
      ensures FieldOf(Load(Bytes(now, n), n), f)[i] == (i < f.len && f.offset + i < 8 * n && value[i])
    {
      if f.offset + i < 32 {
        LoadBytes(now, n, f.offset + i);
      }
    }
  }
  /** A field reads back whatever is written exactly if it fits in its word. */
  lemma FitsExactly(f: Field, n: nat)
    requires Size(n) && 0 < f.len <= 32
    ensures (forall was: Word, now: Word, value: Word :: Written(was, now, f, value)
               ==> FieldOf(Load(Bytes(now, n), n), f) == And(value, Ones(f.len)))
            <==> f.offset + f.len <= 8 * n
  {
    forall was: Word, now: Word, value: Word | Written(was, now, f, value) && f.offset + f.len <= 8 * n
      ensures FieldOf(Load(Bytes(now, n), n), f) == And(value, Ones(f.len))
    {
      ReadsBack(was, now, f, value, n);
    }
    var zero, ones := Ones(0), Ones(32);
    var now: Word := seq(32, i requires 0 <= i < 32 => f.offset <= i < f.offset + f.len);
    assert Written(zero, now, f, ones);
    ReadsBack(zero, now, f, ones, n);
    var last := f.len - 1;
    assert And(ones, Ones(f.len))[last];
    assert FieldOf(Load(Bytes(now, n), n), f)[last] == (f.offset + last < 8 * n);
  }
  /** Other fields of the same word, apart from this one, keep their values. */
  lemma NeighboursKeep(s: seq<Byte>, n: nat, now: Word, f: Field, value: Word, g: Field)
    requires Size(n) && n <= |s| && Written(Load(s, n), now, f, value)
    requires f.offset + f.len <= g.offset || g.offset + g.len <= f.offset
    ensures FieldOf(Load(Bytes(now, n), n), g) == FieldOf(Load(s, n), g)
  {
    forall i | 0 <= i < 32
      ensures FieldOf(Load(Bytes(now, n), n), g)[i] == FieldOf(Load(s, n), g)[i]
    {
      if g.offset + i < 32 {
        LoadBytes(now, n, g.offset + i);
      }
    }
  }
}
