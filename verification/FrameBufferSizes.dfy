/** The arithmetic of constructing a frame buffer: the size check in machine words, the stride in its
    16-bit field, and exactly when they come out right. */
module FrameBufferSizes {
  import opened Arithmetic
  import opened PixelFormats
  import Ticks

  /** Storing in a `uint16_t` field. */
  function U16(n: nat): nat { n % 0x10000 }

  /** The bits the pixels take. */
  function Bits(g: Geometry): nat { Rows(g) * g.stride * BitsPerPixel(g.format) }
  /** The bytes needed, as computed in words of `word` bits. */
  function CheckedSize(g: Geometry, word: nat): nat { Bits(g) % Ticks.Pow2(word) / 8 }

  /** The check lets a buffer of `n` bytes pass; and it holds all the pixels. */
  predicate Accepts(g: Geometry, word: nat, n: nat) { CheckedSize(g, word) <= n }
  predicate Holds(g: Geometry, n: nat) { Size(g) <= n }

  /** The check is right for every length of buffer if and only if the bits fit in a word. */
  lemma CheckExact(g: Geometry, word: nat)
    requires word >= 3
    ensures (forall n: nat :: Accepts(g, word, n) <==> Holds(g, n)) <==> Bits(g) < Ticks.Pow2(word)
  {
    if Bits(g) < Ticks.Pow2(word) {
      DivUnique(Bits(g), Ticks.Pow2(word), 0, Bits(g));
    } else {
      PowAtLeast(3, word);
      assert Ticks.Pow2(3) == 8;
      Wrapped(Bits(g), Ticks.Pow2(word));
      assert Accepts(g, word, CheckedSize(g, word)) && !Holds(g, CheckedSize(g, word));
    }
  }
  lemma Wrapped(bits: nat, w: nat)
    requires bits >= w >= 8
    ensures bits % w / 8 < bits / 8
  {
    assert bits == bits / w * w + bits % w;
    if bits / w <= 0 {
      DivUnique(bits, w, 0, bits);
    }
    MulMono(1, bits / w, w);
  }
  /** Where the check errs it accepts: a buffer that is large enough is never refused. */
  lemma CheckNeverRefuses(g: Geometry, word: nat, n: nat)
    requires Holds(g, n)
    ensures Accepts(g, word, n)
  {
    NotMore(Bits(g), Ticks.Pow2(word));
  }
  lemma NotMore(bits: nat, w: nat)
    requires w > 0
    ensures bits % w / 8 <= bits / 8
  {
    if bits >= w {
      assert bits % w < w;
    } else {
      DivUnique(bits, w, 0, bits);
    }
  }
  lemma {:induction false} PowAtLeast(m: nat, n: nat)
    requires m <= n
    ensures Ticks.Pow2(m) <= Ticks.Pow2(n)
  {
    if m < n {
      PowAtLeast(m, n - 1);
    }
  }
  lemma TwoMore(n: nat)
    ensures Ticks.Pow2(n + 2) == 4 * Ticks.Pow2(n)
  {
    assert Ticks.Pow2(n + 1) == 2 * Ticks.Pow2(n);
  }
  lemma EightMore(n: nat)
    ensures Ticks.Pow2(n + 8) == 256 * Ticks.Pow2(n)
  {
    TwoMore(n);
    TwoMore(n + 2);
    TwoMore(n + 4);
    TwoMore(n + 6);
  }
  lemma Pow32()
    ensures Ticks.Pow2(32) == 0x1_0000_0000
  {
    EightMore(0);
    EightMore(8);
    EightMore(16);
    EightMore(24);
  }
  /** On machines with words of 37 bits or more every size that is in range is checked right. */
  lemma WideWords(g: Geometry, word: nat)
    requires word >= 37 && Rows(g) <= 0x10000 && g.stride <= 0x10000
    ensures Bits(g) < Ticks.Pow2(word)
  {
    PowAtLeast(37, word);
    Pow32();
    TwoMore(32);
    TwoMore(34);
    assert Ticks.Pow2(37) == 2 * Ticks.Pow2(36);
    Product(Rows(g), g.stride, BitsPerPixel(g.format));
  }
  lemma Product(r: nat, s: nat, b: nat)
    requires r <= 0x10000 && s <= 0x10000 && b <= 16
    ensures r * s * b <= 0x10_0000_0000
  {
    MulMono(r, 0x10000, s);
    MulMono(b, 16, r * s);
    assert r * s * b == b * (r * s);
  }
  /** With 32-bit words there are sizes in range that need no bytes at all according to the check. */
  lemma WrapExample()
    ensures var g := Geometry(RGB565, 16384, 16384, 16384); CheckedSize(g, 32) == 0 && Size(g) == 0x2000_0000
  {
    Pow32();
  }

  // ---- which objects keep their pixels apart ----

  /** Every pixel of the screen has its own bits inside a buffer of `n` bytes. */
  ghost predicate PixelsSound(g: Geometry, n: nat) {
    && (forall x: nat, y: nat :: x < g.width && y < g.height ==> LastByte(g, x, y) < n)
    && PixelsApart(g)
  }
  ghost predicate PixelsApart(g: Geometry) {
    forall x: nat, y: nat, x': nat, y': nat ::
      x < g.width && y < g.height && x' < g.width && y' < g.height && SameBits(g, x, y, x', y') ==> x == x' && y == y'
  }
  predicate SameBits(g: Geometry, x: nat, y: nat, x': nat, y': nat) {
    Cell(g, x, y) == Cell(g, x', y') && Lane(g.format, x, y) == Lane(g.format, x', y')
  }
  function LastByte(g: Geometry, x: nat, y: nat): nat {
    Cell(g, x, y) + if g.format.RGB565? then 1 else 0
  }

  /** The geometry of an object made with an accepted width, height and stride. */
  function Stored(f: Format, width: nat, height: nat, stride: nat): Geometry {
    Geometry(f, width, height, U16(RoundUp(stride, RowPack(f))))
  }
  lemma StoredStride(f: Format, stride: nat)
    requires 1 <= stride <= 0xffff
    ensures var r := RoundUp(stride, RowPack(f));
            U16(r) == (if r <= 0xffff then r else 0) && (r > 0xffff ==> r == 0x10000 && RowFormat(f))
  {}
  /** A lost stride gives two pixels the same bits if and only if there are two rows. */
  lemma LostStride(f: Format, width: nat, height: nat, stride: nat)
    requires 1 <= width <= stride <= 0xffff && 1 <= height && RoundUp(stride, RowPack(f)) > 0xffff
    ensures var g := Stored(f, width, height, stride);
            g.stride == 0 && (PixelsApart(g) <==> height == 1)
  {
    var g := Stored(f, width, height, stride);
    StoredStride(f, stride);
    if height >= 2 {
      assert SameBits(g, 0, 0, 0, 1);
    } else {
      OneRow(f, width, stride);
    }
  }
  /** One row is one row, whatever the stride. */
  lemma OneRow(f: Format, width: nat, stride: nat)
    requires 1 <= width <= stride <= 0xffff && RoundUp(stride, RowPack(f)) == 0x10000
    ensures PixelsApart(Geometry(f, width, 1, 0))
  {
    var g, whole := Geometry(f, width, 1, 0), Geometry(f, width, 1, 0x10000);
    forall x: nat, y: nat, x': nat, y': nat
      | x < width && y < 1 && x' < width && y' < 1 && SameBits(g, x, y, x', y')
      ensures x == x' && y == y'
    {
      assert Cell(whole, x, 0) == Cell(g, x, 0) && Cell(whole, x', 0) == Cell(g, x', 0);
      CellUnique(whole, Size(whole), x, 0, x', 0);
    }
  }
  lemma CellGrows(g: Geometry, x: nat, y: nat)
    requires x < g.width && y < g.height
    ensures Cell(g, x, y) <= Cell(g, g.width - 1, g.height - 1)
  {
    MulMono(y, g.height - 1, g.stride);
    MulMono(y / 8, (g.height - 1) / 8, g.stride);
  }
  /** The pixels of an object are sound if and only if its stride fits its field or there is one row
      only, and its last pixel lies inside the buffer. */
  lemma SoundExactly(f: Format, width: nat, height: nat, stride: nat, n: nat)
    requires 1 <= width <= stride <= 0xffff && 1 <= height
    ensures var g := Stored(f, width, height, stride);
            PixelsSound(g, n) <==>
              (RoundUp(stride, RowPack(f)) <= 0xffff || height == 1) && LastByte(g, width - 1, height - 1) < n
  {
    var g := Stored(f, width, height, stride);
    forall x: nat, y: nat | x < width && y < height ensures LastByte(g, x, y) <= LastByte(g, width - 1, height - 1) {
      CellGrows(g, x, y);
    }
    StoredStride(f, stride);
    if RoundUp(stride, RowPack(f)) > 0xffff {
      LostStride(f, width, height, stride);
    } else {
      KeptStride(g);
    }
  }
  lemma KeptStride(g: Geometry)
    requires 1 <= g.width <= g.stride && 1 <= g.height && g.stride % RowPack(g.format) == 0
    ensures PixelsApart(g)
  {
    forall x: nat, y: nat, x': nat, y': nat
      | x < g.width && y < g.height && x' < g.width && y' < g.height && SameBits(g, x, y, x', y')
      ensures x == x' && y == y'
    {
      CellUnique(g, Size(g), x, y, x', y');
    }
  }
  /** A buffer of the full size holds the last pixel. */
  lemma FullSizeEnough(f: Format, width: nat, height: nat, stride: nat, n: nat)
    requires 1 <= width <= stride <= 0xffff && 1 <= height
    requires Size(Geometry(f, width, height, RoundUp(stride, RowPack(f)))) <= n
    ensures LastByte(Stored(f, width, height, stride), width - 1, height - 1) < n
  {
    var r := RoundUp(stride, RowPack(f));
    var whole, g := Geometry(f, width, height, r), Stored(f, width, height, stride);
    StoredStride(f, stride);
    CellInside(whole, n, width - 1, height - 1);
    MulMono(0, height - 1, r);
    assert Cell(g, width - 1, height - 1) <= Cell(whole, width - 1, height - 1);
  }
}
