/** The seven packed pixel formats of the frame buffer: where a pixel lives in the byte
    buffer, and the laws of reading and writing one. */
module PixelFormats {
  import opened Arithmetic

  datatype Format = MVLSB | RGB565 | GS2_HMSB | GS4_HMSB | GS8 | MHLSB | MHMSB

  datatype Geometry = Geometry(format: Format, width: nat, height: nat, stride: nat)

  type Bytes = seq<bv8>

  function BitsPerPixel(f: Format): nat {
    match f
    case RGB565 => 16
    case GS2_HMSB => 2
    case GS4_HMSB => 4
    case GS8 => 8
    case _ => 1
  }
  /** How many pixels of a row share a byte; the stride is a multiple of this. */
  function RowPack(f: Format): nat {
    match f
    case MHLSB | MHMSB => 8
    case GS2_HMSB => 4
    case GS4_HMSB => 2
    case _ => 1
  }
  /** Pixel rows the buffer holds: MVLSB stores eight rows to a byte. */
  function Rows(g: Geometry): nat {
    if g.format.MVLSB? then RoundUp(g.height, 8) else g.height
  }
  function Size(g: Geometry): nat { Rows(g) * g.stride * BitsPerPixel(g.format) / 8 }

  /** What `framebuf_make_new` is meant to establish. */
  ghost predicate Fits(g: Geometry, n: nat) {
    && 1 <= g.width <= g.stride && 1 <= g.height
    && g.stride % RowPack(g.format) == 0
    && Size(g) <= n
  }
  predicate OnGrid(g: Geometry, x: int, y: int) { 0 <= x < g.stride && 0 <= y < Rows(g) }

  // ---- one pixel ----

  /** The (first) byte of a pixel. */
  function Cell(g: Geometry, x: nat, y: nat): nat {
    match g.format
    case MVLSB => y / 8 * g.stride + x
    case RGB565 => 2 * (x + y * g.stride)
    case GS8 => x + y * g.stride
    case GS4_HMSB => (x + y * g.stride) / 2
    case GS2_HMSB => (x + y * g.stride) / 4
    case MHLSB | MHMSB => (x + y * g.stride) / 8
  }
  /** The bit offset of a pixel in its byte. */
  function Lane(f: Format, x: nat, y: nat): (l: nat)
    ensures IsLane(f, l)
  {
    match f
    case MVLSB => y % 8
    case MHMSB => x % 8
    case MHLSB => 7 - x % 8
    case GS2_HMSB => x % 4 * 2
    case GS4_HMSB => if x % 2 == 1 then 0 else 4
    case _ => 0
  }
  predicate IsLane(f: Format, l: int) {
    match f
    case MVLSB | MHLSB | MHMSB => 0 <= l < 8
    case GS2_HMSB => l in {0, 2, 4, 6}
    case GS4_HMSB => l in {0, 4}
    case _ => l == 0
  }
  /** A bit offset as a shift amount. */
  function Shift(l: nat): (s: bv8)
    requires l < 8
    ensures s < 8
  {
    match l
    case 0 => 0
    case 1 => 1
    case 2 => 2
    case 3 => 3
    case 4 => 4
    case 5 => 5
    case 6 => 6
    case 7 => 7
  }

  function Low8(col: bv32): bv8 { (col & 0xff) as bv8 }

  function PutLane(f: Format, b: bv8, l: nat, col: bv32): bv8
    requires IsLane(f, l)
  {
    match f
    case MVLSB | MHLSB | MHMSB => (b & !((1 as bv8) << Shift(l))) | ((if col != 0 then 1 else 0) as bv8 << Shift(l))
    case GS2_HMSB => ((col & 3) as bv8 << Shift(l)) | (b & !((3 as bv8) << Shift(l)))
    case GS4_HMSB => if l == 0 then (Low8(col) & 0x0f) | (b & 0xf0) else (Low8(col) << 4) | (b & 0x0f)
    case _ => Low8(col)
  }
  function GetLane(f: Format, b: bv8, l: nat): bv8
    requires IsLane(f, l)
  {
    match f
    case MVLSB | MHLSB | MHMSB => (b >> Shift(l)) & 1
    case GS2_HMSB => (b >> Shift(l)) & 3
    case GS4_HMSB => if l == 0 then b & 0x0f else b >> 4
    case _ => b
  }

  function Set(g: Geometry, b: Bytes, x: nat, y: nat, col: bv32): (b': Bytes)
    requires Fits(g, |b|) && OnGrid(g, x, y)
    ensures |b'| == |b|
  {
    CellInside(g, |b|, x, y);
    var c := Cell(g, x, y);
    if g.format.RGB565? then b[c := Low8(col)][c + 1 := Low8(col >> 8)]
    else b[c := PutLane(g.format, b[c], Lane(g.format, x, y), col)]
  }
  function Get(g: Geometry, b: Bytes, x: nat, y: nat): bv32
    requires Fits(g, |b|) && OnGrid(g, x, y)
  {
    CellInside(g, |b|, x, y);
    var c := Cell(g, x, y);
    if g.format.RGB565? then (b[c] as bv32) | ((b[c + 1] as bv32) << 8)
    else GetLane(g.format, b[c], Lane(g.format, x, y)) as bv32
  }
  /** What a colour reads back as. */
  function Shown(f: Format, col: bv32): bv32 {
    match f
    case MVLSB | MHLSB | MHMSB => if col != 0 then 1 else 0
    case GS2_HMSB => col & 3
    case GS4_HMSB => col & 0x0f
    case GS8 => col & 0xff
    case RGB565 => col & 0xffff
  }

  // ---- addresses ----

  /** Row formats: `k` pixels to a byte, whole bytes to a row. */
  predicate RowFormat(f: Format) { !f.MVLSB? && !f.RGB565? }

  lemma CellRow(g: Geometry, x: nat, y: nat)
    requires g.stride % RowPack(g.format) == 0 && RowFormat(g.format)
    ensures var k := RowPack(g.format); Cell(g, x, y) == x / k + y * (g.stride / k)
  {
    var k := RowPack(g.format);
    assert g.stride / k * k == g.stride;
    DivRow(x, y, g.stride / k, k);
  }
  lemma SizeRow(g: Geometry)
    requires g.stride % RowPack(g.format) == 0
    ensures g.format.MVLSB? ==> Size(g) == Rows(g) / 8 * g.stride
    ensures g.format.RGB565? ==> Size(g) == 2 * (g.height * g.stride)
    ensures RowFormat(g.format) ==> Size(g) == g.height * (g.stride / RowPack(g.format))
  {
    var f, h, s := g.format, g.height, g.stride;
    if f.MVLSB? {
      EightTimes(Rows(g) / 8 * s, 8, 1);
      RowsOfEight(Rows(g) / 8, s);
    } else if f.RGB565? {
      EightTimes(h * s, 1, 16);
    } else {
      var k := RowPack(f);
      EightTimes(h * (s / k), k, BitsPerPixel(f));
      PackedRows(h, s, k);
    }
  }
  lemma RowsOfEight(n: nat, s: nat)
    ensures n * 8 * s == n * s * 8
  {}
  lemma PackedRows(h: nat, s: nat, k: nat)
    requires k > 0 && s % k == 0
    ensures h * s == h * (s / k) * k
  {
    assert s == s / k * k;
    assert h * (s / k * k) == h * (s / k) * k;
  }
  lemma EightTimes(p: nat, k: nat, bits: nat)
    requires (k, bits) in {(1, 8), (2, 4), (4, 2), (8, 1), (1, 16)}
    ensures p * k * bits / 8 == if bits == 16 then 2 * p else p
  {}
  lemma CellInside(g: Geometry, n: nat, x: nat, y: nat)
    requires Fits(g, n) && OnGrid(g, x, y)
    ensures Cell(g, x, y) < Size(g) <= n
    ensures g.format.RGB565? ==> Cell(g, x, y) + 1 < Size(g)
  {
    SizeRow(g);
    if g.format.MVLSB? {
      RowInside(x, y / 8, g.stride, Rows(g) / 8);
    } else if g.format.RGB565? {
      RowInside(x, y, g.stride, g.height);
    } else {
      CellRow(g, x, y);
      var k := RowPack(g.format);
      QuotientBelow(x, g.stride, k);
      RowInside(x / k, y, g.stride / k, g.height);
    }
  }
  lemma QuotientBelow(x: nat, s: nat, k: nat)
    requires x < s && k in {1, 2, 4, 8} && s % k == 0
    ensures x / k < s / k
  {}
  /** Distinct pixels differ in their byte or in their lane. */
  lemma CellUnique(g: Geometry, n: nat, x: nat, y: nat, x': nat, y': nat)
    requires Fits(g, n) && OnGrid(g, x, y) && OnGrid(g, x', y')
    requires Cell(g, x, y) == Cell(g, x', y') && Lane(g.format, x, y) == Lane(g.format, x', y')
    ensures x == x' && y == y'
  {
    if g.format.MVLSB? {
      RowUnique(x, y / 8, x', y' / 8, g.stride);
    } else if g.format.RGB565? {
      RowUnique(x, y, x', y', g.stride);
    } else {
      CellRow(g, x, y);
      CellRow(g, x', y');
      var k := RowPack(g.format);
      QuotientBelow(x, g.stride, k);
      QuotientBelow(x', g.stride, k);
      RowUnique(x / k, y, x' / k, y', g.stride / k);
      LaneColumn(g.format, x, y, x', y');
    }
  }
  lemma LaneColumn(f: Format, x: nat, y: nat, x': nat, y': nat)
    requires RowFormat(f) && Lane(f, x, y) == Lane(f, x', y')
    ensures x % RowPack(f) == x' % RowPack(f)
  {}

  // ---- the laws ----

  lemma LaneLaw(f: Format, b: bv8, l: nat, l': nat, col: bv32)
    requires IsLane(f, l) && IsLane(f, l') && !f.RGB565?
    ensures GetLane(f, PutLane(f, b, l, col), l') as bv32
         == if l == l' then Shown(f, col) else GetLane(f, b, l') as bv32
  {
    match f
    case MVLSB | MHLSB | MHMSB => MonoLaw(f, b, l, l', col);
    case GS2_HMSB => Gs2Law(b, l, l', col);
    case GS4_HMSB => NibbleLaw(b, l == 0, l' == 0, col);
    case GS8 => ByteLaw(col);
  }
  lemma ShiftUnique(l: nat, l': nat)
    requires l < 8 && l' < 8
    ensures Shift(l) == Shift(l') <==> l == l'
  {}
  lemma MonoLaw(f: Format, b: bv8, l: nat, l': nat, col: bv32)
    requires f in {MVLSB, MHLSB, MHMSB} && l < 8 && l' < 8
    ensures GetLane(f, PutLane(f, b, l, col), l') as bv32
         == if l == l' then Shown(f, col) else GetLane(f, b, l') as bv32
  {
    hide Shift;
    ShiftUnique(l, l');
    BitLaw(b, Shift(l), Shift(l'), col != 0);
  }
  lemma Gs2Law(b: bv8, l: nat, l': nat, col: bv32)
    requires l in {0, 2, 4, 6} && l' in {0, 2, 4, 6}
    ensures GetLane(GS2_HMSB, PutLane(GS2_HMSB, b, l, col), l') as bv32
         == if l == l' then col & 3 else GetLane(GS2_HMSB, b, l') as bv32
  {
    assert Shift(l) in {0, 2, 4, 6} && Shift(l') in {0, 2, 4, 6};
    ShiftUnique(l, l');
    hide Shift;
    PairLaw(b, Shift(l), Shift(l'), (col & 3) as bv8);
  }
  lemma BitLaw(b: bv8, l: bv8, l': bv8, on: bool)
    requires l < 8 && l' < 8
    ensures (((b & !((1 as bv8) << l)) | ((if on then 1 else 0) as bv8 << l)) >> l') & 1
         == if l == l' then (if on then 1 else 0) else (b >> l') & 1
  {}
  lemma PairLaw(b: bv8, l: bv8, l': bv8, c: bv8)
    requires l in {0, 2, 4, 6} && l' in {0, 2, 4, 6} && c < 4
    ensures (((c << l) | (b & !((3 as bv8) << l))) >> l') & 3 == if l == l' then c else (b >> l') & 3
  {}
  lemma NibbleLaw(b: bv8, odd: bool, odd': bool, col: bv32)
    ensures var c := if odd then (Low8(col) & 0x0f) | (b & 0xf0) else (Low8(col) << 4) | (b & 0x0f);
            (if odd' then c & 0x0f else c >> 4) as bv32
              == if odd == odd' then col & 0x0f else (if odd' then b & 0x0f else b >> 4) as bv32
  {}
  lemma ByteLaw(col: bv32)
    ensures Low8(col) as bv32 == col & 0xff
  {}
  lemma WordLaw(col: bv32)
    ensures (Low8(col) as bv32) | ((Low8(col >> 8) as bv32) << 8) == col & 0xffff
  {}

  /** Writing a pixel changes that pixel and no other, whatever bytes they share. */
  lemma GetSet(g: Geometry, b: Bytes, x: nat, y: nat, col: bv32, x': nat, y': nat)
    requires Fits(g, |b|) && OnGrid(g, x, y) && OnGrid(g, x', y')
    ensures Get(g, Set(g, b, x, y, col), x', y')
         == if x == x' && y == y' then Shown(g.format, col) else Get(g, b, x', y')
  {
    hide PutLane, GetLane, Lane;
    CellInside(g, |b|, x, y);
    CellInside(g, |b|, x', y');
    var c, c' := Cell(g, x, y), Cell(g, x', y');
    if g.format.RGB565? {
      WordLaw(col);
      if c == c' {
        CellUnique(g, |b|, x, y, x', y');
      }
    } else {
      var l, l' := Lane(g.format, x, y), Lane(g.format, x', y');
      LaneLaw(g.format, b[c], l, l', col);
      if c == c' && l == l' {
        CellUnique(g, |b|, x, y, x', y');
      }
    }
  }

  /** Bytes behind the pixels are never touched. */
  lemma SetTail(g: Geometry, b: Bytes, x: nat, y: nat, col: bv32, i: nat)
    requires Fits(g, |b|) && OnGrid(g, x, y) && Size(g) <= i < |b|
    ensures Set(g, b, x, y, col)[i] == b[i]
  {
    CellInside(g, |b|, x, y);
  }
}
