/** Sets of pixels painted in one colour, and why that fixes every byte of the buffer. */
module Painting {
  import opened Arithmetic
  import opened PixelFormats

  type Points = iset<(int, int)>

  ghost function Rect(x: int, y: int, w: int, h: int): Points {
    iset p: (int, int) | x <= p.0 < x + w && y <= p.1 < y + h
  }

  /** `b'` is `b` with the pixels of `s` in colour `col` and every other pixel, and every byte
      behind the pixels, as before.  Points of `s` off the grid are ignored. */
  ghost predicate Painted(g: Geometry, b: Bytes, b': Bytes, s: Points, col: bv32) {
    && Fits(g, |b|) && |b'| == |b|
    && (forall i :: Size(g) <= i < |b| ==> b'[i] == b[i])
    && (forall x, y :: OnGrid(g, x, y) ==>
          Get(g, b', x, y) == if (x, y) in s then Shown(g.format, col) else Get(g, b, x, y))
  }

  lemma PaintNone(g: Geometry, b: Bytes, col: bv32)
    requires Fits(g, |b|)
    ensures Painted(g, b, b, iset{}, col)
  {}

  lemma PaintPixel(g: Geometry, b: Bytes, b1: Bytes, b2: Bytes, s: Points, s': Points, x: nat, y: nat, col: bv32)
    requires Painted(g, b, b1, s, col) && OnGrid(g, x, y) && b2 == Set(g, b1, x, y, col)
    requires forall p :: p in s' <==> p in s || p == (x, y)
    ensures Painted(g, b, b2, s', col)
  {
    forall i | Size(g) <= i < |b| ensures b2[i] == b[i] {
      SetTail(g, b1, x, y, col, i);
    }
    forall x', y' | OnGrid(g, x', y')
      ensures Get(g, b2, x', y') == if (x', y') in s' then Shown(g.format, col) else Get(g, b, x', y')
    {
      GetSet(g, b1, x, y, col, x', y');
    }
  }

  lemma PaintTwice(g: Geometry, b: Bytes, b1: Bytes, b2: Bytes, s: Points, t: Points, st: Points, col: bv32)
    requires Painted(g, b, b1, s, col) && Painted(g, b1, b2, t, col)
    requires forall p :: p in st <==> p in s || p in t
    ensures Painted(g, b, b2, st, col)
  {}

  // ---- the pixels determine the bytes ----

  lemma SameByte(f: Format, a: bv8, b: bv8)
    requires !f.RGB565? && forall l :: IsLane(f, l) ==> GetLane(f, a, l) == GetLane(f, b, l)
    ensures a == b
  {
    hide GetLane;
    match f
    case MVLSB | MHLSB | MHMSB =>
      assert IsLane(f, 0) && IsLane(f, 1) && IsLane(f, 2) && IsLane(f, 3);
      assert IsLane(f, 4) && IsLane(f, 5) && IsLane(f, 6) && IsLane(f, 7);
      SameEight(f, a, b);
    case GS2_HMSB =>
      assert IsLane(f, 0) && IsLane(f, 2) && IsLane(f, 4) && IsLane(f, 6);
      SameFour(f, a, b);
    case GS4_HMSB =>
      assert IsLane(f, 0) && IsLane(f, 4);
      SameTwo(f, a, b);
    case GS8 =>
      assert IsLane(f, 0);
      SameOne(f, a, b);
  }
  lemma SameEight(f: Format, a: bv8, b: bv8)
    requires f.MVLSB? || f.MHLSB? || f.MHMSB?
    requires GetLane(f, a, 0) == GetLane(f, b, 0) && GetLane(f, a, 1) == GetLane(f, b, 1)
    requires GetLane(f, a, 2) == GetLane(f, b, 2) && GetLane(f, a, 3) == GetLane(f, b, 3)
    requires GetLane(f, a, 4) == GetLane(f, b, 4) && GetLane(f, a, 5) == GetLane(f, b, 5)
    requires GetLane(f, a, 6) == GetLane(f, b, 6) && GetLane(f, a, 7) == GetLane(f, b, 7)
    ensures a == b
  {
    Bits8(a, b);
  }
  lemma SameFour(f: Format, a: bv8, b: bv8)
    requires f.GS2_HMSB? && GetLane(f, a, 0) == GetLane(f, b, 0) && GetLane(f, a, 2) == GetLane(f, b, 2)
    requires GetLane(f, a, 4) == GetLane(f, b, 4) && GetLane(f, a, 6) == GetLane(f, b, 6)
    ensures a == b
  {
    Pairs4(a, b);
  }
  lemma SameTwo(f: Format, a: bv8, b: bv8)
    requires f.GS4_HMSB? && GetLane(f, a, 0) == GetLane(f, b, 0) && GetLane(f, a, 4) == GetLane(f, b, 4)
    ensures a == b
  {
    Nibbles2(a, b);
  }
  lemma SameOne(f: Format, a: bv8, b: bv8)
    requires f.GS8? && GetLane(f, a, 0) == GetLane(f, b, 0)
    ensures a == b
  {}
  lemma Bits8(a: bv8, b: bv8)
    requires a & 1 == b & 1 && (a >> 1) & 1 == (b >> 1) & 1 && (a >> 2) & 1 == (b >> 2) & 1
    requires (a >> 3) & 1 == (b >> 3) & 1 && (a >> 4) & 1 == (b >> 4) & 1 && (a >> 5) & 1 == (b >> 5) & 1
    requires (a >> 6) & 1 == (b >> 6) & 1 && (a >> 7) & 1 == (b >> 7) & 1
    ensures a == b
  {}
  lemma Pairs4(a: bv8, b: bv8)
    requires a & 3 == b & 3 && (a >> 2) & 3 == (b >> 2) & 3 && (a >> 4) & 3 == (b >> 4) & 3
    requires (a >> 6) & 3 == (b >> 6) & 3
    ensures a == b
  {}
  lemma Nibbles2(a: bv8, b: bv8)
    requires a & 0x0f == b & 0x0f && a >> 4 == b >> 4
    ensures a == b
  {}
  lemma SameWord(a: bv8, b: bv8, c: bv8, d: bv8)
    requires (a as bv32) | ((b as bv32) << 8) == (c as bv32) | ((d as bv32) << 8)
    ensures a == c && b == d
  {}

  /** Every lane of every byte below `Size` is a pixel. */
  lemma PixelAt(g: Geometry, n: nat, i: nat, l: nat) returns (x: nat, y: nat)
    requires Fits(g, n) && i < Size(g) && !g.format.RGB565? && IsLane(g.format, l)
    ensures OnGrid(g, x, y) && Cell(g, x, y) == i && Lane(g.format, x, y) == l
  {
    if g.format.MVLSB? {
      x, y := PixelAtMvlsb(g, n, i, l);
    } else {
      x, y := PixelAtRow(g, n, i, l);
    }
  }
  lemma PixelAtMvlsb(g: Geometry, n: nat, i: nat, l: nat) returns (x: nat, y: nat)
    requires Fits(g, n) && i < Size(g) && g.format.MVLSB? && l < 8
    ensures OnGrid(g, x, y) && Cell(g, x, y) == i && Lane(g.format, x, y) == l
  {
    SizeRow(g);
    QuotientInside(i, g.stride, Rows(g) / 8);
    var q := i / g.stride;
    x, y := i % g.stride, q * 8 + l;
    DivUnique(y, 8, q, l);
  }
  lemma PixelAtRow(g: Geometry, n: nat, i: nat, l: nat) returns (x: nat, y: nat)
    requires Fits(g, n) && i < Size(g) && RowFormat(g.format) && IsLane(g.format, l)
    ensures OnGrid(g, x, y) && Cell(g, x, y) == i && Lane(g.format, x, y) == l
  {
    hide Lane, LaneColumn, IsLane;
    SizeRow(g);
    var k, c := RowPack(g.format), LaneColumn(g.format, l);
    var w := StrideBytes(g.stride, k);
    QuotientInside(i, w, g.height);
    x, y := PackedColumn(i % w, w, k, c), i / w;
    CellRow(g, x, y);
    LaneOfColumn(g.format, l, x, y);
  }
  function StrideBytes(s: nat, k: nat): (w: nat)
    requires k in {1, 2, 4, 8} && s % k == 0 && s > 0
    ensures w == s / k && w > 0 && w * k == s
  {
    s / k
  }
  function PackedColumn(q: nat, w: nat, k: nat, c: nat): (x: nat)
    requires q < w && c < k
    ensures x < w * k && x / k == q && x % k == c
  {
    MulMono(q, w - 1, k);
    DivUnique(q * k + c, k, q, c);
    q * k + c
  }
  function LaneColumn(f: Format, l: nat): (c: nat)
    requires IsLane(f, l) && RowFormat(f)
    ensures c < RowPack(f)
  {
    match f
    case MHMSB => l
    case MHLSB => 7 - l
    case GS2_HMSB => l / 2
    case GS4_HMSB => if l == 0 then 1 else 0
    case GS8 => 0
  }
  lemma LaneOfColumn(f: Format, l: nat, x: nat, y: nat)
    requires IsLane(f, l) && RowFormat(f) && x % RowPack(f) == LaneColumn(f, l)
    ensures Lane(f, x, y) == l
  {}
  lemma QuotientInside(i: nat, w: nat, h: nat)
    requires w > 0 && i < h * w
    ensures 0 <= i / w < h && i == i % w + i / w * w
  {
    MulSign(i / w, w);
    if i / w >= h {
      MulMono(h, i / w, w);
    }
  }

  /** Buffers with the same pixels and the same tail are the same buffer, so `Painted` fixes
      every byte of its result. */
  lemma PaintedUnique(g: Geometry, b: Bytes, b1: Bytes, b2: Bytes, s: Points, col: bv32)
    requires Painted(g, b, b1, s, col) && Painted(g, b, b2, s, col)
    ensures b1 == b2
  {
    forall i | 0 <= i < |b| ensures b1[i] == b2[i] {
      if i < Size(g) {
        if g.format.RGB565? {
          SizeRow(g);
          var k := i / 2;
          var x, y := k % g.stride, k / g.stride;
          QuotientInside(k, g.stride, g.height);
          CellInside(g, |b|, x, y);
          assert Get(g, b1, x, y) == Get(g, b2, x, y) && Cell(g, x, y) == 2 * k;
          SameWord(b1[2 * k], b1[2 * k + 1], b2[2 * k], b2[2 * k + 1]);
        } else {
          forall l | IsLane(g.format, l) ensures GetLane(g.format, b1[i], l) == GetLane(g.format, b2[i], l) {
            var x, y := PixelAt(g, |b|, i, l);
            assert Get(g, b1, x, y) == Get(g, b2, x, y);
          }
          SameByte(g.format, b1[i], b2[i]);
        }
      }
    }
  }

  // ---- the reference: set the pixels of a rectangle one by one ----

  ghost function SetRow(g: Geometry, b: Bytes, x: nat, y: nat, w: nat, col: bv32): (b': Bytes)
    requires Fits(g, |b|) && x + w <= g.stride && y < Rows(g)
    ensures |b'| == |b|
  {
    if w == 0 then b else Set(g, SetRow(g, b, x, y, w - 1, col), x + w - 1, y, col)
  }
  ghost function SetRect(g: Geometry, b: Bytes, x: nat, y: nat, w: nat, h: nat, col: bv32): (b': Bytes)
    requires Fits(g, |b|) && x + w <= g.stride && y + h <= Rows(g)
    ensures |b'| == |b|
  {
    if h == 0 then b else SetRow(g, SetRect(g, b, x, y, w, h - 1, col), x, y + h - 1, w, col)
  }
  lemma {:induction false} SetRowPaints(g: Geometry, b: Bytes, b1: Bytes, s: Points, x: nat, y: nat, w: nat, col: bv32)
    requires Painted(g, b, b1, s, col) && x + w <= g.stride && y < Rows(g)
    ensures Painted(g, b, SetRow(g, b1, x, y, w, col), s + Rect(x, y, w, 1), col)
  {
    hide Painted, Set, Rect;
    if w == 0 {
      EmptyRow(s, x, y);
    } else {
      PaintedFits(g, b, b1, s, col);
      SetRowPaints(g, b, b1, s, x, y, w - 1, col);
      var r, px := SetRow(g, b1, x, y, w - 1, col), x + w - 1;
      AddToRow(s, x, y, w);
      PaintPixel(g, b, r, Set(g, r, px, y, col), s + Rect(x, y, w - 1, 1), s + Rect(x, y, w, 1), px, y, col);
    }
  }
  lemma EmptyColumn(s: Points, x: int, y: int)
    ensures s + Rect(x, y, 1, 0) == s
  {}
  lemma EmptyRow(s: Points, x: int, y: int)
    ensures s + Rect(x, y, 0, 1) == s
  {}
  lemma PaintedFits(g: Geometry, b: Bytes, b': Bytes, s: Points, col: bv32)
    requires Painted(g, b, b', s, col)
    ensures Fits(g, |b'|)
  {}
  lemma AddToRow(s: Points, x: int, y: int, w: int)
    requires w > 0
    ensures forall p :: p in s + Rect(x, y, w, 1) <==> p in s + Rect(x, y, w - 1, 1) || p == (x + w - 1, y)
  {}
  lemma {:induction false} SetRectPaints(g: Geometry, b: Bytes, x: nat, y: nat, w: nat, h: nat, col: bv32)
    requires Fits(g, |b|) && x + w <= g.stride && y + h <= Rows(g)
    ensures Painted(g, b, SetRect(g, b, x, y, w, h, col), Rect(x, y, w, h), col)
  {
    if h > 0 {
      SetRectPaints(g, b, x, y, w, h - 1, col);
      SetRowPaints(g, b, SetRect(g, b, x, y, w, h - 1, col), Rect(x, y, w, h - 1), x, y + h - 1, w, col);
      assert Rect(x, y, w, h) == Rect(x, y, w, h - 1) + Rect(x, y + h - 1, w, 1);
    }
  }
}
