/** The frame buffer object: construction, single pixels and rectangle fills, in place. */
module FrameBuffer {
  import opened Arithmetic
  import opened PixelFormats
  import opened Painting
  import opened FrameBufferSizes
  import Ticks

  datatype Result<+T> = Ok(value: T) | ValueError
  datatype Option<+T> = None | Some(value: T)

  /** The constants of the module: the format numbers seen by Python. */
  function FormatOf(n: int): Option<Format> {
    match n
    case 0 => Some(MVLSB)
    case 1 => Some(RGB565)
    case 2 => Some(GS4_HMSB)
    case 3 => Some(MHLSB)
    case 4 => Some(MHMSB)
    case 5 => Some(GS2_HMSB)
    case 6 => Some(GS8)
    case _ => None
  }
  class FrameBuffer {
    const buf: array<bv8>
    const format: Format
    const width: nat
    const height: nat
    const stride: nat

    function Geo(): Geometry { Geometry(format, width, height, stride) }
    ghost predicate Valid() { Fits(Geo(), buf.Length) }
    /** The pixels of the frame buffer itself; the grid may be wider and, in MVLSB, taller. */
    ghost function Screen(): Points { Rect(0, 0, width, height) }

    constructor (buf: array<bv8>, format: Format, width: nat, height: nat, stride: nat)
      ensures this.buf == buf && Geo() == Geometry(format, width, height, stride)
    {
      this.buf, this.format, this.width, this.height, this.stride := buf, format, width, height, stride;
    }

    /** `framebuf_make_new`, on a machine whose sizes are words of `word` bits.  The arguments are
        accepted exactly when they are in range and the check finds the buffer large enough.  The
        rounded stride is then stored in 16 bits; what becomes of the object is decided by whether it
        fits there and whether the check was right. */
    static method MakeNew(buf: array<bv8>, width: int, height: int, format: int, strideArg: Option<int>, word: nat)
      returns (r: Result<FrameBuffer>)
      requires word >= 32
      ensures var stride := if strideArg.Some? then strideArg.value else width;
              r.Ok? <==>
                && 1 <= width <= stride <= 0xffff && 1 <= height <= 0xffff && FormatOf(format).Some?
                && var f := FormatOf(format).value;
                   Accepts(Geometry(f, width, height, RoundUp(stride, RowPack(f))), word, buf.Length)
      ensures r.Ok? ==>
                && var stride := if strideArg.Some? then strideArg.value else width;
                   var f := FormatOf(format).value;
                   var rounded := RoundUp(stride, RowPack(f));
                   var g := Geometry(f, width, height, rounded);
                && r.value.buf == buf && r.value.Geo() == Stored(f, width, height, stride)
                && (r.value.Valid() <==> rounded <= 0xffff && Holds(g, buf.Length))
                && (PixelsSound(r.value.Geo(), buf.Length) <==>
                      (rounded <= 0xffff || height == 1) && LastByte(r.value.Geo(), width - 1, height - 1) < buf.Length)
                && (Bits(g) < Ticks.Pow2(word) ==>
                      (PixelsSound(r.value.Geo(), buf.Length) <==> rounded <= 0xffff || height == 1))
    {
      var stride := if strideArg.Some? then strideArg.value else width;
      if width < 1 || height < 1 || width > 0xffff || height > 0xffff || stride > 0xffff || stride < width {
        return ValueError;
      }
      var f := FormatOf(format);
      if f.None? {
        return ValueError;
      }
      var rounded, required := Required(f.value, width, height, stride, word);
      if required > buf.Length {
        return ValueError;
      }
      var fb := new FrameBuffer(buf, f.value, width, height, U16(rounded));
      Made(f.value, width, height, stride, word, buf.Length);
      return Ok(fb);
    }

    /** The `switch` over the format: the rounded stride and the bytes needed, every product being cut
        to a word. */
    static method Required(f: Format, width: nat, height: nat, stride0: nat, word: nat) returns (stride: nat, bytes: nat)
      requires word >= 32 && height <= 0xffff
      ensures stride == RoundUp(stride0, RowPack(f))
      ensures bytes == CheckedSize(Geometry(f, width, height, stride), word)
    {
      hide Ticks.Pow2;
      stride := stride0;
      var heightRequired, bpp := height, 1;
      match f {
        case MVLSB =>
          heightRequired := (height + 7) / 8 * 8;
        case MHLSB | MHMSB =>
          stride := (stride + 7) / 8 * 8;
        case GS2_HMSB =>
          stride := (stride + 3) / 4 * 4;
          bpp := 2;
        case GS4_HMSB =>
          stride := (stride + 1) / 2 * 2;
          bpp := 4;
        case GS8 =>
          bpp := 8;
        case RGB565 =>
          bpp := 16;
      }
      ghost var g := Geometry(f, width, height, stride);
      assert heightRequired == Rows(g) && bpp == BitsPerPixel(f);
      var w := Ticks.Pow2(word);
      ModTwice(heightRequired * stride, bpp, w);
      bytes := (heightRequired * stride % w) * bpp % w / 8;
    }

    // ---- single pixels, by format ----

    /** Put one bit of a byte, as the monochrome formats do. */
    method StoreBit(index: nat, offset: nat, col: bv32)
      requires index < buf.Length && offset < 8 && format in {MVLSB, MHLSB, MHMSB}
      modifies buf
      ensures buf[..] == old(buf[..])[index := PutLane(format, old(buf[index]), offset, col)]
    {
      buf[index] := (buf[index] & !((1 as bv8) << Shift(offset))) | ((if col != 0 then 1 else 0) as bv8 << Shift(offset));
    }

    method MonoHorizSetPixel(x: nat, y: nat, col: bv32)
      requires Valid() && OnGrid(Geo(), x, y) && format in {MHLSB, MHMSB}
      modifies buf
      ensures buf[..] == Set(Geo(), old(buf[..]), x, y, col)
    {
      hide PutLane;
      CellInside(Geo(), buf.Length, x, y);
      var index := (x + y * stride) / 8;
      var offset := if format == MHMSB then x % 8 else 7 - x % 8;
      StoreBit(index, offset, col);
    }

    method MvlsbSetPixel(x: nat, y: nat, col: bv32)
      requires Valid() && OnGrid(Geo(), x, y) && format == MVLSB
      modifies buf
      ensures buf[..] == Set(Geo(), old(buf[..]), x, y, col)
    {
      hide PutLane;
      CellInside(Geo(), buf.Length, x, y);
      var index, offset := y / 8 * stride + x, y % 8;
      StoreBit(index, offset, col);
    }

    method Rgb565SetPixel(x: nat, y: nat, col: bv32)
      requires Valid() && OnGrid(Geo(), x, y) && format == RGB565
      modifies buf
      ensures buf[..] == Set(Geo(), old(buf[..]), x, y, col)
    {
      CellInside(Geo(), buf.Length, x, y);
      var index := 2 * (x + y * stride);
      buf[index] := Low8(col);
      buf[index + 1] := Low8(col >> 8);
    }

    method Gs2HmsbSetPixel(x: nat, y: nat, col: bv32)
      requires Valid() && OnGrid(Geo(), x, y) && format == GS2_HMSB
      modifies buf
      ensures buf[..] == Set(Geo(), old(buf[..]), x, y, col)
    {
      CellInside(Geo(), buf.Length, x, y);
      var pixel := (x + y * stride) / 4;
      var shift := Shift(x % 4 * 2);
      var mask, color := (3 as bv8) << shift, (col & 3) as bv8 << shift;
      buf[pixel] := color | (buf[pixel] & !mask);
    }

    method Gs4HmsbSetPixel(x: nat, y: nat, col: bv32)
      requires Valid() && OnGrid(Geo(), x, y) && format == GS4_HMSB
      modifies buf
      ensures buf[..] == Set(Geo(), old(buf[..]), x, y, col)
    {
      CellInside(Geo(), buf.Length, x, y);
      var pixel := (x + y * stride) / 2;
      if x % 2 == 1 {
        buf[pixel] := (Low8(col) & 0x0f) | (buf[pixel] & 0xf0);
      } else {
        buf[pixel] := (Low8(col) << 4) | (buf[pixel] & 0x0f);
      }
    }

    method Gs8SetPixel(x: nat, y: nat, col: bv32)
      requires Valid() && OnGrid(Geo(), x, y) && format == GS8
      modifies buf
      ensures buf[..] == Set(Geo(), old(buf[..]), x, y, col)
    {
      CellInside(Geo(), buf.Length, x, y);
      buf[x + y * stride] := Low8(col);
    }

    method SetPixel(x: nat, y: nat, col: bv32)
      requires Valid() && OnGrid(Geo(), x, y)
      modifies buf
      ensures buf[..] == Set(Geo(), old(buf[..]), x, y, col)
    {
      match format {
        case MVLSB => MvlsbSetPixel(x, y, col);
        case RGB565 => Rgb565SetPixel(x, y, col);
        case GS2_HMSB => Gs2HmsbSetPixel(x, y, col);
        case GS4_HMSB => Gs4HmsbSetPixel(x, y, col);
        case GS8 => Gs8SetPixel(x, y, col);
        case MHLSB | MHMSB => MonoHorizSetPixel(x, y, col);
      }
    }

    method MonoHorizGetPixel(x: nat, y: nat) returns (col: bv32)
      requires Valid() && OnGrid(Geo(), x, y) && format in {MHLSB, MHMSB}
      ensures col == Get(Geo(), buf[..], x, y)
    {
      CellInside(Geo(), buf.Length, x, y);
      var index := (x + y * stride) / 8;
      var offset := if format == MHMSB then x % 8 else 7 - x % 8;
      return ((buf[index] >> Shift(offset)) & 0x01) as bv32;
    }
    method MvlsbGetPixel(x: nat, y: nat) returns (col: bv32)
      requires Valid() && OnGrid(Geo(), x, y) && format == MVLSB
      ensures col == Get(Geo(), buf[..], x, y)
    {
      CellInside(Geo(), buf.Length, x, y);
      return ((buf[y / 8 * stride + x] >> Shift(y % 8)) & 0x01) as bv32;
    }
    method Rgb565GetPixel(x: nat, y: nat) returns (col: bv32)
      requires Valid() && OnGrid(Geo(), x, y) && format == RGB565
      ensures col == Get(Geo(), buf[..], x, y)
    {
      CellInside(Geo(), buf.Length, x, y);
      var index := 2 * (x + y * stride);
      return (buf[index] as bv32) | ((buf[index + 1] as bv32) << 8);
    }
    method Gs2HmsbGetPixel(x: nat, y: nat) returns (col: bv32)
      requires Valid() && OnGrid(Geo(), x, y) && format == GS2_HMSB
      ensures col == Get(Geo(), buf[..], x, y)
    {
      CellInside(Geo(), buf.Length, x, y);
      var pixel := buf[(x + y * stride) / 4];
      var shift := Shift(x % 4 * 2);
      return ((pixel >> shift) & 0x3) as bv32;
    }
    method Gs4HmsbGetPixel(x: nat, y: nat) returns (col: bv32)
      requires Valid() && OnGrid(Geo(), x, y) && format == GS4_HMSB
      ensures col == Get(Geo(), buf[..], x, y)
    {
      CellInside(Geo(), buf.Length, x, y);
      if x % 2 == 1 {
        return (buf[(x + y * stride) / 2] & 0x0f) as bv32;
      }
      return (buf[(x + y * stride) / 2] >> 4) as bv32;
    }
    method Gs8GetPixel(x: nat, y: nat) returns (col: bv32)
      requires Valid() && OnGrid(Geo(), x, y) && format == GS8
      ensures col == Get(Geo(), buf[..], x, y)
    {
      CellInside(Geo(), buf.Length, x, y);
      return buf[x + y * stride] as bv32;
    }

    /** The colour last painted at a pixel, as far as the format can hold it, or what was there. */
    method GetPixel(x: nat, y: nat) returns (col: bv32)
      requires Valid() && OnGrid(Geo(), x, y)
      ensures col == Get(Geo(), buf[..], x, y)
      ensures forall b: Bytes, s: Points, c: bv32 :: Painted(Geo(), b, buf[..], s, c) ==>
                col == if (x, y) in s then Shown(format, c) else Get(Geo(), b, x, y)
    {
      hide Get;
      match format {
        case MVLSB => col := MvlsbGetPixel(x, y);
        case RGB565 => col := Rgb565GetPixel(x, y);
        case GS2_HMSB => col := Gs2HmsbGetPixel(x, y);
        case GS4_HMSB => col := Gs4HmsbGetPixel(x, y);
        case GS8 => col := Gs8GetPixel(x, y);
        case MHLSB | MHMSB => col := MonoHorizGetPixel(x, y);
      }
    }

    method SetPixelChecked(x: int, y: int, col: bv32, mask: bool)
      requires Valid()
      modifies buf
      ensures Painted(Geo(), old(buf[..]), buf[..], if mask then Screen() * iset{(x, y)} else iset{}, col)
    {
      if mask && 0 <= x < width && 0 <= y < height {
        SetPixel(x, y, col);
        PaintPixel(Geo(), old(buf[..]), old(buf[..]), buf[..], iset{}, Screen() * iset{(x, y)}, x, y, col);
      }
    }

    // ---- rectangle fills, by format ----

    ghost predicate Inside(x: nat, y: nat, w: nat, h: nat) { x + w <= width && y + h <= height }

    /** The inner loop of the horizontal monochrome fill: one column, downwards from byte `b0`. */
    method MonoFillColumn(start: nat, offset: nat, h: nat, col: bv32,
                          ghost x: nat, ghost y: nat, ghost old0: Bytes, ghost s: Points)
      requires Valid() && format in {MHLSB, MHMSB} && x < width && y + h <= height
      requires offset == Lane(format, x, y) && start == x / 8 + y * (stride / 8)
      requires Painted(Geo(), old0, buf[..], s, col)
      modifies buf
      ensures Painted(Geo(), old0, buf[..], s + Rect(x, y, 1, h), col)
    {
      hide Painted, Rect, Get, PutLane, Set, Size, Cell, Lane;
      var advance, b, hh := stride / 8, start, h;
      ghost var yy := y;
      EmptyColumn(s, x, y);
      while hh > 0
        invariant yy == y + h - hh <= y + h && b == x / 8 + yy * advance
        invariant Painted(Geo(), old0, buf[..], s + Rect(x, y, 1, yy - y), col)
      {
        MonoPixel(b, offset, col, x, yy, y, old0, s);
        Distribute(advance, yy, 1);
        b, yy := b + advance, yy + 1;
        hh := hh - 1;
      }
    }
    method MonoPixel(b: nat, offset: nat, col: bv32,
                     ghost x: nat, ghost yy: nat, ghost y: nat, ghost old0: Bytes, ghost s: Points)
      requires Valid() && format in {MHLSB, MHMSB} && x < width && y <= yy < height
      requires offset == Lane(format, x, y) && b == x / 8 + yy * (stride / 8)
      requires Painted(Geo(), old0, buf[..], s + Rect(x, y, 1, yy - y), col)
      modifies buf
      ensures Painted(Geo(), old0, buf[..], s + Rect(x, y, 1, yy + 1 - y), col)
    {
      hide Get, PutLane;
      ghost var b1 := buf[..];
      CellRow(Geo(), x, yy);
      CellInside(Geo(), buf.Length, x, yy);
      StoreBit(b, offset, col);
      PaintPixel(Geo(), old0, b1, buf[..], s + Rect(x, y, 1, yy - y), s + Rect(x, y, 1, yy + 1 - y), x, yy, col);
    }

    method MonoHorizFillRect(x0: nat, y: nat, w0: nat, h: nat, col: bv32)
      requires Valid() && Inside(x0, y, w0, h) && format in {MHLSB, MHMSB}
      modifies buf
      ensures Painted(Geo(), old(buf[..]), buf[..], Rect(x0, y, w0, h), col)
    {
      ghost var b0 := buf[..];
      var reverse, advance := format == MHMSB, stride / 8;
      var x, w := x0, w0;
      while w > 0
        invariant 0 <= w && x + w == x0 + w0
        invariant Painted(Geo(), b0, buf[..], Rect(x0, y, x - x0, h), col)
      {
        w := w - 1;
        var b := x / 8 + y * advance;
        var offset := if reverse then x % 8 else 7 - x % 8;
        MonoFillColumn(b, offset, h, col, x, y, b0, Rect(x0, y, x - x0, h));
        x := x + 1;
        assert Rect(x0, y, x - x0, h) == Rect(x0, y, x - 1 - x0, h) + Rect(x - 1, y, 1, h);
      }
      assert x - x0 == w0;
    }

    /** The inner loop of the vertical monochrome fill: one pixel row, one bit of each byte. */
    method MvlsbFillRow(start: nat, offset: nat, w: nat, col: bv32,
                        ghost x: nat, ghost y: nat, ghost old0: Bytes, ghost s: Points)
      requires Valid() && format == MVLSB && x + w <= width && y < height
      requires offset == Lane(format, x, y) && start == y / 8 * stride + x
      requires Painted(Geo(), old0, buf[..], s, col)
      modifies buf
      ensures Painted(Geo(), old0, buf[..], s + Rect(x, y, w, 1), col)
    {
      var b, ww := start, w;
      while ww > 0
        invariant 0 <= ww <= w && b == start + (w - ww)
        invariant Painted(Geo(), old0, buf[..], s + Rect(x, y, w - ww, 1), col)
      {
        ghost var b1, xx := buf[..], x + w - ww;
        CellInside(Geo(), buf.Length, xx, y);
        StoreBit(b, offset, col);
        PaintPixel(Geo(), old0, b1, buf[..], s + Rect(x, y, w - ww, 1), s + Rect(x, y, w - ww + 1, 1), xx, y, col);
        b := b + 1;
        ww := ww - 1;
      }
    }

    method MvlsbFillRect(x: nat, y0: nat, w: nat, h0: nat, col: bv32)
      requires Valid() && Inside(x, y0, w, h0) && format == MVLSB
      modifies buf
      ensures Painted(Geo(), old(buf[..]), buf[..], Rect(x, y0, w, h0), col)
    {
      ghost var b0 := buf[..];
      var y, h := y0, h0;
      while h > 0
        invariant 0 <= h && y + h == y0 + h0
        invariant Painted(Geo(), b0, buf[..], Rect(x, y0, w, y - y0), col)
      {
        h := h - 1;
        var b, offset := y / 8 * stride + x, y % 8;
        MvlsbFillRow(b, offset, w, col, x, y, b0, Rect(x, y0, w, y - y0));
        y := y + 1;
        assert Rect(x, y0, w, y - y0) == Rect(x, y0, w, y - 1 - y0) + Rect(x, y - 1, w, 1);
      }
      assert y - y0 == h0;
    }

    /** The inner loop of the 16-bit fill, from word `start` on. */
    method Rgb565FillRow(start: nat, w: nat, col: bv32, ghost x: nat, ghost y: nat, ghost old0: Bytes, ghost s: Points)
      requires Valid() && format == RGB565 && x + w <= width && y < height && start == x + y * stride
      requires Painted(Geo(), old0, buf[..], s, col)
      modifies buf
      ensures Painted(Geo(), old0, buf[..], s + Rect(x, y, w, 1), col)
    {
      hide Get, Low8;
      var b, ww := start, w;
      while ww > 0
        invariant 0 <= ww <= w && b == start + (w - ww)
        invariant Painted(Geo(), old0, buf[..], s + Rect(x, y, w - ww, 1), col)
      {
        ghost var b1, xx := buf[..], x + w - ww;
        CellInside(Geo(), buf.Length, xx, y);
        buf[2 * b] := Low8(col);
        buf[2 * b + 1] := Low8(col >> 8);
        PaintPixel(Geo(), old0, b1, buf[..], s + Rect(x, y, w - ww, 1), s + Rect(x, y, w - ww + 1, 1), xx, y, col);
        b := b + 1;
        ww := ww - 1;
      }
    }

    method Rgb565FillRect(x: nat, y: nat, w: nat, h0: nat, col: bv32)
      requires Valid() && Inside(x, y, w, h0) && format == RGB565
      modifies buf
      ensures Painted(Geo(), old(buf[..]), buf[..], Rect(x, y, w, h0), col)
    {
      hide Get, Size;
      ghost var b0 := buf[..];
      var b, h := x + y * stride, h0;
      while h > 0
        invariant 0 <= h <= h0 && b == x + (y + h0 - h) * stride
        invariant Painted(Geo(), b0, buf[..], Rect(x, y, w, h0 - h), col)
      {
        ghost var yy := y + h0 - h;
        h := h - 1;
        Rgb565FillRow(b, w, col, x, yy, b0, Rect(x, y, w, yy - y));
        b := b + w + (stride - w);
        assert (yy + 1) * stride == yy * stride + stride;
        assert Rect(x, y, w, h0 - h) == Rect(x, y, w, yy - y) + Rect(x, yy, w, 1);
      }
    }

    method Gs2HmsbFillRect(x: nat, y: nat, w: nat, h: nat, col: bv32)
      requires Valid() && Inside(x, y, w, h) && format == GS2_HMSB
      modifies buf
      ensures Painted(Geo(), old(buf[..]), buf[..], Rect(x, y, w, h), col)
    {
      ghost var g, b0 := Geo(), buf[..];
      for xx := x to x + w
        invariant Painted(g, b0, buf[..], Rect(x, y, xx - x, h), col)
      {
        for yy := y to y + h
          invariant Painted(g, b0, buf[..], Rect(x, y, xx - x, h) + Rect(xx, y, 1, yy - y), col)
        {
          ghost var b1 := buf[..];
          Gs2HmsbSetPixel(xx, yy, col);
          PaintPixel(g, b0, b1, buf[..], Rect(x, y, xx - x, h) + Rect(xx, y, 1, yy - y),
                     Rect(x, y, xx - x, h) + Rect(xx, y, 1, yy - y + 1), xx, yy, col);
        }
        assert Rect(x, y, xx - x + 1, h) == Rect(x, y, xx - x, h) + Rect(xx, y, 1, h);
      }
    }

    method Gs8FillRect(x: nat, y: nat, w: nat, h0: nat, col: bv32)
      requires Valid() && Inside(x, y, w, h0) && format == GS8
      modifies buf
      ensures Painted(Geo(), old(buf[..]), buf[..], Rect(x, y, w, h0), col)
    {
      hide Get, Size, Set, Cell;
      ghost var g, b0 := Geo(), buf[..];
      var pixel, h := x + y * stride, h0;
      while h > 0
        invariant 0 <= h <= h0 && pixel == x + (y + h0 - h) * stride
        invariant Painted(g, b0, buf[..], Rect(x, y, w, h0 - h), col)
      {
        ghost var yy := y + h0 - h;
        h := h - 1;
        Gs8FillRow(pixel, x, yy, w, col, b0, Rect(x, y, w, yy - y));
        pixel := pixel + stride;
        assert (yy + 1) * stride == yy * stride + stride;
        assert Rect(x, y, w, h0 - h) == Rect(x, y, w, yy - y) + Rect(x, yy, w, 1);
      }
    }
    method Gs8FillRow(pixel: nat, ghost x: nat, ghost yy: nat, w: nat, col: bv32, ghost b0: Bytes, ghost s: Points)
      requires Valid() && format == GS8 && x + w <= width && yy < height && pixel == x + yy * stride
      requires Painted(Geo(), b0, buf[..], s, col)
      modifies buf
      ensures Painted(Geo(), b0, buf[..], s + Rect(x, yy, w, 1), col)
    {
      hide Get;
      ghost var g := Geo();
      assert s + Rect(x, yy, 0, 1) == s;
      for i := 0 to w
        invariant Painted(g, b0, buf[..], s + Rect(x, yy, i, 1), col)
      {
        ghost var b1 := buf[..];
        CellInside(g, buf.Length, x + i, yy);
        buf[pixel + i] := Low8(col);
        AddToRow(s, x, yy, i + 1);
        PaintPixel(g, b0, b1, buf[..], s + Rect(x, yy, i, 1), s + Rect(x, yy, i + 1, 1), x + i, yy, col);
      }
    }

    /** Store a byte that puts `col` in one nibble. */
    method StoreNibble(index: nat, lane: nat, v: bv8, col: bv32,
                       ghost x: nat, ghost y: nat, ghost old0: Bytes, ghost s: Points)
      requires Valid() && format == GS4_HMSB && x < width && y < height
      requires index == x / 2 + y * (stride / 2) && lane == (if x % 2 == 1 then 0 else 4)
      requires index < buf.Length && v == PutLane(GS4_HMSB, buf[index], lane, col)
      requires Painted(Geo(), old0, buf[..], s, col)
      modifies buf
      ensures Painted(Geo(), old0, buf[..], s + Rect(x, y, 1, 1), col)
    {
      CellRow(Geo(), x, y);
      CellInside(Geo(), buf.Length, x, y);
      ghost var b1 := buf[..];
      buf[index] := v;
      PaintPixel(Geo(), old0, b1, buf[..], s, s + Rect(x, y, 1, 1), x, y, col);
    }

    /** `memset` of `n` bytes that hold `col` in both nibbles: `2 * n` pixels from the even `x` on. */
    method MemsetPairs(start: nat, v: bv8, n: nat, col: bv32,
                       ghost x: nat, ghost y: nat, ghost old0: Bytes, ghost s: Points)
      requires Valid() && format == GS4_HMSB && x % 2 == 0 && x + 2 * n <= width && y < height
      requires start == x / 2 + y * (stride / 2) && col < 16 && v == (Low8(col) << 4) | Low8(col)
      requires Painted(Geo(), old0, buf[..], s, col)
      modifies buf
      ensures Painted(Geo(), old0, buf[..], s + Rect(x, y, 2 * n, 1), col)
    {
      hide Get, Set, Cell, Size, Low8;
      for i := 0 to n
        invariant Painted(Geo(), old0, buf[..], s + Rect(x, y, 2 * i, 1), col)
      {
        ghost var b1, t := buf[..], s + Rect(x, y, 2 * i, 1);
        assert start + i == (x + 2 * i) / 2 + y * (stride / 2);
        PaintPair(Geo(), old0, b1, t, x + 2 * i, y, col);
        PairCells(Geo(), buf.Length, x + 2 * i, y);
        buf[start + i] := v;
        assert s + Rect(x, y, 2 * (i + 1), 1) == t + Rect(x + 2 * i, y, 2, 1);
      }
    }

    /** One row of the nibble fill: an odd first pixel, whole bytes, an even last pixel. */
    method Gs4FillRow(oddX: bool, w: nat, pair: nat, col: bv32,
                      ghost x: nat, ghost y: nat, ghost old0: Bytes, ghost s: Points)
      returns (next: nat)
      requires Valid() && oddX == (x % 2 == 1) && x + w <= width && y < height && format == GS4_HMSB && col < 16
      requires pair == x / 2 + y * (stride / 2) && Painted(Geo(), old0, buf[..], s, col)
      modifies buf
      ensures Painted(Geo(), old0, buf[..], s + Rect(x, y, w, 1), col)
      ensures next + (stride - w) / 2 == pair + stride / 2
    {
      hide Get, Set, Size, Cell;
      if oddX && w > 0 {
        RowByte(x, y);
        NibbleStores(buf[pair], col);
        StoreNibble(pair, 0, (buf[pair] & 0xf0) | Low8(col), col, x, y, old0, s);
        next := Gs4FillEven(w - 1, pair + 1, col, x + 1, y, old0, s + Rect(x, y, 1, 1));
        assert s + Rect(x, y, w, 1) == s + Rect(x, y, 1, 1) + Rect(x + 1, y, w - 1, 1);
      } else {
        next := Gs4FillEven(w, pair, col, if w > 0 then x else 0, y, old0, s);
        assert w == 0 ==> s + Rect(x, y, w, 1) == s + Rect(0, y, 0, 1);
        if w % 2 == 1 {
          next := next + 1;
        }
      }
    }

    /** The rest of a row, from an even pixel on. */
    method Gs4FillEven(ww: nat, pair: nat, col: bv32, ghost x: nat, ghost y: nat, ghost old0: Bytes, ghost s: Points)
      returns (next: nat)
      requires Valid() && x % 2 == 0 && x + ww <= width && y < height && format == GS4_HMSB && col < 16
      requires ww > 0 ==> pair == x / 2 + y * (stride / 2)
      requires Painted(Geo(), old0, buf[..], s, col)
      modifies buf
      ensures Painted(Geo(), old0, buf[..], s + Rect(x, y, ww, 1), col)
      ensures next == pair + ww / 2
    {
      hide Get, Set, Size, Cell, Painted;
      var colShifted: bv8 := Low8(col) << 4;
      assert ww == 0 ==> s + Rect(x, y, ww, 1) == s;
      if ww > 0 {
        MemsetPairs(pair, colShifted | Low8(col), ww / 2, col, x, y, old0, s);
      }
      next := pair + ww / 2;
      if ww % 2 == 1 {
        ghost var px, t := x + ww - 1, s + Rect(x, y, ww / 2 * 2, 1);
        RowByte(px, y);
        NibbleStores(buf[next], col);
        StoreNibble(next, 4, colShifted | (buf[next] & 0x0f), col, px, y, old0, t);
        assert s + Rect(x, y, ww, 1) == t + Rect(px, y, 1, 1);
      } else {
        assert s + Rect(x, y, ww, 1) == s + Rect(x, y, ww / 2 * 2, 1);
      }
    }
    lemma RowByte(x: nat, y: nat)
      requires Valid() && format == GS4_HMSB && x < width && y < height
      ensures x / 2 + y * (stride / 2) < buf.Length
    {
      CellRow(Geo(), x, y);
      CellInside(Geo(), buf.Length, x, y);
    }

    method Gs4HmsbFillRect(x: nat, y: nat, w: nat, h0: nat, col0: bv32)
      requires Valid() && Inside(x, y, w, h0) && format == GS4_HMSB
      modifies buf
      ensures Painted(Geo(), old(buf[..]), buf[..], Rect(x, y, w, h0), col0)
    {
      hide Get, Size;
      ghost var g, b0 := Geo(), buf[..];
      var col := col0 & 0x0f;
      var pixelPair := (x + y * stride) / 2;
      var tillNextLine := (stride - w) / 2;
      var oddX := x % 2 == 1;
      var h := h0;
      CellRow(g, x, y);
      while h > 0
        invariant 0 <= h <= h0 && pixelPair == x / 2 + (y + h0 - h) * (stride / 2)
        invariant Painted(g, b0, buf[..], Rect(x, y, w, h0 - h), col)
      {
        ghost var yy := y + h0 - h;
        h := h - 1;
        pixelPair := Gs4FillRow(oddX, w, pixelPair, col, x, yy, b0, Rect(x, y, w, yy - y));
        pixelPair := pixelPair + tillNextLine;
        assert (yy + 1) * (stride / 2) == yy * (stride / 2) + stride / 2;
        assert Rect(x, y, w, h0 - h) == Rect(x, y, w, yy - y) + Rect(x, yy, w, 1);
      }
    }

    /** `formats[fb->format].fill_rect`: every format's fast form paints exactly the rectangle,
        and leaves the bytes that setting each pixel in turn would leave. */
    method FormatFillRect(x: nat, y: nat, w: nat, h: nat, col: bv32)
      requires Valid() && Inside(x, y, w, h)
      modifies buf
      ensures Painted(Geo(), old(buf[..]), buf[..], Rect(x, y, w, h), col)
      ensures buf[..] == SetRect(Geo(), old(buf[..]), x, y, w, h, col)
    {
      match format {
        case MVLSB => MvlsbFillRect(x, y, w, h, col);
        case RGB565 => Rgb565FillRect(x, y, w, h, col);
        case GS2_HMSB => Gs2HmsbFillRect(x, y, w, h, col);
        case GS4_HMSB => Gs4HmsbFillRect(x, y, w, h, col);
        case GS8 => Gs8FillRect(x, y, w, h, col);
        case MHLSB | MHMSB => MonoHorizFillRect(x, y, w, h, col);
      }
      ghost var b0 := old(buf[..]);
      SetRectPaints(Geo(), b0, x, y, w, h, col);
      PaintedUnique(Geo(), b0, buf[..], SetRect(Geo(), b0, x, y, w, h, col), Rect(x, y, w, h), col);
    }

    /** `fill_rect`: the rectangle is clipped to the screen first. */
    method FillRect(x0: int, y0: int, w: int, h: int, col: bv32)
      requires Valid()
      modifies buf
      ensures Painted(Geo(), old(buf[..]), buf[..], Screen() * Rect(x0, y0, w, h), col)
    {
      hide Painted, Get;
      if h < 1 || w < 1 || x0 + w <= 0 || y0 + h <= 0 || y0 >= height || x0 >= width {
        assert Screen() * Rect(x0, y0, w, h) == iset{};
        PaintNone(Geo(), buf[..], col);
        return;
      }
      var xend := if width < x0 + w then width else x0 + w;
      var yend := if height < y0 + h then height else y0 + h;
      var x, y := if x0 > 0 then x0 else 0, if y0 > 0 then y0 else 0;
      FormatFillRect(x, y, xend - x, yend - y, col);
      assert Screen() * Rect(x0, y0, w, h) == Rect(x, y, xend - x, yend - y);
    }

    /** `framebuf_fill`. */
    method Fill(col: bv32)
      requires Valid()
      modifies buf
      ensures Painted(Geo(), old(buf[..]), buf[..], Screen(), col)
    {
      FormatFillRect(0, 0, width, height, col);
    }
  }

  lemma ModTwice(a: nat, b: nat, w: nat)
    requires w > 0
    ensures (a % w) * b % w == a * b % w
  {
    var q, r := a / w, a % w;
    assert a == q * w + r;
    assert a * b == (q * b) * w + r * b;
    assert r * b == r * b / w * w + r * b % w;
    assert a * b == (q * b + r * b / w) * w + r * b % w;
    DivUnique(a * b, w, q * b + r * b / w, r * b % w);
  }
  lemma Made(f: Format, width: nat, height: nat, stride: nat, word: nat, n: nat)
    requires 1 <= width <= stride <= 0xffff && 1 <= height && word >= 32
    requires Accepts(Geometry(f, width, height, RoundUp(stride, RowPack(f))), word, n)
    ensures var rounded, stored := RoundUp(stride, RowPack(f)), Stored(f, width, height, stride);
            var g := Geometry(f, width, height, rounded);
            && (Fits(stored, n) <==> rounded <= 0xffff && Holds(g, n))
            && (PixelsSound(stored, n) <==>
                  (rounded <= 0xffff || height == 1) && LastByte(stored, width - 1, height - 1) < n)
            && (Bits(g) < Ticks.Pow2(word) ==> (PixelsSound(stored, n) <==> rounded <= 0xffff || height == 1))
  {
    var g := Geometry(f, width, height, RoundUp(stride, RowPack(f)));
    StoredStride(f, stride);
    SoundExactly(f, width, height, stride, n);
    hide PixelsSound, LastByte;
    if Bits(g) < Ticks.Pow2(word) {
      DivUnique(Bits(g), Ticks.Pow2(word), 0, Bits(g));
      FullSizeEnough(f, width, height, stride, n);
    }
  }
  lemma PairCells(g: Geometry, n: nat, x: nat, y: nat)
    requires Fits(g, n) && g.format == GS4_HMSB && x % 2 == 0 && OnGrid(g, x + 1, y)
    ensures Cell(g, x, y) == Cell(g, x + 1, y) == x / 2 + y * (g.stride / 2) < n
  {
    CellRow(g, x, y);
    CellRow(g, x + 1, y);
    CellInside(g, n, x, y);
  }
  /** A byte with `col` in both nibbles paints two pixels. */
  lemma PaintPair(g: Geometry, b: Bytes, b1: Bytes, s: Points, x: nat, y: nat, col: bv32)
    requires Painted(g, b, b1, s, col) && g.format == GS4_HMSB && x % 2 == 0 && OnGrid(g, x + 1, y) && col < 16
    ensures var i := x / 2 + y * (g.stride / 2);
            i < |b1| && Painted(g, b, b1[i := (Low8(col) << 4) | Low8(col)], s + Rect(x, y, 2, 1), col)
  {
    var b2 := PairBytes(g, b1, x, y, col);
    var b3 := Set(g, b2, x + 1, y, col);
    var t := s + Rect(x, y, 1, 1);
    PaintPixel(g, b, b1, b2, s, t, x, y, col);
    PaintPixel(g, b, b2, b3, t, s + Rect(x, y, 2, 1), x + 1, y, col);
  }
  lemma PairBytes(g: Geometry, b1: Bytes, x: nat, y: nat, col: bv32) returns (b2: Bytes)
    requires Fits(g, |b1|) && g.format == GS4_HMSB && x % 2 == 0 && OnGrid(g, x, y) && OnGrid(g, x + 1, y) && col < 16
    ensures b2 == Set(g, b1, x, y, col)
    ensures var i := x / 2 + y * (g.stride / 2);
            i < |b1| && Set(g, b2, x + 1, y, col) == b1[i := (Low8(col) << 4) | Low8(col)]
  {
    b2 := Set(g, b1, x, y, col);
    SetNibble(g, b1, x, y, col);
    SetNibble(g, b2, x + 1, y, col);
    NibbleStores(b1[x / 2 + y * (g.stride / 2)], col);
  }
  lemma SetNibble(g: Geometry, b: Bytes, x: nat, y: nat, col: bv32)
    requires Fits(g, |b|) && g.format == GS4_HMSB && OnGrid(g, x, y)
    ensures var i := x / 2 + y * (g.stride / 2);
            i < |b| && Set(g, b, x, y, col) == b[i := PutLane(GS4_HMSB, b[i], if x % 2 == 1 then 0 else 4, col)]
  {
    CellRow(g, x, y);
    CellInside(g, |b|, x, y);
  }
  /** What the nibble stores do, in terms of writing one pixel. */
  lemma NibbleStores(b: bv8, col: bv32)
    requires col < 16
    ensures (b & 0xf0) | Low8(col) == PutLane(GS4_HMSB, b, 0, col)
    ensures (Low8(col) << 4) | (b & 0x0f) == PutLane(GS4_HMSB, b, 4, col)
    ensures (Low8(col) << 4) | Low8(col) == PutLane(GS4_HMSB, PutLane(GS4_HMSB, b, 4, col), 0, col)
  {}
}
