/** `framebuf_scroll`: an overlapping move inside one packed buffer. */
module FrameBufferScroll {
  import opened PixelFormats
  import opened Painting
  import opened FrameBuffer

  /** A pixel that lies on the screen together with the pixel it is to be copied from. */
  predicate Moves(g: Geometry, x: int, y: int, xstep: int, ystep: int) {
    && 0 <= x < g.width && 0 <= y < g.height
    && 0 <= x - xstep < g.width && 0 <= y - ystep < g.height
  }
  /** What pixel `p` holds once the pixels of `done` have been moved. */
  ghost function MovedPixel(g: Geometry, b: Bytes, xstep: int, ystep: int, done: Points, x: nat, y: nat): bv32
    requires Fits(g, |b|) && OnGrid(g, x, y)
  {
    if (x, y) in done && Moves(g, x, y, xstep, ystep) then Get(g, b, x - xstep, y - ystep) else Get(g, b, x, y)
  }
  /** The pixels of `done` have been moved; every other pixel of the grid, and every byte behind
      the pixels, is as before. */
  ghost predicate Moved(g: Geometry, b: Bytes, b': Bytes, xstep: int, ystep: int, done: Points) {
    && Fits(g, |b|) && |b'| == |b|
    && (forall i :: Size(g) <= i < |b| ==> b'[i] == b[i])
    && (forall x, y :: OnGrid(g, x, y) ==> Get(g, b', x, y) == MovedPixel(g, b, xstep, ystep, done, x, y))
  }

  predicate Before(d: int, a: int, b: int) { if d == 1 then a < b else a > b }
  ghost function Done(dx: int, dy: int, x: int, y: int): Points {
    iset p: (int, int) | Before(dy, p.1, y) || (p.1 == y && Before(dx, p.0, x))
  }

  lemma ShownGet(g: Geometry, b: Bytes, x: nat, y: nat)
    requires Fits(g, |b|) && OnGrid(g, x, y)
    ensures Shown(g.format, Get(g, b, x, y)) == Get(g, b, x, y)
  {
    CellInside(g, |b|, x, y);
    var c := Cell(g, x, y);
    if g.format.RGB565? {
      ShownWord(b[c], b[c + 1]);
    } else {
      ShownLane(g.format, b[c], Lane(g.format, x, y));
    }
  }
  lemma ShownWord(a: bv8, b: bv8)
    ensures ((a as bv32) | ((b as bv32) << 8)) & 0xffff == (a as bv32) | ((b as bv32) << 8)
  {}
  lemma ShownLane(f: Format, b: bv8, l: nat)
    requires IsLane(f, l) && !f.RGB565?
    ensures Shown(f, GetLane(f, b, l) as bv32) == GetLane(f, b, l) as bv32
  {}

  /** The pixel that is read has not been overwritten yet. */
  lemma SourceIntact(g: Geometry, x: int, y: int, xstep: int, ystep: int)
    requires Moves(g, x, y, xstep, ystep)
    ensures (x - xstep, y - ystep) !in Done(Dir(xstep), Dir(ystep), x, y)
  {}
  function Dir(step: int): int { if step < 0 then 1 else -1 }

  lemma DoneNext(dx: int, dy: int, x: int, y: int, p: (int, int))
    requires dx in {1, -1} && dy in {1, -1}
    ensures p in Done(dx, dy, x + dx, y) <==> p in Done(dx, dy, x, y) || p == (x, y)
  {}

  /** One assignment of the inner loop, seen from one pixel. */
  lemma MoveOnePixel(g: Geometry, b: Bytes, b1: Bytes, xstep: int, ystep: int, x: nat, y: nat, col: bv32, x': nat, y': nat)
    requires Moved(g, b, b1, xstep, ystep, Done(Dir(xstep), Dir(ystep), x, y)) && g.height <= Rows(g)
    requires Moves(g, x, y, xstep, ystep) && OnGrid(g, x, y) && OnGrid(g, x', y')
    requires OnGrid(g, x - xstep, y - ystep) && col == Get(g, b1, x - xstep, y - ystep)
    ensures Get(g, Set(g, b1, x, y, col), x', y')
         == MovedPixel(g, b, xstep, ystep, Done(Dir(xstep), Dir(ystep), x + Dir(xstep), y), x', y')
  {
    hide Get, Set;
    DoneNext(Dir(xstep), Dir(ystep), x, y, (x', y'));
    if x' == x && y' == y {
      assert col == Get(g, b, x - xstep, y - ystep) by {
        SourceIntact(g, x, y, xstep, ystep);
        assert OnGrid(g, x - xstep, y - ystep);
      }
      assert Shown(g.format, col) == col by {
        ShownGet(g, b, x - xstep, y - ystep);
      }
    }
    GetSet(g, b1, x, y, col, x', y');
  }
  lemma MoveOne(g: Geometry, b: Bytes, b1: Bytes, xstep: int, ystep: int, x: nat, y: nat, col: bv32)
    requires Moved(g, b, b1, xstep, ystep, Done(Dir(xstep), Dir(ystep), x, y)) && g.height <= Rows(g)
    requires Moves(g, x, y, xstep, ystep) && OnGrid(g, x, y)
    requires OnGrid(g, x - xstep, y - ystep) && col == Get(g, b1, x - xstep, y - ystep)
    ensures Moved(g, b, Set(g, b1, x, y, col), xstep, ystep, Done(Dir(xstep), Dir(ystep), x + Dir(xstep), y))
  {
    forall i | Size(g) <= i < |b| ensures Set(g, b1, x, y, col)[i] == b[i] {
      SetTail(g, b1, x, y, col, i);
    }
    forall x', y' | OnGrid(g, x', y')
      ensures Get(g, Set(g, b1, x, y, col), x', y')
           == MovedPixel(g, b, xstep, ystep, Done(Dir(xstep), Dir(ystep), x + Dir(xstep), y), x', y')
    {
      MoveOnePixel(g, b, b1, xstep, ystep, x, y, col, x', y');
    }
  }

  /** Points outside the moving area may be added to or left out of `done`. */
  lemma MovedSame(g: Geometry, b: Bytes, b': Bytes, xstep: int, ystep: int, done: Points, done': Points)
    requires Moved(g, b, b', xstep, ystep, done)
    requires forall x, y :: Moves(g, x, y, xstep, ystep) ==> ((x, y) in done <==> (x, y) in done')
    ensures Moved(g, b, b', xstep, ystep, done')
  {}

  method Scroll(fb: FrameBuffer, xstep: int, ystep: int)
    requires fb.Valid()
    modifies fb.buf
    ensures Moved(fb.Geo(), old(fb.buf[..]), fb.buf[..], xstep, ystep, fb.Screen())
  {
    ghost var g, b0 := fb.Geo(), fb.buf[..];
    var sx, xend, dx, y, yend, dy;
    if xstep < 0 {
      sx, xend, dx := 0, fb.width + xstep, 1;
      if xend <= 0 {
        return;
      }
    } else {
      sx, xend, dx := fb.width - 1, xstep - 1, -1;
      if xend >= sx {
        return;
      }
    }
    if ystep < 0 {
      y, yend, dy := 0, fb.height + ystep, 1;
      if yend <= 0 {
        return;
      }
    } else {
      y, yend, dy := fb.height - 1, ystep - 1, -1;
      if yend >= y {
        return;
      }
    }
    assert Moved(g, b0, b0, xstep, ystep, iset{});
    MovedSame(g, b0, b0, xstep, ystep, iset{}, Done(dx, dy, sx, y));
    while y != yend
      invariant Between(dy, y, yend) && (y == yend || 0 <= y < fb.height)
      invariant Moved(g, b0, fb.buf[..], xstep, ystep, Done(dx, dy, sx, y))
      decreases if dy == 1 then yend - y else y - yend
    {
      ScrollRow(fb, xstep, ystep, sx, xend, dx, y, b0);
      MovedSame(g, b0, fb.buf[..], xstep, ystep, Done(dx, dy, xend, y), Done(dx, dy, sx, y + dy));
      y := y + dy;
    }
    MovedSame(g, b0, fb.buf[..], xstep, ystep, Done(dx, dy, sx, y), fb.Screen());
  }

  /** The inner loop. */
  method ScrollRow(fb: FrameBuffer, xstep: int, ystep: int, sx: int, xend: int, dx: int, y: int, ghost b0: Bytes)
    requires fb.Valid() && 0 <= y < fb.height && 0 <= y - ystep < fb.height && dx == Dir(xstep)
    requires if xstep < 0 then sx == 0 < xend == fb.width + xstep else xend == xstep - 1 < sx == fb.width - 1
    requires Moved(fb.Geo(), b0, fb.buf[..], xstep, ystep, Done(dx, Dir(ystep), sx, y))
    modifies fb.buf
    ensures Moved(fb.Geo(), b0, fb.buf[..], xstep, ystep, Done(dx, Dir(ystep), xend, y))
  {
    hide Get, Set, Moved, Done;
    var x := sx;
    while x != xend
      invariant Between(dx, x, xend) && (x == xend || 0 <= x < fb.width)
      invariant Moved(fb.Geo(), b0, fb.buf[..], xstep, ystep, Done(dx, Dir(ystep), x, y))
      decreases if dx == 1 then xend - x else x - xend
    {
      MovePixel(fb, xstep, ystep, x, y, b0);
      x := x + dx;
    }
  }
  method MovePixel(fb: FrameBuffer, xstep: int, ystep: int, x: nat, y: nat, ghost b0: Bytes)
    requires fb.Valid() && Moves(fb.Geo(), x, y, xstep, ystep)
    requires Moved(fb.Geo(), b0, fb.buf[..], xstep, ystep, Done(Dir(xstep), Dir(ystep), x, y))
    modifies fb.buf
    ensures Moved(fb.Geo(), b0, fb.buf[..], xstep, ystep, Done(Dir(xstep), Dir(ystep), x + Dir(xstep), y))
  {
    hide Get, Set, Moved, Done;
    ghost var b1 := fb.buf[..];
    var col := fb.GetPixel(x - xstep, y - ystep);
    fb.SetPixel(x, y, col);
    MoveOne(fb.Geo(), b0, b1, xstep, ystep, x, y, col);
  }
  predicate Between(d: int, a: int, end: int) { if d == 1 then a <= end else a >= end }
}
