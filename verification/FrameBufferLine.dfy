/** `line`: integer Bresenham. */
module FrameBufferLine {
  import opened Arithmetic
  import opened PixelFormats
  import opened Painting
  import opened FrameBuffer

  function Abs(n: int): nat { if n < 0 then -n else n }
  function Sign(n: int): int { if n > 0 then 1 else -1 }
  function Steep(x1: int, y1: int, x2: int, y2: int): bool { Abs(y2 - y1) > Abs(x2 - x1) }
  /** Extents along the axis the loop walks and along the other one. */
  function Major(x1: int, y1: int, x2: int, y2: int): nat {
    if Steep(x1, y1, x2, y2) then Abs(y2 - y1) else Abs(x2 - x1)
  }
  function Minor(x1: int, y1: int, x2: int, y2: int): nat {
    if Steep(x1, y1, x2, y2) then Abs(x2 - x1) else Abs(y2 - y1)
  }

  /** `minor * i / major` rounded to the nearest integer, halves up. */
  function Rounded(major: nat, minor: nat, i: nat): (k: nat)
    ensures major > 0 ==> 2 * major * k - major <= 2 * (minor * i) < 2 * major * k + major
  {
    if major == 0 then 0
    else
      var n := 2 * (minor * i) + major;
      var k := n / (2 * major);
      assert 0 <= minor * i;
      MulSign(k, 2 * major);
      assert n == k * (2 * major) + n % (2 * major);
      assert k * (2 * major) == 2 * major * k;
      k
  }
  /** `i` steps towards `d`. */
  function Walk(d: int, i: int): int { if d > 0 then i else -i }

  /** The point drawn for column (or, if steep, row) `i` of the line. */
  function LinePoint(x1: int, y1: int, x2: int, y2: int, i: nat): (int, int) {
    var k := Rounded(Major(x1, y1, x2, y2), Minor(x1, y1, x2, y2), i);
    if Steep(x1, y1, x2, y2) then (x1 + Walk(x2 - x1, k), y1 + Walk(y2 - y1, i))
    else (x1 + Walk(x2 - x1, i), y1 + Walk(y2 - y1, k))
  }
  /** `p` is one of the first `n` points of the line. */
  ghost predicate OnLine(x1: int, y1: int, x2: int, y2: int, n: nat, p: (int, int)) {
    exists i: nat :: i < n && p == LinePoint(x1, y1, x2, y2, i)
  }
  ghost function LinePoints(x1: int, y1: int, x2: int, y2: int, n: nat): Points {
    iset p: (int, int) | OnLine(x1, y1, x2, y2, n, p)
  }
  /** The whole line, both ends included. */
  ghost function LineSet(x1: int, y1: int, x2: int, y2: int): Points {
    LinePoints(x1, y1, x2, y2, Major(x1, y1, x2, y2) + 1)
  }

  // ---- the drawn points are the nearest ones ----

  lemma RoundedUnique(major: nat, minor: nat, i: nat, k: nat)
    requires 2 * major * k - major <= 2 * (minor * i) < 2 * major * k + major
    ensures Rounded(major, minor, i) == k
  {
    var k' := Rounded(major, minor, i);
    assert 2 * major * k' - 2 * major * k == (k' - k) * (2 * major);
    MulSign(k' - k, 2 * major);
  }
  lemma RoundedEnds(major: nat, minor: nat)
    requires minor <= major && major > 0
    ensures Rounded(major, minor, 0) == 0 && Rounded(major, minor, major) == minor
  {
    RoundedUnique(major, minor, 0, 0);
    assert 2 * (minor * major) == 2 * major * minor;
    RoundedUnique(major, minor, major, minor);
  }
  lemma RoundedStep(major: nat, minor: nat, i: nat)
    requires minor <= major && major > 0
    ensures Rounded(major, minor, i) <= Rounded(major, minor, i + 1) <= Rounded(major, minor, i) + 1
  {
    var k, k' := Rounded(major, minor, i), Rounded(major, minor, i + 1);
    assert minor * (i + 1) == minor * i + minor;
    assert 2 * major * k' - 2 * major * k == (k' - k) * (2 * major);
    MulSign(k' - k, 2 * major);
    assert (k' - k) * (2 * major) == (k' - k - 1) * (2 * major) + 2 * major;
    MulSign(k' - k - 1, 2 * major);
  }
  lemma CrossProduct(u: int, w: int, a: int, c: int)
    ensures Abs(Walk(u, a) * w - Walk(w, c) * u) == Abs(a * Abs(w) - c * Abs(u))
  {
    assert a * (-w) == -(a * w) && (-a) * w == -(a * w) && c * (-u) == -(c * u) && (-c) * u == -(c * u);
  }

  /** Every point is within half a pixel of the ideal line, neighbours are at most one pixel
      apart on either axis, and the walk goes from the first end to the second. */
  lemma LineIsNearest(x1: int, y1: int, x2: int, y2: int, i: nat)
    requires i <= Major(x1, y1, x2, y2)
    ensures var (px, py) := LinePoint(x1, y1, x2, y2, i);
            && 2 * Abs((px - x1) * (y2 - y1) - (py - y1) * (x2 - x1)) <= Major(x1, y1, x2, y2)
            && var (qx, qy) := LinePoint(x1, y1, x2, y2, i + 1);
               Abs(qx - px) <= 1 && Abs(qy - py) <= 1
    ensures LinePoint(x1, y1, x2, y2, 0) == (x1, y1)
    ensures LinePoint(x1, y1, x2, y2, Major(x1, y1, x2, y2)) == (x2, y2)
  {
    hide Rounded;
    var major, minor := Major(x1, y1, x2, y2), Minor(x1, y1, x2, y2);
    if major > 0 {
      var k := Rounded(major, minor, i);
      RoundedError(major, minor, i);
      if Steep(x1, y1, x2, y2) {
        CrossProduct(x2 - x1, y2 - y1, k, i);
      } else {
        CrossProduct(x2 - x1, y2 - y1, i, k);
      }
      RoundedStep(major, minor, i);
      RoundedEnds(major, minor);
    } else {
      RoundedPoint(minor);
    }
  }
  lemma RoundedPoint(minor: nat)
    ensures forall i: nat :: Rounded(0, minor, i) == 0
  {}
  lemma RoundedError(major: nat, minor: nat, i: nat)
    requires major > 0
    ensures var k := Rounded(major, minor, i);
            2 * Abs(i * minor - k * major) <= major && 2 * Abs(k * major - i * minor) <= major
  {
    var k := Rounded(major, minor, i);
    assert major * k == k * major && minor * i == i * minor && 2 * major * k == 2 * (major * k);
    hide Rounded;
  }

  // ---- the error term ----

  /** The loop stands at step `i`, having made `k` minor steps, with error `e`. */
  ghost predicate Tracks(dx: nat, dy: nat, i: nat, k: nat, e: int) {
    e == 2 * (dy * i) + 2 * dy - 2 * dx * k - dx
  }
  lemma TrackColumn(dx: nat, dy: nat, i: nat, k: nat, e: int)
    requires Tracks(dx, dy, i, k, e) && 2 * dy - 2 * dx <= e < 2 * dy
    ensures Rounded(dx, dy, i) == k
  {
    RoundedUnique(dx, dy, i, k);
  }
  lemma TrackMinor(dx: nat, dy: nat, i: nat, k: nat, e: int)
    requires Tracks(dx, dy, i, k, e)
    ensures Tracks(dx, dy, i, k + 1, e - 2 * dx)
  {
    assert 2 * dx * (k + 1) == 2 * dx * k + 2 * dx;
  }
  lemma TrackMajor(dx: nat, dy: nat, i: nat, k: nat, e: int)
    requires Tracks(dx, dy, i, k, e)
    ensures Tracks(dx, dy, i + 1, k, e + 2 * dy)
  {
    assert dy * (i + 1) == dy * i + dy;
  }

  method Line(fb: FrameBuffer, x1arg: int, y1arg: int, x2: int, y2: int, col: bv32)
    requires fb.Valid()
    modifies fb.buf
    ensures Painted(fb.Geo(), old(fb.buf[..]), fb.buf[..], fb.Screen() * LineSet(x1arg, y1arg, x2, y2), col)
  {
    hide Get, Set, Size, Rounded, LinePoint, OnLine;
    var x1, y1 := x1arg, y1arg;
    var dx, sx := x2 - x1, 1;
    if dx > 0 {
      sx := 1;
    } else {
      dx, sx := -dx, -1;
    }
    var dy, sy := y2 - y1, 1;
    if dy > 0 {
      sy := 1;
    } else {
      dy, sy := -dy, -1;
    }
    var steep := false;
    if dy > dx {
      x1, y1 := y1, x1;
      dx, dy := dy, dx;
      sx, sy := sy, sx;
      steep := true;
    }
    ghost var b0 := fb.buf[..];
    NoPoints(fb.Screen(), x1arg, y1arg, x2, y2);
    LineLoop(fb, x1, y1, dx, dy, sx, sy, steep, col, x1arg, y1arg, x2, y2, b0);
    LineIsNearest(x1arg, y1arg, x2, y2, dx);
    PlotLinePoint(fb, x2, y2, col, x1arg, y1arg, x2, y2, dx, b0);
  }

  /** The variables as the loop of `line` finds them, swapped when the line is steep. */
  ghost predicate Setup(x1: int, y1: int, x2: int, y2: int,
                        x0: int, y0: int, dx: int, dy: int, sx: int, sy: int, steep: bool) {
    && steep == Steep(x1, y1, x2, y2) && dx == Major(x1, y1, x2, y2) && dy == Minor(x1, y1, x2, y2)
    && (if steep then (y0, x0, sy, sx) else (x0, y0, sx, sy)) == (x1, y1, Sign(x2 - x1), Sign(y2 - y1))
  }
  lemma SetupPoint(x1: int, y1: int, x2: int, y2: int,
                   x0: int, y0: int, dx: int, dy: int, sx: int, sy: int, steep: bool, i: nat, k: nat)
    requires Setup(x1, y1, x2, y2, x0, y0, dx, dy, sx, sy, steep) && Rounded(dx, dy, i) == k
    ensures var (x, y) := (x0 + Walk(sx, i), y0 + Walk(sy, k));
            LinePoint(x1, y1, x2, y2, i) == if steep then (y, x) else (x, y)
  {
    hide Rounded;
  }

  /** The loop of `line`. */
  method LineLoop(fb: FrameBuffer, x1arg: int, y1arg: int, dx: nat, dy: nat, sx: int, sy: int, steep: bool, col: bv32,
                  ghost xa: int, ghost ya: int, ghost x2: int, ghost y2: int, ghost b0: Bytes)
    requires fb.Valid() && Setup(xa, ya, x2, y2, x1arg, y1arg, dx, dy, sx, sy, steep) && dy <= dx
    requires sx in {1, -1} && sy in {1, -1}
    requires Painted(fb.Geo(), b0, fb.buf[..], fb.Screen() * LinePoints(xa, ya, x2, y2, 0), col)
    modifies fb.buf
    ensures Painted(fb.Geo(), b0, fb.buf[..], fb.Screen() * LinePoints(xa, ya, x2, y2, dx), col)
  {
    hide Get, Set, Size, Rounded, Tracks, LinePoint, LinePoints, OnLine, Painted, Setup, Steep, Major, Minor;
    var x1, y1, e := x1arg, y1arg, 2 * dy - dx;
    ghost var k := 0;
    TrackStart(dx, dy);
    for i := 0 to dx
      invariant x1 == x1arg + Walk(sx, i) && y1 == y1arg + Walk(sy, k) && k >= 0
      invariant Tracks(dx, dy, i, k, e) && 2 * dy - 2 * dx <= e && (dx > 0 ==> e < 2 * dy)
      invariant Painted(fb.Geo(), b0, fb.buf[..], fb.Screen() * LinePoints(xa, ya, x2, y2, i), col)
    {
      TrackColumn(dx, dy, i, k, e);
      SetupPoint(xa, ya, x2, y2, x1arg, y1arg, dx, dy, sx, sy, steep, i, k);
      if steep {
        PlotLinePoint(fb, y1, x1, col, xa, ya, x2, y2, i, b0);
      } else {
        PlotLinePoint(fb, x1, y1, col, xa, ya, x2, y2, i, b0);
      }
      while e >= 0
        invariant y1 == y1arg + Walk(sy, k) && k >= 0
        invariant Tracks(dx, dy, i, k, e) && -2 * dx <= e < 2 * dy
        invariant Painted(fb.Geo(), b0, fb.buf[..], fb.Screen() * LinePoints(xa, ya, x2, y2, i + 1), col)
      {
        TrackMinor(dx, dy, i, k, e);
        y1 := y1 + sy;
        e := e - 2 * dx;
        k := k + 1;
      }
      TrackMajor(dx, dy, i, k, e);
      x1 := x1 + sx;
      e := e + 2 * dy;
    }
  }
  lemma TrackStart(dx: nat, dy: nat)
    ensures Tracks(dx, dy, 0, 0, 2 * dy - dx)
  {}

  /** `setpixel` behind the bounds check, for the next point of the line. */
  method PlotLinePoint(fb: FrameBuffer, x: int, y: int, col: bv32,
                       ghost x1: int, ghost y1: int, ghost x2: int, ghost y2: int, ghost i: nat, ghost b: Bytes)
    requires fb.Valid() && LinePoint(x1, y1, x2, y2, i) == (x, y)
    requires Painted(fb.Geo(), b, fb.buf[..], fb.Screen() * LinePoints(x1, y1, x2, y2, i), col)
    modifies fb.buf
    ensures Painted(fb.Geo(), b, fb.buf[..], fb.Screen() * LinePoints(x1, y1, x2, y2, i + 1), col)
  {
    hide Get, Set, Size, LinePoint, OnLine;
    NextPoints(x1, y1, x2, y2, i);
    ghost var s, t := fb.Screen() * LinePoints(x1, y1, x2, y2, i), fb.Screen() * LinePoints(x1, y1, x2, y2, i + 1);
    if 0 <= x < fb.width && 0 <= y < fb.height {
      ghost var b1 := fb.buf[..];
      fb.SetPixel(x, y, col);
      PaintPixel(fb.Geo(), b, b1, fb.buf[..], s, t, x, y, col);
    } else {
      assert s == t;
    }
  }
  lemma NextPoints(x1: int, y1: int, x2: int, y2: int, i: nat)
    ensures forall p :: p in LinePoints(x1, y1, x2, y2, i + 1)
                        <==> p in LinePoints(x1, y1, x2, y2, i) || p == LinePoint(x1, y1, x2, y2, i)
  {
    hide LinePoint;
  }
  lemma NoPoints(s: Points, x1: int, y1: int, x2: int, y2: int)
    ensures s * LinePoints(x1, y1, x2, y2, 0) == iset{}
  {}
}
