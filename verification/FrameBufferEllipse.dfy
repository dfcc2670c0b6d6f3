/** `framebuf_ellipse`: two midpoint walks, each over one half of a quarter. */
module FrameBufferEllipse {
  import opened Arithmetic
  import opened PixelFormats
  import opened Painting
  import opened FrameBuffer

  // ---- the walk, by residuals ----

  /** `b*b*x*x + a*a*y*y - a*a*b*b`, for `aa = a*a` and `bb = b*b`: zero on the ellipse. */
  function Residual(aa: int, bb: int, x: int, y: int): int {
    bb * (x * x) + aa * (y * y) - aa * bb
  }
  /** Still in the half where the ellipse is steeper than a diagonal. */
  predicate Steeper(aa: int, bb: int, x: int, y: int) { bb * x >= aa * y }
  /** The next row: stay in column `x` or go to `x - 1`. */
  function NextX(aa: int, bb: int, x: int, y: int): int {
    if Residual(aa, bb, x, y + 1) + Residual(aa, bb, x - 1, y + 1) > 0 then x - 1 else x
  }

  lemma ResidualUp(aa: int, bb: int, x: int, y: int)
    ensures Residual(aa, bb, x, y + 1) == Residual(aa, bb, x, y) + aa * (2 * y + 1)
  {
    assert (y + 1) * (y + 1) == y * y + (2 * y + 1);
    assert aa * (y * y + (2 * y + 1)) == aa * (y * y) + aa * (2 * y + 1);
  }
  lemma ResidualLeft(aa: int, bb: int, x: int, y: int)
    ensures Residual(aa, bb, x - 1, y) == Residual(aa, bb, x, y) + bb * (1 - 2 * x)
  {
    assert (x - 1) * (x - 1) == x * x + (1 - 2 * x);
    assert bb * (x * x + (1 - 2 * x)) == bb * (x * x) + bb * (1 - 2 * x);
  }

  /** The loop's distance from its exit shrinks unless both radii are zero. */
  lemma WalkShrinks(aa: nat, bb: nat, x: int, y: int)
    requires (aa, bb) != (0, 0)
    ensures bb * NextX(aa, bb, x, y) - aa * (y + 1) < bb * x - aa * y
  {
    assert aa * (y + 1) == aa * y + aa && bb * (x - 1) == bb * x - bb;
    if aa == 0 {
      var r, r' := Residual(0, bb, x, y + 1), Residual(0, bb, x - 1, y + 1);
      Square(x);
      Square(x - 1);
      assert x * x + (x - 1) * (x - 1) >= 1;
      MulMono(1, x * x + (x - 1) * (x - 1), bb);
      assert r + r' == (x * x + (x - 1) * (x - 1)) * bb by {
        assert (x * x + (x - 1) * (x - 1)) * bb == bb * (x * x) + bb * ((x - 1) * (x - 1));
      }
    }
  }
  lemma Square(n: int)
    ensures n * n >= 0 && (n != 0 ==> n * n >= 1)
  {
    if n > 0 {
      MulMono(1, n, n);
    } else if n < 0 {
      MulMono(1, -n, -n);
      assert (-n) * (-n) == n * n;
    }
  }

  /** The points of one walk from `(x, y)` on. */
  function Walk(aa: nat, bb: nat, x: int, y: int): seq<(int, int)>
    requires (aa, bb) != (0, 0)
    decreases bb * x - aa * y + 1
  {
    if !Steeper(aa, bb, x, y) then []
    else
      WalkShrinks(aa, bb, x, y);
      [(x, y)] + Walk(aa, bb, NextX(aa, bb, x, y), y + 1)
  }
  /** The second walk is the first with the axes exchanged. */
  function Swapped(w: seq<(int, int)>): seq<(int, int)> {
    if w == [] then [] else [(w[0].1, w[0].0)] + Swapped(w[1..])
  }

  // ---- what the walk does ----

  /** The pixel kept for the next row is the one of the two neighbours with the smaller
      absolute residual. */
  lemma KeepsNearer(aa: nat, bb: nat, x: int, y: int)
    requires bb > 0 && x >= 1
    ensures var keep, drop := NextX(aa, bb, x, y), if NextX(aa, bb, x, y) == x then x - 1 else x;
            Abs(Residual(aa, bb, keep, y + 1)) <= Abs(Residual(aa, bb, drop, y + 1))
  {
    ResidualLeft(aa, bb, x, y + 1);
    MulMono(1 - 2 * x, -1, bb);
    assert bb * (1 - 2 * x) == (1 - 2 * x) * bb;
  }
  function Abs(n: int): nat { if n < 0 then -n else n }

  /** For positive radii the walk visits the rows upwards one by one, moves left by one column
      at most, stays between the axes, and every point but the first is nearer to the ellipse
      than the neighbour that was not taken. */
  ghost predicate GoodWalk(aa: nat, bb: nat, w: seq<(int, int)>, y: int) {
    && (forall i :: 0 <= i < |w| ==> w[i].1 == y + i && w[i].0 >= 0)
    && (forall i :: 0 < i < |w| ==> StepsNearer(aa, bb, w[i - 1].0, w[i]))
  }
  ghost predicate StepsNearer(aa: nat, bb: nat, before: int, p: (int, int)) {
    && (p.0 == before || p.0 == before - 1)
    && var other := if p.0 == before then before - 1 else before;
       Abs(Residual(aa, bb, p.0, p.1)) <= Abs(Residual(aa, bb, other, p.1))
  }
  lemma {:induction false} WalkIsGood(aa: nat, bb: nat, x: int, y: int)
    requires aa > 0 && bb > 0 && y >= 0 && (y == 0 ==> x > 0)
    ensures GoodWalk(aa, bb, Walk(aa, bb, x, y), y)
    decreases bb * x - aa * y + 1
  {
    var w := Walk(aa, bb, x, y);
    if w != [] {
      WalkShrinks(aa, bb, x, y);
      PositiveColumn(aa, bb, x, y);
      KeepsNearer(aa, bb, x, y);
      var w' := Walk(aa, bb, NextX(aa, bb, x, y), y + 1);
      WalkIsGood(aa, bb, NextX(aa, bb, x, y), y + 1);
      forall i | 0 < i < |w| ensures StepsNearer(aa, bb, w[i - 1].0, w[i]) {
        if i == 1 {
          assert w[1] == w'[0] == (NextX(aa, bb, x, y), y + 1);
        } else {
          assert w[i] == w'[i - 1] && w[i - 1] == w'[i - 2];
        }
      }
    }
  }
  lemma PositiveColumn(aa: nat, bb: nat, x: int, y: int)
    requires aa > 0 && bb > 0 && y >= 0 && (y == 0 ==> x > 0) && Steeper(aa, bb, x, y)
    ensures x >= 1
  {
    assert y * aa == aa * y && x * bb == bb * x;
    if y > 0 {
      MulMono(1, y, aa);
      if x <= 0 {
        MulMono(x, 0, bb);
      }
    }
  }

  // ---- when the loops end ----

  function Iterate(aa: int, bb: int, x: int, y: int, n: nat): (int, int) {
    if n == 0 then (x, y)
    else
      var (x', y') := Iterate(aa, bb, x, y, n - 1);
      (NextX(aa, bb, x', y'), y' + 1)
  }
  ghost predicate Ends(aa: int, bb: int, x: int, y: int) {
    exists n: nat :: var p := Iterate(aa, bb, x, y, n); !Steeper(aa, bb, p.0, p.1)
  }
  lemma {:induction false} IterateShift(aa: int, bb: int, x: int, y: int, n: nat)
    ensures Iterate(aa, bb, x, y, n + 1) == Iterate(aa, bb, NextX(aa, bb, x, y), y + 1, n)
  {
    if n > 0 {
      IterateShift(aa, bb, x, y, n - 1);
    }
  }
  lemma {:induction false} WalkEnds(aa: nat, bb: nat, x: int, y: int)
    requires (aa, bb) != (0, 0)
    ensures var p := Iterate(aa, bb, x, y, |Walk(aa, bb, x, y)|); !Steeper(aa, bb, p.0, p.1)
    decreases bb * x - aa * y + 1
  {
    if Steeper(aa, bb, x, y) {
      WalkShrinks(aa, bb, x, y);
      WalkEnds(aa, bb, NextX(aa, bb, x, y), y + 1);
      IterateShift(aa, bb, x, y, |Walk(aa, bb, NextX(aa, bb, x, y), y + 1)|);
    }
  }
  /** Both loops of the source end exactly when the radii are not both zero: with two zero
      radii the first loop runs forever. */
  lemma EndsUnlessBothZero(a: int, b: int)
    ensures Ends(a * a, b * b, a, 0) && Ends(b * b, a * a, b, 0) <==> !(a == 0 && b == 0)
  {
    Square(a);
    Square(b);
    if a == 0 && b == 0 {
      forall n: nat ensures var p := Iterate(0, 0, 0, 0, n); Steeper(0, 0, p.0, p.1) {}
    } else {
      WalkEnds(a * a, b * b, a, 0);
      WalkEnds(b * b, a * a, b, 0);
    }
  }

  // ---- drawing ----

  ghost function If(on: bool, s: Points): Points { if on then s else iset{} }

  /** The pixels one point of a walk stands for: one, or a row of them, in each chosen quadrant. */
  ghost function MarkSet(cx: int, cy: int, x: int, y: int, mask: bv8): Points {
    var q1, q2, q3, q4 := mask & 0x01 != 0, mask & 0x02 != 0, mask & 0x04 != 0, mask & 0x08 != 0;
    if mask & 0x10 != 0 then
      If(q1, Rect(cx, cy - y, x + 1, 1)) + If(q2, Rect(cx - x, cy - y, x + 1, 1))
      + If(q3, Rect(cx - x, cy + y, x + 1, 1)) + If(q4, Rect(cx, cy + y, x + 1, 1))
    else
      If(q1, iset{(cx + x, cy - y)}) + If(q2, iset{(cx - x, cy - y)})
      + If(q3, iset{(cx - x, cy + y)}) + If(q4, iset{(cx + x, cy + y)})
  }
  ghost function AllMarks(cx: int, cy: int, w: seq<(int, int)>, mask: bv8): Points {
    if w == [] then iset{}
    else MarkSet(cx, cy, w[0].0, w[0].1, mask) + AllMarks(cx, cy, w[1..], mask)
  }

  method FillIf(fb: FrameBuffer, on: bool, x: int, y: int, w: int, col: bv32, ghost b: Bytes, ghost s: Points)
    requires fb.Valid() && Painted(fb.Geo(), b, fb.buf[..], fb.Screen() * s, col)
    modifies fb.buf
    ensures Painted(fb.Geo(), b, fb.buf[..], fb.Screen() * (s + If(on, Rect(x, y, w, 1))), col)
  {
    hide Get, Size;
    ghost var b1 := fb.buf[..];
    if on {
      fb.FillRect(x, y, w, 1, col);
      PaintTwice(fb.Geo(), b, b1, fb.buf[..], fb.Screen() * s, fb.Screen() * Rect(x, y, w, 1),
                 fb.Screen() * (s + Rect(x, y, w, 1)), col);
    } else {
      assert s + iset{} == s;
    }
  }
  method PixelIf(fb: FrameBuffer, on: bool, x: int, y: int, col: bv32, ghost b: Bytes, ghost s: Points)
    requires fb.Valid() && Painted(fb.Geo(), b, fb.buf[..], fb.Screen() * s, col)
    modifies fb.buf
    ensures Painted(fb.Geo(), b, fb.buf[..], fb.Screen() * (s + If(on, iset{(x, y)})), col)
  {
    hide Get, Size;
    ghost var b1 := fb.buf[..];
    fb.SetPixelChecked(x, y, col, on);
    ghost var t := if on then fb.Screen() * iset{(x, y)} else iset{};
    PaintTwice(fb.Geo(), b, b1, fb.buf[..], fb.Screen() * s, t,
               fb.Screen() * (s + If(on, iset{(x, y)})), col);
  }

  /** `draw_ellipse_points`. */
  method DrawEllipsePoints(fb: FrameBuffer, cx: int, cy: int, x: int, y: int, col: bv32, mask: bv8,
                           ghost b: Bytes, ghost s: Points)
    requires fb.Valid() && Painted(fb.Geo(), b, fb.buf[..], fb.Screen() * s, col)
    modifies fb.buf
    ensures Painted(fb.Geo(), b, fb.buf[..], fb.Screen() * (s + MarkSet(cx, cy, x, y, mask)), col)
  {
    hide Painted, If;
    var q1, q2, q3, q4 := mask & 0x01 != 0, mask & 0x02 != 0, mask & 0x04 != 0, mask & 0x08 != 0;
    if mask & 0x10 != 0 {
      ghost var m1, m2 := If(q1, Rect(cx, cy - y, x + 1, 1)), If(q2, Rect(cx - x, cy - y, x + 1, 1));
      ghost var m3, m4 := If(q3, Rect(cx - x, cy + y, x + 1, 1)), If(q4, Rect(cx, cy + y, x + 1, 1));
      FillIf(fb, q1, cx, cy - y, x + 1, col, b, s);
      FillIf(fb, q2, cx - x, cy - y, x + 1, col, b, s + m1);
      FillIf(fb, q3, cx - x, cy + y, x + 1, col, b, s + m1 + m2);
      FillIf(fb, q4, cx, cy + y, x + 1, col, b, s + m1 + m2 + m3);
      assert s + m1 + m2 + m3 + m4 == s + (m1 + m2 + m3 + m4);
    } else {
      ghost var m1, m2 := If(q1, iset{(cx + x, cy - y)}), If(q2, iset{(cx - x, cy - y)});
      ghost var m3, m4 := If(q3, iset{(cx - x, cy + y)}), If(q4, iset{(cx + x, cy + y)});
      PixelIf(fb, q1, cx + x, cy - y, col, b, s);
      PixelIf(fb, q2, cx - x, cy - y, col, b, s + m1);
      PixelIf(fb, q3, cx - x, cy + y, col, b, s + m1 + m2);
      PixelIf(fb, q4, cx + x, cy + y, col, b, s + m1 + m2 + m3);
      assert s + m1 + m2 + m3 + m4 == s + (m1 + m2 + m3 + m4);
    }
  }

  // ---- the accumulators ----

  /** The five accumulators of a loop in closed form, for the point `(x, y)`. */
  ghost predicate Tracks(aa: int, bb: int, x: int, y: int,
                         error: int, xchange: int, ychange: int, stoppingx: int, stoppingy: int) {
    && error == Residual(aa, bb, x, y)
    && xchange == bb * (1 - 2 * x) && ychange == aa * (2 * y + 1)
    && stoppingx == 2 * bb * x && stoppingy == 2 * aa * y
  }
  lemma TrackStart(a: int, b: int)
    ensures Tracks(a * a, b * b, a, 0, 0, b * b * (1 - 2 * a), a * a, 2 * (b * b) * a, 0)
  {
    assert a * a * (0 * 0) == 0 && (b * b) * (a * a) == (a * a) * (b * b);
  }
  lemma TrackGuard(aa: int, bb: int, x: int, y: int, e: int, xc: int, yc: int, sx: int, sy: int)
    requires Tracks(aa, bb, x, y, e, xc, yc, sx, sy)
    ensures sx >= sy <==> Steeper(aa, bb, x, y)
  {
    assert 2 * bb * x == 2 * (bb * x) && 2 * aa * y == 2 * (aa * y);
  }
  lemma TrackStep(aa: int, bb: int, x: int, y: int, e: int, xc: int, yc: int, sx: int, sy: int)
    requires Tracks(aa, bb, x, y, e, xc, yc, sx, sy)
    ensures Tracks(aa, bb, x, y + 1, e + yc, xc, yc + 2 * aa, sx, sy + 2 * aa)
    ensures Tracks(aa, bb, x - 1, y + 1, e + yc + xc, xc + 2 * bb, yc + 2 * aa, sx - 2 * bb, sy + 2 * aa)
    ensures 2 * (e + yc) + xc > 0 <==> NextX(aa, bb, x, y) == x - 1
  {
    ResidualUp(aa, bb, x, y);
    ResidualLeft(aa, bb, x, y + 1);
    hide Residual;
    Distribute(aa, 2 * y + 1, 2);
    Distribute(2 * aa, y, 1);
    Distribute(bb, 1 - 2 * x, 2);
    Distribute(2 * bb, x, -1);
  }
  /** The first point of a walk is marked; what is left to mark is the walk from the next. */
  lemma MarkFirst(cx: int, cy: int, aa: nat, bb: nat, x: int, y: int, mask: bv8)
    requires (aa, bb) != (0, 0) && Steeper(aa, bb, x, y)
    ensures var w := Walk(aa, bb, x, y);
            var w' := Walk(aa, bb, NextX(aa, bb, x, y), y + 1);
            && AllMarks(cx, cy, w, mask) == MarkSet(cx, cy, x, y, mask) + AllMarks(cx, cy, w', mask)
            && AllMarks(cx, cy, Swapped(w), mask) == MarkSet(cx, cy, y, x, mask) + AllMarks(cx, cy, Swapped(w'), mask)
  {
    var w := Walk(aa, bb, x, y);
    assert w[1..] == Walk(aa, bb, NextX(aa, bb, x, y), y + 1);
    assert Swapped(w)[1..] == Swapped(w[1..]);
  }

  /** `framebuf_ellipse`, for radii not both zero: exactly the points of the two walks are drawn. */
  method Ellipse(fb: FrameBuffer, cx: int, cy: int, a: int, b: int, col: bv32, mask: bv8)
    requires fb.Valid() && !(a == 0 && b == 0)
    modifies fb.buf
    ensures var walks := AllMarks(cx, cy, Walk(a * a, b * b, a, 0), mask)
                       + AllMarks(cx, cy, Swapped(Walk(b * b, a * a, b, 0)), mask);
            Painted(fb.Geo(), old(fb.buf[..]), fb.buf[..], fb.Screen() * walks, col)
  {
    ghost var b0 := fb.buf[..];
    Square(a);
    Square(b);
    PaintNone(fb.Geo(), b0, col);
    assert fb.Screen() * iset{} == iset{};
    FirstHalf(fb, cx, cy, a, b, col, mask, b0, iset{});
    ghost var s := AllMarks(cx, cy, Walk(a * a, b * b, a, 0), mask);
    assert iset{} + s == s;
    SecondHalf(fb, cx, cy, a, b, col, mask, b0, s);
  }

  method FirstHalf(fb: FrameBuffer, cx: int, cy: int, a: int, b: int, col: bv32, mask: bv8, ghost b0: Bytes, ghost s0: Points)
    requires fb.Valid() && a * a >= 0 && b * b >= 0 && (a * a, b * b) != (0, 0)
    requires Painted(fb.Geo(), b0, fb.buf[..], fb.Screen() * s0, col)
    modifies fb.buf
    ensures Painted(fb.Geo(), b0, fb.buf[..], fb.Screen() * (s0 + AllMarks(cx, cy, Walk(a * a, b * b, a, 0), mask)), col)
  {
    hide Painted, Tracks, Residual, MarkSet, Steeper, NextX;
    ghost var aa, bb, s := a * a, b * b, s0;
    var twoASquare, twoBSquare, x, y := 2 * (a * a), 2 * (b * b), a, 0;
    var xchange, ychange, error := b * b * (1 - 2 * a), a * a, 0;
    var stoppingx, stoppingy := 2 * (b * b) * a, 0;
    TrackStart(a, b);
    ghost var goal := s0 + AllMarks(cx, cy, Walk(aa, bb, a, 0), mask);
    while stoppingx >= stoppingy
      invariant Tracks(aa, bb, x, y, error, xchange, ychange, stoppingx, stoppingy)
      invariant s + AllMarks(cx, cy, Walk(aa, bb, x, y), mask) == goal
      invariant Painted(fb.Geo(), b0, fb.buf[..], fb.Screen() * s, col)
      decreases bb * x - aa * y + 1
    {
      TrackGuard(aa, bb, x, y, error, xchange, ychange, stoppingx, stoppingy);
      TrackStep(aa, bb, x, y, error, xchange, ychange, stoppingx, stoppingy);
      WalkShrinks(aa, bb, x, y);
      GuardBound(aa, bb, x, y);
      MarkFirst(cx, cy, aa, bb, x, y, mask);
      DrawEllipsePoints(fb, cx, cy, x, y, col, mask, b0, s);
      s := s + MarkSet(cx, cy, x, y, mask);
      NextChoice(aa, bb, x, y);
      y := y + 1;
      stoppingy := stoppingy + twoASquare;
      error := error + ychange;
      ychange := ychange + twoASquare;
      if 2 * error + xchange > 0 {
        x := x - 1;
        stoppingx := stoppingx - twoBSquare;
        error := error + xchange;
        xchange := xchange + twoBSquare;
      }
    }
    TrackGuard(aa, bb, x, y, error, xchange, ychange, stoppingx, stoppingy);
    assert s + iset{} == s;
  }

  method SecondHalf(fb: FrameBuffer, cx: int, cy: int, a: int, b: int, col: bv32, mask: bv8, ghost b0: Bytes, ghost s0: Points)
    requires fb.Valid() && a * a >= 0 && b * b >= 0 && (a * a, b * b) != (0, 0)
    requires Painted(fb.Geo(), b0, fb.buf[..], fb.Screen() * s0, col)
    modifies fb.buf
    ensures Painted(fb.Geo(), b0, fb.buf[..],
                    fb.Screen() * (s0 + AllMarks(cx, cy, Swapped(Walk(b * b, a * a, b, 0)), mask)), col)
  {
    hide Painted, Tracks, Residual, MarkSet, Steeper, NextX;
    ghost var aa, bb, s := a * a, b * b, s0;
    var twoASquare, twoBSquare, x, y := 2 * (a * a), 2 * (b * b), 0, b;
    var xchange, ychange, error := b * b, a * a * (1 - 2 * b), 0;
    var stoppingx, stoppingy := 0, 2 * (a * a) * b;
    TrackStart(b, a);
    ghost var goal := s0 + AllMarks(cx, cy, Swapped(Walk(bb, aa, b, 0)), mask);
    while stoppingx <= stoppingy
      invariant Tracks(bb, aa, y, x, error, ychange, xchange, stoppingy, stoppingx)
      invariant s + AllMarks(cx, cy, Swapped(Walk(bb, aa, y, x)), mask) == goal
      invariant Painted(fb.Geo(), b0, fb.buf[..], fb.Screen() * s, col)
      decreases aa * y - bb * x + 1
    {
      TrackGuard(bb, aa, y, x, error, ychange, xchange, stoppingy, stoppingx);
      TrackStep(bb, aa, y, x, error, ychange, xchange, stoppingy, stoppingx);
      WalkShrinks(bb, aa, y, x);
      GuardBound(bb, aa, y, x);
      MarkFirst(cx, cy, bb, aa, y, x, mask);
      DrawEllipsePoints(fb, cx, cy, x, y, col, mask, b0, s);
      s := s + MarkSet(cx, cy, x, y, mask);
      NextChoice(bb, aa, y, x);
      x := x + 1;
      stoppingx := stoppingx + twoBSquare;
      error := error + xchange;
      xchange := xchange + twoBSquare;
      if 2 * error + ychange > 0 {
        y := y - 1;
        stoppingy := stoppingy - twoASquare;
        error := error + ychange;
        ychange := ychange + twoASquare;
      }
    }
    TrackGuard(bb, aa, y, x, error, ychange, xchange, stoppingy, stoppingx);
    assert s + iset{} == s;
  }
  lemma GuardBound(aa: int, bb: int, x: int, y: int)
    requires Steeper(aa, bb, x, y)
    ensures bb * x - aa * y >= 0
  {}
  lemma NextChoice(aa: int, bb: int, x: int, y: int)
    ensures NextX(aa, bb, x, y) in {x, x - 1}
  {}
}
