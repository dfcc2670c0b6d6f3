/** `framebuf_poly`: scan-line fill by the even-odd rule, and the outline. */
module FrameBufferPoly {
  import opened Arithmetic
  import opened PixelFormats
  import opened Painting
  import opened FrameBuffer
  import opened FrameBufferLine

  type Point = (int, int)

  // ---- crossings ----

  /** The vertices in the order the loop meets them: 0, n-1, n-2, ..., 1, 0. */
  function Vertex(pts: seq<Point>, j: nat): Point
    requires j <= |pts| && pts != []
  {
    if j == 0 then pts[0] else pts[|pts| - j]
  }
  predicate Crosses(p: Point, q: Point, row: int) {
    p.1 != q.1 && ((p.1 > row && q.1 <= row) || (p.1 <= row && q.1 > row))
  }
  /** C division: towards zero. */
  function TruncDiv(a: int, b: int): int
    requires b != 0
  {
    if (a < 0) == (b < 0) then AbsInt(a) / AbsInt(b) else -(AbsInt(a) / AbsInt(b))
  }
  function AbsInt(n: int): (r: nat)
    ensures n != 0 ==> r > 0
  {
    if n < 0 then -n else n
  }
  /** The crossing's column in 32nds of a pixel, before it is rounded. */
  function Fine(p: Point, q: Point, row: int): int
    requires p.1 != q.1
  {
    32 * p.0 + TruncDiv(32 * (q.0 - p.0) * (row - p.1), q.1 - p.1)
  }
  function Node(p: Point, q: Point, row: int): int
    requires p.1 != q.1
  {
    TruncDiv(Fine(p, q, row) + 16, 32)
  }
  /** The crossings of the first `j` edges with a scan line, in the order they are found. */
  function Nodes(pts: seq<Point>, row: int, j: nat): seq<int>
    requires j <= |pts| && pts != []
  {
    if j == 0 then []
    else
      var p, q := Vertex(pts, j - 1), Vertex(pts, j);
      Nodes(pts, row, j - 1) + if Crosses(p, q, row) then [Node(p, q, row)] else []
  }
  predicate Under(p: Point, row: int) { p.1 > row }

  lemma {:induction false} NodesParity(pts: seq<Point>, row: int, j: nat)
    requires j <= |pts| && pts != []
    ensures |Nodes(pts, row, j)| <= j
    ensures |Nodes(pts, row, j)| % 2 == 1 <==> Under(Vertex(pts, 0), row) != Under(Vertex(pts, j), row)
  {
    hide Node, Vertex;
    if j > 0 {
      NodesParity(pts, row, j - 1);
    }
  }
  /** A closed polygon crosses every scan line an even number of times. */
  lemma ClosedCrossesEvenly(pts: seq<Point>, row: int)
    requires pts != []
    ensures |Nodes(pts, row, |pts|)| % 2 == 0 && |Nodes(pts, row, |pts|)| <= |pts|
  {
    NodesParity(pts, row, |pts|);
  }

  // ---- where a crossing lies ----

  lemma QuotientBetween(a: nat, t: nat, n: nat)
    requires n > 0 && t <= n
    ensures a * t >= 0 && 0 <= a * t / n <= a
  {
    MulMono(0, a, t);
    MulMono(t, n, a);
    assert t * a == a * t && n * a == a * n;
    var k := a * t / n;
    assert a * t == k * n + a * t % n;
    MulSign(k, n);
    if k > a {
      MulMono(a + 1, k, n);
      Distribute(n, a, 1);
    }
  }
  lemma AbsProduct(d: int, t: int)
    ensures AbsInt(d * t) == AbsInt(d) * AbsInt(t)
  {
    SignOfProduct(d, t);
    assert (-d) * t == -(d * t) && d * (-t) == -(d * t) && (-d) * (-t) == d * t;
  }
  lemma TruncBetween(d: int, t: int, n: int)
    requires n != 0 && (if n > 0 then 0 <= t <= n else n <= t <= 0)
    ensures var q := TruncDiv(d * t, n); if d >= 0 then 0 <= q <= d else d <= q <= 0
  {
    AbsProduct(d, t);
    QuotientBetween(AbsInt(d), AbsInt(t), AbsInt(n));
    SignOfProduct(d, t);
    if d * t == 0 {
      assert AbsInt(d * t) / AbsInt(n) == 0;
    }
  }
  lemma SignOfProduct(d: int, t: int)
    ensures d >= 0 && t >= 0 ==> d * t >= 0
    ensures d >= 0 && t <= 0 ==> d * t <= 0
    ensures d <= 0 && t >= 0 ==> d * t <= 0
    ensures d <= 0 && t <= 0 ==> d * t >= 0
  {
    if t >= 0 {
      if d >= 0 { MulMono(0, d, t); } else { MulMono(d, 0, t); }
    } else {
      if d >= 0 { MulMono(0, d, -t); } else { MulMono(d, 0, -t); }
    }
  }

  /** A recorded crossing lies between the ends of its edge, except that left of the origin the
      rounding goes the other way: there it is one column too far right exactly when the
      crossing is within half a pixel of the right end. */
  lemma NodeInside(p: Point, q: Point, row: int)
    requires Crosses(p, q, row)
    ensures var lo, hi := if p.0 < q.0 then p.0 else q.0, if p.0 < q.0 then q.0 else p.0;
            && lo <= Node(p, q, row) <= hi + 1
            && (Node(p, q, row) <= hi <==> Fine(p, q, row) >= -16 || Fine(p, q, row) <= 32 * hi - 16)
            && (p.0 >= 0 && q.0 >= 0 ==> Node(p, q, row) <= hi)
  {
    TruncBetween(32 * (q.0 - p.0), row - p.1, q.1 - p.1);
    hide TruncDiv;
    RoundNode(Fine(p, q, row), if p.0 < q.0 then p.0 else q.0, if p.0 < q.0 then q.0 else p.0);
  }
  lemma RoundNode(v: int, lo: int, hi: int)
    requires 32 * lo <= v <= 32 * hi
    ensures var n := TruncDiv(v + 16, 32);
            lo <= n <= hi + 1 && (n <= hi <==> v >= -16 || v <= 32 * hi - 16)
  {}
  /** How far the recorded column is from the nearest one: rounding half up, except that a crossing
      more than half a pixel left of the origin that is not exactly half way between two columns is
      recorded one column further right. */
  lemma NodeRounds(p: Point, q: Point, row: int)
    requires p.1 != q.1
    ensures var v := Fine(p, q, row);
            && (Node(p, q, row) == (v + 16) / 32 <==> v >= -16 || (v + 16) % 32 == 0)
            && (Node(p, q, row) != (v + 16) / 32 ==> Node(p, q, row) == (v + 16) / 32 + 1)
  {
    var v := Fine(p, q, row) + 16;
    hide Fine;
    if v < 0 {
      Negated(v);
    }
  }
  lemma Negated(v: int)
    requires v < 0
    ensures TruncDiv(v, 32) == if v % 32 == 0 then v / 32 else v / 32 + 1
  {}
  /** The crossing in 32nds of a pixel is within one of the exact crossing of the edge and the line. */
  lemma FineError(p: Point, q: Point, row: int)
    requires p.1 != q.1
    ensures AbsInt((Fine(p, q, row) - 32 * p.0) * (q.1 - p.1) - 32 * (q.0 - p.0) * (row - p.1)) < AbsInt(q.1 - p.1)
  {
    TruncError(32 * (q.0 - p.0) * (row - p.1), q.1 - p.1);
  }
  lemma TruncError(a: int, b: int)
    requires b != 0
    ensures AbsInt(TruncDiv(a, b) * b - a) < AbsInt(b)
  {
    var n: int, d: int := AbsInt(a), AbsInt(b);
    var k: int := n / d;
    assert n == k * d + n % d;
    if (a < 0) == (b < 0) {
      assert TruncDiv(a, b) == k;
      assert k * -d == -(k * d);
    } else {
      assert TruncDiv(a, b) == -k;
      assert (-k) * d == -(k * d) && (-k) * (-d) == k * d;
    }
  }
  /** For example a vertical edge left of the origin is recorded one column off. */
  lemma VerticalEdge(p: Point, q: Point, row: int)
    requires Crosses(p, q, row) && p.0 == q.0
    ensures Node(p, q, row) == if p.0 >= 0 then p.0 else p.0 + 1
  {
    TruncBetween(0, row - p.1, q.1 - p.1);
  }

  // ---- the sort ----

  function CountLess(s: seq<int>, v: int): nat {
    if s == [] then 0 else (if s[0] < v then 1 else 0) + CountLess(s[1..], v)
  }
  function Inversions(s: seq<int>): nat {
    if s == [] then 0 else CountLess(s[1..], s[0]) + Inversions(s[1..])
  }
  ghost predicate Sorted(s: seq<int>) { forall i, j :: 0 <= i < j < |s| ==> s[i] <= s[j] }

  function Swap(s: seq<int>, i: nat): seq<int>
    requires i + 1 < |s|
  {
    s[i := s[i + 1]][i + 1 := s[i]]
  }
  lemma {:induction false} SwapCount(s: seq<int>, i: nat, v: int)
    requires i + 1 < |s|
    ensures CountLess(Swap(s, i), v) == CountLess(s, v)
  {
    var t := Swap(s, i);
    if i == 0 {
      assert t[1..][1..] == s[1..][1..];
    } else {
      assert t[1..] == Swap(s[1..], i - 1);
      SwapCount(s[1..], i - 1, v);
    }
  }
  lemma {:induction false} SwapInversions(s: seq<int>, i: nat)
    requires i + 1 < |s| && s[i] > s[i + 1]
    ensures Inversions(Swap(s, i)) == Inversions(s) - 1
  {
    var t := Swap(s, i);
    if i == 0 {
      assert t[1..][1..] == s[1..][1..];
    } else {
      assert t[1..] == Swap(s[1..], i - 1);
      SwapInversions(s[1..], i - 1);
      SwapCount(s[1..], i - 1, s[0]);
    }
  }

  ghost predicate SameCounts(s: seq<int>, t: seq<int>) { forall v :: CountLess(s, v) == CountLess(t, v) }
  lemma SwapSame(s: seq<int>, i: nat, s0: seq<int>)
    requires i + 1 < |s| && SameCounts(s, s0)
    ensures SameCounts(Swap(s, i), s0)
  {
    forall v ensures CountLess(Swap(s, i), v) == CountLess(s0, v) {
      SwapCount(s, i, v);
    }
  }

  ghost predicate Permuted(s: seq<int>, t: seq<int>) { multiset(s) == multiset(t) }
  lemma SwapPermutes(s: seq<int>, i: nat, s0: seq<int>)
    requires i + 1 < |s| && Permuted(s, s0)
    ensures Permuted(Swap(s, i), s0)
  {}
  /** Everything the loop keeps: the first `k` nodes are in order, and no node is lost. */
  ghost predicate Sorting(s: seq<int>, s0: seq<int>, k: nat) {
    k <= |s| && Sorted(s[..k]) && Permuted(s, s0) && SameCounts(s, s0)
  }
  lemma StepBack(s: seq<int>, s0: seq<int>, i: nat)
    requires i + 1 < |s| && Sorting(s, s0, i + 1) && s[i] > s[i + 1]
    ensures Sorting(Swap(s, i), s0, if i > 0 then i else 1)
    ensures Inversions(Swap(s, i)) < Inversions(s)
  {
    SwapInversions(s, i);
    SwapSame(s, i, s0);
    SwapPermutes(s, i, s0);
    assert Swap(s, i)[..i] == s[..i + 1][..i];
  }

  /** The back-stepping bubble sort.  Each swap removes one inversion, so it ends. */
  method SortNodes(nodes: array<int>, n: nat)
    requires 0 < n <= nodes.Length
    modifies nodes
    ensures Sorted(nodes[..n]) && Permuted(nodes[..n], old(nodes[..n]))
    ensures SameCounts(nodes[..n], old(nodes[..n]))
  {
    hide *;
    ghost var s0 := nodes[..n];
    var i := 0;
    SortStart(s0);
    while i < n - 1
      invariant 0 <= i < n && Sorting(nodes[..n], s0, i + 1)
      decreases Inversions(nodes[..n]), n - i
    {
      ghost var s := nodes[..n];
      if nodes[i] > nodes[i + 1] {
        nodes[i], nodes[i + 1] := nodes[i + 1], nodes[i];
        StepBack(s, s0, i);
        SwapIs(s, nodes[..n], i);
        if i > 0 {
          i := i - 1;
        }
      } else {
        StepForward(s, s0, i);
        i := i + 1;
      }
    }
    SortEnd(nodes[..n], s0);
  }
  lemma SortStart(s: seq<int>)
    requires s != []
    ensures Sorting(s, s, 1)
  {}
  lemma SortEnd(s: seq<int>, s0: seq<int>)
    requires Sorting(s, s0, |s|)
    ensures Sorted(s) && Permuted(s, s0) && SameCounts(s, s0)
  {
    assert s[..|s|] == s;
  }
  lemma SwapIs(s: seq<int>, t: seq<int>, i: nat)
    requires i + 1 < |s| && t == s[i := s[i + 1]][i + 1 := s[i]]
    ensures t == Swap(s, i)
  {}
  lemma StepForward(s: seq<int>, s0: seq<int>, i: nat)
    requires i + 1 < |s| && Sorting(s, s0, i + 1) && s[i] <= s[i + 1]
    ensures Sorting(s, s0, i + 2)
  {
    assert s[..i + 2] == s[..i + 1] + [s[i + 1]];
  }

  // ---- the even-odd rule ----

  /** A column is filled if a crossing is recorded there, or an odd number lie left of it. */
  ghost predicate EvenOdd(nodes: seq<int>, px: int) {
    px in nodes || CountLess(nodes, px) % 2 == 1
  }
  ghost predicate InSpan(s: seq<int>, m: nat, px: int) {
    exists j :: 0 <= j < m && 2 * j + 1 < |s| && s[2 * j] <= px <= s[2 * j + 1]
  }
  lemma {:induction false} CountNone(s: seq<int>, px: int)
    requires forall i :: 0 <= i < |s| ==> px <= s[i]
    ensures CountLess(s, px) == 0
  {
    if s != [] {
      CountNone(s[1..], px);
    }
  }
  lemma SpansTail(s: seq<int>, px: int)
    requires |s| >= 2 && |s| % 2 == 0
    ensures InSpan(s, |s| / 2, px) <==> s[0] <= px <= s[1] || InSpan(s[2..], |s| / 2 - 1, px)
  {
    var t := s[2..];
    if InSpan(t, |s| / 2 - 1, px) {
      var j :| 0 <= j < |s| / 2 - 1 && 2 * j + 1 < |t| && t[2 * j] <= px <= t[2 * j + 1];
      assert s[2 * (j + 1)] <= px <= s[2 * (j + 1) + 1];
    }
    if InSpan(s, |s| / 2, px) {
      var j :| 0 <= j < |s| / 2 && 2 * j + 1 < |s| && s[2 * j] <= px <= s[2 * j + 1];
      assert j == 0 || t[2 * (j - 1)] <= px <= t[2 * (j - 1) + 1];
    }
    if s[0] <= px <= s[1] {
      assert s[2 * 0] <= px <= s[2 * 0 + 1];
    }
  }
  lemma EvenOddTail(s: seq<int>, px: int)
    requires |s| >= 2
    ensures CountLess(s, px) == (if s[0] < px then 1 else 0) + (if s[1] < px then 1 else 0) + CountLess(s[2..], px)
    ensures px in s <==> px == s[0] || px == s[1] || px in s[2..]
  {
    assert s[1..][1..] == s[2..] && s == [s[0], s[1]] + s[2..];
  }
  lemma {:induction false} SpansAreEvenOdd(s: seq<int>, px: int)
    requires Sorted(s) && |s| % 2 == 0
    ensures InSpan(s, |s| / 2, px) <==> EvenOdd(s, px)
  {
    if s != [] {
      var t := s[2..];
      SpansTail(s, px);
      EvenOddTail(s, px);
      SpansAreEvenOdd(t, px);
      hide InSpan, CountLess;
      if px <= s[1] {
        CountNone(t, px);
        assert px in t ==> px == s[1];
      }
    }
  }

  // ---- what a scan line paints ----

  /** The pixels an edge paints at its lower end, which its crossings miss. */
  ghost function EdgeSet(p: Point, q: Point, x: int, y: int, row: int): Points {
    if Crosses(p, q, row) || row != (if p.1 > q.1 then p.1 else q.1) then iset{}
    else if p.1 < q.1 then iset{(x + q.0, y + q.1)}
    else if q.1 < p.1 then iset{(x + p.0, y + p.1)}
    else LineSet(x + p.0, y + p.1, x + q.0, y + q.1)
  }
  ghost function EdgeSets(pts: seq<Point>, x: int, y: int, row: int, j: nat): Points
    requires j <= |pts| && pts != []
  {
    if j == 0 then iset{}
    else EdgeSets(pts, x, y, row, j - 1) + EdgeSet(Vertex(pts, j - 1), Vertex(pts, j), x, y, row)
  }
  ghost function EvenOddSet(nodes: seq<int>, x: int, yy: int): Points {
    iset p: (int, int) | p.1 == yy && EvenOdd(nodes, p.0 - x)
  }
  ghost function SpanSet(s: seq<int>, m: nat, x: int, yy: int): Points {
    iset p: (int, int) | p.1 == yy && InSpan(s, m, p.0 - x)
  }
  /** One scan line: the even-odd interior of the crossings, and the edge ends. */
  ghost function RowSet(pts: seq<Point>, x: int, y: int, row: int): Points
    requires pts != []
  {
    EdgeSets(pts, x, y, row, |pts|) + EvenOddSet(Nodes(pts, row, |pts|), x, y + row)
  }
  ghost function RowSets(pts: seq<Point>, x: int, y: int, lo: int, end: int): Points
    requires pts != []
    decreases end - lo
  {
    if lo >= end then iset{} else RowSets(pts, x, y, lo, end - 1) + RowSet(pts, x, y, end - 1)
  }

  lemma SortedSpans(s: seq<int>, nodes: seq<int>, x: int, yy: int)
    requires Sorted(s) && |s| % 2 == 0 && Permuted(s, nodes) && SameCounts(s, nodes)
    ensures SpanSet(s, |s| / 2, x, yy) == EvenOddSet(nodes, x, yy)
  {
    forall px ensures InSpan(s, |s| / 2, px) <==> EvenOdd(nodes, px) {
      SpansAreEvenOdd(s, px);
      assert px in s <==> px in multiset(s);
      assert px in nodes <==> px in multiset(nodes);
      assert CountLess(s, px) == CountLess(nodes, px);
    }
  }
  lemma NextSpan(s: seq<int>, m: nat, x: int, yy: int)
    requires 2 * m + 1 < |s|
    ensures SpanSet(s, m + 1, x, yy) == SpanSet(s, m, x, yy) + Rect(x + s[2 * m], yy, s[2 * m + 1] - s[2 * m] + 1, 1)
  {
    forall px ensures InSpan(s, m + 1, px) <==> InSpan(s, m, px) || s[2 * m] <= px <= s[2 * m + 1] {
      if InSpan(s, m + 1, px) {
        var j :| 0 <= j < m + 1 && 2 * j + 1 < |s| && s[2 * j] <= px <= s[2 * j + 1];
        assert j < m ==> InSpan(s, m, px);
      }
      if InSpan(s, m, px) {
        var j :| 0 <= j < m && 2 * j + 1 < |s| && s[2 * j] <= px <= s[2 * j + 1];
        assert 0 <= j < m + 1;
      }
    }
  }

  // ---- drawing ----

  /** A further drawing on top of what has been painted. */
  lemma Also(fb: FrameBuffer, b: Bytes, b1: Bytes, b2: Bytes, s: Points, t: Points, col: bv32)
    requires Painted(fb.Geo(), b, b1, fb.Screen() * s, col) && Painted(fb.Geo(), b1, b2, fb.Screen() * t, col)
    ensures Painted(fb.Geo(), b, b2, fb.Screen() * (s + t), col)
  {
    hide Get, Size;
    PaintTwice(fb.Geo(), b, b1, b2, fb.Screen() * s, fb.Screen() * t, fb.Screen() * (s + t), col);
  }

  /** The body of the edge loop behind the crossing test. */
  method PaintEdge(fb: FrameBuffer, p: Point, q: Point, x: int, y: int, row: int, col: bv32, ghost b: Bytes, ghost s: Points)
    requires fb.Valid() && !Crosses(p, q, row) && Painted(fb.Geo(), b, fb.buf[..], fb.Screen() * s, col)
    modifies fb.buf
    ensures Painted(fb.Geo(), b, fb.buf[..], fb.Screen() * (s + EdgeSet(p, q, x, y, row)), col)
  {
    hide Painted, LineSet;
    ghost var b1 := fb.buf[..];
    if row == (if p.1 > q.1 then p.1 else q.1) {
      if p.1 < q.1 {
        fb.SetPixelChecked(x + q.0, y + q.1, col, true);
      } else if q.1 < p.1 {
        fb.SetPixelChecked(x + p.0, y + p.1, col, true);
      } else {
        Line(fb, x + p.0, y + p.1, x + q.0, y + q.1, col);
      }
      Also(fb, b, b1, fb.buf[..], s, EdgeSet(p, q, x, y, row), col);
    } else {
      assert s + iset{} == s;
    }
  }

  /** One scan line of the fill. */
  method FillScanLine(fb: FrameBuffer, pts: seq<Point>, x: int, y: int, row: int, col: bv32, ghost b: Bytes, ghost s: Points)
    requires fb.Valid() && pts != [] && Painted(fb.Geo(), b, fb.buf[..], fb.Screen() * s, col)
    modifies fb.buf
    ensures Painted(fb.Geo(), b, fb.buf[..], fb.Screen() * (s + RowSet(pts, x, y, row)), col)
  {
    hide Painted, EdgeSet, Crosses, Node, EvenOddSet;
    var nodes := new int[|pts|];
    var nNodes, p, i := 0, pts[0], |pts|;
    ghost var j := 0;
    assert s + iset{} == s;
    while i > 0
      invariant 0 <= i <= |pts| && j == |pts| - i && p == Vertex(pts, j)
      invariant nNodes <= j && nodes[..nNodes] == Nodes(pts, row, j)
      invariant Painted(fb.Geo(), b, fb.buf[..], fb.Screen() * (s + EdgeSets(pts, x, y, row, j)), col)
    {
      i := i - 1;
      var q := pts[i];
      assert q == Vertex(pts, j + 1);
      ghost var t := s + EdgeSets(pts, x, y, row, j);
      if Crosses(p, q, row) {
        var node := NodeOf(p, q, row);
        nodes[nNodes] := node;
        nNodes := nNodes + 1;
        NoEdgeSet(p, q, x, y, row);
        assert t + iset{} == t;
      } else {
        PaintEdge(fb, p, q, x, y, row, col, b, t);
      }
      assert t + EdgeSet(p, q, x, y, row) == s + EdgeSets(pts, x, y, row, j + 1);
      p := q;
      j := j + 1;
    }
    ClosedCrossesEvenly(pts, row);
    ghost var t := s + EdgeSets(pts, x, y, row, |pts|);
    assert t + EvenOddSet(Nodes(pts, row, |pts|), x, y + row) == s + RowSet(pts, x, y, row);
    FillFound(fb, nodes, nNodes, x, y + row, col, b, t);
  }
  /** The recorded crossings are sorted, and the spans between them are filled. */
  method FillFound(fb: FrameBuffer, nodes: array<int>, nNodes: nat, x: int, y: int, col: bv32, ghost b: Bytes, ghost t: Points)
    requires fb.Valid() && nNodes <= nodes.Length && nNodes % 2 == 0 && nodes as object != fb.buf
    requires Painted(fb.Geo(), b, fb.buf[..], fb.Screen() * t, col)
    modifies fb.buf, nodes
    ensures Painted(fb.Geo(), b, fb.buf[..], fb.Screen() * (t + EvenOddSet(old(nodes[..nNodes]), x, y)), col)
  {
    hide Painted, EvenOddSet;
    if nNodes == 0 {
      NoNodes(x, y);
      assert t + iset{} == t;
      return;
    }
    ghost var found := nodes[..nNodes];
    SortNodes(nodes, nNodes);
    FillSpans(fb, nodes, nNodes, x, y, col, b, t);
    SortedSpans(nodes[..nNodes], found, x, y);
  }
  method NodeOf(p: Point, q: Point, row: int) returns (node: int)
    requires Crosses(p, q, row)
    ensures node == Node(p, q, row)
  {
    node := TruncDiv(32 * p.0 + TruncDiv(32 * (q.0 - p.0) * (row - p.1), q.1 - p.1) + 16, 32);
  }
  lemma NoEdgeSet(p: Point, q: Point, x: int, y: int, row: int)
    requires Crosses(p, q, row)
    ensures EdgeSet(p, q, x, y, row) == iset{}
  {}
  lemma NoNodes(x: int, yy: int)
    ensures EvenOddSet([], x, yy) == iset{}
  {}

  /** Fill between each pair of nodes. */
  method FillSpans(fb: FrameBuffer, nodes: array<int>, n: nat, x: int, yy: int, col: bv32, ghost b: Bytes, ghost s: Points)
    requires fb.Valid() && n <= nodes.Length && n % 2 == 0 && nodes as object != fb.buf
    requires Painted(fb.Geo(), b, fb.buf[..], fb.Screen() * s, col)
    modifies fb.buf
    ensures nodes[..n] == old(nodes[..n])
    ensures Painted(fb.Geo(), b, fb.buf[..], fb.Screen() * (s + SpanSet(nodes[..n], n / 2, x, yy)), col)
  {
    ghost var t := nodes[..n];
    assert SpanSet(t, 0, x, yy) == iset{} && s + iset{} == s;
    hide Painted, SpanSet, Rect, InSpan;
    var i := 0;
    ghost var m := 0;
    while i < n
      invariant 0 <= i <= n && i == 2 * m && nodes[..n] == t
      invariant Painted(fb.Geo(), b, fb.buf[..], fb.Screen() * (s + SpanSet(t, m, x, yy)), col)
    {
      assert nodes[i] == nodes[..n][i] && nodes[i + 1] == nodes[..n][i + 1];
      FillSpan(fb, nodes[i], nodes[i + 1], x, yy, col, b, s, t, m);
      i := i + 2;
      m := m + 1;
    }
  }

  method FillSpan(fb: FrameBuffer, left: int, right: int, x: int, yy: int, col: bv32,
                  ghost b: Bytes, ghost s: Points, ghost t: seq<int>, ghost m: nat)
    requires fb.Valid() && 2 * m + 1 < |t| && left == t[2 * m] && right == t[2 * m + 1]
    requires Painted(fb.Geo(), b, fb.buf[..], fb.Screen() * (s + SpanSet(t, m, x, yy)), col)
    modifies fb.buf
    ensures Painted(fb.Geo(), b, fb.buf[..], fb.Screen() * (s + SpanSet(t, m + 1, x, yy)), col)
  {
    hide Painted, SpanSet, Rect, InSpan;
    ghost var b1 := fb.buf[..];
    fb.FillRect(x + left, yy, right - left + 1, 1, col);
    NextSpan(t, m, x, yy);
    ghost var r := Rect(x + left, yy, right - left + 1, 1);
    Also(fb, b, b1, fb.buf[..], s + SpanSet(t, m, x, yy), r, col);
    assert s + SpanSet(t, m, x, yy) + r == s + SpanSet(t, m + 1, x, yy);
  }

  /** The vertical extent of the polygon. */
  ghost predicate Extends(pts: seq<Point>, lo: int, hi: int) {
    && (forall i :: 0 <= i < |pts| ==> lo <= pts[i].1 <= hi)
    && (exists i :: 0 <= i < |pts| && pts[i].1 == lo) && (exists i :: 0 <= i < |pts| && pts[i].1 == hi)
  }
  method Extent(pts: seq<Point>) returns (lo: int, hi: int)
    requires pts != []
    ensures Extends(pts, lo, hi)
  {
    lo, hi := pts[0].1, pts[0].1;
    for i := 1 to |pts|
      invariant Extends(pts[..i], lo, hi)
    {
      var py := pts[i].1;
      ghost var w, v := pts[..i], pts[..i + 1];
      assert v == w + [pts[i]] && v[i].1 == py;
      assert forall k :: 0 <= k < i ==> v[k] == w[k];
      lo, hi := if py < lo then py else lo, if py > hi then py else hi;
    }
    assert pts[..|pts|] == pts;
  }

  /** The filled polygon: every scan line of its vertical extent. */
  method FillPoly(fb: FrameBuffer, pts: seq<Point>, x: int, y: int, col: bv32)
    requires fb.Valid()
    modifies fb.buf
    ensures pts == [] ==> fb.buf[..] == old(fb.buf[..])
    ensures forall lo, hi :: pts != [] && Extends(pts, lo, hi) ==>
              Painted(fb.Geo(), old(fb.buf[..]), fb.buf[..], fb.Screen() * RowSets(pts, x, y, lo, hi + 1), col)
  {
    hide Painted, RowSet;
    if pts == [] {
      return;
    }
    ghost var b := fb.buf[..];
    var lo, hi := Extent(pts);
    assert forall l, h :: Extends(pts, l, h) ==> l == lo && h == hi;
    PaintNone(fb.Geo(), b, col);
    assert fb.Screen() * iset{} == iset{};
    for row := lo to hi + 1
      invariant Painted(fb.Geo(), b, fb.buf[..], fb.Screen() * RowSets(pts, x, y, lo, row), col)
    {
      FillScanLine(fb, pts, x, y, row, col, b, RowSets(pts, x, y, lo, row));
    }
  }

  ghost function OutlineSet(pts: seq<Point>, x: int, y: int, j: nat): Points
    requires j <= |pts| && pts != []
  {
    if j == 0 then iset{}
    else
      var p, q := Vertex(pts, j - 1), Vertex(pts, j);
      OutlineSet(pts, x, y, j - 1) + LineSet(x + p.0, y + p.1, x + q.0, y + q.1)
  }
  lemma OutlineStart(fb: FrameBuffer, b: Bytes, pts: seq<Point>, x: int, y: int, col: bv32)
    requires fb.Valid() && pts != [] && |b| == fb.buf.Length
    ensures Painted(fb.Geo(), b, b, fb.Screen() * OutlineSet(pts, x, y, 0), col) && pts[0] == Vertex(pts, 0)
  {}
  lemma NextEdge(pts: seq<Point>, x: int, y: int, j: nat)
    requires j < |pts|
    ensures var p, q := Vertex(pts, j), pts[|pts| - j - 1];
            && Vertex(pts, j + 1) == q
            && OutlineSet(pts, x, y, j + 1) == OutlineSet(pts, x, y, j) + LineSet(x + p.0, y + p.1, x + q.0, y + q.1)
  {}
  method OutlineEdge(fb: FrameBuffer, p: Point, q: Point, x: int, y: int, col: bv32,
                     ghost b: Bytes, ghost pts: seq<Point>, ghost j: nat)
    requires fb.Valid() && j < |pts| && p == Vertex(pts, j) && q == pts[|pts| - j - 1]
    requires Painted(fb.Geo(), b, fb.buf[..], fb.Screen() * OutlineSet(pts, x, y, j), col)
    modifies fb.buf
    ensures Painted(fb.Geo(), b, fb.buf[..], fb.Screen() * OutlineSet(pts, x, y, j + 1), col)
    ensures q == Vertex(pts, j + 1)
  {
    hide *;
    ghost var b1 := fb.buf[..];
    Line(fb, x + p.0, y + p.1, x + q.0, y + q.1, col);
    Also(fb, b, b1, fb.buf[..], OutlineSet(pts, x, y, j), LineSet(x + p.0, y + p.1, x + q.0, y + q.1), col);
    NextEdge(pts, x, y, j);
  }
  /** The outline: the line of every edge. */
  method OutlinePoly(fb: FrameBuffer, pts: seq<Point>, x: int, y: int, col: bv32)
    requires fb.Valid() && pts != []
    modifies fb.buf
    ensures Painted(fb.Geo(), old(fb.buf[..]), fb.buf[..], fb.Screen() * OutlineSet(pts, x, y, |pts|), col)
  {
    ghost var b := fb.buf[..];
    hide *;
    OutlineStart(fb, b, pts, x, y, col);
    var p, i := pts[0], |pts|;
    while i > 0
      invariant 0 <= i <= |pts| && p == Vertex(pts, |pts| - i)
      invariant Painted(fb.Geo(), b, fb.buf[..], fb.Screen() * OutlineSet(pts, x, y, |pts| - i), col)
    {
      i := i - 1;
      OutlineEdge(fb, p, pts[i], x, y, col, b, pts, |pts| - i - 1);
      p := pts[i];
    }
  }
}
