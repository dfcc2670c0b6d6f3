/** Times that wrap round: differences and sums of ticks for every power-of-two period, in machine
    words of any power-of-two size, and the order of tasks that rests on them. */
module Ticks {
  import Arithmetic

  function Pow2(n: nat): (p: nat)
    ensures p > 0
    ensures n > 0 ==> p % 2 == 0
  {
    if n == 0 then 1 else 2 * Pow2(n - 1)
  }

  /** A clock: words have `word` bits and the ticks wrap round after `2 ** period`. */
  datatype Clock = Clock(word: nat, period: nat) {
    ghost predicate Valid() {
      0 < period <= word
    }
    function P(): nat {
      Pow2(period)
    }
    function W(): nat {
      Pow2(word)
    }
    /** What a machine word holds of a number, and what it is as a signed number. */
    function Wrap(x: int): (u: nat)
      ensures u < W()
    {
      x % W()
    }
    function Signed(u: nat): int {
      if u < W() / 2 then u else u - W()
    }
    /** `u & (PERIOD - 1)`. */
    function Mask(u: nat): (t: nat)
      ensures t < P()
    {
      u % P()
    }
    /** `time_ticks_diff`, and `ticks_diff` of the scheduler. */
    function Diff(end: nat, start: nat): int {
      Signed(Wrap(Mask(Wrap(end - start + P() / 2)) - P() / 2))
    }
    /** `time_ticks_add` raises an overflow error for this delta. */
    predicate Overflows(delta: int) {
      Wrap(Wrap(delta) + P() / 2 - 1) >= P() - 1
    }
    /** The sum it returns otherwise. */
    function Add(ticks: nat, delta: int): (t: nat)
      ensures t < P()
    {
      Mask(Wrap(ticks + Wrap(delta)))
    }
    /** `task_lt`: the difference, shifted as if it were a small integer object, is negative. */
    predicate Lt(a: nat, b: nat) {
      Diff(a, b) / 2 < 0
    }
  }

  lemma {:induction false} Divides(k: nat, n: nat) returns (c: nat)
    requires k <= n
    ensures Pow2(n) == Pow2(k) * c && c > 0
  {
    if k == n {
      c := 1;
    } else {
      var d := Divides(k, n - 1);
      c := 2 * d;
      assert Pow2(k) * (2 * d) == 2 * (Pow2(k) * d);
    }
  }
  lemma ModUnique(x: int, m: nat, q: int, r: nat)
    requires r < m && x == q * m + r
    ensures x % m == r
  {
    Arithmetic.DivUnique(x, m, q, r);
  }
  /** Wrapping to the word first does not matter to the ticks. */
  lemma MaskOfWrap(c: Clock, x: int)
    requires c.Valid()
    ensures c.Mask(c.Wrap(x)) == x % c.P()
  {
    var P, W := c.P(), c.W();
    var d := Divides(c.period, c.word);
    var u := x % W;
    Quotient(x, W);
    Quotient(u, P);
    Regroup(x / W, d, P, u / P);
    ModUnique(x, P, x / W * d + u / P, u % P);
  }
  lemma Regroup(a: int, d: int, p: int, b: int)
    ensures a * (p * d) + b * p == (a * d + b) * p
  {
    assert a * (p * d) == (a * d) * p;
  }
  lemma Quotient(x: int, m: nat)
    requires m > 0
    ensures x == x / m * m + x % m
  {}
  lemma Half(c: Clock)
    requires c.Valid()
    ensures c.P() == 2 * (c.P() / 2) && c.W() == 2 * (c.W() / 2) && c.P() <= c.W() && c.P() / 2 > 0
  {
    var d := Divides(c.period, c.word);
    Arithmetic.MulMono(1, d, c.P());
  }
  /** The difference is the one number within half a period either way that is congruent to the true
      difference of any two times with these ticks. */
  lemma DiffIs(c: Clock, end: nat, start: nat, d: int, q: int)
    requires c.Valid() && -(c.P() / 2) <= d < c.P() / 2 && end - start == d + q * c.P()
    ensures c.Diff(end, start) == d
  {
    Half(c);
    var h, P, W := c.P() / 2, c.P(), c.W();
    MaskOfWrap(c, end - start + h);
    ModUnique(end - start + h, P, q, d + h);
    if d >= 0 {
      ModUnique(d, W, 0, d);
    } else {
      ModUnique(d, W, -1, d + W);
    }
  }
  lemma DiffRange(c: Clock, end: nat, start: nat)
    requires c.Valid()
    ensures -(c.P() / 2) <= c.Diff(end, start) < c.P() / 2
  {
    Half(c);
    var x, P := end - start + c.P() / 2, c.P();
    assert x == x / P * P + x % P;
    DiffIs(c, end, start, x % P - P / 2, x / P);
  }

  /** The unsigned overflow test is the signed one, for every signed word. */
  lemma OverflowTest(c: Clock, delta: int)
    requires c.Valid() && -(c.W() / 2) <= delta < c.W() / 2
    ensures c.Overflows(delta) <==> delta <= -(c.P() / 2) || delta >= c.P() / 2
  {
    Half(c);
    var h, W := c.P() / 2, c.W();
    WrapWrap(c, delta, h - 1);
    if delta + h - 1 >= 0 {
      ModUnique(delta + h - 1, W, 0, delta + h - 1);
    } else {
      ModUnique(delta + h - 1, W, -1, delta + h - 1 + W);
    }
  }
  lemma WrapWrap(c: Clock, x: int, y: int)
    ensures c.Wrap(c.Wrap(x) + y) == c.Wrap(x + y)
  {
    var W := c.W();
    var u := x % W + y;
    assert x == x / W * W + x % W && u == u / W * W + u % W;
    assert x + y == (x / W + u / W) * W + u % W;
    ModUnique(x + y, W, x / W + u / W, u % W);
  }

  /** The two laws of ticks hold for exactly the deltas that are accepted. */
  lemma AddThenDiff(c: Clock, ticks: nat, delta: int)
    requires c.Valid() && ticks < c.P() && -(c.W() / 2) <= delta < c.W() / 2
    ensures (c.Diff(c.Add(ticks, delta), ticks) == delta && c.Diff(ticks, c.Add(ticks, delta)) == -delta)
            <==> !c.Overflows(delta)
  {
    var P, t, q := c.P(), c.Add(ticks, delta), (ticks + delta) / c.P();
    Half(c);
    OverflowTest(c, delta);
    AddIs(c, ticks, delta);
    DiffRange(c, t, ticks);
    DiffRange(c, ticks, t);
    if !c.Overflows(delta) {
      hide *;
      DiffIs(c, t, ticks, delta, -q);
      DiffIs(c, ticks, t, -delta, q);
    }
  }
  lemma AddIs(c: Clock, ticks: nat, delta: int)
    requires c.Valid()
    ensures var q := (ticks + delta) / c.P();
            && c.Add(ticks, delta) - ticks == delta + (-q) * c.P()
            && ticks - c.Add(ticks, delta) == -delta + q * c.P()
  {
    MaskOfWrap(c, ticks + c.Wrap(delta));
    WrapWrap(c, delta, ticks);
    MaskOfWrap(c, ticks + delta);
    hide *;
    Quotient(ticks + delta, c.P());
    Negated((ticks + delta) / c.P(), c.P());
  }
  lemma Negated(q: int, p: int)
    ensures (-q) * p == -(q * p)
  {}
  /** Half a period back is the one delta for which only the second law fails. */
  lemma HalfBack(c: Clock, ticks: nat)
    requires c.Valid() && ticks < c.P()
    ensures c.Overflows(-(c.P() / 2))
    ensures c.Diff(c.Add(ticks, -(c.P() / 2)), ticks) == -(c.P() / 2)
  {
    var delta, t := -(c.P() / 2), c.Add(ticks, -(c.P() / 2));
    Half(c);
    OverflowTest(c, delta);
    AddIs(c, ticks, delta);
    hide *;
    DiffIs(c, t, ticks, delta, -((ticks + delta) / c.P()));
  }

  // ---- order ----

  /** The ticks of a true time. */
  function At(c: Clock, time: int): (t: nat)
    ensures t < c.P()
  {
    time % c.P()
  }
  /** Among times less than half a period apart, the order of the ticks is that of the times, across
      wrap-round. */
  lemma LtIsEarlier(c: Clock, s: int, t: int)
    requires c.Valid() && -(c.P() / 2) < s - t < c.P() / 2
    ensures c.Lt(At(c, s), At(c, t)) <==> s < t
  {
    var P := c.P();
    assert s == s / P * P + At(c, s) && t == t / P * P + At(c, t);
    assert At(c, s) - At(c, t) == (s - t) + (t / P - s / P) * P;
    DiffIs(c, At(c, s), At(c, t), s - t, t / P - s / P);
  }
}
