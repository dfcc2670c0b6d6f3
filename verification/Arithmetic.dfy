/** Small facts about products and quotients, used where the solver needs them one at a time. */
module Arithmetic {

  lemma MulMono(a: int, b: int, s: int)
    requires a <= b && 0 <= s
    ensures a * s <= b * s
  {}
  lemma Distribute(a: int, p: int, q: int)
    ensures a * (p + q) == a * p + a * q
  {}
  lemma MulSign(d: int, s: int)
    requires s > 0
    ensures d >= 1 ==> d * s >= s
    ensures d <= -1 ==> d * s <= -s
  {
    if d >= 1 {
      MulMono(1, d, s);
    } else if d <= -1 {
      MulMono(d, -1, s);
    }
  }
  lemma DivUnique(n: int, k: int, q: int, r: int)
    requires k > 0 && n == q * k + r && 0 <= r < k
    ensures n / k == q && n % k == r
  {
    assert n == n / k * k + n % k;
    assert (n / k - q) * k == r - n % k;
    MulSign(n / k - q, k);
  }
  lemma DivRow(x: nat, y: nat, s: nat, k: nat)
    requires k > 0
    ensures (x + y * (s * k)) / k == x / k + y * s
    ensures (x + y * (s * k)) % k == x % k
  {
    assert y * (s * k) == y * s * k;
    assert (x / k + y * s) * k == x / k * k + y * s * k;
    DivUnique(x + y * (s * k), k, x / k + y * s, x % k);
  }
  lemma RowUnique(a: int, y: int, b: int, z: int, s: int)
    requires 0 <= a < s && 0 <= b < s && a + y * s == b + z * s
    ensures a == b && y == z
  {
    assert (y - z) * s == b - a;
    MulSign(y - z, s);
  }
  lemma RowInside(a: int, y: int, s: int, rows: int)
    requires 0 <= a < s && 0 <= y < rows
    ensures 0 <= a + y * s < rows * s
  {
    MulMono(y, rows - 1, s);
    MulMono(0, y, s);
  }

  function RoundUp(n: nat, k: nat): (r: nat)
    requires k > 0
    ensures n <= r < n + k && r % k == 0
  {
    var q := (n + k - 1) / k;
    DivUnique(q * k, k, q, 0);
    q * k
  }
}
