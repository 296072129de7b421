/** Small facts about Euclidean division used by the modular row addressing. */
module Arith {

  /** Euclidean remainder is determined by any quotient-remainder decomposition. */
  lemma ModOf(x: int, n: int, q: int, r: int)
    requires n > 0 && 0 <= r < n && x == q * n + r
    ensures x % n == r
  {
    var p := x / n;
    var d := q - p;
    DivMod(x, n);
    SubMul(q, p, n);
    if d > 0 {
      MulAtLeast(d, n);
    } else if d < 0 {
      MulAtLeast(-d, n);
      NegMul(d, n);
    }
  }

  lemma DivMod(x: int, n: int)
    requires n > 0
    ensures x == (x / n) * n + x % n && 0 <= x % n < n
  {
  }

  lemma SubMul(a: int, b: int, n: int)
    ensures a * n - b * n == (a - b) * n
  {
  }

  lemma NegMul(a: int, n: int)
    ensures (-a) * n == -(a * n)
  {
  }

  lemma MulAtLeast(d: int, n: int)
    requires d >= 1 && n > 0
    ensures d * n >= n
  {
    assert d * n == (d - 1) * n + n;
  }

  /** Shifting by a remainder does not change the residue of a difference. */
  lemma ModDifference(a: int, t: int, n: int)
    requires n > 0
    ensures (a % n - t) % n == (a - t) % n
  {
    DivMod(a, n);
    DivMod(a - t, n);
    var q := (a - t) / n;
    var r := (a - t) % n;
    assert a % n - t == (q - a / n) * n + r by {
      SubMul(q, a / n, n);
    }
    ModOf(a % n - t, n, q - a / n, r);
  }

  /** Two integers closer than `n` with the same residue are equal. */
  lemma ModInjective(a: int, b: int, n: int)
    requires n > 0 && a % n == b % n && b <= a < b + n
    ensures a == b
  {
    DivMod(a, n);
    DivMod(b, n);
    SubMul(a / n, b / n, n);
    var d := a / n - b / n;
    if d > 0 {
      MulAtLeast(d, n);
    } else if d < 0 {
      MulAtLeast(-d, n);
      NegMul(d, n);
    }
  }

  lemma MulNonneg(a: int, b: int)
    requires a >= 0 && b >= 0
    ensures a * b >= 0
  {
  }

  /** Cell `k` of `n` cells of size `g` starts on the grid and ends inside the `n * g` span. */
  lemma CellInsideSpan(k: int, n: int, g: int)
    requires 0 <= k < n && g >= 1
    ensures 0 <= k * g && k * g + g <= n * g && (k * g) % g == 0
  {
    ModOf(k * g, g, k, 0);
    MulNonneg(k, g);
    MulNonneg(n - (k + 1), g);
    SubMul(n, k + 1, g);
    assert (k + 1) * g == k * g + g;
  }
}
