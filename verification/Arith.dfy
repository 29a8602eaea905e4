/** Division facts the calendar's modular arithmetic rests on. */
module Arith {

  /** The quotient and remainder of `x` by `m` are the only ones. */
  lemma DivUnique(x: int, m: int, q: int, r: int)
    requires 0 < m && 0 <= r < m && x == m * q + r
    ensures x / m == q && x % m == r
  {
    var q', r' := x / m, x % m;
    assert x == m * q' + r' && 0 <= r' < m;
    assert m * (q' - q) == r - r';
    if q' > q {
      assert m * (q' - q) >= m by { MulAtLeast(m, q' - q); }
    } else if q' < q {
      assert m * (q - q') >= m by { MulAtLeast(m, q - q'); }
    }
  }

  lemma MulAtLeast(m: int, k: int)
    requires 0 < m && 1 <= k
    ensures m * k >= m
  {
  }

  lemma DivShift(x: int, m: int, q: int)
    requires 0 < m
    ensures (x + m * q) / m == x / m + q && (x + m * q) % m == x % m
  {
    assert x == m * (x / m) + x % m;
    assert m * (x / m + q) == m * (x / m) + m * q;
    DivUnique(x + m * q, m, x / m + q, x % m);
  }

  lemma MulSign(g: int, k: int)
    requires 0 < g
    ensures g * k > 0 <==> k > 0
    ensures g * k < 0 <==> k < 0
  {
  }

  lemma MulNonNegative(a: int, b: int)
    requires 0 <= a && 0 <= b
    ensures 0 <= a * b
  {
  }

  lemma DivMod(k: int, p: int)
    requires 0 < p
    ensures (k / p) * p + k % p == k
  {
  }

  lemma MulLe(a: int, b: int, c: int)
    requires a <= b && 0 <= c
    ensures a * c <= b * c
  {
  }

  lemma MulCancelLess(a: int, b: int, c: int)
    requires 0 < c && a * c < b * c
    ensures a < b
  {
    if b <= a { MulLe(b, a, c); }
  }

  lemma SameMultiple(c: int, x: int, i: nat)
    requires 1 <= i && c % i == 0 && x % i == 0 && c <= x < c + i
    ensures x == c
  {
    DivMod(c, i);
    DivUnique(x, i, c / i, x - c);
  }

  /** A rounded-up quotient grows by one at each multiple. */
  lemma CeilGrows(y: int, m: int)
    requires 1 <= m
    ensures (y + m) / m == (y + m - 1) / m + (if y % m == 0 then 1 else 0)
  {
    var q, r := y / m, y % m;
    DivMod(y, m);
    assert (q + 1) * m == q * m + m;
    DivUnique(y + m, m, q + 1, r);
    if r == 0 {
      DivUnique(y + m - 1, m, q, m - 1);
    } else {
      DivUnique(y + m - 1, m, q + 1, r - 1);
    }
  }
}
