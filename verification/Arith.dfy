/** Facts about multiplication and Euclidean division that the solver does not
    find reliably by itself. */
module Arith {

  lemma MulAtLeast(d: int, k: int)
    requires d > 0 && k >= 1
    ensures d * k >= d
  {
  }

  /** A quotient and a remainder in range are the quotient and the remainder. */
  lemma DivisionIs(x: int, d: int, q: int, r: int)
    requires d > 0 && 0 <= r < d && x == d * q + r
    ensures x / d == q && x % d == r
  {
    var k := q - x / d;
    assert d * k == x % d - r by {
      assert d * q == x - r;
      assert d * (x / d) == x - x % d;
    }
    if k >= 1 { MulAtLeast(d, k); }
    if k <= -1 { MulAtLeast(d, -k); }
  }

  /** A cell of a w by h grid, counted row by row. */
  lemma CellBound(x: nat, y: nat, w: nat, h: nat)
    requires x < w && y < h
    ensures y * w + x < w * h
  {
    calc {
      w * h;
      w * (y + 1) + w * (h - y - 1);
    >= { if h - y - 1 > 0 { MulAtLeast(w, h - y - 1); } }
      w * (y + 1);
      y * w + w;
    }
  }

  lemma OneMore(n: nat, size: nat)
    ensures (n + 1) * size == n * size + size
  {
  }

  /** Item i of n items of the given size lies within them. */
  lemma {:induction false} ItemFits(i: nat, n: nat, size: nat)
    requires i < n
    ensures i * size + size <= n * size
  {
    OneMore(n - 1, size);
    if i < n - 1 { ItemFits(i, n - 1, size); }
  }

  lemma TimesAtLeast(n: nat, size: nat)
    requires size > 0
    ensures n * size >= n
  {
    assert n * size == n + n * (size - 1);
  }

  lemma SameTimes(a: int, b: int, c: int)
    requires a == b
    ensures a * c == b * c
  {
  }

  lemma TimesMonotone(a: nat, b: nat, c: nat, d: nat)
    requires a <= b && c <= d
    ensures a * c <= b * d
  {
    assert b * d == a * d + (b - a) * d;
    assert a * d == a * c + a * (d - c);
  }

  lemma Regroup(w: nat, h: nat, b: nat)
    requires h > 0
    ensures w * h * b == (w * b) * h >= w * b
  {
    calc {
      w * h * b;
      w * (h * b);
      w * (b * h);
      (w * b) * h;
    }
    TimesAtLeast(w * b, h);
  }
}
