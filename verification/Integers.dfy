/** Division facts for a positive divisor. Go's operators on the non-negative operands met here, and the
    floor that its time package uses, agree with Dafny's. */
module Integers {
  lemma DivUnique(x: int, d: int, q: int, r: int)
    requires d > 0 && 0 <= r < d && x == q * d + r
    ensures x / d == q && x % d == r
  {
    var q', r' := x / d, x % d;
    assert x == q' * d + r';
    assert (q - q') * d == r' - r;
    if q > q' {
      MulAtLeast(q - q', d);
    } else if q < q' {
      MulAtLeast(q' - q, d);
    }
  }

  lemma MulAtLeast(a: int, d: int)
    requires a >= 1 && d >= 0
    ensures a * d >= d
  {
    assert a * d == (a - 1) * d + d;
    assert (a - 1) * d >= 0;
  }

  lemma MulAdds(a: int, b: int, d: int)
    ensures (a + b) * d == a * d + b * d && d * (a + b) == d * a + d * b
  {
  }

  lemma MulMonotone(a: int, b: int, d: int)
    requires a <= b && d >= 0
    ensures a * d <= b * d
  {
    assert (b - a) * d >= 0;
    assert (b - a) * d == b * d - a * d;
  }

  /** Adding a multiple of the divisor. */
  lemma DivShift(x: int, d: int, a: int)
    requires d > 0
    ensures (x + a * d) / d == x / d + a && (x + a * d) % d == x % d
  {
    assert (x / d + a) * d == x / d * d + a * d;
    DivUnique(x + a * d, d, x / d + a, x % d);
  }

  /** Dividing twice. */
  lemma DivDiv(x: int, u: int, k: int)
    requires u > 0 && k > 0
    ensures k * u > 0 && x / u / k == x / (k * u)
  {
    MulAtLeast(k, u);
    var y, a, s := x / u, x / u / k, x / u % k;
    var r := s * u + x % u;
    assert x == y * u + x % u && y == a * k + s;
    assert (a * k + s) * u == a * (k * u) + s * u by {
      assert (a * k) * u == a * (k * u);
    }
    MulMonotone(s, k - 1, u);
    assert (k - 1) * u == k * u - u;
    assert s * u >= 0;
    DivUnique(x, k * u, a, r);
  }

  /** A remainder of a remainder, when one divisor divides the other. */
  lemma ModMod(m: int, c: int, k: int)
    requires c > 0 && k > 0 && c % k == 0
    ensures m % c % k == m % k
  {
    var a, n := m / c, c / k;
    assert m == a * c + m % c && c == n * k;
    assert a * c == (a * n) * k;
    DivShift(m % c, k, a * n);
  }
}
