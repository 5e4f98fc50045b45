/** Facts about products and truncated quotients that the solver does not find unaided. */
module Arithmetic {

  lemma {:induction false} MulAtLeast(n: int, d: int)
    requires n > 0 && d >= 1
    ensures n * d >= n
    decreases d
  {
    if d > 1 {
      MulAtLeast(n, d - 1);
      assert n * d == n * (d - 1) + n;
    }
  }

  /** If n * q <= n * c < n * q + n then q == c. */
  lemma MulCancel(n: int, q: int, c: int)
    requires n > 0 && n * q <= n * c < n * q + n
    ensures q == c
  {
    if q < c {
      MulAtLeast(n, c - q);
    } else if q > c {
      MulAtLeast(n, q - c);
    }
  }

  /** A multiple of b leaves no remainder. */
  lemma MulMod(b: int, a: int)
    requires b > 0
    ensures (b * a) % b == 0
  {
    var x := b * a;
    var q, r := x / b, x % b;
    assert x == b * q + r && 0 <= r < b;
    MulCancel(b, q, a);
  }

  /** If 0 <= s <= c * n then the truncated quotient s / n lies in 0..c and brackets s. */
  lemma QuotientBounds(s: int, n: int, c: int)
    requires 0 < n && 0 <= s <= c * n
    ensures 0 <= s / n <= c
    ensures n * (s / n) <= s < n * (s / n) + n
  {
    var q, m := s / n, s % n;
    assert s == n * q + m && 0 <= m < n;
  }

  /** The truncated quotient of n copies of c by n is c. */
  lemma QuotientOfMultiple(n: int, c: int)
    requires n > 0
    ensures (n * c) / n == c
  {
    var s := n * c;
    var q, m := s / n, s % n;
    assert s == n * q + m && 0 <= m < n;
    MulCancel(n, q, c);
  }

  /** A nonnegative number divided by a positive one gives a nonnegative quotient. */
  lemma {:induction false} QuotientNonnegative(a: int, b: int)
    requires 0 <= a && 0 < b
    ensures 0 <= a / b
    decreases a
  {
    if a < b {
      DivModOf(0, b, a);
    } else {
      QuotientNonnegative(a - b, b);
      var q, m := (a - b) / b, (a - b) % b;
      assert a == (q + 1) * b + m;
      DivModOf(q + 1, b, m);
    }
  }

  /**
   * m minus its remainder by t is the largest multiple of t not above m; it is 0 exactly
   * when m is below t.
   */
  lemma RoundDown(m: int, t: int)
    requires 0 <= m && 0 < t
    ensures 0 <= m - m % t <= m < m - m % t + t
    ensures (m - m % t) % t == 0
    ensures m - m % t == 0 <==> m < t
  {
    var q, r := m / t, m % t;
    assert m == t * q + r && 0 <= r < t;
    MulMod(t, q);
    if m < t {
      ModSmall(m, t);
    }
  }

  /** A number below the divisor is its own remainder. */
  lemma ModSmall(a: int, n: int)
    requires 0 <= a < n
    ensures a % n == a
  {
    var q, m := a / n, a % n;
    assert a == n * q + m && 0 <= m < n;
    if q > 0 {
      MulAtLeast(n, q);
    } else if q < 0 {
      MulAtLeast(n, -q);
    }
  }

  /** Dividing q * d + s by d, for 0 <= s < d, gives quotient q and remainder s. */
  lemma DivModOf(q: int, d: int, s: int)
    requires 0 <= s < d
    ensures (q * d + s) / d == q && (q * d + s) % d == s
  {
    var x := q * d + s;
    var q', s' := x / d, x % d;
    assert x == d * q' + s' && 0 <= s' < d;
    assert d * q <= d * q' + s' < d * q + d;
    if q' < q {
      MulAtLeast(d, q - q');
    } else if q' > q {
      MulAtLeast(d, q' - q);
    }
  }
}
