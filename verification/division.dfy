/** Quotients and remainders by a variable divisor. */
module Division {
  lemma SmallQuotient(n: nat, width: nat)
    requires n < width
    ensures n / width == 0
  {
  }

  lemma QuotientStep(n: nat, width: nat)
    requires 0 < width <= n
    ensures n / width == (n - width) / width + 1
  {
    var q := (n - width) / width;
    assert n - width == q * width + (n - width) % width;
    assert n == (q + 1) * width + (n - width) % width;
    QuotientUnique(n, width, q + 1, (n - width) % width);
  }

  lemma QuotientUnique(n: nat, d: nat, q: nat, r: nat)
    requires d > 0 && r < d && n == q * d + r
    ensures n / d == q && n % d == r
  {
    var q', r' := n / d, n % d;
    assert q' * d + r' == n;
    if q' < q {
      MulBelow(q', q, d);
    } else if q < q' {
      MulBelow(q, q', d);
    }
  }

  lemma MulBelow(a: nat, b: nat, d: nat)
    requires a < b
    ensures a * d + d <= b * d
  {
    assert a * d + d == (a + 1) * d;
    MulAtMost(a + 1, b, d);
  }

  lemma MulAtMost(a: nat, b: nat, d: nat)
    requires a <= b
    ensures a * d <= b * d
  {
  }

  lemma ModMinus(n: nat, width: nat)
    requires 0 < width <= n
    ensures (n - width) % width == n % width
  {
    var q, r := n / width, n % width;
    assert n == q * width + r;
    assert n - width == (q - 1) * width + r;
    if q == 0 {
      assert false;
    }
    QuotientUnique(n - width, width, q - 1, r);
  }

  lemma MultipleStep(n: nat, m: nat, d: nat)
    requires d > 0 && n % d == 0 && m % d == 0 && n < m
    ensures n + d <= m && (n + d) % d == 0
  {
    var a, b := n / d, m / d;
    assert n == a * d && m == b * d;
    if b <= a {
      MulAtMost(b, a, d);
    }
    MulBelow(a, b, d);
    ModMinus(n + d, d);
  }

  lemma SmallRemainder(n: nat, width: nat)
    requires n < width
    ensures n % width == n
  {
  }
}
