/** Laws of products and quotients, each small enough for the solver to see at once. */
module Arithmetic {

  function Min(a: int, b: int): int {
    if a < b then a else b
  }

  function Max(a: int, b: int): int {
    if a > b then a else b
  }

  lemma MulOrder(a: int, b: int, p: nat)
    ensures a <= b ==> a * p <= b * p
  {
  }

  lemma Distribute(a: int, b: int, p: int)
    ensures (a + b) * p == a * p + b * p
    ensures p * (a + b) == p * a + p * b
  {
  }

  lemma Associate(a: int, b: int, c: int)
    ensures a * b * c == a * (b * c)
  {
  }

  lemma Division(n: int, p: nat)
    requires p > 0
    ensures n == (n / p) * p + n % p && 0 <= n % p < p
  {
  }

  /** Only one quotient and one remainder fit. */
  lemma QuotientUnique(n: int, p: nat, d: int, r: int)
    requires 0 <= r < p && n == d * p + r
    ensures n / p == d && n % p == r
  {
    var q := n / p;
    Division(n, p);
    if q < d {
      MulOrder(q + 1, d, p);
      Distribute(q, 1, p);
    } else if d < q {
      MulOrder(d + 1, q, p);
      Distribute(d, 1, p);
    }
  }

  lemma QuotientBetween(x: int, y: int, n: int, p: nat)
    requires p > 0 && x * p <= n <= y * p
    ensures x <= n / p <= y
  {
    var q := n / p;
    Division(n, p);
    if q < x {
      MulOrder(q + 1, x, p);
      Distribute(q, 1, p);
    } else if y < q {
      MulOrder(y + 1, q, p);
      Distribute(y, 1, p);
    }
  }

  /** A quotient is below `b` exactly if the dividend is below `b` times the divisor. */
  lemma QuotientBelow(n: int, p: nat, b: int)
    requires p > 0
    ensures n / p < b <==> n < b * p
  {
    var q := n / p;
    Division(n, p);
    if q < b {
      MulOrder(q + 1, b, p);
      Distribute(q, 1, p);
    } else {
      MulOrder(b, q, p);
    }
  }

  lemma QuotientOfProduct(q: int, p: nat)
    requires p > 0
    ensures (q * p) / p == q && (q * p) % p == 0
  {
    QuotientUnique(q * p, p, q, 0);
  }

  lemma WrapsAround(a: int, q: int, p: nat)
    requires p > 0
    ensures (a + q * p) % p == a % p
  {
    Division(a, p);
    Distribute(a / p, q, p);
    QuotientUnique(a + q * p, p, a / p + q, a % p);
  }

  /** A remainder by a multiple of `p` has the same remainder by `p`. */
  lemma CoarserRemainder(a: nat, p: nat, m: nat)
    requires p > 0 && m > 0
    ensures p * m > 0 && 0 <= a % (p * m) && (a % (p * m)) % p == a % p
  {
    MulOrder(1, m, p);
    Division(a, p * m);
    Associate(a / (p * m), m, p);
    assert p * m == m * p;
    WrapsAround(a % (p * m), a / (p * m) * m, p);
  }

  /** Sums keep a congruence. */
  lemma SumCongruent(a: int, b: int, k: int, p: nat)
    requires p > 0 && a % p == b % p
    ensures (a + k) % p == (b + k) % p
  {
    Division(a, p);
    Division(b, p);
    Distribute(a / p - b / p, b / p, p);
    WrapsAround(b + k, a / p - b / p, p);
  }

  /** Dividing by two or more makes a positive number smaller, by one or more never larger. */
  lemma QuotientShrinks(n: nat, p: nat)
    requires p > 0
    ensures 0 <= n / p <= n
    ensures p > 1 && n > 0 ==> n / p < n
    ensures n >= p ==> 0 < n / p
  {
    var q := n / p;
    Division(n, p);
    if q < 0 {
      MulOrder(q + 1, 0, p);
      Distribute(q, 1, p);
    } else if p > 1 {
      MulOrder(2, p, q);
    } else {
      assert q * 1 == q;
    }
    if q == 0 {
      assert 0 * p == 0;
    }
  }
}
