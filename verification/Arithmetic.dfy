/** Facts about products and floored quotients, proved once so that solvers need not search for them. */
module Arithmetic {

  function Quot(n: nat, d: nat): nat
    requires d > 0
  {
    n / d
  }

  function Rem(n: nat, d: nat): nat
    requires d > 0
  {
    n % d
  }

  lemma QuotRem(n: nat, d: nat)
    requires d > 0
    ensures n == Quot(n, d) * d + Rem(n, d) && Rem(n, d) < d
  {
  }

  lemma Distribute(a: int, b: int, c: int)
    ensures (a + b) * c == a * c + b * c
  {
  }

  lemma Associate(a: int, b: int, c: int)
    ensures a * b * c == a * (b * c)
  {
  }

  lemma MulMono(x: nat, y: nat, k: nat)
    requires x <= y
    ensures x * k <= y * k
  {
    Distribute(x, y - x, k);
  }

  /** Quotient and remainder are the only pair that recomposes the dividend. */
  lemma QuotUnique(n: nat, d: nat, q: nat, r: nat)
    requires d > 0 && n == q * d + r && r < d
    ensures Quot(n, d) == q && Rem(n, d) == r
  {
    hide Quot, Rem;
    QuotRem(n, d);
    var p := Quot(n, d);
    if p < q {
      Distribute(p + 1, q - p - 1, d);
      Distribute(p, 1, d);
    } else if q < p {
      Distribute(q + 1, p - q - 1, d);
      Distribute(q, 1, d);
    }
  }

  /** The floored quotient is at least q exactly when the dividend is at least q divisors. */
  lemma QuotAtLeast(n: nat, d: nat, q: nat)
    requires d > 0
    ensures q <= Quot(n, d) <==> q * d <= n
  {
    hide Quot, Rem;
    QuotRem(n, d);
    var p := Quot(n, d);
    if q <= p {
      MulMono(q, p, d);
    } else {
      MulMono(p + 1, q, d);
      Distribute(p, 1, d);
    }
  }

  /** One more digit: ten times the quotient so far, plus the next digit. */
  lemma NextDigit(n: nat, d: nat)
    requires d > 0
    ensures Quot(Rem(n, d) * 10, d) < 10
    ensures Quot(10 * n, d) == 10 * Quot(n, d) + Quot(Rem(n, d) * 10, d)
    ensures Rem(10 * n, d) == Rem(Rem(n, d) * 10, d)
  {
    hide Quot, Rem;
    QuotRem(n, d);
    var q, r := Quot(n, d), Rem(n, d);
    QuotRem(r * 10, d);
    var digit, next := Quot(r * 10, d), Rem(r * 10, d);
    Associate(10, q, d);
    Distribute(10 * q, digit, d);
    QuotUnique(10 * n, d, 10 * q + digit, next);
    if digit >= 10 {
      MulMono(10, digit, d);
    }
  }

  /** A ratio that is no smaller has a floored quotient that is no smaller. */
  lemma QuotMonotone(n: nat, d: nat, n': nat, d': nat)
    requires d > 0 && d' > 0 && n * d' <= n' * d
    ensures Quot(n, d) <= Quot(n', d')
  {
    hide Quot, Rem;
    var q := Quot(n, d);
    QuotAtLeast(n, d, q);
    MulMono(q * d, n, d');
    Associate(q, d, d');
    Associate(q, d', d);
    if n' < q * d' {
      assert n' * d < q * d' * d by {
        MulMono(n' + 1, q * d', d);
        Distribute(n', 1, d);
      }
    }
    QuotAtLeast(n', d', q);
  }
}
