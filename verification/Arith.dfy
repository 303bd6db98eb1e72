// Integer division as C does it, and the facts about products and quotients that
// the other modules' proofs are built from.
module Arith {
  // C's signed division truncates towards zero.
  function TruncDiv(n: int, d: int): int
    requires d > 0
  {
    if n >= 0 then n / d else -(-n / d)
  }

  function TruncMod(n: int, d: int): int
    requires d > 0
  {
    n - d * TruncDiv(n, d)
  }

  function Abs(x: int): nat { if x < 0 then -x else x }

  lemma Quotient(b: int, n: int)
    requires 0 < n
    ensures n * (b / n) <= b < n * (b / n) + n
    ensures 0 <= b ==> 0 <= b / n
  {
  }

  lemma Scaled(n: nat, k: int)
    ensures k >= 1 ==> n * k >= n
    ensures k <= -1 ==> n * k <= -(n as int)
    ensures k == 0 ==> n * k == 0
  {
  }

  lemma Plus(n: int, u: int, v: int)
    ensures n * (u + v) == n * u + n * v
  {
  }

  lemma Minus(n: int, u: int, v: int)
    ensures n * (u - v) == n * u - n * v
  {
  }

  lemma Times(n: nat, u: int, v: int)
    requires u <= v
    ensures n * u <= n * v
  {
  }

  lemma NatProduct(a: nat, b: nat)
    ensures b * a >= 0
  {
  }

  lemma PositiveSquare(d: int)
    ensures d * d >= 0 && (d * d == 0 <==> d == 0)
  {
  }

  lemma Squares(a: nat, b: nat)
    requires a <= b
    ensures a * a <= b * b
  {
    assert a * a <= a * b <= b * b;
  }

  lemma Cancel(n: nat, u: int, v: int)
    requires 0 < n && n * u <= n * v
    ensures u <= v
  {
    Minus(n, u, v);
    Scaled(n, u - v);
  }

  lemma Divided(n: nat, u: int, q: int)
    requires 0 < n && n * u <= q
    ensures u <= q / n
  {
    Quotient(q, n);
    Minus(n, u, q / n);
    Scaled(n, u - q / n);
  }

  lemma QuotientRises(a: int, b: int, d: nat)
    requires a <= b && 0 < d
    ensures a / d <= b / d
  {
    Quotient(a, d);
    Divided(d, a / d, b);
  }

  lemma WholeQuotient(n: int, d: nat)
    requires 0 < d
    ensures n * d / d == n
  {
    Quotient(n * d, d);
    Divided(d, n, n * d);
    Cancel(d, n * d / d, n);
  }

  // The quotient and the remainder are what one takes apart.
  lemma QuotientIs(n: int, d: int, q: int, r: int)
    requires d > 0 && 0 <= r < d && n == d * q + r
    ensures n / d == q && n % d == r
  {
    var m := n / d;
    assert n == d * m + n % d;
    Minus(d, q, m);
    Scaled(d, q - m);
  }

  // The quotient of the next number.
  lemma QuotientStep(n: int, d: int)
    requires d > 0
    ensures (n + 1) / d == n / d + if (n + 1) % d == 0 then 1 else 0
  {
    var q, r := n / d, n % d;
    assert n == d * q + r;
    if r + 1 < d {
      QuotientIs(n + 1, d, q, r + 1);
    } else {
      Plus(d, q, 1);
      QuotientIs(n + 1, d, q + 1, 0);
    }
  }

  lemma TruncatedNat(q: nat, n: nat)
    requires 0 < n
    ensures TruncDiv(q, n) == q / n
  {
  }

  lemma Truncated(n: int, d: nat)
    requires 0 < d
    ensures var q := TruncDiv(n, d);
            if n >= 0 then 0 <= q && d * q <= n < d * (q + 1) else q <= 0 && d * (q - 1) < n <= d * q
  {
    var m := Abs(n);
    Quotient(m, d);
    Plus(d, m / d, 1);
    if n < 0 {
      Minus(d, 0, m / d);
      Minus(d, -(m / d), 1);
    }
  }

  lemma TruncationRises(a: int, b: int, d: nat)
    requires a <= b && 0 < d
    ensures TruncDiv(a, d) <= TruncDiv(b, d)
  {
    if a >= 0 { QuotientRises(a, b, d); }
    else if b < 0 { QuotientRises(-b, -a, d); }
    else { Quotient(-a, d); Quotient(b, d); }
  }
}
