/** Facts about products, quotients and remainders that the solver needs one at a time. */
module Arithmetic {

  lemma MulAtLeast(x: int, m: nat)
    requires x >= 1
    ensures x * m >= m
  {
  }

  lemma Distribute(x: int, y: int, m: int)
    ensures (x + y) * m == x * m + y * m
    ensures (x - y) * m == x * m - y * m
  {
  }

  lemma Associate(x: int, y: int, z: int)
    ensures x * (y * z) == (x * y) * z
  {
  }

  lemma QuotientRemainder(a: nat, m: nat)
    requires m > 0
    ensures a == (a / m) * m + a % m && a / m >= 0 && 0 <= a % m < m
  {
  }

  /** Quotient and remainder are the only pair that splits `a`. */
  lemma DivModUnique(a: nat, q: int, r: int, m: nat)
    requires 0 <= r < m
    requires a == q * m + r
    ensures a / m == q && a % m == r
  {
    QuotientRemainder(a, m);
    var q', r' := a / m, a % m;
    if q' > q {
      Distribute(q', q, m);
      MulAtLeast(q' - q, m);
    } else if q' < q {
      Distribute(q, q', m);
      MulAtLeast(q - q', m);
    }
  }

  lemma MultipleMod(q: nat, m: nat)
    requires m > 0
    ensures (q * m) % m == 0 && (q * m) / m == q
  {
    DivModUnique(q * m, q, 0, m);
  }

  /** Adding a multiple of the modulus keeps the remainder. */
  lemma ModOfCongruent(a: nat, b: nat, q: int, m: nat)
    requires m > 0 && a == b + q * m
    ensures a % m == b % m
  {
    QuotientRemainder(b, m);
    Distribute(b / m, q, m);
    DivModUnique(a, b / m + q, b % m, m);
  }

  lemma SmallMod(x: nat, m: nat)
    requires x < m
    ensures x % m == x && x / m == 0
  {
    DivModUnique(x, 0, x, m);
  }

  lemma SelfMod(m: nat)
    requires m > 0
    ensures m % m == 0
  {
    DivModUnique(m, 1, 0, m);
  }
}
