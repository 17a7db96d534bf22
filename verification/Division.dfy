/** Quotients and remainders by a variable divisor, which the solver does not find alone. */
module Division {

  lemma {:induction false} MulMono(a: int, b: int, d: nat)
    requires a <= b
    ensures a * d <= b * d
  {
  }

  lemma {:induction false} MulSplit(a: int, b: int, d: int)
    ensures (a + b) * d == a * d + b * d
  {
  }

  lemma {:induction false} DivEquation(x: nat, d: nat)
    requires d > 0
    ensures x == (x / d) * d + x % d && 0 <= x % d < d
  {
  }

  lemma {:induction false} QuotientNat(x: nat, d: nat)
    requires d > 0
    ensures x / d >= 0
  {
  }

  /** Quotient and remainder are determined by the division equation. */
  lemma {:induction false} DivModUnique(x: nat, d: nat, q: nat, r: nat)
    requires d > 0 && x == q * d + r && r < d
    ensures x / d == q && x % d == r
  {
    var q' := x / d;
    var k := q - q';
    MulSplit(k, q', d);
    if k >= 1 {
      MulMono(1, k, d);
    } else if k <= -1 {
      MulMono(k, -1, d);
    }
    DivEquation(x, d);
  }

  lemma {:induction false} MulMod(q: nat, d: nat)
    requires d > 0
    ensures (q * d) % d == 0 && (q * d) / d == q
  {
    DivModUnique(q * d, d, q, 0);
  }
}
