/** Powers of two, and the few facts about products and quotients that the
    proofs lean on. */
module Arith {

  function Pow2(k: nat): (n: nat)
    ensures n > 0
  {
    if k == 0 then 1 else 2 * Pow2(k - 1)
  }

  lemma {:induction false} MulNonNeg(a: int, b: int)
    requires a >= 0 && b >= 0
    ensures a * b >= 0
  {
  }

  lemma {:induction false} MulSub(a: int, b: int, k: int)
    ensures (a - b) * k == a * k - b * k
  {
  }

  lemma {:induction false} MulAdd(a: int, b: int, k: int)
    ensures (a + b) * k == a * k + b * k
  {
  }

  lemma {:induction false} MulLe(a: int, b: int, k: int)
    requires a <= b && 0 <= k
    ensures a * k <= b * k
  {
    MulNonNeg(b - a, k);
    MulSub(b, a, k);
  }

  lemma {:induction false} MulOrder(a: int, b: int, k: int)
    requires a < b && 0 <= k
    ensures a * k + k <= b * k
  {
    MulLe(a + 1, b, k);
    MulAdd(a, 1, k);
  }

  lemma {:induction false} MulCompare(a: int, b: int, k: int)
    requires k > 0
    ensures a <= b <==> a * k <= b * k
    ensures a < b <==> a * k < b * k
  {
    if a < b { MulOrder(a, b, k); }
    if b < a { MulOrder(b, a, k); }
  }

  lemma {:induction false} MulAssoc(a: int, b: int, c: int)
    ensures (a * b) * c == a * (b * c) == (a * c) * b
  {
  }

  lemma {:induction false} DivModIdentity(n: int, d: int)
    requires d > 0
    ensures n == (n / d) * d + n % d
    ensures 0 <= n % d < d
    ensures n >= 0 ==> n / d >= 0
  {
  }

  lemma {:induction false} DivModUnique(n: int, d: int, q: int, r: int)
    requires d > 0 && n == q * d + r && 0 <= r < d
    ensures n / d == q && n % d == r
  {
    var q', r' := n / d, n % d;
    var p, p' := q * d, q' * d;
    assert n == p' + r' && 0 <= r' < d;
    if q' < q { MulOrder(q', q, d); }
    if q < q' { MulOrder(q, q', d); }
  }

  /** Cancelling a common factor of dividend and divisor. */
  lemma {:induction false} DivModScale(n: int, d: int, k: int)
    requires d > 0 && k > 0
    ensures d * k > 0
    ensures (n * k) / (d * k) == n / d
    ensures (n * k) % (d * k) == (n % d) * k
  {
    var q, r := n / d, n % d;
    MulOrder(0, d, k);
    calc {
      n * k;
      (q * d + r) * k;
      { MulAdd(q * d, r, k); }
      (q * d) * k + r * k;
      { MulAssoc(q, d, k); }
      q * (d * k) + r * k;
    }
    MulCompare(r, d, k);
    MulNonNeg(r, k);
    DivModUnique(n * k, d * k, q, r * k);
  }
}
