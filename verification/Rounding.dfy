/** Division with an explicit rounding mode (lib/money.ts, `divRound`). */
module Rounding {
  import opened Arith

  datatype Mode = Trunc | Floor | Ceil | HalfUp | HalfEven

  function Abs(x: int): nat {
    if x < 0 then -x else x
  }

  /** Whether a non-zero remainder moves the magnitude up by one. */
  predicate RoundsUp(q: int, r: int, den: int, negative: bool, mode: Mode) {
    match mode
    case Trunc => false
    case Floor => negative
    case Ceil => !negative
    case HalfUp => r * 2 >= den
    case HalfEven => if r * 2 > den then true else if r * 2 < den then false else q % 2 == 1
  }

  /** The rounded magnitude, from quotient and remainder of the magnitudes. */
  function Magnitude(q: int, r: int, den: int, negative: bool, mode: Mode): int {
    if r != 0 && RoundsUp(q, r, den, negative, mode) then q + 1 else q
  }

  /** The quotient of `num` by a positive `den`, computed on the magnitude with
      the sign put back afterwards. */
  function Rounded(num: int, den: int, mode: Mode): int
    requires den > 0
  {
    var negative := num < 0;
    var magnitude := Magnitude(Abs(num) / den, Abs(num) % den, den, negative, mode);
    if negative then -magnitude else magnitude
  }

  /** What each mode promises about its result, without saying how it is found:
      the bracketing of `num` for the directed modes, the nearest multiple and
      its tie rule for the other two. */
  predicate RoundsTo(num: int, den: int, mode: Mode, q: int)
    requires den > 0
  {
    Meets(num, den, mode, q, q * den)
  }

  /** `RoundsTo` with the product `p == q * den` given. */
  predicate Meets(num: int, den: int, mode: Mode, q: int, p: int) {
    match mode
    case Floor => p <= num < p + den
    case Ceil => p - den < num <= p
    case Trunc => if num >= 0 then p <= num < p + den && q >= 0 else p - den < num <= p && q <= 0
    case HalfUp => 2 * Abs(num - p) <= den && (2 * Abs(num - p) == den ==> Abs(p) > Abs(num))
    case HalfEven => 2 * Abs(num - p) <= den && (2 * Abs(num - p) == den ==> q % 2 == 0)
  }

  /** Rounding direction seen from the other side of zero. */
  function Mirror(mode: Mode): Mode {
    match mode
    case Floor => Ceil
    case Ceil => Floor
    case _ => mode
  }

  lemma {:induction false} RoundedMeetsMode(num: int, den: int, mode: Mode)
    requires den > 0
    ensures RoundsTo(num, den, mode, Rounded(num, den, mode))
  {
    DivModIdentity(Abs(num), den);
    QuotientMeetsMode(num, den, mode, Abs(num) / den, Abs(num) % den);
  }

  lemma {:induction false} QuotientMeetsMode(num: int, den: int, mode: Mode, q: int, r: int)
    requires den > 0 && q >= 0 && 0 <= r < den && Abs(num) == q * den + r
    ensures var m := Magnitude(q, r, den, num < 0, mode);
            RoundsTo(num, den, mode, if num < 0 then -m else m)
  {
    var m := Magnitude(q, r, den, num < 0, mode);
    MulNonNeg(q, den);
    MulAdd(q, 1, den);
    MulSub(0, m, den);
    MagnitudeMeetsMode(num, den, mode, q, r, q * den, m, m * den);
  }

  /** The case analysis of `Rounded`, with the products named so that only
      linear facts are left. */
  lemma {:induction false} MagnitudeMeetsMode(num: int, den: int, mode: Mode, q: int, r: int, p: int, m: int, pm: int)
    requires den > 0 && q >= 0 && p >= 0 && 0 <= r < den && Abs(num) == p + r
    requires m == Magnitude(q, r, den, num < 0, mode)
    requires pm == if m == q then p else p + den
    ensures if num < 0 then Meets(num, den, mode, -m, -pm) else Meets(num, den, mode, m, pm)
  {
  }

  lemma {:induction false} RoundsToUnique(num: int, den: int, mode: Mode, a: int, b: int)
    requires den > 0
    requires RoundsTo(num, den, mode, a) && RoundsTo(num, den, mode, b)
    ensures a == b
  {
    if a < b {
      NotBoth(num, den, mode, a, b);
    } else if b < a {
      NotBoth(num, den, mode, b, a);
    }
  }

  lemma {:induction false} NotBoth(num: int, den: int, mode: Mode, a: int, b: int)
    requires den > 0 && a < b
    requires RoundsTo(num, den, mode, a)
    ensures !RoundsTo(num, den, mode, b)
  {
    var p, p' := a * den, b * den;
    MulOrder(a, b, den);
    if a + 1 < b {
      MulOrder(a + 1, b, den);
      MulAdd(a, 1, den);
    } else {
      MulAdd(a, 1, den);
      if a >= 0 { MulNonNeg(a, den); } else { MulLe(b, 0, den); }
      TieRule(num, den, mode, a, b, p, p');
    }
  }

  /** Of two neighbours, at most one meets the mode; a tie decides by its rule. */
  lemma {:induction false} TieRule(num: int, den: int, mode: Mode, a: int, b: int, p: int, p': int)
    requires den > 0 && b == a + 1 && p' == p + den
    requires a >= 0 ==> p >= 0
    requires a < 0 ==> p' <= 0
    ensures !(Meets(num, den, mode, a, p) && Meets(num, den, mode, b, p'))
  {
  }

  /** `divRound` is the one integer its mode describes, and nothing else is. */
  lemma {:induction false} RoundedCharacterised(num: int, den: int, mode: Mode, q: int)
    requires den > 0
    ensures Rounded(num, den, mode) == q <==> RoundsTo(num, den, mode, q)
  {
    RoundedMeetsMode(num, den, mode);
    if RoundsTo(num, den, mode, q) {
      RoundsToUnique(num, den, mode, q, Rounded(num, den, mode));
    }
  }

  /** A larger amount never rounds to a smaller result. */
  lemma {:induction false} RoundedMonotone(m: int, n: int, den: int, mode: Mode)
    requires den > 0 && m <= n
    ensures Rounded(m, den, mode) <= Rounded(n, den, mode)
  {
    var a, b := Rounded(m, den, mode), Rounded(n, den, mode);
    RoundedMeetsMode(m, den, mode);
    RoundedMeetsMode(n, den, mode);
    MulCompare(a, 0, den);
    MulCompare(b, 0, den);
    if m < n {
      NotCrossed(m, n, den, mode, a, b, a * den, b * den);
      if b < a { MulOrder(b, a, den); }
    }
  }

  lemma {:induction false} NotCrossed(m: int, n: int, den: int, mode: Mode, a: int, b: int, p: int, p': int)
    requires den > 0 && m < n
    requires a <= 0 ==> p <= 0
    requires b >= 0 ==> p' >= 0
    requires Meets(m, den, mode, a, p) && Meets(n, den, mode, b, p')
    ensures p < p' + den
  {
  }

  /** Only the ratio counts: a common positive factor changes nothing. */
  lemma {:induction false} RoundedScaleInvariant(num: int, den: int, k: int, mode: Mode)
    requires den > 0 && k > 0
    ensures den * k > 0
    ensures Rounded(num * k, den * k, mode) == Rounded(num, den, mode)
  {
    var q, r := Abs(num) / den, Abs(num) % den;
    DivModScale(Abs(num), den, k);
    MulCompare(num, 0, k);
    MulSub(0, num, k);
    assert Abs(num * k) == Abs(num) * k;
    MulCompare(0, r, k);
    MulCompare(r * 2, den, k);
    MulCompare(den, r * 2, k);
    MulAssoc(r, 2, k);
  }

  /** Negating the numerator negates the result and swaps floor with ceil. */
  lemma {:induction false} RoundedNegate(num: int, den: int, mode: Mode)
    requires den > 0
    ensures Rounded(-num, den, mode) == -Rounded(num, den, Mirror(mode))
  {
    assert Abs(-num) == Abs(num);
    if num == 0 { DivModUnique(0, den, 0, 0); }
  }

  /** Exact division ignores the mode. */
  lemma {:induction false} RoundedExact(q: int, den: int, mode: Mode)
    requires den > 0
    ensures Rounded(q * den, den, mode) == q
  {
    MulCompare(q, 0, den);
    RoundedCharacterised(q * den, den, mode, q);
  }
}
