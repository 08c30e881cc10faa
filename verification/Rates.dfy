/** Scaled-integer rates, basis-point fees and sums (lib/money.ts). */
module Rates {
  import opened Wrappers
  import opened Arith
  import opened Decimal
  import opened Rounding
  import opened JsText
  import opened Money

  /** The rate `scaled / 10^scale`. */
  datatype Rate = Rate(scaled: int, scale: nat)

  const MAX_RATE_SCALE := 24

  /** A rate given as a decimal string or as an already scaled integer. */
  datatype RateInput = RateText(s: string) | RateScaled(n: int)

  function ParseRate(input: RateInput, scale: int): Result<Rate, MoneyError> {
    if scale < 0 || scale > MAX_RATE_SCALE then Err(BadScale)
    else
      match input
      case RateScaled(n) => Ok(Rate(n, scale))
      case RateText(s) =>
        match ParseMinor(Text(s), scale, Some(HalfEven))
        case Ok(n) => Ok(Rate(n, scale))
        case Err(e) => Err(e)
  }

  function FormatRate(rate: Rate): Result<string, MoneyError> {
    FormatMinor(rate.scaled, rate.scale)
  }

  /** Rates print and read back on the scales the amount parser knows. */
  lemma {:induction false} ParseOfFormatRate(rate: Rate)
    requires rate.scale <= MAX_DECIMALS
    ensures FormatRate(rate).Ok?
    ensures ParseRate(RateText(FormatRate(rate).value), rate.scale) == Ok(rate)
  {
    ParseOfPrint(rate.scaled, rate.scale, Some(HalfEven));
  }

  /** The scales 19 to 24 that `parseRate` itself lets through can never be
      read from text nor printed: text works exactly on 0 to 18. */
  lemma {:induction false} TextRateScales(s: string, scale: int)
    requires Trim(s) != "" && IsDecimal(Trim(s))
    ensures ParseRate(RateText(s), scale).Ok? <==> 0 <= scale <= MAX_DECIMALS
    ensures MAX_DECIMALS < scale <= MAX_RATE_SCALE ==>
              ParseRate(RateText(s), scale) == Err(BadDecimals)
              && forall scaled :: FormatRate(Rate(scaled, scale)) == Err(BadDecimals)
  {
    if 0 <= scale <= MAX_DECIMALS {
      ParseIsExactRounding(Trim(s), scale, HalfEven);
    }
  }

  /** A scale is refused exactly outside 0 to 24; a rate that is given scaled is
      otherwise taken as it is. */
  lemma {:induction false} ScaleRefused(input: RateInput, n: int, scale: int)
    ensures ParseRate(input, scale) == Err(BadScale) <==> !(0 <= scale <= 24)
    ensures 0 <= scale <= 24 ==> ParseRate(RateScaled(n), scale) == Ok(Rate(n, scale))
  {
    if input.RateText? && 0 <= scale <= 24 { NeverBadScale(input.s, scale); }
  }

  lemma {:induction false} NeverBadScale(s: string, scale: int)
    ensures ParseMinor(Text(s), scale, Some(HalfEven)) != Err(BadScale)
  {
    hide Split, Trim, IsDecimal, Rounded, Value, Pow10;
  }

  /** A division by a rate fails exactly when the rate is zero. */
  lemma {:induction false} ZeroRateRefused(amount: int, rate: Rate, mode: Mode, fromDecimals: nat, toDecimals: nat)
    ensures rate.scaled == 0 ==> DivideByRate(amount, rate, mode, fromDecimals, toDecimals) == Err(ZeroRate)
    ensures rate.scaled != 0 ==> DivideByRate(amount, rate, mode, fromDecimals, toDecimals).Ok?
  {
    hide Rounded, Pow10;
    if rate.scaled != 0 { MulOrder(0, Abs(rate.scaled), Pow10(fromDecimals)); }
  }

  /** Rate text is read as its exact value rounded to the scale, half to even. */
  lemma {:induction false} RateIsRounded(s: string, scale: int)
    requires 0 <= scale <= MAX_DECIMALS && IsDecimal(Trim(s))
    ensures ParseRate(RateText(s), scale) == Ok(Rate(ExactlyRounded(Trim(s), scale, HalfEven), scale))
  {
    hide Split, Trim, IsDecimal, Rounded, Pow10, ExactlyRounded;
    DecimalForm(Trim(s));
    ParseIsExactRounding(Trim(s), scale, HalfEven);
  }

  /** The plainest text at the first of those scales. */
  lemma {:induction false} TextRateWitness()
    ensures ParseRate(RateText("1"), 18).Ok?
    ensures ParseRate(RateText("1"), 19) == Err(BadDecimals)
  {
    hide Split, Trim, IsDecimal, Value, Numeral;
    assert IsDecimal("1") && Trim("1") == "1" by {
      NumeralsOfDigits();
      DissectWhole("", "1");
      assert "" + "1" == "1";
      DecimalIsGrammar("1");
      assert HasParts("1", "", "1", "");
      TrimFixed("1");
    }
    TextRateScales("1", 18);
  }

  // ---- applying a rate in either direction ----

  function ApplyRate(amount: int, rate: Rate, mode: Mode, fromDecimals: nat, toDecimals: nat): int {
    var den := Pow10(rate.scale) * Pow10(fromDecimals);
    MulOrder(0, Pow10(rate.scale), Pow10(fromDecimals));
    Rounded(amount * rate.scaled * Pow10(toDecimals), den, mode)
  }

  function DivideByRate(amount: int, rate: Rate, mode: Mode, fromDecimals: nat, toDecimals: nat): Minor {
    if rate.scaled == 0 then Err(ZeroRate)
    else
      var negativeRate := rate.scaled < 0;
      var num := amount * Pow10(rate.scale) * Pow10(toDecimals);
      var den := (if negativeRate then -rate.scaled else rate.scaled) * Pow10(fromDecimals);
      DivRound(if negativeRate then -num else num, den, mode)
  }

  /** The units on both sides of a conversion: `Up` multiplies on the way out,
      `Down` on the way back. */
  function Up(rate: Rate, toDecimals: nat): (k: int)
    requires rate.scaled > 0
    ensures k > 0
  {
    MulOrder(0, rate.scaled, Pow10(toDecimals));
    rate.scaled * Pow10(toDecimals)
  }

  function Down(rate: Rate, fromDecimals: nat): (k: int)
    ensures k > 0
  {
    MulOrder(0, Pow10(rate.scale), Pow10(fromDecimals));
    Pow10(rate.scale) * Pow10(fromDecimals)
  }

  lemma {:induction false} RatesAreQuotients(x: int, rate: Rate, mode: Mode, f: nat, t: nat)
    requires rate.scaled > 0
    ensures ApplyRate(x, rate, mode, f, t) == Rounded(x * Up(rate, t), Down(rate, f), mode)
    ensures DivideByRate(x, rate, mode, t, f) == Ok(Rounded(x * Down(rate, f), Up(rate, t), mode))
  {
    hide Rounded, Pow10;
    MulAssoc(x, rate.scaled, Pow10(t));
    MulAssoc(x, Pow10(rate.scale), Pow10(f));
    var k := Up(rate, t);
  }

  // ---- what a rate means ----

  lemma {:induction false} RealOfProduct(a: int, b: int)
    ensures (a * b) as real == (a as real) * (b as real)
  {
  }

  lemma {:induction false} FloorIsReal(n: int, d: int)
    requires d > 0
    ensures Rounded(n, d, Floor) == (n as real / d as real).Floor
  {
    hide Rounded;
    var q := Rounded(n, d, Floor);
    RoundedMeetsMode(n, d, Floor);
    RealOfProduct(q, d);
    RealQuotient(q as real, n as real, d as real);
  }

  lemma {:induction false} RealQuotient(q: real, n: real, d: real)
    requires d > 0.0 && q * d <= n < q * d + d
    ensures q <= n / d < q + 1.0
  {
    var x := n / d;
    assert x * d == n;
    RealBracket(q, x, d, n, q * d);
  }

  lemma {:induction false} RealBracket(q: real, x: real, d: real, n: real, p: real)
    requires d > 0.0 && x * d == n && q * d == p && p <= n < p + d
    ensures q <= x < q + 1.0
  {
    assert (x - q) * d == n - p;
    assert (x - q - 1.0) * d == n - p - d;
    SignOfProduct(x - q, d);
    SignOfProduct(x - q - 1.0, d);
  }

  lemma {:induction false} SignOfProduct(y: real, d: real)
    requires d > 0.0
    ensures y < 0.0 <==> y * d < 0.0
  {
  }

  /** The amount and the rate as exact numbers. */
  function RealAmount(minor: int, decimals: nat): real {
    minor as real / Pow10(decimals) as real
  }

  function RealRate(rate: Rate): real {
    rate.scaled as real / Pow10(rate.scale) as real
  }

  function Product3(a: real, b: real, c: real): real { a * b * c }

  function Product2(a: real, b: real): real { a * b }

  lemma {:induction false} RealOfProducts(a: int, b: int, c: int, d: int, e: int)
    ensures (a * b * c) as real == Product3(a as real, b as real, c as real)
    ensures (d * e) as real == Product2(d as real, e as real)
  {
    RealOfProduct(d, e);
    RealOfProduct(a, b);
    RealOfProduct(a * b, c);
  }

  /** Applying a rate with floor is the exact product, cut to minor units. */
  lemma {:induction false} ApplyRateIsReal(amount: int, rate: Rate, f: nat, t: nat)
    ensures ApplyRate(amount, rate, Floor, f, t)
         == Product3(RealAmount(amount, f), RealRate(rate), Pow10(t) as real).Floor
  {
    hide Rounded, Pow10, Product2, Product3;
    var c, p, u := Pow10(rate.scale), Pow10(f), Pow10(t);
    MulOrder(0, c, p);
    FloorIsReal(amount * rate.scaled * u, c * p);
    RealOfProducts(amount, rate.scaled, u, c, p);
    RealProduct(amount as real, rate.scaled as real, u as real, c as real, p as real);
  }

  lemma {:induction false} RealProduct(a: real, s: real, u: real, c: real, p: real)
    requires c > 0.0 && p > 0.0
    ensures Product2(c, p) > 0.0
    ensures Product3(a, s, u) / Product2(c, p) == Product3(a / p, s / c, u)
  {
    var x, y := a / p, s / c;
    assert a == x * p && s == y * c;
    var k := c * p;
    assert (x * p) * (y * c) * u == (x * y * u) * k;
    Cancel(x * y * u, k);
  }

  lemma {:induction false} Cancel(x: real, k: real)
    requires k > 0.0
    ensures (x * k) / k == x
  {
  }

  lemma {:induction false} FloorCeilAdjoint(a: int, y: int, p: int, q: int)
    requires p > 0 && q > 0
    ensures Rounded(a * p, q, Floor) >= y <==> a >= Rounded(y * q, p, Ceil)
  {
    hide Rounded;
    var lo, hi := Rounded(a * p, q, Floor), Rounded(y * q, p, Ceil);
    RoundedMeetsMode(a * p, q, Floor);
    RoundedMeetsMode(y * q, p, Ceil);
    if lo >= y { MulLe(y, lo, q); } else { MulOrder(lo, y, q); }
    if a >= hi { MulLe(hi, a, p); } else { MulOrder(a, hi, p); }
  }

  /** The inverse quote is the smallest amount that delivers: converting `a`
      yields at least `y` exactly when `a` reaches the amount `y` divides back
      to, rounded up; and dually for quotes that must not be exceeded. */
  lemma {:induction false} RateGalois(a: int, y: int, rate: Rate, f: nat, t: nat)
    requires rate.scaled > 0
    ensures ApplyRate(a, rate, Floor, f, t) >= y <==> a >= DivideByRate(y, rate, Ceil, t, f).value
    ensures ApplyRate(a, rate, Ceil, f, t) <= y <==> a <= DivideByRate(y, rate, Floor, t, f).value
  {
    hide Rounded, Up, Down, ApplyRate, DivideByRate;
    var p, q := Up(rate, t), Down(rate, f);
    RatesAreQuotients(a, rate, Floor, f, t);
    RatesAreQuotients(a, rate, Ceil, f, t);
    RatesAreQuotients(y, rate, Ceil, f, t);
    RatesAreQuotients(y, rate, Floor, f, t);
    FloorCeilAdjoint(a, y, p, q);
    FloorCeilAdjoint(-a, -y, p, q);
    MulSub(0, a, p);
    MulSub(0, y, q);
    RoundedNegate(a * p, q, Floor);
    RoundedNegate(y * q, p, Ceil);
  }

  /** Out and back with floor never gains, and what is lost is less than one
      unit plus the worth of one unit on the other side. */
  lemma {:induction false} OutAndBack(a: int, rate: Rate, f: nat, t: nat)
    requires rate.scaled > 0
    ensures var back := DivideByRate(ApplyRate(a, rate, Floor, f, t), rate, Floor, t, f).value;
            back <= a && (a - back - 1) * Up(rate, t) < Down(rate, f)
  {
    hide Rounded, Up, Down, ApplyRate, DivideByRate;
    var p, q := Up(rate, t), Down(rate, f);
    RatesAreQuotients(a, rate, Floor, f, t);
    var y := ApplyRate(a, rate, Floor, f, t);
    RatesAreQuotients(y, rate, Floor, f, t);
    var back := DivideByRate(y, rate, Floor, t, f).value;
    RoundedMeetsMode(a * p, q, Floor);
    RoundedMeetsMode(y * q, p, Floor);
    if a < back { MulOrder(a, back, p); }
    MulSub(a, back + 1, p);
    MulAdd(back, 1, p);
    assert a - back - 1 == a - (back + 1);
  }

  /** A rate written at a finer scale is the same rate, in both directions and
      for every sign. */
  lemma {:induction false} RescaledRate(amount: int, rate: Rate, k: nat, mode: Mode, f: nat, t: nat)
    ensures ApplyRate(amount, Rate(rate.scaled * Pow10(k), rate.scale + k), mode, f, t)
         == ApplyRate(amount, rate, mode, f, t)
    ensures DivideByRate(amount, Rate(rate.scaled * Pow10(k), rate.scale + k), mode, f, t)
         == DivideByRate(amount, rate, mode, f, t)
  {
    RescaledApply(amount, rate, k, mode, f, t);
    RescaledDivide(amount, rate, k, mode, f, t);
  }

  lemma {:induction false} RescaledApply(amount: int, rate: Rate, k: nat, mode: Mode, f: nat, t: nat)
    ensures ApplyRate(amount, Rate(rate.scaled * Pow10(k), rate.scale + k), mode, f, t)
         == ApplyRate(amount, rate, mode, f, t)
  {
    hide Rounded, Pow10;
    var s, c, p, u, e := rate.scaled, Pow10(rate.scale), Pow10(f), Pow10(t), Pow10(k);
    MulOrder(0, c, p);
    Pow10Add(rate.scale, k);
    calc {
      amount * (s * e) * u;
      { MulAssoc(amount, s, e); }
      (amount * s) * e * u;
      { MulAssoc(amount * s, e, u); }
      amount * s * u * e;
    }
    MulAssoc(c, e, p);
    RoundedScaleInvariant(amount * s * u, c * p, e, mode);
  }

  lemma {:induction false} RescaledDivide(amount: int, rate: Rate, k: nat, mode: Mode, f: nat, t: nat)
    ensures DivideByRate(amount, Rate(rate.scaled * Pow10(k), rate.scale + k), mode, f, t)
         == DivideByRate(amount, rate, mode, f, t)
  {
    hide Rounded, Pow10;
    var s, c, p, u, e := rate.scaled, Pow10(rate.scale), Pow10(f), Pow10(t), Pow10(k);
    Pow10Add(rate.scale, k);
    MulCompare(s, 0, e);
    MulCompare(0, s, e);
    if s != 0 {
      var d := if s < 0 then -s else s;
      MulOrder(0, d, p);
      MulSub(0, s, e);
      MulAssoc(d, e, p);
      calc {
        amount * (c * e) * u;
        { MulAssoc(amount, c, e); }
        (amount * c) * e * u;
        { MulAssoc(amount * c, e, u); }
        amount * c * u * e;
      }
      var num := amount * c * u;
      MulSub(0, num, e);
      RoundedScaleInvariant(if s < 0 then -num else num, d * p, e, mode);
    }
  }

  /** Dividing by a negative rate is dividing the negated amount. */
  lemma {:induction false} NegativeRate(amount: int, rate: Rate, mode: Mode, f: nat, t: nat)
    requires rate.scaled != 0
    ensures DivideByRate(amount, Rate(-rate.scaled, rate.scale), mode, f, t)
         == DivideByRate(-amount, rate, mode, f, t)
  {
    hide Rounded, Pow10;
    var num := amount * Pow10(rate.scale) * Pow10(t);
    MulSub(0, amount, Pow10(rate.scale));
    MulSub(0, amount * Pow10(rate.scale), Pow10(t));
  }

  // ---- fees ----

  datatype Bps = BpsNumber(number: JsNumber) | BpsInt(n: int)

  const BPS_ONE := 10000

  function ApplyBps(amount: int, bps: Bps, mode: Mode): Minor {
    match bps
    case BpsNumber(NonFinite) => Err(RangeError)
    case BpsNumber(NonInteger) => Err(NotWholeBps)
    case BpsNumber(Whole(n)) => Ok(Fee(amount, n, mode))
    case BpsInt(n) => Ok(Fee(amount, n, mode))
  }

  function Fee(amount: int, bps: int, mode: Mode): int {
    Rounded(amount * bps, BPS_ONE, mode)
  }

  /** Only whole basis points are charged, and the fee is the one integer its
      mode describes for that many ten-thousandths. */
  lemma {:induction false} ApplyBpsCharacterised(amount: int, bps: Bps, mode: Mode, q: int)
    ensures ApplyBps(amount, bps, mode) == Ok(q) <==>
              match bps
              case BpsInt(n) => RoundsTo(amount * n, 100 * 100, mode, q)
              case BpsNumber(Whole(n)) => RoundsTo(amount * n, 100 * 100, mode, q)
              case BpsNumber(_) => false
    ensures ApplyBps(amount, bps, mode) == Err(NotWholeBps) <==> bps == BpsNumber(NonInteger)
    ensures ApplyBps(amount, bps, mode) == Err(RangeError) <==> bps == BpsNumber(NonFinite)
  {
    hide Rounded, RoundsTo;
    match bps {
      case BpsInt(n) => RoundedCharacterised(amount * n, BPS_ONE, mode, q);
      case BpsNumber(Whole(n)) => RoundedCharacterised(amount * n, BPS_ONE, mode, q);
      case BpsNumber(_) =>
    }
  }

  /** A floored fee and the ceiled remainder make up the amount exactly. */
  lemma {:induction false} FeeConservation(amount: int, bps: int)
    ensures Fee(amount, bps, Floor) + Fee(amount, 10000 - bps, Ceil) == amount
  {
    hide Rounded;
    var low := Fee(amount, bps, Floor);
    RoundedMeetsMode(amount * bps, BPS_ONE, Floor);
    MulSub(BPS_ONE, bps, amount);
    assert amount * (BPS_ONE - bps) == amount * BPS_ONE - amount * bps;
    RoundedCharacterised(amount * (BPS_ONE - bps), BPS_ONE, Ceil, amount - low);
  }

  function Sum(values: seq<int>): int {
    if values == [] then 0 else values[0] + Sum(values[1..])
  }

  method SumMinor(values: seq<int>) returns (total: int)
    ensures total == Sum(values)
  {
    total := 0;
    for i := 0 to |values|
      invariant total + Sum(values[i..]) == Sum(values)
    {
      total := total + values[i];
    }
  }

  lemma {:induction false} SumConcat(a: seq<int>, b: seq<int>)
    ensures Sum(a + b) == Sum(a) + Sum(b)
  {
    if a == [] {
      assert a + b == b;
    } else {
      assert (a + b)[1..] == a[1..] + b;
      SumConcat(a[1..], b);
    }
  }

  function Removed(b: seq<int>, k: nat): seq<int>
    requires k < |b|
  {
    b[..k] + b[k + 1..]
  }

  lemma {:induction false} SumMiddle(front: seq<int>, x: int, back: seq<int>)
    ensures Sum(front + ([x] + back)) == x + Sum(front + back)
  {
    SumConcat(front, [x] + back);
    SumConcat(front, back);
    assert ([x] + back)[1..] == back;
  }

  /** Taking one row out of a batch takes its amount out of the total. */
  lemma {:induction false} TakeOut(b: seq<int>, k: nat)
    requires k < |b|
    ensures Sum(b) == b[k] + Sum(Removed(b, k))
  {
    hide Sum;
    SumMiddle(b[..k], b[k], b[k + 1..]);
    assert b == b[..k] + ([b[k]] + b[k + 1..]);
  }

  lemma {:induction false} TakeOutRows(b: seq<int>, k: nat)
    requires k < |b|
    ensures multiset(Removed(b, k)) == multiset(b) - multiset{b[k]}
  {
    assert b == b[..k] + ([b[k]] + b[k + 1..]);
  }

  /** The batch total does not depend on the order its rows arrived in. */
  lemma {:induction false} SumPermutation(a: seq<int>, b: seq<int>)
    requires multiset(a) == multiset(b)
    ensures Sum(a) == Sum(b)
    decreases |a|
  {
    assert |a| == |multiset(a)| == |b|;
    if a == [] {
      assert b == [];
    } else {
      assert a[0] in multiset(a);
      assert a[0] in multiset(b);
      var k :| 0 <= k < |b| && b[k] == a[0];
      TakeOut(a, 0);
      TakeOut(b, k);
      TakeOutRows(a, 0);
      TakeOutRows(b, k);
      assert |Removed(a, 0)| < |a|;
      hide Sum, Removed;
      SumPermutation(Removed(a, 0), Removed(b, k));
    }
  }

  function Fees(rows: seq<int>, bps: int): (fees: seq<int>)
    ensures |fees| == |rows|
  {
    if rows == [] then [] else [Fee(rows[0], bps, Floor)] + Fees(rows[1..], bps)
  }

  /** Charging row by row never exceeds the fee on the batch total, and falls
      short of it by less than one unit a row. */
  lemma {:induction false} BatchFees(rows: seq<int>, bps: int)
    requires rows != []
    ensures 0 <= Fee(Sum(rows), bps, Floor) - Sum(Fees(rows, bps)) <= |rows| - 1
  {
    hide Fee;
    var rest := rows[1..];
    var fees := Fees(rows, bps);
    assert fees[1..] == Fees(rest, bps);
    if rest == [] {
      assert Sum(rows) == rows[0] && Sum(fees) == Fee(rows[0], bps, Floor);
    } else {
      BatchFees(rest, bps);
      FeeOfTwo(rows[0], Sum(rest), bps);
    }
  }

  lemma {:induction false} FeeOfTwo(a: int, b: int, bps: int)
    ensures 0 <= Fee(a + b, bps, Floor) - (Fee(a, bps, Floor) + Fee(b, bps, Floor)) <= 1
  {
    hide Rounded;
    MulAdd(a, b, bps);
    RoundedMeetsMode(a * bps, BPS_ONE, Floor);
    RoundedMeetsMode(b * bps, BPS_ONE, Floor);
    RoundedMeetsMode((a + b) * bps, BPS_ONE, Floor);
  }
}
