/** How printed amounts compare as strings (lib/money.ts, `formatMinor`). */
module MoneyOrder {
  import opened Arith
  import opened Decimal
  import opened Rounding
  import opened JsText
  import opened Money

  lemma {:induction false} LexConcat(a: string, b: string, c: string, d: string)
    requires |a| == |b|
    ensures LexLess(a + c, b + d) <==> LexLess(a, b) || (a == b && LexLess(c, d))
  {
    if a == "" {
      assert a + c == c && b + d == d;
    } else {
      LexConcat(a[1..], b[1..], c, d);
      assert (a + c)[1..] == a[1..] + c && (b + d)[1..] == b[1..] + d;
      assert a == [a[0]] + a[1..] && b == [b[0]] + b[1..];
    }
  }

  lemma {:induction false} LexTotal(a: string, b: string)
    requires a != b
    ensures LexLess(a, b) <==> !LexLess(b, a)
  {
    if a != "" && b != "" && a[0] == b[0] {
      assert a == [a[0]] + a[1..] && b == [b[0]] + b[1..];
      LexTotal(a[1..], b[1..]);
    }
  }

  /** Digit strings of one length compare as numbers. */
  lemma {:induction false} LexDigits(a: string, b: string)
    requires AllDigits(a) && AllDigits(b) && |a| == |b|
    ensures LexLess(a, b) <==> Value(a) < Value(b)
  {
    if a != "" {
      var n := |a| - 1;
      LexDigits(a[..n], b[..n]);
      LexConcat(a[..n], b[..n], a[n..], b[n..]);
      assert a == a[..n] + a[n..] && b == b[..n] + b[n..];
      if Value(a[..n]) == Value(b[..n]) { ValueInjective(a[..n], b[..n]); }
      assert a[n] < b[n] <==> DigitValue(a[n]) < DigitValue(b[n]);
    }
  }

  /** The whole part of the smaller amount against as many leading digits of
      the whole part of the larger one. */
  predicate LinesUp(small: nat, large: nat, decimals: nat)
    requires small <= large
  {
    DivModIdentity(small, Pow10(decimals));
    DivModIdentity(large, Pow10(decimals));
    var a, b := small / Pow10(decimals), large / Pow10(decimals);
    a <= LeadingDigits(b, |Numeral(a)|)
  }

  /** The first `n` digits of a number that has at least that many. */
  function LeadingDigits(b: int, n: nat): int
    requires b >= 0
  {
    if n <= |Numeral(b)| then b / Pow10(|Numeral(b)| - n) else b
  }

  lemma {:induction false} LongerNumeral(a: nat, b: nat)
    requires a <= b
    ensures |Numeral(a)| <= |Numeral(b)|
  {
    ValueNumeral(b);
    ValueBound(Numeral(b));
    NumeralLength(a, |Numeral(b)|);
  }

  /** Comparing whole parts followed by texts that start below every digit. */
  lemma {:induction false} LexWholeParts(a: nat, b: nat, x: string, y: string)
    requires a < b
    requires x == "" || x[0] == '.'
    ensures LexLess(Numeral(a) + x, Numeral(b) + y) <==> a <= LeadingDigits(b, |Numeral(a)|)
  {
    hide Value, Numeral, Pow10, LexLess;
    var s, t := Numeral(a), Numeral(b);
    LongerNumeral(a, b);
    var p, rest := t[..|s|], t[|s|..];
    assert t == p + rest;
    assert rest == "" ==> t == p;
    ValueCut(p, rest);
    ValueNumeral(a);
    ValueNumeral(b);
    LexDigits(s, p);
    LexConcat(s, p, x, rest + y);
    assert p + (rest + y) == t + y;
    if s == p {
      DotBeforeDigit(x, rest + y);
    } else if Value(s) == Value(p) {
      ValueInjective(s, p);
    }
  }

  lemma {:induction false} DotBeforeDigit(x: string, y: string)
    requires x == "" || x[0] == '.'
    requires y != "" && IsDigit(y[0])
    ensures LexLess(x, y)
  {
  }

  lemma {:induction false} PlacedOrder(a: nat, x: nat, b: nat, y: nat, decimals: nat)
    requires x < Pow10(decimals) && y < Pow10(decimals)
    requires a < b || (a == b && x < y)
    ensures LexLess(Placed("", a, x, decimals), Placed("", b, y, decimals))
       <==> a <= LeadingDigits(b, |Numeral(a)|)
  {
    hide *;
    PlacedText(a, x, decimals);
    PlacedText(b, y, decimals);
    Pow10Zero();
    if a < b {
      LexWholeParts(a, b, Fraction(x, decimals), Fraction(y, decimals));
    } else {
      AllLeadingDigits(a);
      LexFractions(Numeral(a), x, y, decimals);
    }
  }

  /** The point and the padded fraction, or nothing. */
  function Fraction(frac: nat, decimals: nat): string {
    if decimals == 0 then "" else "." + PadStart(Numeral(frac), decimals)
  }

  lemma {:induction false} PlacedText(whole: nat, frac: nat, decimals: nat)
    ensures Placed("", whole, frac, decimals) == Numeral(whole) + Fraction(frac, decimals)
    ensures Fraction(frac, decimals) == "" || Fraction(frac, decimals)[0] == '.'
  {
    hide Numeral, PadStart;
    var w, f := Numeral(whole), PadStart(Numeral(frac), decimals);
    assert "" + w == w && w + "" == w && w + "." + f == w + ("." + f);
  }

  lemma {:induction false} LexFractions(whole: string, x: nat, y: nat, decimals: nat)
    requires 0 < decimals && x < Pow10(decimals) && y < Pow10(decimals)
    ensures LexLess(whole + Fraction(x, decimals), whole + Fraction(y, decimals)) <==> x < y
  {
    hide LexLess, Value, Numeral, Pow10, PadStart;
    var s, t := PadStart(Numeral(x), decimals), PadStart(Numeral(y), decimals);
    PlacedReads("", 0, x, decimals);
    PlacedReads("", 0, y, decimals);
    LexConcat(whole, whole, "." + s, "." + t);
    LexConcat(".", ".", s, t);
    LexDigits(s, t);
    LexIrreflexive(whole);
    LexIrreflexive(".");
  }

  lemma {:induction false} Pow10Zero()
    ensures Pow10(0) == 1
  {
  }

  lemma {:induction false} AllLeadingDigits(a: nat)
    ensures LeadingDigits(a, |Numeral(a)|) == a
  {
  }

  lemma {:induction false} UnsignedOrder(m: nat, n: nat, decimals: nat)
    requires m < n
    ensures LexLess(Printed(m, decimals), Printed(n, decimals)) <==> LinesUp(m, n, decimals)
  {
    hide Placed, LexLess, Pow10, Numeral, LeadingDigits;
    var unit := Pow10(decimals);
    DivModIdentity(m, unit);
    DivModIdentity(n, unit);
    if n / unit < m / unit { MulOrder(n / unit, m / unit, unit); }
    PlacedOrder(m / unit, m % unit, n / unit, n % unit, decimals);
  }

  /** A minus sign sorts before every digit and otherwise leaves the order of
      the magnitudes. */
  lemma {:induction false} SignOrder(m: int, n: int, decimals: nat)
    requires m < 0
    ensures n >= 0 ==> LexLess(Printed(m, decimals), Printed(n, decimals))
    ensures n < 0 ==>
              (LexLess(Printed(m, decimals), Printed(n, decimals))
               <==> LexLess(Printed(-m, decimals), Printed(-n, decimals)))
  {
    hide Pow10, Numeral, PadStart;
    PrintedBody(m, decimals);
    PrintedBody(n, decimals);
    if n < 0 {
      LexConcat("-", "-", Printed(-m, decimals), Printed(-n, decimals));
    }
  }

  lemma {:induction false} PrintedBody(n: int, decimals: nat)
    ensures n >= 0 ==> Printed(n, decimals) != "" && IsDigit(Printed(n, decimals)[0])
    ensures n < 0 ==> Printed(n, decimals) == "-" + Printed(-n, decimals)
  {
    hide Pow10, Numeral, PadStart;
    var unit := Pow10(decimals);
    DivModIdentity(Abs(n), unit);
    var w, f := Abs(n) / unit, Abs(n) % unit;
    assert Abs(-n) == Abs(n);
    if decimals > 0 {
      assert "-" + Numeral(w) + "." + PadStart(Numeral(f), decimals)
          == "-" + (Numeral(w) + "." + PadStart(Numeral(f), decimals));
      assert "" + Numeral(w) == Numeral(w);
    } else {
      assert "" + Numeral(w) == Numeral(w);
    }
  }

  /** Exactly when two printed amounts sort like the amounts themselves: the
      signs differ, or the smaller magnitude's whole part does not exceed the
      leading digits of the larger one's (both negative: precisely when it does). */
  lemma {:induction false} StringOrder(m: int, n: int, decimals: nat)
    requires m < n
    ensures LexLess(Printed(m, decimals), Printed(n, decimals)) <==>
            if m >= 0 then LinesUp(m, n, decimals)
            else n >= 0 || !LinesUp(-n, -m, decimals)
  {
    hide Printed, LinesUp, LexLess;
    if m >= 0 {
      UnsignedOrder(m, n, decimals);
    } else {
      SignOrder(m, n, decimals);
      if n < 0 {
        UnsignedOrder(-n, -m, decimals);
        PrintedInjective(-m, -n, decimals);
        LexTotal(Printed(-m, decimals), Printed(-n, decimals));
      }
    }
  }

  lemma {:induction false} PrintedInjective(m: int, n: int, decimals: nat)
    ensures Printed(m, decimals) == Printed(n, decimals) ==> m == n
  {
    hide Pow10, Numeral, PadStart, Value, Placed;
    var unit := Pow10(decimals);
    DivModIdentity(Abs(m), unit);
    DivModIdentity(Abs(n), unit);
    PlacedReads(if m < 0 then "-" else "", Abs(m) / unit, Abs(m) % unit, decimals);
    PlacedReads(if n < 0 then "-" else "", Abs(n) / unit, Abs(n) % unit, decimals);
    ValueNumeral(Abs(m) / unit);
    ValueNumeral(Abs(n) / unit);
  }

  /** Non-negative amounts printed at the same length compare as strings. */
  lemma {:induction false} EqualLengthOrder(m: nat, n: nat, decimals: nat)
    requires |Printed(m, decimals)| == |Printed(n, decimals)|
    ensures LexLess(Printed(m, decimals), Printed(n, decimals)) <==> m < n
  {
    if m < n {
      StringOrder(m, n, decimals);
      SameLengthLinesUp(m, n, decimals);
    } else if n < m {
      StringOrder(n, m, decimals);
      SameLengthLinesUp(n, m, decimals);
      PrintedInjective(m, n, decimals);
      LexTotal(Printed(m, decimals), Printed(n, decimals));
    } else {
      LexIrreflexive(Printed(m, decimals));
    }
  }

  lemma {:induction false} LexIrreflexive(s: string)
    ensures !LexLess(s, s)
  {
    if s != "" { LexIrreflexive(s[1..]); }
  }

  lemma {:induction false} PrintedLength(n: nat, decimals: nat)
    ensures n / Pow10(decimals) >= 0
    ensures |Printed(n, decimals)|
         == |Numeral(n / Pow10(decimals))| + (if decimals == 0 then 0 else decimals + 1)
  {
    hide Pow10, Numeral, Value, PadStart;
    var unit := Pow10(decimals);
    DivModIdentity(n, unit);
    if decimals > 0 { NumeralLength(n % unit, decimals); }
    PaddedLength(Numeral(n % unit), decimals);
  }

  lemma {:induction false} PaddedLength(s: string, n: nat)
    ensures |s| <= n ==> |PadStart(s, n)| == n
  {
  }

  lemma {:induction false} QuotientMonotone(m: int, n: int, d: int)
    requires d > 0 && m <= n
    ensures m / d <= n / d
  {
    DivModIdentity(m, d);
    DivModIdentity(n, d);
    if n / d < m / d { MulOrder(n / d, m / d, d); }
  }

  lemma {:induction false} SameLengthLinesUp(m: nat, n: nat, decimals: nat)
    requires m <= n && |Printed(m, decimals)| == |Printed(n, decimals)|
    ensures LinesUp(m, n, decimals)
  {
    hide Pow10, Numeral, LeadingDigits, Printed;
    PrintedLength(m, decimals);
    PrintedLength(n, decimals);
    QuotientMonotone(m, n, Pow10(decimals));
    AllLeadingDigits(n / Pow10(decimals));
  }

  /** 9.00 is less than 10.00, but its string is not. */
  lemma {:induction false} StringOrderWitness()
    ensures !LexLess(Printed(900, 2), Printed(1000, 2))
  {
    assert Pow10(2) == 100;
    assert Pow10(1) == 10;
    assert Numeral(10) == "10";
    StringOrder(900, 1000, 2);
  }
}
