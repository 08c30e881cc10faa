/** Decimal numerals: powers of ten, the value of a digit string, printing. */
module Decimal {
  import opened Arith

  function Pow10(n: nat): (p: nat)
    ensures p > 0
  {
    if n == 0 then 1 else 10 * Pow10(n - 1)
  }

  predicate IsDigit(c: char) { '0' <= c <= '9' }

  predicate AllDigits(s: string) {
    forall k :: 0 <= k < |s| ==> IsDigit(s[k])
  }

  function DigitValue(c: char): (d: nat)
    requires IsDigit(c)
    ensures d < 10
  {
    (c - '0') as int
  }

  function DigitChar(d: nat): (c: char)
    requires d < 10
    ensures IsDigit(c) && DigitValue(c) == d
  {
    '0' + d as char
  }

  /** The number a digit string denotes; the empty string denotes 0, as in
      the source's `BigInt(s || '0')`. */
  function Value(s: string): (v: nat)
    requires AllDigits(s)
  {
    if s == "" then 0 else 10 * Value(s[..|s| - 1]) + DigitValue(s[|s| - 1])
  }

  /** `n.toString()` of a non-negative bigint. */
  function Numeral(n: nat): (s: string)
    ensures s != "" && AllDigits(s)
  {
    if n < 10 then [DigitChar(n)] else Numeral(n / 10) + [DigitChar(n % 10)]
  }

  /** `n.toString()` of any bigint. */
  function SignedNumeral(n: int): string {
    if n < 0 then "-" + Numeral(-n) else Numeral(n)
  }

  function Zeros(n: nat): (s: string)
    ensures |s| == n && AllDigits(s)
    ensures forall k :: 0 <= k < n ==> s[k] == '0'
  {
    seq(n, i => '0')
  }

  /** `s.padStart(n, '0')` */
  function PadStart(s: string, n: nat): string {
    if |s| >= n then s else Zeros(n - |s|) + s
  }

  /** `s.padEnd(n, '0')` */
  function PadEnd(s: string, n: nat): string {
    if |s| >= n then s else s + Zeros(n - |s|)
  }

  lemma {:induction false} Pow10Add(m: nat, n: nat)
    ensures Pow10(m + n) == Pow10(m) * Pow10(n)
  {
    if m > 0 {
      Pow10Add(m - 1, n);
      MulAssoc(10, Pow10(m - 1), Pow10(n));
    }
  }

  /** Place value: a prefix counts for its value shifted left by the rest. */
  lemma {:induction false} ValueConcat(a: string, b: string)
    requires AllDigits(a) && AllDigits(b)
    ensures AllDigits(a + b)
    ensures Value(a + b) == Value(a) * Pow10(|b|) + Value(b)
  {
    var s := a + b;
    if b == "" {
      assert s == a;
    } else {
      var b' := b[..|b| - 1];
      ValueConcat(a, b');
      assert s[..|s| - 1] == a + b';
      ValueLast(s);
      ValueLast(b);
      Pow10Last(|b|);
      hide Value, Pow10;
      MulAssoc(Value(a), Pow10(|b'|), 10);
    }
  }

  lemma {:induction false} ValueLast(s: string)
    requires AllDigits(s) && s != ""
    ensures Value(s) == 10 * Value(s[..|s| - 1]) + DigitValue(s[|s| - 1])
  {
  }

  lemma {:induction false} Pow10Last(n: nat)
    requires n > 0
    ensures Pow10(n) == 10 * Pow10(n - 1)
  {
  }

  lemma {:induction false} ValueBound(s: string)
    requires AllDigits(s)
    ensures Value(s) < Pow10(|s|)
  {
    if s != "" { ValueBound(s[..|s| - 1]); }
  }

  lemma {:induction false} ValueZeros(n: nat)
    ensures Value(Zeros(n)) == 0
  {
    if n > 0 {
      ValueZeros(n - 1);
      assert Zeros(n)[..n - 1] == Zeros(n - 1);
    }
  }

  lemma {:induction false} ValueNumeral(n: nat)
    ensures Value(Numeral(n)) == n
  {
    if n >= 10 {
      ValueNumeral(n / 10);
      var s := Numeral(n);
      assert s[..|s| - 1] == Numeral(n / 10);
    } else {
      assert Numeral(n)[..0] == "";
    }
  }

  /** A numeral has no leading zero unless it is the single digit 0. */
  predicate IsNumeral(s: string) {
    s != "" && AllDigits(s) && (|s| > 1 ==> s[0] != '0')
  }

  lemma {:induction false} NumeralShape(n: nat)
    ensures IsNumeral(Numeral(n))
    ensures n > 0 ==> Numeral(n)[0] != '0'
  {
    if n >= 10 { NumeralShape(n / 10); }
  }

  /** The numerals are exactly the printed forms. */
  lemma {:induction false} NumeralOfValue(s: string)
    requires IsNumeral(s)
    ensures Numeral(Value(s)) == s
  {
    var init := s[..|s| - 1];
    var last := s[|s| - 1];
    assert s == init + [last];
    DigitBack(last);
    ValueLast(s);
    if |s| == 1 {
      assert init == "";
      assert Value("") == 0;
    } else {
      NumeralOfValue(init);
      LeadingDigit(init);
      hide Value;
      NumeralLast(Value(init), DigitValue(last));
    }
  }

  lemma {:induction false} DigitBack(c: char)
    requires IsDigit(c)
    ensures DigitChar(DigitValue(c)) == c
  {
  }

  lemma {:induction false} NumeralLast(q: nat, d: nat)
    requires q > 0 && d < 10
    ensures Numeral(10 * q + d) == Numeral(q) + [DigitChar(d)]
  {
  }

  lemma {:induction false} LeadingDigit(s: string)
    requires IsNumeral(s) && s[0] != '0'
    ensures Value(s) >= 1
  {
    if |s| > 1 { LeadingDigit(s[..|s| - 1]); }
  }

  /** A number below 10^n prints in at most n digits, so padding to n digits
      gives exactly n and does not change the value. */
  lemma {:induction false} NumeralLength(n: nat, k: nat)
    requires n < Pow10(k) && k > 0
    ensures |Numeral(n)| <= k
  {
    if n >= 10 { NumeralLength(n / 10, k - 1); }
  }

  lemma {:induction false} PadStartValue(s: string, n: nat)
    requires AllDigits(s)
    ensures AllDigits(PadStart(s, n)) && Value(PadStart(s, n)) == Value(s)
  {
    if |s| < n {
      ValueConcat(Zeros(n - |s|), s);
      ValueZeros(n - |s|);
    }
  }

  lemma {:induction false} PadEndValue(s: string, n: nat)
    requires AllDigits(s) && |s| <= n
    ensures AllDigits(PadEnd(s, n)) && |PadEnd(s, n)| == n
    ensures Value(PadEnd(s, n)) == Value(s) * Pow10(n - |s|)
  {
    var z := Zeros(n - |s|);
    ValueConcat(s, z);
    ValueZeros(n - |s|);
    assert PadEnd(s, n) == s + z;
  }

  /** Cutting a digit string is dividing its value by a power of ten. */
  lemma {:induction false} ValueCut(a: string, b: string)
    requires AllDigits(a) && AllDigits(b)
    ensures AllDigits(a + b)
    ensures Value(a + b) / Pow10(|b|) == Value(a)
    ensures Value(a + b) % Pow10(|b|) == Value(b)
  {
    ValueConcat(a, b);
    ValueBound(b);
    DivModUnique(Value(a + b), Pow10(|b|), Value(a), Value(b));
  }

  /** Two digit strings of one length are equal when their values are. */
  lemma {:induction false} ValueInjective(a: string, b: string)
    requires AllDigits(a) && AllDigits(b) && |a| == |b| && Value(a) == Value(b)
    ensures a == b
  {
    if a != "" {
      var n := |a| - 1;
      ValueLast(a);
      ValueLast(b);
      hide Value;
      assert Value(a[..n]) == Value(b[..n]) && DigitValue(a[n]) == DigitValue(b[n]);
      hide DigitValue, DigitChar;
      ValueInjective(a[..n], b[..n]);
      DigitBack(a[n]);
      DigitBack(b[n]);
      assert a == a[..n] + [a[n]] && b == b[..n] + [b[n]];
    }
  }
}
