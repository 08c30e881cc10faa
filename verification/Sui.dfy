/** The older base-unit helpers (lib/sui.ts) against the exact ones. */
module Sui {
  import opened Wrappers
  import opened Arith
  import opened Decimal
  import opened Rounding
  import opened JsText
  import opened Money

  // ---- BigInt(string) ----

  function RadixOf(t: string): nat {
    if |t| <= 2 || t[0] != '0' then 0
    else if t[1] == 'x' || t[1] == 'X' then 16
    else if t[1] == 'o' || t[1] == 'O' then 8
    else if t[1] == 'b' || t[1] == 'B' then 2
    else 0
  }

  function RadixDigit(c: char): int {
    if IsDigit(c) then DigitValue(c)
    else if 'a' <= c <= 'f' then (c - 'a') as int + 10
    else if 'A' <= c <= 'F' then (c - 'A') as int + 10
    else 16
  }

  function RadixValue(s: string, radix: nat): Option<int> {
    if s == "" then Some(0)
    else
      var d := RadixDigit(s[|s| - 1]);
      match RadixValue(s[..|s| - 1], radix)
      case Some(v) => if d < radix then Some(v * radix + d) else None
      case None => None
  }

  /** `BigInt(s)`; `None` is its SyntaxError. */
  function BigIntOf(s: string): Option<int> {
    var t := Trim(s);
    if t == "" then Some(0)
    else if RadixOf(t) != 0 then RadixValue(t[2..], RadixOf(t))
    else if Unsigned(t) != "" && AllDigits(Unsigned(t)) then
      var v: int := Value(Unsigned(t));
      Some(if Negative(t) then -v else v)
    else None
  }

  function OrZero(s: string): string {
    if s == "" then "0" else s
  }

  // ---- what BigInt reads beside decimal digits ----

  /** Digits 0 to 15 in either case; every other character is none. */
  lemma {:induction false} RadixDigitIs(c: char, d: nat)
    requires d < 16
    ensures RadixDigit(c) == d <==> c == "0123456789abcdef"[d] || c == "0123456789ABCDEF"[d]
    ensures 0 <= RadixDigit(c) <= 16
  {
  }

  function DigitText(d: nat): char
    requires d < 16
  {
    "0123456789abcdef"[d]
  }

  function RadixText(n: nat, radix: nat): (s: string)
    requires 2 <= radix <= 16
    ensures s != ""
  {
    if n < radix then [DigitText(n)] else RadixText(n / radix, radix) + [DigitText(n % radix)]
  }

  lemma {:induction false} RadixTextReads(n: nat, radix: nat)
    requires 2 <= radix <= 16
    ensures RadixValue(RadixText(n, radix), radix) == Some(n)
    decreases n
  {
    hide *;
    if n < radix {
      ShortRadixText(n, radix);
    } else {
      var q, d := Quotient(n, radix);
      RadixTextReads(q, radix);
      LongRadixText(n, radix, q, d);
      DigitTextIs(d);
      RadixNext(RadixText(q, radix), DigitText(d), radix, q, d);
    }
  }

  lemma {:induction false} Quotient(n: nat, radix: nat) returns (q: nat, d: nat)
    requires 2 <= radix <= n
    ensures q == n / radix && d == n % radix && d < radix && q < n && q * radix + d == n
  {
    q, d := n / radix, n % radix;
    DivModIdentity(n, radix);
    MulOrder(0, q, radix);
  }

  lemma {:induction false} ShortRadixText(n: nat, radix: nat)
    requires n < radix <= 16 && 2 <= radix
    ensures RadixValue(RadixText(n, radix), radix) == Some(n)
  {
    hide RadixDigit, DigitText;
    DigitTextIs(n);
    RadixNext("", DigitText(n), radix, 0, n);
    assert "" + [DigitText(n)] == [DigitText(n)];
  }

  lemma {:induction false} LongRadixText(n: nat, radix: nat, q: nat, d: nat)
    requires 2 <= radix <= 16 && radix <= n && q == n / radix && d == n % radix && d < 16
    ensures RadixText(n, radix) == RadixText(q, radix) + [DigitText(d)]
  {
  }

  lemma {:induction false} DigitTextIs(d: nat)
    requires d < 16
    ensures RadixDigit(DigitText(d)) == d && !IsSpace(DigitText(d))
  {
    RadixDigitIs("0123456789abcdef"[d], d);
  }

  lemma {:induction false} RadixNext(s: string, c: char, radix: nat, v: nat, d: nat)
    requires RadixValue(s, radix) == Some(v) && RadixDigit(c) == d < radix
    ensures RadixValue(s + [c], radix) == Some(v * radix + d)
  {
    hide RadixDigit;
    var t := s + [c];
    assert t[|t| - 1] == c && t[..|t| - 1] == s;
  }

  lemma {:induction false} RadixTextSolid(n: nat, radix: nat)
    requires 2 <= radix <= 16
    ensures !IsSpace(RadixText(n, radix)[|RadixText(n, radix)| - 1])
  {
  }

  /** Every number is read back from its hexadecimal, octal or binary text behind
      the prefix, in either case, with blanks around it. */
  lemma {:induction false} PrefixedReads(n: nat, radix: nat, letter: char, pre: string, post: string)
    requires Blank(pre) && Blank(post)
    requires (radix == 16 && letter in {'x', 'X'}) || (radix == 8 && letter in {'o', 'O'})
             || (radix == 2 && letter in {'b', 'B'})
    ensures BigIntOf(pre + (['0', letter] + RadixText(n, radix)) + post) == Some(n)
  {
    var t := ['0', letter] + RadixText(n, radix);
    RadixTextReads(n, radix);
    RadixTextSolid(n, radix);
    hide RadixText, RadixValue, Trim;
    assert t[0] == '0' && t[1] == letter && t[2..] == RadixText(n, radix);
    assert t[|t| - 1] == RadixText(n, radix)[|RadixText(n, radix)| - 1];
    assert IsTrimmed(t);
    hide IsTrimmed;
    TrimOf(pre, t, post);
  }

  /** A digit that is too large for its radix spoils the text. */
  lemma {:induction false} RadixRefuses(s: string, radix: nat, k: nat)
    requires k < |s| && RadixDigit(s[k]) >= radix
    ensures RadixValue(s, radix) == None
  {
    if k < |s| - 1 { RadixRefuses(s[..|s| - 1], radix, k); }
  }

  /** Blank text is zero, and text that is neither prefixed nor signed digits
      is refused. */
  lemma {:induction false} BigIntRefuses(s: string)
    ensures Blank(s) ==> BigIntOf(s) == Some(0)
    ensures !Blank(s) && RadixOf(Trim(s)) == 0 ==>
              (BigIntOf(s) == None <==> Unsigned(Trim(s)) == "" || !AllDigits(Unsigned(Trim(s))))
  {
    hide Trim, Value;
    TrimEmpty(s);
  }

  /** Nothing is prefixed but these. */
  lemma {:induction false} PrefixIs(t: string)
    ensures RadixOf(t) != 0 <==> |t| > 2 && t[0] == '0' && t[1] in {'x', 'X', 'o', 'O', 'b', 'B'}
  {
  }

  // ---- toBaseUnits ----

  /** The first `decimals` fraction digits, zero-filled. */
  function Kept(frac: string, decimals: nat): string {
    (frac + Zeros(decimals))[..decimals]
  }

  function ToBaseUnits(human: string, decimals: nat): Option<int> {
    var parts := Split(OrZero(human), ".");
    var frac := if |parts| > 1 then parts[1] else "";
    match (BigIntOf(OrZero(parts[0])), BigIntOf(OrZero(Kept(frac, decimals))))
    case (Some(w), Some(f)) => Some(w * Pow10(decimals) + f)
    case _ => None
  }

  lemma {:induction false} BigIntOfDigits(sign: string, s: string)
    requires IsSign(sign) && AllDigits(s)
    ensures s != "" ==> BigIntOf(sign + s) == Some(if sign == "-" then 0 - Value(s) else Value(s))
    ensures BigIntOf(OrZero(s)) == Some(Value(s))
    ensures sign != "" && s == "" ==> BigIntOf(sign + s) == None
  {
    hide Value, BigIntOf;
    if s != "" {
      BigIntOfSigned(sign, s);
      BigIntOfSigned("", s);
      assert "" + s == s;
    } else {
      ZeroValues();
      BigIntOfSigned("", "0");
      assert "" + "0" == "0" && sign + "" == sign;
      BigIntOfSign(sign);
    }
  }

  lemma {:induction false} BigIntOfSigned(sign: string, s: string)
    requires IsSign(sign) && AllDigits(s) && s != ""
    ensures BigIntOf(sign + s) == Some(if sign == "-" then 0 - Value(s) else Value(s))
  {
    hide Value, Unsigned, Negative, Trim, RadixOf;
    DigitsHoldNoDot(s);
    SignStripped(sign, s);
    SignedTrimmed(sign, s);
  }

  lemma {:induction false} BigIntOfSign(sign: string)
    requires IsSign(sign)
    ensures sign != "" ==> BigIntOf(sign) == None
  {
  }

  lemma {:induction false} ZeroValues()
    ensures Value("0") == 0 && Value("") == 0
  {
    ValueNumeral(0);
    ZeroNumeral();
    ValueZeros(0);
    assert Zeros(0) == "";
  }

  lemma {:induction false} ZeroNumeral()
    ensures Numeral(0) == "0"
  {
  }

  lemma {:induction false} SignedTrimmed(sign: string, s: string)
    requires IsSign(sign) && AllDigits(s) && s != ""
    ensures Trim(sign + s) == sign + s && RadixOf(sign + s) == 0
  {
    var t := sign + s;
    assert t[|t| - 1] == s[|s| - 1];
    TrimFixed(t);
    if |t| > 2 && t[0] == '0' {
      assert t[1] == s[1 - |sign|];
    }
  }

  lemma {:induction false} CutAtPoint(first: string, frac: string)
    requires '.' !in first && '.' !in frac
    ensures Split(first, ".") == [first]
    ensures Split(first + "." + frac, ".") == [first, frac]
  {
    hide Split, IndexOf;
    SplitHead(first, frac, ".");
    SplitHead(frac, "", ".");
  }

  /** The text as the older helper cuts it: the sign stays on the whole part. */
  lemma {:induction false} CutsAsDecimal(raw: string)
    requires IsDecimal(raw)
    ensures Split(raw, ".")
         == if '.' in raw then [SignOf(raw) + WholePart(raw), FractionPart(raw)] else [SignOf(raw) + WholePart(raw)]
    ensures '.' !in raw ==> FractionPart(raw) == ""
  {
    var whole, frac := WholePart(raw), FractionPart(raw);
    hide *;
    DecimalForm(raw);
    DigitsHoldNoDot(whole);
    DigitsHoldNoDot(frac);
    SignAndBody(raw);
    assert '.' !in SignOf(raw) + whole;
    CutAtPoint(SignOf(raw) + whole, frac);
    SignBeforePoint(SignOf(raw), whole, frac);
  }

  lemma {:induction false} SignBeforePoint(sign: string, whole: string, frac: string)
    ensures sign + (whole + "." + frac) == sign + whole + "." + frac
  {
  }

  lemma {:induction false} KeptDigits(frac: string, decimals: nat)
    requires AllDigits(frac)
    ensures AllDigits(Kept(frac, decimals)) && |Kept(frac, decimals)| == decimals
    ensures |frac| <= decimals ==> Kept(frac, decimals) == PadEnd(frac, decimals)
    ensures |frac| > decimals ==> Kept(frac, decimals) == frac[..decimals]
  {
  }

  /** Truncating parse is place value of the kept digits. */
  lemma {:induction false} TruncatedMagnitude(whole: string, frac: string, decimals: nat)
    requires AllDigits(whole) && AllDigits(frac)
    ensures AllDigits(Kept(frac, decimals))
    ensures ParseMagnitude(whole, frac, decimals, Some(Trunc))
         == Ok(Value(whole) * Pow10(decimals) + Value(Kept(frac, decimals)))
  {
    hide Value, Pow10, Kept;
    KeptDigits(frac, decimals);
    if |frac| > decimals {
      var n := |frac|;
      var kept, lost := whole + frac[..decimals], frac[decimals..];
      ValueConcat(whole, frac);
      ValueConcat(whole, frac[..decimals]);
      assert kept + lost == whole + frac;
      ValueCut(kept, lost);
      TruncIsQuotient(Value(whole + frac), Pow10(n - decimals));
    } else {
      PadEndValue(frac, decimals);
    }
  }

  lemma {:induction false} TruncIsQuotient(n: nat, d: nat)
    requires d > 0
    ensures Rounded(n, d, Trunc) == n / d
  {
    DivModIdentity(n, d);
  }

  lemma {:induction false} ToBaseUnitsValue(raw: string, decimals: nat)
    requires IsDecimal(raw)
    ensures AllDigits(Kept(FractionPart(raw), decimals))
    ensures var w, f := Value(WholePart(raw)), Value(Kept(FractionPart(raw), decimals));
            ToBaseUnits(raw, decimals)
            == if SignOf(raw) != "" && WholePart(raw) == "" then None
               else Some((if Negative(raw) then 0 - w else w) * Pow10(decimals) + f)
  {
    var whole, frac := WholePart(raw), FractionPart(raw);
    hide *;
    DecimalForm(raw);
    CutsAsDecimal(raw);
    SignAndBody(raw);
    KeptDigits(frac, decimals);
    UnitsOfParts(raw, SignOf(raw), whole, frac, decimals);
  }

  lemma {:induction false} UnitsOfParts(raw: string, sign: string, whole: string, frac: string, decimals: nat)
    requires IsSign(sign) && AllDigits(whole) && AllDigits(frac) && raw != ""
    requires AllDigits(Kept(frac, decimals))
    requires Split(raw, ".") == [sign + whole, frac] || (Split(raw, ".") == [sign + whole] && frac == "")
    ensures var w, f := Value(whole), Value(Kept(frac, decimals));
            ToBaseUnits(raw, decimals)
            == if sign != "" && whole == "" then None
               else Some((if sign == "-" then 0 - w else w) * Pow10(decimals) + f)
  {
    hide Split, Value, Pow10, Kept, BigIntOf, AllDigits;
    BigIntOfDigits("", Kept(frac, decimals));
    BigIntOfDigits(sign, whole);
    assert sign == "" ==> sign + whole == whole;
  }

  /** For every decimal text, signed or not: the older helper gives the exact
      truncating parse except for a lone sign before the point, which it
      refuses, and a minus sign with kept fraction digits, which it adds with
      the wrong sign. Unsigned texts always agree. */
  lemma {:induction false} ToBaseUnitsRefines(raw: string, decimals: nat)
    requires IsDecimal(raw) && decimals <= MAX_DECIMALS
    ensures AllDigits(Kept(FractionPart(raw), decimals))
    ensures ParseMinor(Text(raw), decimals, Some(Trunc)).Ok?
    ensures ToBaseUnits(raw, decimals) == Some(ParseMinor(Text(raw), decimals, Some(Trunc)).value)
       <==> (SignOf(raw) == "" || WholePart(raw) != "")
            && !(Negative(raw) && Value(Kept(FractionPart(raw), decimals)) != 0)
  {
    hide Split, IndexOf, Value, Pow10, Kept, Unsigned, Negative, WholePart, FractionPart, Trim, IsTrimmed,
         SignOf, ParseMagnitude, ToBaseUnits;
    var w := Value(WholePart(raw));
    DecimalForm(raw);
    TrimFixed(raw);
    ToBaseUnitsValue(raw, decimals);
    TruncatedMagnitude(WholePart(raw), FractionPart(raw), decimals);
    MulSub(0, w, Pow10(decimals));
  }

  /** -1.5 at six places comes out as -500000 instead of -1500000. */
  lemma {:induction false} NegativeBaseUnitsWitness()
    ensures ToBaseUnits("-1.5", 6) == Some(-500000)
    ensures ParseMinor(Text("-1.5"), 6, Some(Trunc)) == Ok(-1500000)
  {
    hide Split, IndexOf, Value, WholePart, FractionPart, Unsigned, Negative, SignOf, Numeral, Trim, ToBaseUnits,
         IsDecimal;
    var raw := "-1.5";
    assert raw == "-" + "1" + "." + "5";
    Dissect("-", "1", "5");
    SignAndBody(raw);
    DecimalIsGrammar(raw);
    assert HasParts(raw, "-", "1", "5");
    assert Value("1") == 1 by { ValueNumeral(1); NumeralsOfDigits(); }
    assert Value("5") == 5 by { ValueNumeral(5); NumeralsOfDigits(); }
    assert Kept("5", 6) == "5" + Zeros(5);
    ValueConcat("5", Zeros(5));
    ValueZeros(5);
    assert Pow10(5) == 100000 && Pow10(6) == 1000000;
    ToBaseUnitsValue(raw, 6);
    TruncatedMagnitude("1", "5", 6);
    DecimalForm(raw);
    TrimFixed(raw);
  }

  /** A text that starts with a digit or a point is unsigned, so it agrees. */
  lemma {:induction false} UnsignedToBaseUnits(raw: string, decimals: nat)
    requires IsDecimal(raw) && decimals <= MAX_DECIMALS
    requires !StartsWith(raw, "+") && !StartsWith(raw, "-")
    ensures ParseMinor(Text(raw), decimals, Some(Trunc)).Ok?
    ensures ToBaseUnits(raw, decimals) == Some(ParseMinor(Text(raw), decimals, Some(Trunc)).value)
  {
    hide ToBaseUnits, ParseMinor;
    ToBaseUnitsRefines(raw, decimals);
  }

  // ---- formatSui ----

  /** JavaScript's bigint `/` and `%`: the quotient truncates and the remainder
      takes the sign of the dividend. */
  function TruncDiv(n: int, d: int): int
    requires d > 0
  {
    if n < 0 then -((-n) / d) else n / d
  }

  function TruncMod(n: int, d: int): int
    requires d > 0
  {
    if n < 0 then -((-n) % d) else n % d
  }

  function FormatSui(amount: int, decimals: nat): string {
    var unit := Pow10(decimals);
    var frac := PadStart(SignedNumeral(TruncMod(amount, unit)), decimals);
    SignedNumeral(TruncDiv(amount, unit)) + "." + (if |frac| <= 2 then frac else frac[..2])
  }

  /** Cutting in two steps is cutting once. */
  lemma {:induction false} NestedCut(n: nat, u: nat, k: nat)
    requires u > 0 && k > 0
    ensures k * u > 0
    ensures n / u / k == n / (k * u)
    ensures n / u % k == n % (k * u) / u
  {
    var c, e := n / u, n % u;
    var w, r := c / k, c % k;
    DivModIdentity(n, u);
    DivModIdentity(c, k);
    MulOrder(0, k, u);
    MulAdd(w * k, r, u);
    MulAssoc(w, k, u);
    MulOrder(r, k, u);
    MulNonNeg(r, u);
    DivModUnique(n, k * u, w, r * u + e);
    DivModUnique(r * u + e, u, r, e);
  }

  /** The two shown places are the amount truncated to hundredths and printed
      exactly, for every unsigned amount of a currency with at least two. */
  lemma {:induction false} FormatSuiIsTruncated(amount: nat, decimals: nat)
    requires decimals >= 2
    ensures Ok(FormatSui(amount, decimals)) == FormatMinor(Rounded(amount, Pow10(decimals - 2), Trunc), 2)
  {
    hide Value, Numeral, Pow10, Rounded;
    var u := Pow10(decimals - 2);
    Pow10Add(2, decimals - 2);
    assert Pow10(2) == 100 by { Hundred(); }
    NestedCut(amount, u, 100);
    TruncIsQuotient(amount, u);
    DivModIdentity(amount, u);
    DivModIdentity(amount, 100 * u);
    FirstTwoPlaces(amount % (100 * u), decimals);
    UnsignedSui(amount, decimals, 100 * u);
    PrintedHundredths(amount / u, amount / (100 * u), amount / u % 100);
  }

  lemma {:induction false} NumeralAtLeast(n: nat, k: nat)
    requires n >= Pow10(k)
    ensures |Numeral(n)| > k
  {
    if k > 0 { NumeralAtLeast(n / 10, k - 1); }
  }

  /** The first two characters of a negative remainder: zeros while it is too
      small to be shown, and its minus sign among them otherwise. */
  lemma {:induction false} SignedPlaces(m: nat, decimals: nat)
    requires decimals >= 2 && m < Pow10(decimals)
    ensures var s := PadStart(SignedNumeral(0 - m), decimals);
            |s| >= 2
            && (10 * m < Pow10(decimals - 2) ==> s[..2] == "00")
            && (10 * m >= Pow10(decimals - 2) ==> s[0] == '-' || s[1] == '-')
  {
    hide Numeral, Pow10;
    var n := Numeral(m);
    if m == 0 {
      assert n == "0" by { ZeroNumeral(); }
    } else if 10 * m < Pow10(decimals - 2) {
      if decimals <= 3 {
        assert Pow10(0) == 1 && Pow10(1) == 10 by { SmallTens(); }
      }
      Pow10Last(decimals - 2);
      NumeralLength(m, decimals - 3);
    } else {
      if decimals > 2 {
        Pow10Last(decimals - 2);
        NumeralAtLeast(m, decimals - 3);
      }
    }
  }

  lemma {:induction false} SmallTens()
    ensures Pow10(0) == 1 && Pow10(1) == 10
  {
  }

  lemma {:induction false} TruncOfNegative(n: nat, d: nat)
    requires d > 0
    ensures Rounded(0 - n, d, Trunc) == 0 - n / d
  {
    TruncIsQuotient(n, d);
    RoundedNegate(n, d, Trunc);
  }

  /** Whole units and hundredths of an amount, and when no hundredth is shown. */
  lemma {:induction false} Hundredths(n: nat, u: nat) returns (w: nat, m: nat, q: nat)
    requires u > 0
    ensures w == n / (100 * u) && m == n % (100 * u) && q == n / u && m < 100 * u
    ensures q / 100 == w && (10 * m < u ==> q == 100 * w && q % 100 == 0)
  {
    w, m, q := n / (100 * u), n % (100 * u), n / u;
    NestedCut(n, u, 100);
    DivModIdentity(n, u);
    DivModIdentity(n, 100 * u);
    if 10 * m < u { DivModUnique(m, u, 0, m); }
  }

  /** The two texts, part by part, agree exactly when no minus sign is shown
      behind the point. */
  lemma {:induction false} NegativeTexts(w: nat, q: nat, places: string)
    requires q / 100 == w && |places| == 2
    requires places == "00" ==> q == 100 * w && q % 100 == 0
    requires places != "00" ==> places[0] == '-' || places[1] == '-'
    ensures SignedNumeral(0 - w) + "." + places
         == (if q > 0 then "-" else "") + Numeral(w) + "." + PadStart(Numeral(q % 100), 2)
       <==> places == "00"
  {
    hide Numeral, PadStart;
    var whole, cents := (if q > 0 then "-" else "") + Numeral(w), PadStart(Numeral(q % 100), 2);
    TwoPlaces(q % 100);
    if places == "00" {
      assert "" + Numeral(w) == Numeral(w);
      assert SignedNumeral(0 - w) == whole;
    } else {
      LastTwo(SignedNumeral(0 - w) + ".", places, whole + ".", cents);
    }
  }

  lemma {:induction false} NegativeSui(n: nat, decimals: nat)
    requires n > 0 && decimals >= 2
    ensures Ok(FormatSui(0 - n, decimals)) == FormatMinor(Rounded(0 - n, Pow10(decimals - 2), Trunc), 2)
       <==> 10 * (n % Pow10(decimals)) < Pow10(decimals - 2)
  {
    hide Numeral, Pow10, Rounded, PadStart, FormatSui, Printed;
    var u := Pow10(decimals - 2);
    Pow10Add(2, decimals - 2);
    assert Pow10(2) == 100 by { Hundred(); }
    TruncOfNegative(n, u);
    var w, m, q := Hundredths(n, u);
    var rest: int := m;
    var s := PadStart(SignedNumeral(0 - rest), decimals);
    SignedPlaces(m, decimals);
    FormatOfNegative(n, decimals, 100 * u, s);
    PrintedNegative(q, w, q % 100);
    NegativeTexts(w, q, s[..2]);
  }

  lemma {:induction false} TwoPlaces(c: nat)
    requires c < 100
    ensures |PadStart(Numeral(c), 2)| == 2 && AllDigits(PadStart(Numeral(c), 2))
    ensures c == 0 ==> PadStart(Numeral(c), 2) == "00"
  {
    assert Pow10(2) == 100;
    NumeralLength(c, 2);
    PadStartValue(Numeral(c), 2);
    if c == 0 { ZeroNumeral(); }
  }

  lemma {:induction false} LastTwo(a: string, x: string, b: string, y: string)
    requires |x| == |y| == 2 && AllDigits(y) && (x[0] == '-' || x[1] == '-')
    ensures a + x != b + y
  {
    var s, t := a + x, b + y;
    assert s[|s| - 2] == x[0] && s[|s| - 1] == x[1];
    assert t[|t| - 2] == y[0] && t[|t| - 1] == y[1];
  }

  lemma {:induction false} FormatOfNegative(n: nat, decimals: nat, unit: nat, s: string)
    requires n > 0 && unit == Pow10(decimals) && s == PadStart(SignedNumeral(0 - n % unit), decimals) && |s| >= 2
    ensures n / unit >= 0 && n % unit >= 0
    ensures FormatSui(0 - n, decimals) == SignedNumeral(0 - n / unit) + "." + s[..2]
  {
    hide Numeral, Pow10, PadStart;
    DivModIdentity(n, unit);
  }

  lemma {:induction false} PrintedNegative(q: nat, whole: nat, cents: nat)
    requires q / 100 == whole && q % 100 == cents
    ensures Printed(0 - q, 2) == (if q > 0 then "-" else "") + Numeral(whole) + "." + PadStart(Numeral(cents), 2)
  {
    hide Numeral, Pow10, PadStart;
    assert Pow10(2) == 100 by { Hundred(); }
  }

  /** For every amount: the shown text is the amount truncated to hundredths
      exactly unless a negative amount has a remainder of at least a tenth of
      a hundredth, whose minus sign then shows behind the point. */
  lemma {:induction false} FormatSuiIff(amount: int, decimals: nat)
    requires decimals >= 2
    ensures Ok(FormatSui(amount, decimals)) == FormatMinor(Rounded(amount, Pow10(decimals - 2), Trunc), 2)
       <==> amount >= 0 || 10 * ((0 - amount) % Pow10(decimals)) < Pow10(decimals - 2)
  {
    hide FormatSui, Rounded, Pow10;
    if amount >= 0 { FormatSuiIsTruncated(amount, decimals); } else { NegativeSui(0 - amount, decimals); }
  }

  /** -1.5 at six places shows as -1.-5. */
  lemma {:induction false} NegativeSuiWitness()
    ensures FormatSui(-1500000, 6) == "-1.-5"
  {
    hide PadStart, Numeral, Pow10;
    assert Pow10(6) == 1000000 by { Million(); }
    HalfMillion();
    NumeralsOfDigits();
    assert PadStart("-500000", 6) == "-500000" by { PadNothing("-500000", 6); }
    assert "-" + "1" == "-1" && "-" + "500000" == "-500000";
  }

  lemma {:induction false} Million()
    ensures Pow10(6) == 1000000
  {
    assert Pow10(3) == 1000;
  }

  lemma {:induction false} HalfMillion()
    ensures Numeral(500000) == "500000"
  {
    assert Numeral(500) == "500";
    assert Numeral(50000) == "50000";
  }

  lemma {:induction false} PadNothing(s: string, n: nat)
    requires |s| >= n
    ensures PadStart(s, n) == s
  {
  }

  lemma {:induction false} UnsignedSui(amount: nat, decimals: nat, unit: nat)
    requires unit == Pow10(decimals) && decimals >= 2
    requires amount / unit >= 0 && 0 <= amount % unit < unit
    ensures |PadStart(Numeral(amount % unit), decimals)| >= 2
    ensures FormatSui(amount, decimals)
         == Numeral(amount / unit) + "." + PadStart(Numeral(amount % unit), decimals)[..2]
  {
    hide Numeral, Pow10;
  }

  lemma {:induction false} PrintedHundredths(n: nat, whole: nat, frac: nat)
    requires n / 100 == whole && n % 100 == frac
    ensures Printed(n, 2) == Numeral(whole) + "." + PadStart(Numeral(frac), 2)
  {
    hide Numeral, Pow10, PadStart;
    assert Pow10(2) == 100 by { Hundred(); }
    assert "" + Numeral(whole) == Numeral(whole);
  }

  lemma {:induction false} Hundred()
    ensures Pow10(2) == 100
  {
  }

  lemma {:induction false} FirstTwoPlaces(r: nat, decimals: nat)
    requires decimals >= 2 && r < Pow10(decimals)
    ensures r / Pow10(decimals - 2) >= 0
    ensures |PadStart(Numeral(r), decimals)| == decimals
    ensures PadStart(Numeral(r), decimals)[..2] == PadStart(Numeral(r / Pow10(decimals - 2)), 2)
  {
    hide Value, Numeral, Pow10;
    var s := PadStart(Numeral(r), decimals);
    NumeralLength(r, decimals);
    PadStartValue(Numeral(r), decimals);
    ValueNumeral(r);
    assert s == s[..2] + s[2..];
    ValueCut(s[..2], s[2..]);
    PaddedNumeral(s[..2]);
  }
}
