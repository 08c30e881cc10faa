/** Exact money amounts as integer minor units (lib/money.ts): the decimal
    parser, the printer, and what they mean together. */
module Money {
  import opened Wrappers
  import opened Arith
  import opened Decimal
  import opened Rounding
  import opened JsText

  datatype MoneyError =
    | DivisionByZero
    | DenominatorNotPositive
    | BadDecimals
    | NotFinite
    | FractionalNumber
    | EmptyAmount
    | NotDecimal
    | ExcessPrecision
    | BadScale
    | ZeroRate
    | NotWholeBps
    | RangeError

  type Minor = Result<int, MoneyError>

  const MAX_DECIMALS := 18
  const MAX_SAFE_INTEGER := 9007199254740991

  /** A JavaScript number, as far as the arithmetic here looks at one. */
  datatype JsNumber = NonFinite | NonInteger | Whole(n: int)

  datatype Amount = Text(s: string) | Number(number: JsNumber) | BigInt(n: int)

  function DivRound(num: int, den: int, mode: Mode): Minor {
    if den == 0 then Err(DivisionByZero)
    else if den < 0 then Err(DenominatorNotPositive)
    else Ok(Rounded(num, den, mode))
  }

  /** A quotient is delivered exactly for positive denominators, and then it is
      the one integer that meets its mode. */
  lemma {:induction false} DivRoundCharacterised(num: int, den: int, mode: Mode, q: int)
    ensures DivRound(num, den, mode) == Ok(q) <==> den > 0 && RoundsTo(num, den, mode, q)
    ensures DivRound(num, den, mode) == Err(DivisionByZero) <==> den == 0
    ensures DivRound(num, den, mode) == Err(DenominatorNotPositive) <==> den < 0
  {
    hide Rounded, RoundsTo;
    if den > 0 { RoundedCharacterised(num, den, mode, q); }
  }

  // ---- the shape of a decimal string ----

  predicate Negative(raw: string) {
    StartsWith(raw, "-")
  }

  function Unsigned(raw: string): string {
    if StartsWith(raw, "+") || StartsWith(raw, "-") then raw[1..] else raw
  }

  function WholePart(raw: string): string {
    Split(Unsigned(raw), ".")[0]
  }

  function FractionPart(raw: string): string {
    var parts := Split(Unsigned(raw), ".");
    if |parts| > 1 then parts[1] else ""
  }

  /** Optional sign, digits, optional fraction; at least one digit in all. */
  predicate IsDecimal(raw: string) {
    && |Split(Unsigned(raw), ".")| <= 2
    && AllDigits(WholePart(raw))
    && AllDigits(FractionPart(raw))
    && (WholePart(raw) != "" || FractionPart(raw) != "")
  }

  // ---- parsing ----

  function ParseMinor(input: Amount, decimals: int, rounding: Option<Mode>): Minor {
    if decimals < 0 || decimals > MAX_DECIMALS then Err(BadDecimals)
    else
      match input
      case BigInt(n) => Ok(n)
      case Number(NonFinite) => Err(NotFinite)
      case Number(NonInteger) => Err(FractionalNumber)
      case Number(Whole(n)) => Ok(n * Pow10(decimals))
      case Text(s) =>
        var raw := Trim(s);
        if raw == "" then Err(EmptyAmount)
        else if !IsDecimal(raw) then Err(NotDecimal)
        else ParseDecimal(raw, decimals, rounding)
  }

  predicate IsSafeInteger(n: int) {
    -MAX_SAFE_INTEGER <= n <= MAX_SAFE_INTEGER
  }

  /** The documentation takes a number only if it is a safe integer. The code
      takes every whole number, so the rule is kept exactly up to 2^53 - 1. */
  lemma {:induction false} SafeIntegerRule(n: int, decimals: nat, rounding: Option<Mode>)
    requires decimals <= MAX_DECIMALS
    ensures ParseMinor(Number(Whole(n)), decimals, rounding) == Ok(n * Pow10(decimals))
    ensures (ParseMinor(Number(Whole(n)), decimals, rounding).Ok? ==> IsSafeInteger(n))
       <==> Abs(n) <= 9007199254740991
    ensures ParseMinor(Number(NonFinite), decimals, rounding) == Err(NotFinite)
    ensures ParseMinor(Number(NonInteger), decimals, rounding) == Err(FractionalNumber)
  {
  }

  /** The first integer past the safe ones is taken. */
  lemma {:induction false} UnsafeIntegerWitness()
    ensures !IsSafeInteger(9007199254740992)
    ensures ParseMinor(Number(Whole(9007199254740992)), 2, None) == Ok(900719925474099200)
  {
    assert Pow10(2) == 100;
  }

  function ParseDecimal(raw: string, decimals: nat, rounding: Option<Mode>): Minor
    requires IsDecimal(raw)
  {
    match ParseMagnitude(WholePart(raw), FractionPart(raw), decimals, rounding)
    case Ok(minor) => Ok(if Negative(raw) then -minor else minor)
    case Err(e) => Err(e)
  }

  /** The unsigned amount: exact when the fraction fits, otherwise rounded once. */
  function ParseMagnitude(whole: string, frac: string, decimals: nat, rounding: Option<Mode>): Minor
    requires AllDigits(whole) && AllDigits(frac)
  {
    if |frac| <= decimals then
      PadEndValue(frac, decimals);
      Ok(Value(whole) * Pow10(decimals) + Value(PadEnd(frac, decimals)))
    else
      match rounding
      case None => Err(ExcessPrecision)
      case Some(mode) =>
        var scaled := Value(whole) * Pow10(|frac|) + Value(frac);
        Ok(Rounded(scaled, Pow10(|frac| - decimals), mode))
  }

  // ---- printing ----

  function FormatMinor(minor: int, decimals: int): Result<string, MoneyError> {
    if decimals < 0 || decimals > MAX_DECIMALS then Err(BadDecimals)
    else Ok(Printed(minor, decimals))
  }

  function Printed(minor: int, decimals: nat): string {
    var unit := Pow10(decimals);
    DivModIdentity(Abs(minor), unit);
    Placed(if minor < 0 then "-" else "", Abs(minor) / unit, Abs(minor) % unit, decimals)
  }

  /** Sign, whole units, and the fraction padded to its places; an amount
      without decimals has no point (`unit` is then 1 and `whole` everything). */
  function Placed(sign: string, whole: nat, frac: nat, decimals: nat): string {
    if decimals == 0 then sign + Numeral(whole)
    else sign + Numeral(whole) + "." + PadStart(Numeral(frac), decimals)
  }

  // ---- the shapes meet ----

  lemma {:induction false} DigitsHoldNoDot(s: string)
    requires AllDigits(s)
    ensures '.' !in s
    ensures s != "" ==> IsTrimmed(s)
  {
  }

  predicate IsSign(sign: string) {
    sign == "" || sign == "+" || sign == "-"
  }

  /** What reading a decimal string means, once its parts are known. */
  predicate Reads(raw: string, sign: string, whole: string, frac: string) {
    && WholePart(raw) == whole
    && FractionPart(raw) == frac
    && (Negative(raw) <==> sign == "-")
    && |Split(Unsigned(raw), ".")| <= 2
  }

  /** A sign, a whole part and an optional fraction are read back as such. */
  lemma {:induction false} Dissect(sign: string, whole: string, frac: string)
    requires IsSign(sign) && AllDigits(whole) && AllDigits(frac)
    ensures Unsigned(sign + whole + "." + frac) == whole + "." + frac
    ensures Reads(sign + whole + "." + frac, sign, whole, frac)
  {
    hide Split, IndexOf;
    DigitsHoldNoDot(whole);
    DigitsHoldNoDot(frac);
    SplitHead(whole, frac, ".");
    SplitHead(frac, "", ".");
    SignStripped(sign, whole + "." + frac);
    assert sign + whole + "." + frac == sign + (whole + "." + frac);
  }

  lemma {:induction false} DissectWhole(sign: string, whole: string)
    requires IsSign(sign) && AllDigits(whole) && whole != ""
    ensures Unsigned(sign + whole) == whole
    ensures Reads(sign + whole, sign, whole, "")
  {
    hide Split, IndexOf;
    DigitsHoldNoDot(whole);
    SplitHead(whole, "", ".");
    SignStripped(sign, whole);
  }

  lemma {:induction false} SignStripped(sign: string, body: string)
    requires IsSign(sign) && body != "" && body[0] != '+' && body[0] != '-'
    ensures Unsigned(sign + body) == body
    ensures Negative(sign + body) <==> sign == "-"
  {
    var raw := sign + body;
    assert raw[0] == if sign == "" then body[0] else sign[0];
    assert raw[..1] == [raw[0]];
    if sign != "" { assert raw[1..] == body; }
  }

  function SignOf(raw: string): string {
    if StartsWith(raw, "+") || StartsWith(raw, "-") then raw[..1] else ""
  }

  lemma {:induction false} SignAndBody(raw: string)
    ensures raw == SignOf(raw) + Unsigned(raw)
    ensures IsSign(SignOf(raw)) && (SignOf(raw) == "-" <==> Negative(raw))
    ensures SignOf(raw) == "" <==> Unsigned(raw) == raw
    ensures '.' !in SignOf(raw)
  {
    if SignOf(raw) != "" {
      assert |Unsigned(raw)| < |raw|;
    }
  }

  /** Every decimal string is of that form. */
  lemma {:induction false} DecimalForm(raw: string)
    requires IsDecimal(raw)
    ensures AllDigits(WholePart(raw)) && AllDigits(FractionPart(raw))
    ensures IsTrimmed(raw) && raw != ""
    ensures Unsigned(raw) == WholePart(raw) || Unsigned(raw) == WholePart(raw) + "." + FractionPart(raw)
    ensures '.' in raw <==> Unsigned(raw) == WholePart(raw) + "." + FractionPart(raw)
    ensures '.' !in raw ==> FractionPart(raw) == ""
  {
    var whole, frac := WholePart(raw), FractionPart(raw);
    JoinParts(Unsigned(raw));
    SignAndBody(raw);
    DigitsHoldNoDot(whole);
    DigitsHoldNoDot(frac);
    hide Split, Unsigned, SignOf, WholePart, FractionPart, AllDigits;
    EndsOfDecimal(raw, SignOf(raw), Unsigned(raw), whole, frac);
  }

  /** Up to two pieces around points make up the text again. */
  lemma {:induction false} JoinParts(u: string)
    requires |Split(u, ".")| <= 2
    ensures var parts := Split(u, ".");
            if |parts| == 2 then u == parts[0] + "." + parts[1] else u == parts[0]
  {
    SplitJoin(u, ".");
    var parts := Split(u, ".");
    hide Split;
    if |parts| == 2 {
      assert Join(parts[1..], ".") == parts[1];
    }
  }

  lemma {:induction false} EndsOfDecimal(raw: string, sign: string, body: string, whole: string, frac: string)
    requires IsSign(sign) && raw == sign + body && AllDigits(whole) && AllDigits(frac) && (whole != "" || frac != "")
    requires body == whole + "." + frac || (body == whole && frac == "")
    ensures IsTrimmed(raw) && raw != ""
    ensures '.' in raw <==> body == whole + "." + frac
  {
    assert raw[|raw| - 1] == body[|body| - 1];
    assert body[|body| - 1] == '.' || IsDigit(body[|body| - 1]);
    assert raw[0] == (if sign == "" then body else sign)[0];
    if body == whole {
      assert '.' !in sign && '.' !in whole;
    } else {
      assert raw[|sign| + |whole|] == '.';
    }
  }

  /** The grammar in its own terms: an optional sign, then digits, or digits
      around a point with at least one digit in all. */
  predicate HasParts(raw: string, sign: string, whole: string, frac: string) {
    && IsSign(sign) && AllDigits(whole) && AllDigits(frac)
    && ((raw == sign + whole && whole != "")
        || (raw == sign + whole + "." + frac && (whole != "" || frac != "")))
  }

  ghost predicate MatchesGrammar(raw: string) {
    exists sign, whole, frac :: HasParts(raw, sign, whole, frac)
  }

  lemma {:induction false} DecimalIsGrammar(raw: string)
    ensures IsDecimal(raw) <==> MatchesGrammar(raw)
  {
    hide IsDecimal, MatchesGrammar;
    if IsDecimal(raw) { DecimalMatches(raw); }
    if MatchesGrammar(raw) { MatchesDecimal(raw); }
  }

  lemma {:induction false} DecimalMatches(raw: string)
    requires IsDecimal(raw)
    ensures MatchesGrammar(raw)
  {
    var sign, whole, frac := SignOf(raw), WholePart(raw), FractionPart(raw);
    assert whole != "" || frac != "";
    hide *;
    DecimalForm(raw);
    SignAndBody(raw);
    PartsOf(raw, sign, whole, frac);
    WitnessesGrammar(raw, sign, whole, frac);
  }

  lemma {:induction false} PartsOf(raw: string, sign: string, whole: string, frac: string)
    requires IsSign(sign) && AllDigits(whole) && AllDigits(frac) && (whole != "" || frac != "")
    requires raw == sign + whole + "." + frac || raw == sign + (whole + "." + frac)
             || (raw == sign + whole && frac == "")
    ensures HasParts(raw, sign, whole, frac)
  {
    assert sign + (whole + "." + frac) == sign + whole + "." + frac;
  }

  lemma {:induction false} WitnessesGrammar(raw: string, sign: string, whole: string, frac: string)
    requires HasParts(raw, sign, whole, frac)
    ensures MatchesGrammar(raw)
  {
  }

  lemma {:induction false} MatchesDecimal(raw: string)
    requires MatchesGrammar(raw)
    ensures IsDecimal(raw)
  {
    hide Split, IndexOf, WholePart, FractionPart, Unsigned;
    var sign, whole, frac :| HasParts(raw, sign, whole, frac);
    if raw == sign + whole && whole != "" {
      DissectWhole(sign, whole);
    } else {
      Dissect(sign, whole, frac);
    }
  }

  /** Exactly the decimal texts are read, and those with too many fraction
      digits only when the caller states a mode. */
  lemma {:induction false} ParseAccepts(s: string, decimals: int, rounding: Option<Mode>)
    ensures ParseMinor(Text(s), decimals, rounding).Ok? <==>
              && 0 <= decimals <= MAX_DECIMALS
              && MatchesGrammar(Trim(s))
              && (rounding.Some? || |FractionPart(Trim(s))| <= decimals)
  {
    hide Split, IsDecimal, Trim, Value, Pow10, Rounded, MatchesGrammar, FractionPart, WholePart;
    DecimalIsGrammar(Trim(s));
    if MatchesGrammar(Trim(s)) { DecimalForm(Trim(s)); }
  }

  /** Why text is refused, each reason in its turn; big integers count as minor
      units already. */
  lemma {:induction false} ParseRefused(s: string, decimals: int, rounding: Option<Mode>)
    ensures var r := ParseMinor(Text(s), decimals, rounding);
            var places := 0 <= decimals <= 18;
            && (r == Err(BadDecimals) <==> !places)
            && (r == Err(EmptyAmount) <==> places && Blank(s))
            && (r == Err(NotDecimal) <==> places && !Blank(s) && !MatchesGrammar(Trim(s)))
            && (r == Err(ExcessPrecision) <==> places && MatchesGrammar(Trim(s)) && rounding.None?
                                                && |FractionPart(Trim(s))| > decimals)
    ensures forall n ::
              ParseMinor(BigInt(n), decimals, rounding) == if 0 <= decimals <= 18 then Ok(n) else Err(BadDecimals)
  {
    hide Split, IsDecimal, Trim, Value, Pow10, Rounded, MatchesGrammar, FractionPart, WholePart;
    DecimalIsGrammar(Trim(s));
    TrimEmpty(s);
    if MatchesGrammar(Trim(s)) { DecimalForm(Trim(s)); }
  }

  lemma {:induction false} TrimFixed(s: string)
    requires IsTrimmed(s)
    ensures Trim(s) == s
  {
  }

  // ---- parse after print ----

  lemma {:induction false} PlacedReads(sign: string, whole: nat, frac: nat, decimals: nat)
    requires IsSign(sign) && frac < Pow10(decimals)
    ensures var s := Placed(sign, whole, frac, decimals);
            var f := if decimals == 0 then "" else PadStart(Numeral(frac), decimals);
            Reads(s, sign, Numeral(whole), f) && AllDigits(f) && |f| == decimals && Value(f) == frac
            && IsDecimal(s) && (decimals > 0 ==> '.' in s)
  {
    hide Split, IndexOf, Value, Numeral;
    var w := Numeral(whole);
    DigitsHoldNoDot(w);
    if decimals == 0 {
      DissectWhole(sign, w);
      assert Value("") == 0 by { ValueZeros(0); assert Zeros(0) == ""; }
    } else {
      NumeralLength(frac, decimals);
      PadStartValue(Numeral(frac), decimals);
      ValueNumeral(frac);
      Dissect(sign, w, PadStart(Numeral(frac), decimals));
    }
  }

  /** Reading back what was printed gives the amount, whatever the mode. */
  lemma {:induction false} ParseOfPrint(minor: int, decimals: nat, rounding: Option<Mode>)
    requires decimals <= MAX_DECIMALS
    ensures ParseMinor(Text(Printed(minor, decimals)), decimals, rounding) == Ok(minor)
  {
    hide Placed, Pow10, ParseMinor;
    var unit := Pow10(decimals);
    DivModIdentity(Abs(minor), unit);
    ParseOfPlaced(if minor < 0 then "-" else "", Abs(minor) / unit, Abs(minor) % unit, decimals, rounding);
  }

  lemma {:induction false} ParseOfPlaced(sign: string, whole: nat, frac: nat, decimals: nat, rounding: Option<Mode>)
    requires IsSign(sign) && frac < Pow10(decimals) && decimals <= MAX_DECIMALS
    ensures var abs := whole * Pow10(decimals) + frac;
            ParseMinor(Text(Placed(sign, whole, frac, decimals)), decimals, rounding)
            == Ok(if sign == "-" then -abs else abs)
  {
    hide Split, IndexOf, Value, Numeral, Pow10, Trim, TrimStart, TrimEnd, Placed;
    var s := Placed(sign, whole, frac, decimals);
    PlacedReads(sign, whole, frac, decimals);
    ValueNumeral(whole);
    DecimalForm(s);
    TrimFixed(s);
  }

  /** The strings the printer can produce: a sign only in front of a non-zero
      amount, no superfluous leading zero, exactly `decimals` places. */
  predicate IsCanonical(s: string, decimals: nat) {
    && IsDecimal(s)
    && !StartsWith(s, "+")
    && IsNumeral(WholePart(s))
    && |FractionPart(s)| == decimals
    && ('.' in s <==> decimals > 0)
    && (Negative(s) ==> Value(WholePart(s) + FractionPart(s)) != 0)
  }

  lemma {:induction false} PrintIsCanonical(minor: int, decimals: nat)
    ensures IsCanonical(Printed(minor, decimals), decimals)
  {
    var unit := Pow10(decimals);
    DivModIdentity(Abs(minor), unit);
    PlacedIsCanonical(if minor < 0 then "-" else "", Abs(minor) / unit, Abs(minor) % unit, decimals);
  }

  lemma {:induction false} PlacedIsCanonical(sign: string, whole: nat, frac: nat, decimals: nat)
    requires sign == "" || sign == "-"
    requires frac < Pow10(decimals)
    requires sign == "-" ==> whole * Pow10(decimals) + frac != 0
    ensures IsCanonical(Placed(sign, whole, frac, decimals), decimals)
  {
    hide Split, IndexOf, Value, Numeral, Pow10;
    var s := Placed(sign, whole, frac, decimals);
    PlacedReads(sign, whole, frac, decimals);
    NumeralShape(whole);
    ValueNumeral(whole);
    ValueConcat(WholePart(s), FractionPart(s));
    DigitsHoldNoDot(Numeral(whole));
  }

  /** Every canonical string is what its own amount prints as; so printing
      after parsing is the unique canonical form of an amount. */
  lemma {:induction false} PrintOfParse(s: string, decimals: nat)
    requires decimals <= MAX_DECIMALS && IsCanonical(s, decimals)
    ensures ParseMinor(Text(s), decimals, None).Ok?
    ensures Printed(ParseMinor(Text(s), decimals, None).value, decimals) == s
  {
    hide Split, IndexOf, Value, Numeral, Pow10, Trim, TrimStart, TrimEnd, Placed;
    var w, f := Value(WholePart(s)), Value(FractionPart(s));
    var unit := Pow10(decimals);
    var abs: int := w * unit + f;
    DecimalForm(s);
    TrimFixed(s);
    ValueConcat(WholePart(s), FractionPart(s));
    ValueBound(FractionPart(s));
    MulNonNeg(w, unit);
    DivModUnique(abs, unit, w, f);
    CanonicalIsPlaced(s, decimals);
    assert ParseMinor(Text(s), decimals, None) == Ok(if Negative(s) then -abs else abs);
  }

  lemma {:induction false} SignThenBody(s: string)
    requires !StartsWith(s, "+")
    ensures s == (if Negative(s) then "-" else "") + Unsigned(s)
  {
    if Negative(s) { assert s == s[..1] + s[1..]; }
  }

  lemma {:induction false} CanonicalIsPlaced(s: string, decimals: nat)
    requires IsCanonical(s, decimals)
    ensures Placed(if Negative(s) then "-" else "", Value(WholePart(s)), Value(FractionPart(s)), decimals) == s
  {
    hide Split, IndexOf, Value, Numeral, PadStart, WholePart, FractionPart, Unsigned, Negative, IsTrimmed;
    var whole, frac := WholePart(s), FractionPart(s);
    var sign := if Negative(s) then "-" else "";
    DecimalForm(s);
    SignThenBody(s);
    NumeralOfValue(whole);
    if decimals == 0 {
      assert s == sign + whole;
    } else {
      PaddedNumeral(frac);
      assert s == sign + (whole + "." + frac) == sign + whole + "." + frac;
    }
  }

  /** Padding the numeral of a digit string's value restores the string. */
  lemma {:induction false} PaddedNumeral(frac: string)
    requires AllDigits(frac) && frac != ""
    ensures PadStart(Numeral(Value(frac)), |frac|) == frac
  {
    hide Numeral;
    ValueBound(frac);
    NumeralLength(Value(frac), |frac|);
    PadStartValue(Numeral(Value(frac)), |frac|);
    ValueNumeral(Value(frac));
    ValueInjective(PadStart(Numeral(Value(frac)), |frac|), frac);
  }

  // ---- parsing is exact rounding ----

  /** The digits of a decimal string as one signed integer; its exact value is
      this over ten to the number of fraction digits. */
  function SignedDigits(raw: string): int
    requires IsDecimal(raw)
  {
    ValueConcat(WholePart(raw), FractionPart(raw));
    var v: int := Value(WholePart(raw) + FractionPart(raw));
    if Negative(raw) then -v else v
  }

  /** The exact value in minor units, rounded once in the given direction. */
  function ExactlyRounded(raw: string, decimals: nat, mode: Mode): int
    requires IsDecimal(raw)
  {
    Rounded(SignedDigits(raw) * Pow10(decimals), Pow10(|FractionPart(raw)|), mode)
  }

  /** The digits that do not fit. */
  function Dropped(raw: string, decimals: nat): nat
    requires IsDecimal(raw)
  {
    if |FractionPart(raw)| > decimals then Value(FractionPart(raw)[decimals..]) else 0
  }

  /** The magnitude is what gets rounded: a leading minus turns floor and ceil
      around, and nothing else ever differs from exact rounding. */
  lemma {:induction false} ParseIsExactRounding(raw: string, decimals: nat, mode: Mode)
    requires IsDecimal(raw)
    ensures ParseDecimal(raw, decimals, Some(mode))
         == Ok(ExactlyRounded(raw, decimals, if Negative(raw) then Mirror(mode) else mode))
  {
    hide Rounded, Pow10, Value, ParseMagnitude, WholePart, FractionPart, Negative;
    var whole, frac := WholePart(raw), FractionPart(raw);
    MagnitudeIsExactRounding(whole, frac, decimals, mode);
    if Negative(raw) {
      var v := Value(whole + frac);
      RoundedNegate(v * Pow10(decimals), Pow10(|frac|), Mirror(mode));
      MulSub(0, v, Pow10(decimals));
    }
  }

  lemma {:induction false} MagnitudeIsExactRounding(whole: string, frac: string, decimals: nat, mode: Mode)
    requires AllDigits(whole) && AllDigits(frac)
    ensures ParseMagnitude(whole, frac, decimals, Some(mode))
         == Ok(Rounded(Value(whole + frac) * Pow10(decimals), Pow10(|frac|), mode))
  {
    hide Rounded, Pow10, Value;
    var n := |frac|;
    ValueConcat(whole, frac);
    if n <= decimals {
      PadEndValue(frac, decimals);
      Pow10Add(n, decimals - n);
      ShortFraction(Value(whole), Value(frac), Pow10(n), Pow10(decimals - n));
      RoundedExact(Value(whole) * Pow10(decimals) + Value(frac) * Pow10(decimals - n), Pow10(n), mode);
    } else {
      Pow10Add(n - decimals, decimals);
      RoundedScaleInvariant(Value(whole + frac), Pow10(n - decimals), Pow10(decimals), mode);
    }
  }

  lemma {:induction false} ShortFraction(w: int, f: int, p: int, k: int)
    ensures (w * p + f) * (p * k) == (w * (p * k) + f * k) * p
  {
    calc {
      (w * p + f) * (p * k);
      { MulAdd(w * p, f, p * k); }
      (w * p) * (p * k) + f * (p * k);
      { MulAssoc(w, p, p * k); MulAssoc(f, k, p); MulAssoc(f, p, k); }
      (w * (p * k)) * p + (f * k) * p;
      { MulAdd(w * (p * k), f * k, p); }
      (w * (p * k) + f * k) * p;
    }
  }

  /** The dropped digits are zero exactly when nothing has to be rounded. */
  lemma {:induction false} DroppedIsRemainder(raw: string, decimals: nat)
    requires IsDecimal(raw)
    ensures (SignedDigits(raw) * Pow10(decimals)) % Pow10(|FractionPart(raw)|) == 0
       <==> Dropped(raw, decimals) == 0
  {
    hide Pow10, Value, WholePart, FractionPart, Negative;
    var whole, frac := WholePart(raw), FractionPart(raw);
    ValueConcat(whole, frac);
    var v := Value(whole + frac);
    MagnitudeRemainder(whole, frac, decimals);
    NegatedRemainder(v * Pow10(decimals), Pow10(|frac|));
    MulSub(0, v, Pow10(decimals));
  }

  lemma {:induction false} MagnitudeRemainder(whole: string, frac: string, decimals: nat)
    requires AllDigits(whole) && AllDigits(frac)
    ensures AllDigits(whole + frac)
    ensures (Value(whole + frac) * Pow10(decimals)) % Pow10(|frac|) == 0
       <==> |frac| <= decimals || Value(frac[decimals..]) == 0
  {
    hide Pow10, Value;
    var n := |frac|;
    ValueConcat(whole, frac);
    var v := Value(whole + frac);
    if n <= decimals {
      Pow10Add(decimals - n, n);
      MulAssoc(v, Pow10(decimals - n), Pow10(n));
      DivModUnique(v * Pow10(decimals), Pow10(n), v * Pow10(decimals - n), 0);
    } else {
      var kept, lost := whole + frac[..decimals], frac[decimals..];
      assert kept + lost == whole + frac;
      ValueConcat(whole, frac[..decimals]);
      ValueCut(kept, lost);
      Pow10Add(n - decimals, decimals);
      DivModScale(v, Pow10(n - decimals), Pow10(decimals));
      MulCompare(0, Value(lost), Pow10(decimals));
    }
  }

  lemma {:induction false} NegatedRemainder(n: int, d: int)
    requires d > 0
    ensures n % d == 0 <==> (-n) % d == 0
  {
    NegatedMultiple(n, d);
    NegatedMultiple(-n, d);
  }

  lemma {:induction false} NegatedMultiple(n: int, d: int)
    requires d > 0
    ensures n % d == 0 ==> (-n) % d == 0
  {
    DivModIdentity(n, d);
    if n % d == 0 {
      MulSub(0, n / d, d);
      DivModUnique(-n, d, -(n / d), 0);
    }
  }

  /** Floor and ceil meet exactly on the multiples. */
  lemma {:induction false} FloorIsCeil(num: int, den: int)
    requires den > 0
    ensures Rounded(num, den, Floor) == Rounded(num, den, Ceil) <==> num % den == 0
  {
    var q := Rounded(num, den, Floor);
    RoundedMeetsMode(num, den, Floor);
    RoundedMeetsMode(num, den, Ceil);
    DivModUnique(num, den, q, num - q * den);
    if num % den == 0 { RoundedExact(q, den, Ceil); }
  }

  /** When the parser agrees with rounding the signed value itself: always,
      except for a directed mode on a minus sign that loses non-zero digits. */
  lemma {:induction false} ParseRoundsSignedValue(raw: string, decimals: nat, mode: Mode)
    requires IsDecimal(raw)
    ensures ParseDecimal(raw, decimals, Some(mode)) == Ok(ExactlyRounded(raw, decimals, mode))
       <==> !(Negative(raw) && (mode.Floor? || mode.Ceil?) && Dropped(raw, decimals) != 0)
  {
    ParseIsExactRounding(raw, decimals, mode);
    DroppedIsRemainder(raw, decimals);
    FloorIsCeil(SignedDigits(raw) * Pow10(decimals), Pow10(|FractionPart(raw)|));
  }

  /** The family is not empty: -0.005 floored to two places parses as 0. */
  lemma {:induction false} NegativeFloorWitness()
    ensures IsDecimal("-0.005")
    ensures ParseDecimal("-0.005", 2, Some(Floor)) == Ok(0)
    ensures ExactlyRounded("-0.005", 2, Floor) == -1
  {
    hide Split, IndexOf, Value, WholePart, FractionPart, Unsigned, Negative, Rounded, ParseDecimal;
    var raw := "-0.005";
    Dissect("-", "0", "005");
    assert raw == "-" + "0" + "." + "005";
    assert "0" + "005" == Zeros(3) + "5";
    ValueConcat(Zeros(3), "5");
    ValueZeros(3);
    assert Value("5") == 5 by { ValueNumeral(5); }
    assert SignedDigits(raw) * Pow10(2) == -500 && Pow10(3) == 1000;
    ParseIsExactRounding(raw, 2, Floor);
    RoundedCharacterised(-500, 1000, Floor, -1);
    RoundedCharacterised(-500, 1000, Ceil, 0);
  }

  /** Trailing zeros of a fraction carry no value. They are accepted whenever
      a mode is given; without one they count as excess precision, so the
      result is kept exactly when they fit or the text was refused before. */
  lemma {:induction false} AppendZeros(raw: string, k: nat, decimals: nat, rounding: Option<Mode>)
    requires IsDecimal(raw) && '.' in raw
    ensures IsDecimal(raw + Zeros(k))
    ensures ParseDecimal(raw + Zeros(k), decimals, rounding) == ParseDecimal(raw, decimals, rounding)
       <==> rounding.Some? || |FractionPart(raw)| > decimals || |FractionPart(raw)| + k <= decimals
  {
    hide Split, IndexOf, Value, WholePart, FractionPart, Unsigned, Negative, Rounded, Pow10, SignedDigits, IsTrimmed,
         Zeros, PadEnd;
    ZerosRead(raw, k);
    var mode := match rounding case None => Trunc case Some(m) => m;
    SameExactValue(raw, raw + Zeros(k), k, decimals, mode);
  }

  /** One appended zero turns 0.5 at one place from an amount into an error. */
  lemma {:induction false} AppendZerosWitness()
    ensures IsDecimal("0.5") && ParseDecimal("0.5", 1, None) == Ok(5)
    ensures IsDecimal("0.50") && ParseDecimal("0.50", 1, None) == Err(ExcessPrecision)
  {
    hide Split, IndexOf, Value, WholePart, FractionPart, Unsigned, Negative, Numeral;
    assert "0.5" == "" + "0" + "." + "5" && "0.50" == "" + "0" + "." + "50";
    Dissect("", "0", "5");
    Dissect("", "0", "50");
    assert Value("0") == 0 by { ValueNumeral(0); NumeralsOfDigits(); }
    assert Value("5") == 5 by { ValueNumeral(5); NumeralsOfDigits(); }
    assert PadEnd("5", 1) == "5" && Pow10(1) == 10;
  }

  lemma {:induction false} NumeralsOfDigits()
    ensures Numeral(0) == "0" && Numeral(1) == "1" && Numeral(5) == "5"
  {
  }

  /** The extended text has the same sign and whole part and a longer fraction. */
  lemma {:induction false} ZerosRead(raw: string, k: nat)
    requires IsDecimal(raw) && '.' in raw
    ensures var raw' := raw + Zeros(k);
            Reads(raw', if Negative(raw) then "-" else "", WholePart(raw), FractionPart(raw) + Zeros(k))
            && IsDecimal(raw')
            && SignedDigits(raw') == SignedDigits(raw) * Pow10(k)
  {
    hide Split, IndexOf, Value, WholePart, FractionPart, Pow10, IsTrimmed, Unsigned, SignOf, Negative, Zeros;
    var whole, frac := WholePart(raw), FractionPart(raw);
    DecimalForm(raw);
    SignAndBody(raw);
    assert raw + Zeros(k) == SignOf(raw) + whole + "." + (frac + Zeros(k));
    ValueConcat(frac, Zeros(k));
    Dissect(SignOf(raw), whole, frac + Zeros(k));
    ZerosScaleDigits(whole, frac, k);
    MulSub(0, Value(whole + frac), Pow10(k));
  }

  lemma {:induction false} ZerosScaleDigits(whole: string, frac: string, k: nat)
    requires AllDigits(whole) && AllDigits(frac)
    ensures AllDigits(whole + (frac + Zeros(k))) && AllDigits(whole + frac)
    ensures Value(whole + (frac + Zeros(k))) == Value(whole + frac) * Pow10(k)
  {
    assert whole + (frac + Zeros(k)) == (whole + frac) + Zeros(k);
    ValueConcat(whole, frac);
    ValueConcat(whole + frac, Zeros(k));
    ValueZeros(k);
  }

  lemma {:induction false} SameExactValue(raw: string, raw': string, k: nat, decimals: nat, mode: Mode)
    requires IsDecimal(raw) && IsDecimal(raw') && (Negative(raw) <==> Negative(raw'))
    requires |FractionPart(raw')| == |FractionPart(raw)| + k
    requires SignedDigits(raw') == SignedDigits(raw) * Pow10(k)
    ensures ParseDecimal(raw', decimals, Some(mode)) == ParseDecimal(raw, decimals, Some(mode))
  {
    hide Split, Value, WholePart, FractionPart, Negative, Rounded, Pow10, SignedDigits, ParseDecimal;
    ParseIsExactRounding(raw, decimals, mode);
    ParseIsExactRounding(raw', decimals, mode);
    var x := SignedDigits(raw);
    var m := if Negative(raw) then Mirror(mode) else mode;
    Pow10Add(|FractionPart(raw)|, k);
    MulAssoc(x, Pow10(k), Pow10(decimals));
    RoundedScaleInvariant(x * Pow10(decimals), Pow10(|FractionPart(raw)|), Pow10(k), m);
  }
}
