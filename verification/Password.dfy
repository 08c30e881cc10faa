/** The self-describing password hash (lib/auth/password.ts). */
module Password {
  import opened Wrappers
  import opened JsText
  import opened Arith
  import opened Decimal
  import opened Base64

  datatype Params = Params(n: nat, r: nat, p: nat)

  const POLICY := Params(131072, 8, 1)
  const KEY_LENGTH := 32
  const MIN_PASSWORD_LENGTH := 12
  const MAX_PASSWORD_LENGTH := 256
  const MAX_COST := 4194304

  datatype PasswordError = TooShort | TooLong | NoLetter | NoDigit | ScryptFailed

  /** The platform: `scrypt` of password, salt, key length and parameters,
      which may throw, and `Number` of a text, absent when not an integer. */
  datatype Hasher = Hasher(
    scrypt: (string, seq<Byte>, nat, Params) -> Option<seq<Byte>>,
    number: string -> Option<int>)

  /** scrypt delivers the length asked for, and the numerals of every cost that
      is ever accepted read as their numbers. `Number` is not exact above 2^53. */
  ghost predicate Sound(h: Hasher) {
    && (forall w, salt, len, params ::
          h.scrypt(w, salt, len, params).Some? ==> |h.scrypt(w, salt, len, params).value| == len)
    && (forall n: nat :: n <= MAX_COST ==> h.number(Numeral(n)) == Some(n))
  }

  // ---- bits ----

  /** `a & b` of non-negative integers. */
  function BitAnd(a: nat, b: nat): nat {
    if a == 0 || b == 0 then 0 else (a % 2) * (b % 2) + 2 * BitAnd(a / 2, b / 2)
  }

  lemma {:induction false} BitAndSelf(a: nat)
    ensures BitAnd(a, a) == a
  {
    if a != 0 { BitAndSelf(a / 2); }
  }

  lemma {:induction false} PowersPass(k: nat)
    ensures BitAnd(Pow2(k), Pow2(k) - 1) == 0
  {
    if k > 0 {
      PowersPass(k - 1);
      assert (2 * Pow2(k - 1) - 1) / 2 == Pow2(k - 1) - 1;
    }
  }

  lemma {:induction false} PassersArePowers(n: nat) returns (k: nat)
    requires n > 0 && BitAnd(n, n - 1) == 0
    ensures n == Pow2(k)
  {
    if n % 2 == 1 {
      BitAndSelf(n / 2);
      assert (n - 1) / 2 == n / 2;
      k := 0;
    } else {
      assert (n - 1) / 2 == n / 2 - 1;
      k := PassersArePowers(n / 2);
      k := k + 1;
    }
  }

  /** The bit trick accepts exactly the powers of two. */
  lemma {:induction false} PowerOfTwoTest(n: nat)
    requires n > 0
    ensures BitAnd(n, n - 1) == 0 <==> exists k :: n == Pow2(k)
  {
    if BitAnd(n, n - 1) == 0 {
      var k := PassersArePowers(n);
    }
    if k :| n == Pow2(k) {
      PowersPass(k);
    }
  }

  // ---- policy ----

  predicate IsLetter(c: char) { 'A' <= c <= 'Z' || 'a' <= c <= 'z' }

  function Policy(password: string): Option<PasswordError> {
    if |password| < MIN_PASSWORD_LENGTH then Some(TooShort)
    else if |password| > MAX_PASSWORD_LENGTH then Some(TooLong)
    else if forall k :: 0 <= k < |password| ==> !IsLetter(password[k]) then Some(NoLetter)
    else if forall k :: 0 <= k < |password| ==> !IsDigit(password[k]) then Some(NoDigit)
    else None
  }

  // ---- the stored format ----

  datatype Parsed = Parsed(params: Params, salt: seq<Byte>, hash: seq<Byte>)

  function Printed(x: Parsed): string {
    "scrypt" + "$" + (Numeral(x.params.n) + "$" + (Numeral(x.params.r) + "$" + (Numeral(x.params.p) + "$"
    + (EncodeUrl(x.salt) + "$" + EncodeUrl(x.hash)))))
  }

  /** The bounds a stored hash must keep. The source tests the bits before the
      upper end; above it the answer is no either way. */
  predicate InBounds(n: int, r: int, p: int) {
    && 2 <= n <= MAX_COST && BitAnd(n, n - 1) == 0
    && 1 <= r <= 32
    && 1 <= p <= 16
  }

  function Parse(h: Hasher, stored: string): Option<Parsed> {
    var parts := Split(stored, "$");
    if |parts| != 6 || parts[0] != "scrypt" then None
    else
      match (h.number(parts[1]), h.number(parts[2]), h.number(parts[3]))
      case (Some(n), Some(r), Some(p)) =>
        if InBounds(n, r, p) then Some(Parsed(Params(n, r, p), Decode(parts[4]), Decode(parts[5]))) else None
      case _ => None
  }

  function HashPassword(h: Hasher, password: string, salt: seq<Byte>): Result<string, PasswordError> {
    match Policy(password)
    case Some(e) => Err(e)
    case None =>
      match h.scrypt(password, salt, KEY_LENGTH, POLICY)
      case None => Err(ScryptFailed)
      case Some(derived) => Ok(Printed(Parsed(POLICY, salt, derived)))
  }

  predicate VerifyPassword(h: Hasher, password: string, stored: string) {
    match Parse(h, stored)
    case None => false
    case Some(x) =>
      0 < |password| <= MAX_PASSWORD_LENGTH && h.scrypt(password, x.salt, |x.hash|, x.params) == Some(x.hash)
  }

  predicate NeedsRehash(h: Hasher, stored: string) {
    match Parse(h, stored)
    case None => true
    case Some(x) => x.params.n < POLICY.n || x.params.r < POLICY.r || x.params.p < POLICY.p
  }

  // ---- reading back ----

  lemma {:induction false} NumeralHasNoDollar(n: nat)
    ensures '$' !in Numeral(n)
  {
  }

  lemma {:induction false} UrlHasNoDollar(bytes: seq<Byte>)
    ensures '$' !in EncodeUrl(bytes)
  {
    hide EncodeUrl;
    EncodeUrlForm(bytes);
  }

  /** Url text decodes without repadding, too. */
  lemma {:induction false} DecodeUnpadded(bytes: seq<Byte>)
    ensures Decode(EncodeUrl(bytes)) == bytes
  {
    hide EncodeUrl, Sextets, Bytes;
    var s := Sextets(bytes);
    EncodeUrlForm(bytes);
    ReadMapped(s);
    BytesOfSextets(bytes);
  }

  lemma {:induction false} ReadMapped(s: seq<Sextet>)
    ensures Read(MapChars(ToUrlChar, Chars(s))) == s
  {
    if s != [] {
      ReadMapped(s[1..]);
      assert MapChars(ToUrlChar, Chars(s))[1..] == MapChars(ToUrlChar, Chars(s[1..]));
      assert CharSextet(ToUrlChar(SextetChar(s[0]))) == s[0];
    }
  }

  lemma {:induction false} PrintedParts(x: Parsed)
    ensures Split(Printed(x), "$")
         == ["scrypt", Numeral(x.params.n), Numeral(x.params.r), Numeral(x.params.p),
             EncodeUrl(x.salt), EncodeUrl(x.hash)]
  {
    hide Split, IndexOf, Numeral, EncodeUrl;
    var n, r, p := Numeral(x.params.n), Numeral(x.params.r), Numeral(x.params.p);
    var salt, hash := EncodeUrl(x.salt), EncodeUrl(x.hash);
    NumeralHasNoDollar(x.params.n);
    NumeralHasNoDollar(x.params.r);
    NumeralHasNoDollar(x.params.p);
    UrlHasNoDollar(x.salt);
    UrlHasNoDollar(x.hash);
    SplitHead(hash, "", "$");
    SplitHead(salt, hash, "$");
    SplitHead(p, salt + "$" + hash, "$");
    SplitHead(r, p + "$" + (salt + "$" + hash), "$");
    SplitHead(n, r + "$" + (p + "$" + (salt + "$" + hash)), "$");
    SplitHead("scrypt", n + "$" + (r + "$" + (p + "$" + (salt + "$" + hash))), "$");
  }

  /** Parsing a printed hash gives back its parameters, salt and hash. */
  lemma {:induction false} ParseOfPrinted(h: Hasher, x: Parsed)
    requires Sound(h) && InBounds(x.params.n, x.params.r, x.params.p)
    ensures Parse(h, Printed(x)) == Some(x)
  {
    hide Split, Numeral, EncodeUrl, Decode, BitAnd, Printed;
    PrintedParts(x);
    DecodeUnpadded(x.salt);
    DecodeUnpadded(x.hash);
  }

  lemma {:induction false} PolicyInBounds()
    ensures InBounds(POLICY.n, POLICY.r, POLICY.p)
  {
    var k := 17;
    assert Pow2(10) == 1024;
    assert Pow2(17) == 131072;
    PowersPass(17);
  }

  /** A fresh hash verifies its password and meets the current policy. */
  lemma {:induction false} FreshHash(h: Hasher, password: string, salt: seq<Byte>)
    requires Sound(h) && HashPassword(h, password, salt).Ok?
    ensures VerifyPassword(h, password, HashPassword(h, password, salt).value)
    ensures !NeedsRehash(h, HashPassword(h, password, salt).value)
  {
    hide Parse, Printed, InBounds;
    var derived := h.scrypt(password, salt, KEY_LENGTH, POLICY).value;
    PolicyInBounds();
    ParseOfPrinted(h, Parsed(POLICY, salt, derived));
  }

  /** The parameters travel with the hash: verification uses those it was made
      with, and it counts as outdated exactly below the current N or r. */
  lemma {:induction false} ParametersTravel(h: Hasher, x: Parsed, password: string)
    requires Sound(h) && InBounds(x.params.n, x.params.r, x.params.p)
    ensures VerifyPassword(h, password, Printed(x)) <==>
              0 < |password| <= MAX_PASSWORD_LENGTH
              && h.scrypt(password, x.salt, |x.hash|, x.params) == Some(x.hash)
    ensures NeedsRehash(h, Printed(x)) <==> x.params.n < POLICY.n || x.params.r < POLICY.r
  {
    hide Parse, Printed;
    ParseOfPrinted(h, x);
  }

  /** A password is hashed exactly when it has 12 to 256 characters with a
      letter and a digit among them, and scrypt itself succeeds. */
  lemma {:induction false} HashAccepts(h: Hasher, password: string, salt: seq<Byte>)
    ensures HashPassword(h, password, salt).Ok? <==>
              && 12 <= |password| <= 256
              && (exists k :: 0 <= k < |password| && ('A' <= password[k] <= 'Z' || 'a' <= password[k] <= 'z'))
              && (exists k :: 0 <= k < |password| && '0' <= password[k] <= '9')
              && h.scrypt(password, salt, 32, Params(131072, 8, 1)).Some?
  {
    hide Printed;
  }

  /** Otherwise the first of these reasons is given. */
  lemma {:induction false} HashRefused(h: Hasher, password: string, salt: seq<Byte>)
    ensures var r := HashPassword(h, password, salt);
            var letter := exists k :: 0 <= k < |password| && ('A' <= password[k] <= 'Z' || 'a' <= password[k] <= 'z');
            var digit := exists k :: 0 <= k < |password| && '0' <= password[k] <= '9';
            && (r == Err(TooShort) <==> |password| < 12)
            && (r == Err(TooLong) <==> |password| > 256)
            && (r == Err(NoLetter) <==> 12 <= |password| <= 256 && !letter)
            && (r == Err(NoDigit) <==> 12 <= |password| <= 256 && letter && !digit)
            && (r == Err(ScryptFailed) <==> 12 <= |password| <= 256 && letter && digit
                                            && h.scrypt(password, salt, 32, Params(131072, 8, 1)) == None)
  {
    hide Printed;
  }

  /** What is stored, letter by letter up to the encoded parts. */
  lemma {:induction false} HashText(h: Hasher, password: string, salt: seq<Byte>)
    requires HashPassword(h, password, salt).Ok?
    ensures h.scrypt(password, salt, 32, Params(131072, 8, 1)).Some?
    ensures HashPassword(h, password, salt).value
         == "scrypt$131072$8$1$" + EncodeUrl(salt) + "$"
            + EncodeUrl(h.scrypt(password, salt, 32, Params(131072, 8, 1)).value)
  {
    hide EncodeUrl, Numeral;
    PolicyNumerals();
    var key := EncodeUrl(h.scrypt(password, salt, 32, Params(131072, 8, 1)).value);
    JoinedText("131072", "8", "1", EncodeUrl(salt), key);
    assert "scrypt" + "$" + "131072" + "$" + "8" + "$" + "1" + "$" == "scrypt$131072$8$1$";
  }

  lemma {:induction false} PolicyNumerals()
    ensures Numeral(131072) == "131072" && Numeral(8) == "8" && Numeral(1) == "1"
  {
    assert Numeral(131) == "131" by { assert Numeral(13) == "13"; }
    assert Numeral(13107) == "13107" by { assert Numeral(1310) == "1310"; }
  }

  lemma {:induction false} JoinedText(n: string, r: string, p: string, salt: string, key: string)
    ensures "scrypt" + "$" + (n + "$" + (r + "$" + (p + "$" + (salt + "$" + key))))
         == "scrypt" + "$" + n + "$" + r + "$" + p + "$" + salt + "$" + key
  {
  }

  // ---- which stored hashes are taken ----

  lemma {:induction false} Pow2Steps(j: nat, k: nat)
    requires j < k
    ensures Pow2(j) < Pow2(k)
  {
    if j + 1 < k { Pow2Steps(j, k - 1); }
  }

  lemma {:induction false} LargestCost()
    ensures Pow2(22) == 4194304
  {
    assert Pow2(8) == 256;
    assert Pow2(16) == 65536;
  }

  /** The costs are the powers of two from 2 to 2^22, with at most 32 blocks
      and 16 lanes. */
  lemma {:induction false} BoundsAre(n: int, r: int, p: int)
    ensures InBounds(n, r, p) <==> (exists k :: 1 <= k <= 22 && n == Pow2(k)) && 1 <= r <= 32 && 1 <= p <= 16
  {
    hide BitAnd, Pow2;
    LargestCost();
    assert Pow2(0) == 1 && Pow2(1) == 2 by { SmallPowers(); }
    if 2 <= n <= MAX_COST && BitAnd(n, n - 1) == 0 {
      var k := PassersArePowers(n);
      if k > 22 { Pow2Steps(22, k); }
    }
    if k :| 1 <= k <= 22 && n == Pow2(k) {
      PowersPass(k);
      if k > 1 { Pow2Steps(1, k); }
      if k < 22 { Pow2Steps(k, 22); }
    }
  }

  lemma {:induction false} SmallPowers()
    ensures Pow2(0) == 1 && Pow2(1) == 2
  {
  }

  /** A stored text is taken exactly with six parts, the fixed name first and
      numbers within bounds, and it is read part by part. */
  lemma {:induction false} ParseIs(h: Hasher, stored: string)
    ensures var parts := Split(stored, "$");
            Parse(h, stored).Some? <==>
              && |parts| == 6 && parts[0] == "scrypt"
              && h.number(parts[1]).Some? && h.number(parts[2]).Some? && h.number(parts[3]).Some?
              && InBounds(h.number(parts[1]).value, h.number(parts[2]).value, h.number(parts[3]).value)
    ensures Parse(h, stored).Some? ==>
              var parts, x := Split(stored, "$"), Parse(h, stored).value;
              |parts| == 6 && Some(x.params.n) == h.number(parts[1]) && Some(x.params.r) == h.number(parts[2])
              && Some(x.params.p) == h.number(parts[3]) && x.salt == Decode(parts[4]) && x.hash == Decode(parts[5])
  {
    hide Split, InBounds, Decode;
  }

  /** What cannot be read verifies no password and counts as outdated. */
  lemma {:induction false} UnreadableHash(h: Hasher, stored: string, password: string)
    requires Parse(h, stored).None?
    ensures !VerifyPassword(h, password, stored) && NeedsRehash(h, stored)
  {
  }

  const SAMPLE := Hasher(
    (_, _, len: nat, _) => Some(seq(len, _ => 0)),
    text => if IsNumeral(text) then Some(Value(text)) else None)

  /** Such platforms exist, and hash what the policy admits. */
  lemma {:induction false} SoundWitness()
    ensures Sound(SAMPLE) && HashPassword(SAMPLE, "aaaaaaaaaaa1", []).Ok?
  {
    hide Numeral, Value, IsNumeral, Printed;
    forall n: nat | n <= MAX_COST ensures SAMPLE.number(Numeral(n)) == Some(n) {
      NumeralShape(n);
      ValueNumeral(n);
    }
    assert IsLetter("aaaaaaaaaaa1"[0]) && IsDigit("aaaaaaaaaaa1"[11]);
  }
}
