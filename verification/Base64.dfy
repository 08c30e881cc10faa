/** Base64 text as Node's `Buffer` writes and reads it (RFC 4648, sections 4
    and 5), and the strip-and-repad of lib/auth/customer-session.ts. */
module Base64 {

  type Byte = b: int | 0 <= b < 256
  type Sextet = s: int | 0 <= s < 64

  function SextetChar(s: Sextet): char {
    if s < 26 then 'A' + s as char
    else if s < 52 then 'a' + (s - 26) as char
    else if s < 62 then '0' + (s - 52) as char
    else if s == 62 then '+'
    else '/'
  }

  /** Either alphabet is read; -1 for every other character. */
  function CharSextet(c: char): (s: int)
    ensures -1 <= s < 64
  {
    if 'A' <= c <= 'Z' then (c - 'A') as int
    else if 'a' <= c <= 'z' then (c - 'a') as int + 26
    else if '0' <= c <= '9' then (c - '0') as int + 52
    else if c == '+' || c == '-' then 62
    else if c == '/' || c == '_' then 63
    else -1
  }

  /** The alphabets of tables 1 and 2 of RFC 4648 by their code points; the first
      is written, both are read, and nothing else is. */
  lemma {:induction false} AlphabetIs(c: char, k: Sextet)
    ensures SextetChar(k) as int == if k < 26 then 65 + k
                                    else if k < 52 then 97 + k - 26
                                    else if k < 62 then 48 + k - 52
                                    else if k == 62 then 43 else 47
    ensures CharSextet(c) == if 65 <= c as int <= 90 then c as int - 65
                             else if 97 <= c as int <= 122 then c as int - 97 + 26
                             else if 48 <= c as int <= 57 then c as int - 48 + 52
                             else if c as int == 43 || c as int == 45 then 62
                             else if c as int == 47 || c as int == 95 then 63
                             else -1
  {
  }

  // ---- bytes and sextets ----

  function Sextet0(a: Byte): Sextet { a / 4 }

  function Sextet1(a: Byte, b: Byte): Sextet { a % 4 * 16 + b / 16 }

  function Sextet2(b: Byte, c: Byte): Sextet { b % 16 * 4 + c / 64 }

  function Sextet3(c: Byte): Sextet { c % 64 }

  /** Missing bytes of the last group count as zero and print no sextet. */
  function Sextets(bytes: seq<Byte>): (r: seq<Sextet>)
    ensures |r| == |bytes| / 3 * 4 + (if |bytes| % 3 == 0 then 0 else |bytes| % 3 + 1)
  {
    if bytes == [] then []
    else if |bytes| == 1 then [Sextet0(bytes[0]), Sextet1(bytes[0], 0)]
    else if |bytes| == 2 then [Sextet0(bytes[0]), Sextet1(bytes[0], bytes[1]), Sextet2(bytes[1], 0)]
    else
      [Sextet0(bytes[0]), Sextet1(bytes[0], bytes[1]), Sextet2(bytes[1], bytes[2]), Sextet3(bytes[2])]
      + Sextets(bytes[3..])
  }

  function Byte0(a: Sextet, b: Sextet): Byte { a * 4 + b / 16 }

  function Byte1(b: Sextet, c: Sextet): Byte { b % 16 * 16 + c / 4 }

  function Byte2(c: Sextet, d: Sextet): Byte { c % 4 * 64 + d }

  /** Left-over bits that make no whole byte are dropped. */
  function Bytes(s: seq<Sextet>): seq<Byte> {
    if |s| < 2 then []
    else if |s| == 2 then [Byte0(s[0], s[1])]
    else if |s| == 3 then [Byte0(s[0], s[1]), Byte1(s[1], s[2])]
    else [Byte0(s[0], s[1]), Byte1(s[1], s[2]), Byte2(s[2], s[3])] + Bytes(s[4..])
  }

  /** Four sextets hold the three bytes they were cut from. */
  lemma {:induction false} GroupBack(a: Byte, b: Byte, c: Byte)
    ensures Byte0(Sextet0(a), Sextet1(a, b)) == a
    ensures Byte1(Sextet1(a, b), Sextet2(b, c)) == b
    ensures Byte2(Sextet2(b, c), Sextet3(c)) == c
  {
  }

  lemma {:induction false} BytesOfGroup(head: seq<Sextet>, tail: seq<Sextet>)
    requires |head| == 4
    ensures Bytes(head + tail)
         == [Byte0(head[0], head[1]), Byte1(head[1], head[2]), Byte2(head[2], head[3])] + Bytes(tail)
  {
    hide Byte0, Byte1, Byte2;
    assert (head + tail)[4..] == tail;
  }

  lemma {:induction false} SextetsOfGroup(bytes: seq<Byte>)
    requires |bytes| >= 3
    ensures Sextets(bytes)
         == [Sextet0(bytes[0]), Sextet1(bytes[0], bytes[1]), Sextet2(bytes[1], bytes[2]), Sextet3(bytes[2])]
            + Sextets(bytes[3..])
  {
    hide Sextet0, Sextet1, Sextet2, Sextet3;
  }

  lemma {:induction false} BytesOfFew(bytes: seq<Byte>)
    requires |bytes| < 3
    ensures Bytes(Sextets(bytes)) == bytes
  {
    hide Sextet0, Sextet1, Sextet2, Sextet3, Byte0, Byte1, Byte2;
    if bytes != [] { GroupBack(bytes[0], if |bytes| > 1 then bytes[1] else 0, 0); }
  }

  lemma {:induction false} BytesOfSextets(bytes: seq<Byte>)
    ensures Bytes(Sextets(bytes)) == bytes
  {
    hide *;
    if |bytes| < 3 {
      BytesOfFew(bytes);
    } else {
      var a, b, c, rest := bytes[0], bytes[1], bytes[2], bytes[3..];
      BytesOfSextets(rest);
      SextetsOfGroup(bytes);
      BytesOfGroup([Sextet0(a), Sextet1(a, b), Sextet2(b, c), Sextet3(c)], Sextets(rest));
      GroupBack(a, b, c);
      assert bytes == [a, b, c] + rest;
    }
  }

  // ---- text ----

  function Chars(s: seq<Sextet>): (r: string)
    ensures |r| == |s|
  {
    if s == [] then "" else [SextetChar(s[0])] + Chars(s[1..])
  }

  function Padding(n: nat): (r: string)
    ensures |r| == n && forall k :: 0 <= k < n ==> r[k] == '='
  {
    seq(n, i => '=')
  }

  /** `buffer.toString('base64')` */
  function Encode(bytes: seq<Byte>): string {
    var s := Sextets(bytes);
    Chars(s) + Padding((4 - |s| % 4) % 4)
  }

  /** The sextets of a text; characters outside the alphabet are skipped. */
  function Read(text: string): seq<Sextet> {
    if text == "" then []
    else if CharSextet(text[0]) < 0 then Read(text[1..])
    else [CharSextet(text[0])] + Read(text[1..])
  }

  /** `Buffer.from(text, 'base64')` */
  function Decode(text: string): seq<Byte> {
    Bytes(Read(text))
  }

  function ToUrlChar(c: char): char {
    if c == '+' then '-' else if c == '/' then '_' else c
  }

  function FromUrlChar(c: char): char {
    if c == '-' then '+' else if c == '_' then '/' else c
  }

  function MapChars(f: char -> char, s: string): (r: string)
    ensures |r| == |s|
    ensures forall k :: 0 <= k < |s| ==> r[k] == f(s[k])
  {
    if s == "" then "" else [f(s[0])] + MapChars(f, s[1..])
  }

  /** Removes the `=` characters at the end. */
  function Strip(s: string): string {
    if s != "" && s[|s| - 1] == '=' then Strip(s[..|s| - 1]) else s
  }

  /** Fills up with `=` to a multiple of four. */
  function Repad(s: string): string {
    s + Padding((4 - |s| % 4) % 4)
  }

  /** The bytes half of `encodeBase64Url`. */
  function EncodeUrl(bytes: seq<Byte>): string {
    Strip(MapChars(ToUrlChar, Encode(bytes)))
  }

  function Normalize(text: string): string {
    Repad(MapChars(FromUrlChar, text))
  }

  /** The bytes half of `decodeBase64Url`. */
  function DecodeUrl(text: string): seq<Byte> {
    Decode(Normalize(text))
  }

  // ---- the two directions ----

  predicate IsUrlChar(c: char) {
    'A' <= c <= 'Z' || 'a' <= c <= 'z' || '0' <= c <= '9' || c == '-' || c == '_'
  }

  lemma {:induction false} StripPadding(s: string, n: nat)
    requires s == "" || s[|s| - 1] != '='
    ensures Strip(s + Padding(n)) == s
  {
    if n == 0 {
      assert s + Padding(0) == s;
    } else {
      var t := s + Padding(n);
      assert t[..|t| - 1] == s + Padding(n - 1);
      StripPadding(s, n - 1);
    }
  }

  lemma {:induction false} MapPadding(f: char -> char, s: string, n: nat)
    requires f('=') == '='
    ensures MapChars(f, s + Padding(n)) == MapChars(f, s) + Padding(n)
  {
    var a, b := MapChars(f, s + Padding(n)), MapChars(f, s) + Padding(n);
    assert forall k :: 0 <= k < |a| ==> a[k] == f((s + Padding(n))[k]);
  }

  lemma {:induction false} CharsAt(s: seq<Sextet>, k: nat)
    requires k < |s|
    ensures Chars(s)[k] == SextetChar(s[k])
  {
    if k > 0 { CharsAt(s[1..], k - 1); }
  }

  /** The url text is the characters alone: no padding, only url characters. */
  lemma {:induction false} EncodeUrlForm(bytes: seq<Byte>)
    ensures EncodeUrl(bytes) == MapChars(ToUrlChar, Chars(Sextets(bytes)))
    ensures forall k :: 0 <= k < |EncodeUrl(bytes)| ==> IsUrlChar(EncodeUrl(bytes)[k])
    ensures bytes != [] ==> EncodeUrl(bytes) != ""
  {
    hide Sextets, Chars, MapChars, Strip, ToUrlChar, IsUrlChar;
    var s := Sextets(bytes);
    var url := MapChars(ToUrlChar, Chars(s));
    assert ToUrlChar('=') == '=' by { PaddingIsNoUrlChar(); }
    MapPadding(ToUrlChar, Chars(s), (4 - |s| % 4) % 4);
    forall k | 0 <= k < |url| ensures IsUrlChar(url[k]) && url[k] != '=' {
      CharsAt(s, k);
      SextetCharIsUrl(s[k]);
    }
    StripPadding(url, (4 - |s| % 4) % 4);
  }

  lemma {:induction false} PaddingIsNoUrlChar()
    ensures ToUrlChar('=') == '='
  {
  }

  lemma {:induction false} SextetCharIsUrl(s: Sextet)
    ensures IsUrlChar(ToUrlChar(SextetChar(s))) && ToUrlChar(SextetChar(s)) != '='
    ensures FromUrlChar(ToUrlChar(SextetChar(s))) == SextetChar(s)
    ensures CharSextet(SextetChar(s)) == s
  {
  }

  /** Normalising the url text gives back the standard text, padding included,
      for every number of bytes. */
  lemma {:induction false} StripThenRepad(bytes: seq<Byte>)
    ensures Normalize(EncodeUrl(bytes)) == Encode(bytes)
  {
    var s := Sextets(bytes);
    var chars := Chars(s);
    EncodeUrlForm(bytes);
    var back := MapChars(FromUrlChar, EncodeUrl(bytes));
    forall k | 0 <= k < |chars| ensures back[k] == chars[k] {
      CharsAt(s, k);
      SextetCharIsUrl(s[k]);
    }
    assert back == chars;
  }

  lemma {:induction false} ReadChars(s: seq<Sextet>, n: nat)
    ensures Read(Chars(s) + Padding(n)) == s
  {
    if s == [] {
      assert Chars(s) + Padding(n) == Padding(n);
      ReadPadding(n);
    } else {
      var t := Chars(s) + Padding(n);
      assert t[1..] == Chars(s[1..]) + Padding(n);
      ReadChars(s[1..], n);
      SextetCharIsUrl(s[0]);
    }
  }

  lemma {:induction false} ReadPadding(n: nat)
    ensures Read(Padding(n)) == []
  {
    if n > 0 {
      assert Padding(n)[1..] == Padding(n - 1);
      ReadPadding(n - 1);
    }
  }

  /** Every byte string survives the url encoding. */
  lemma {:induction false} DecodeOfEncodeUrl(bytes: seq<Byte>)
    ensures DecodeUrl(EncodeUrl(bytes)) == bytes
  {
    hide Sextets, Chars, Bytes, Read, Padding;
    StripThenRepad(bytes);
    var s := Sextets(bytes);
    ReadChars(s, (4 - |s| % 4) % 4);
    BytesOfSextets(bytes);
  }

  /** Test vectors of RFC 4648, section 10, for one, two and three bytes. */
  lemma {:induction false} StandardVectors()
    ensures Encode([102]) == "Zg=="
    ensures Encode([102, 111]) == "Zm8="
    ensures Encode([102, 111, 111]) == "Zm9v"
  {
    assert Sextets([102]) == [25, 32];
    assert Chars([25, 32]) == "Zg";
    assert Sextets([102, 111]) == [25, 38, 60];
    assert Chars([25, 38, 60]) == "Zm8";
    assert [102, 111, 111][3..] == [];
    assert Sextets([102, 111, 111]) == [25, 38, 61, 47];
    assert Chars([25, 38, 61, 47]) == "Zm9v";
  }
}
