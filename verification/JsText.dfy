/** The JavaScript string operations the modelled code relies on. */
module JsText {

  /** WhiteSpace and LineTerminator of ECMAScript, the set `trim` removes. */
  predicate IsSpace(c: char) {
    || '\t' <= c <= '\r'
    || c == ' '
    || c == '\U{A0}'
    || c == '\U{1680}'
    || '\U{2000}' <= c <= '\U{200A}'
    || c == '\U{2028}'
    || c == '\U{2029}'
    || c == '\U{202F}'
    || c == '\U{205F}'
    || c == '\U{3000}'
    || c == '\U{FEFF}'
  }

  function TrimStart(s: string): string {
    if s != "" && IsSpace(s[0]) then TrimStart(s[1..]) else s
  }

  function TrimEnd(s: string): string {
    if s != "" && IsSpace(s[|s| - 1]) then TrimEnd(s[..|s| - 1]) else s
  }

  function Trim(s: string): string {
    TrimEnd(TrimStart(s))
  }

  /** No blank at either end: the texts `trim` leaves alone. */
  predicate IsTrimmed(s: string) {
    s == "" || (!IsSpace(s[0]) && !IsSpace(s[|s| - 1]))
  }

  lemma {:induction false} TrimStartKeepsEnd(s: string)
    ensures var t := TrimStart(s);
            t == "" || (!IsSpace(t[0]) && s != "" && t[|t| - 1] == s[|s| - 1])
  {
    if s != "" && IsSpace(s[0]) {
      TrimStartKeepsEnd(s[1..]);
    }
  }

  lemma {:induction false} TrimEndKeepsStart(s: string)
    ensures var t := TrimEnd(s);
            t == "" || (!IsSpace(t[|t| - 1]) && s != "" && t[0] == s[0])
  {
    if s != "" && IsSpace(s[|s| - 1]) {
      TrimEndKeepsStart(s[..|s| - 1]);
    }
  }

  lemma {:induction false} TrimIsTrimmed(s: string)
    ensures IsTrimmed(Trim(s))
  {
    TrimStartKeepsEnd(s);
    TrimEndKeepsStart(TrimStart(s));
  }

  predicate Blank(s: string) {
    forall k :: 0 <= k < |s| ==> IsSpace(s[k])
  }

  /** Code points 9 to 13, 32, 160, 5760, 8192 to 8202, 8232, 8233, 8239, 8287,
      12288 and 65279, as tables 35 and 36 of ECMA-262 list them. */
  lemma {:induction false} SpaceTable(c: char)
    ensures var n := c as int;
            IsSpace(c) <==> n in {9, 10, 11, 12, 13, 32, 160, 5760, 8232, 8233, 8239, 8287, 12288, 65279}
                            || 8192 <= n <= 8202
  {
  }

  lemma {:induction false} TrimStartOf(pre: string, s: string)
    requires Blank(pre) && (s == "" || !IsSpace(s[0]))
    ensures TrimStart(pre + s) == s
  {
    if pre == "" {
      assert pre + s == s;
    } else {
      TrimStartOf(pre[1..], s);
      assert (pre + s)[1..] == pre[1..] + s && (pre + s)[0] == pre[0];
    }
  }

  lemma {:induction false} TrimEndOf(s: string, post: string)
    requires Blank(post) && (s == "" || !IsSpace(s[|s| - 1]))
    ensures TrimEnd(s + post) == s
  {
    if post == "" {
      assert s + post == s;
    } else {
      var n := |post| - 1;
      TrimEndOf(s, post[..n]);
      assert (s + post)[..|s| + n] == s + post[..n] && (s + post)[|s| + n] == post[n];
    }
  }

  lemma {:induction false} TrimStartBlank(s: string)
    requires Blank(s)
    ensures TrimStart(s) == ""
  {
    TrimStartOf(s, "");
    assert s + "" == s;
  }

  /** Blanks on either side are removed, and nothing else is. */
  lemma {:induction false} TrimOf(pre: string, s: string, post: string)
    requires Blank(pre) && IsTrimmed(s) && Blank(post)
    ensures Trim(pre + s + post) == s
  {
    if s == "" {
      assert pre + s + post == pre + post;
      TrimStartBlank(pre + post);
    } else {
      TrimStartOf(pre, s + post);
      assert pre + (s + post) == pre + s + post;
      TrimEndOf(s, post);
    }
  }

  /** Every text is its trimmed part between blanks. */
  lemma {:induction false} TrimParts(s: string) returns (pre: string, post: string)
    ensures Blank(pre) && Blank(post) && s == pre + Trim(s) + post
  {
    pre := TrimStartParts(s);
    post := TrimEndParts(TrimStart(s));
    hide TrimStart, TrimEnd;
    assert s == pre + (Trim(s) + post) == pre + Trim(s) + post;
  }

  lemma {:induction false} TrimStartParts(s: string) returns (pre: string)
    ensures Blank(pre) && s == pre + TrimStart(s)
  {
    pre := "";
    if s != "" && IsSpace(s[0]) {
      pre := TrimStartParts(s[1..]);
      pre := [s[0]] + pre;
      assert s == [s[0]] + s[1..];
    }
  }

  lemma {:induction false} TrimEndParts(s: string) returns (post: string)
    ensures Blank(post) && s == TrimEnd(s) + post
  {
    post := "";
    if s != "" && IsSpace(s[|s| - 1]) {
      var last := s[|s| - 1];
      post := TrimEndParts(s[..|s| - 1]);
      post := post + [last];
      assert s == s[..|s| - 1] + [last];
    }
  }

  /** Trimming leaves nothing exactly of blank text. */
  lemma {:induction false} TrimEmpty(s: string)
    ensures Trim(s) == "" <==> Blank(s)
  {
    if Blank(s) {
      TrimStartBlank(s);
    } else {
      var pre, post := TrimParts(s);
    }
  }

  predicate StartsWith(s: string, prefix: string) {
    |prefix| <= |s| && s[..|prefix|] == prefix
  }

  predicate OccursAt(s: string, sep: string, i: int) {
    0 <= i && i + |sep| <= |s| && s[i..i + |sep|] == sep
  }

  /** Occurrences past the first character are those of the rest. */
  lemma {:induction false} ShiftOccurrences(s: string, sep: string)
    requires s != ""
    ensures forall j :: j != 0 ==> (OccursAt(s, sep, j) <==> OccursAt(s[1..], sep, j - 1))
  {
    forall j | j != 0 ensures OccursAt(s, sep, j) <==> OccursAt(s[1..], sep, j - 1) {
      if 1 <= j && j + |sep| <= |s| {
        assert s[1..][j - 1..j - 1 + |sep|] == s[j..j + |sep|];
      }
    }
  }

  /** `s.indexOf(sep)`: the leftmost occurrence, or -1. */
  function IndexOf(s: string, sep: string): (i: int)
    ensures i == -1 || OccursAt(s, sep, i)
    ensures forall j :: OccursAt(s, sep, j) ==> 0 <= i <= j
  {
    if OccursAt(s, sep, 0) then 0
    else if |s| <= |sep| then -1
    else
      ShiftOccurrences(s, sep);
      var r := IndexOf(s[1..], sep);
      if r < 0 then -1 else r + 1
  }

  /** `s.split(sep)` for a non-empty separator. */
  function Split(s: string, sep: string): (parts: seq<string>)
    requires sep != ""
    ensures parts != []
    decreases |s|
  {
    var i := IndexOf(s, sep);
    if i < 0 then [s] else [s[..i]] + Split(s[i + |sep|..], sep)
  }

  function Join(parts: seq<string>, sep: string): string {
    if parts == [] then ""
    else if |parts| == 1 then parts[0]
    else parts[0] + sep + Join(parts[1..], sep)
  }

  lemma {:induction false} Reassociate<T>(a: seq<T>, b: seq<T>, c: seq<T>)
    ensures a + (b + c) == a + b + c
  {
  }

  function Last<T>(parts: seq<T>): T
    requires parts != []
  {
    parts[|parts| - 1]
  }

  function Front<T>(parts: seq<T>): seq<T>
    requires parts != []
  {
    parts[..|parts| - 1]
  }

  /** Splitting loses nothing, and no piece still holds a separator. */
  lemma {:induction false} SplitJoin(s: string, sep: string)
    requires sep != ""
    ensures Join(Split(s, sep), sep) == s
    ensures forall k, j :: 0 <= k < |Split(s, sep)| ==> !OccursAt(Split(s, sep)[k], sep, j)
    decreases |s|
  {
    var i := IndexOf(s, sep);
    if i >= 0 {
      var rest := s[i + |sep|..];
      SplitJoin(rest, sep);
      assert s == s[..i] + sep + rest;
      forall j ensures !OccursAt(s[..i], sep, j) {
        if OccursAt(s[..i], sep, j) {
          assert s[..i][j..j + |sep|] == s[j..j + |sep|];
          assert OccursAt(s, sep, j);
        }
      }
    }
  }

  /** An occurrence found in a prefix is still the first one in the whole. */
  lemma {:induction false} IndexOfPrefix(a: string, b: string, sep: string)
    requires IndexOf(a, sep) >= 0 && sep != ""
    ensures IndexOf(a + b, sep) == IndexOf(a, sep)
  {
    var i := IndexOf(a, sep);
    assert (a + b)[i..i + |sep|] == a[i..i + |sep|];
    assert OccursAt(a + b, sep, i);
    var k := IndexOf(a + b, sep);
    assert (a + b)[k..k + |sep|] == a[k..k + |sep|];
    assert OccursAt(a, sep, k);
  }

  /** Splitting can stop anywhere: all pieces but the last are final, and the
      last one is the only text that has to be kept for what comes next. */
  lemma {:induction false} SplitAppend(a: string, b: string, sep: string)
    requires sep != ""
    ensures Split(a + b, sep) == Front(Split(a, sep)) + Split(Last(Split(a, sep)) + b, sep)
    decreases |a|
  {
    hide IndexOf;
    var i := IndexOf(a, sep);
    if i >= 0 {
      IndexOfPrefix(a, b, sep);
      var rest := a[i + |sep|..];
      SplitAppend(rest, b, sep);
      assert (a + b)[i + |sep|..] == rest + b;
      assert (a + b)[..i] == a[..i];
      FrontLast(a[..i], Split(rest, sep));
    }
  }

  lemma {:induction false} FrontLast<T>(head: T, tail: seq<T>)
    requires tail != []
    ensures Front([head] + tail) == [head] + Front(tail)
    ensures Last([head] + tail) == Last(tail)
  {
  }

  /** A text without the separator's first character is a piece of its own. */
  lemma {:induction false} SplitHead(a: string, b: string, sep: string)
    requires sep != "" && sep[0] !in a
    ensures Split(a, sep) == [a]
    ensures Split(a + sep + b, sep) == [a] + Split(b, sep)
  {
    var s := a + sep + b;
    assert s[|a|..|a| + |sep|] == sep;
    assert OccursAt(s, sep, |a|);
    var i := IndexOf(s, sep);
    assert i == |a|;
    assert s[..i] == a && s[i + |sep|..] == b;
  }

  /** Case folding of the ASCII letters. */
  function LowerChar(c: char): char {
    if 'A' <= c <= 'Z' then c - 'A' + 'a' else c
  }

  function Lower(s: string): (r: string)
    ensures |r| == |s|
    ensures forall k :: 0 <= k < |s| ==> r[k] == LowerChar(s[k])
  {
    if s == "" then "" else [LowerChar(s[0])] + Lower(s[1..])
  }

  /** One letter, or the two cases of one ASCII letter. */
  predicate SameLetter(a: char, b: char) {
    a == b || ('A' <= a <= 'Z' && b as int == a as int + 32) || ('A' <= b <= 'Z' && a as int == b as int + 32)
  }

  lemma {:induction false} LowerCharIff(a: char, b: char)
    ensures LowerChar(a) == LowerChar(b) <==> SameLetter(a, b)
  {
    assert 'a' as int == 97 && 'A' as int == 65;
    LowerCharValue(a);
    LowerCharValue(b);
  }

  lemma {:induction false} LowerCharValue(c: char)
    ensures LowerChar(c) as int == if 65 <= c as int <= 90 then c as int + 32 else c as int
  {
  }

  /** Texts fold to one text exactly when they agree up to the case of letters. */
  lemma {:induction false} LowerIff(a: string, b: string)
    ensures Lower(a) == Lower(b) <==> |a| == |b| && forall k :: 0 <= k < |a| ==> SameLetter(a[k], b[k])
  {
    hide Lower, LowerChar, SameLetter;
    if Lower(a) == Lower(b) {
      forall k | 0 <= k < |a| ensures SameLetter(a[k], b[k]) {
        assert Lower(a)[k] == Lower(b)[k];
        LowerCharIff(a[k], b[k]);
      }
    }
    if |a| == |b| && forall k :: 0 <= k < |a| ==> SameLetter(a[k], b[k]) {
      forall k | 0 <= k < |a| ensures Lower(a)[k] == Lower(b)[k] { LowerCharIff(a[k], b[k]); }
    }
  }

  /** The code-unit order of JavaScript's `<` on strings. */
  predicate LexLess(a: string, b: string) {
    if b == "" then false
    else if a == "" then true
    else a[0] < b[0] || (a[0] == b[0] && LexLess(a[1..], b[1..]))
  }
}
