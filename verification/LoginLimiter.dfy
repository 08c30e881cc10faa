/** The sliding-window login limiter (lib/auth/login-rate-limit.ts) and the
    login route that drives it (app/api/auth/login/route.ts). */
module LoginLimiter {
  import opened Wrappers
  import opened JsText

  const EMAIL_LIMIT := 5
  const EMAIL_WINDOW_MS := 15 * 60 * 1000
  const IP_LIMIT := 20
  const IP_WINDOW_MS := 60 * 60 * 1000
  const MAX_WINDOW_MS := IP_WINDOW_MS

  datatype Attempt = Attempt(email: string, ip: string, at: int)

  /** What a limit is counted for. */
  datatype Key = ByEmail(email: string) | ByIp(ip: string)

  function Limit(key: Key): (n: nat)
    ensures n > 0
  {
    if key.ByEmail? then EMAIL_LIMIT else IP_LIMIT
  }

  function Window(key: Key): (ms: nat)
    ensures ms <= MAX_WINDOW_MS
  {
    if key.ByEmail? then EMAIL_WINDOW_MS else IP_WINDOW_MS
  }

  predicate Matches(key: Key, row: Attempt) {
    match key
    case ByEmail(email) => row.email == email
    case ByIp(ip) => row.ip == ip
  }

  function Norm(email: string): string {
    Lower(Trim(email))
  }

  // ---- the queries ----

  /** Deletes the rows older than `cutoff`. */
  function Since(rows: seq<Attempt>, cutoff: int): seq<Attempt> {
    if rows == [] then []
    else
      var rest := Since(rows[1..], cutoff);
      if rows[0].at >= cutoff then [rows[0]] + rest else rest
  }

  /** Deletes an email's rows. */
  function Without(rows: seq<Attempt>, email: string): seq<Attempt> {
    if rows == [] then []
    else
      var rest := Without(rows[1..], email);
      if rows[0].email != email then [rows[0]] + rest else rest
  }

  /** The times of a key's rows from `since` on, inclusive. */
  function Times(rows: seq<Attempt>, key: Key, since: int): seq<int> {
    if rows == [] then []
    else
      var rest := Times(rows[1..], key, since);
      if Matches(key, rows[0]) && rows[0].at >= since then [rows[0].at] + rest else rest
  }

  /** How many of a key's rows lie in the closed window `[lo, hi]`. */
  function Count(rows: seq<Attempt>, key: Key, lo: int, hi: int): nat {
    if rows == [] then 0
    else
      (if Matches(key, rows[0]) && lo <= rows[0].at <= hi then 1 else 0)
      + Count(rows[1..], key, lo, hi)
  }

  /** The count of a whole window of the key's length. */
  function InWindow(rows: seq<Attempt>, key: Key, x: int): nat {
    Count(rows, key, x, x + Window(key))
  }

  predicate Sorted(ts: seq<int>) {
    forall i, j :: 0 <= i < j < |ts| ==> ts[i] <= ts[j]
  }

  function Insert(t: int, ts: seq<int>): (r: seq<int>)
    requires Sorted(ts)
    ensures Sorted(r) && |r| == |ts| + 1
    ensures forall x :: x in r <==> x == t || x in ts
  {
    if ts == [] || t <= ts[0] then [t] + ts
    else
      assert ts == [ts[0]] + ts[1..];
      var rest := Insert(t, ts[1..]);
      assert forall k :: 0 <= k < |rest| ==> ts[0] <= rest[k] by {
        forall k | 0 <= k < |rest| ensures ts[0] <= rest[k] { assert rest[k] in rest; }
      }
      [ts[0]] + rest
  }

  /** `order by` the time column. */
  function Ordered(ts: seq<int>): (r: seq<int>)
    ensures Sorted(r) && |r| == |ts|
    ensures forall x :: x in r <==> x in ts
  {
    if ts == [] then []
    else
      assert ts == [ts[0]] + ts[1..];
      Insert(ts[0], Ordered(ts[1..]))
  }

  lemma {:induction false} InsertPermutes(t: int, ts: seq<int>)
    requires Sorted(ts)
    ensures multiset(Insert(t, ts)) == multiset(ts) + multiset{t}
  {
    if ts != [] && t > ts[0] {
      InsertPermutes(t, ts[1..]);
      assert ts == [ts[0]] + ts[1..];
    }
  }

  lemma {:induction false} MultisetHead(ts: seq<int>)
    requires ts != []
    ensures multiset(ts) == multiset(ts[1..]) + multiset{ts[0]}
  {
    assert ts == [ts[0]] + ts[1..];
  }

  /** Ordering keeps every row, repeated times included. */
  lemma {:induction false} OrderedPermutes(ts: seq<int>)
    ensures multiset(Ordered(ts)) == multiset(ts)
  {
    hide Insert, Sorted;
    if ts != [] {
      OrderedPermutes(ts[1..]);
      assert Ordered(ts) == Insert(ts[0], Ordered(ts[1..]));
      hide Ordered;
      InsertPermutes(ts[0], Ordered(ts[1..]));
      MultisetHead(ts);
    }
  }

  // ---- the verdict ----

  datatype Verdict = Allowed | Denied(key: Key, retryAfterSeconds: int)

  /** Whole seconds until `retryAt`, rounded up, and at least one. */
  function RetryAfter(retryAt: int, now: int): int {
    var ceiling := -((now - retryAt) / 1000);
    if ceiling < 1 then 1 else ceiling
  }

  function ScopeVerdict(rows: seq<Attempt>, key: Key, now: int): Verdict {
    var times := Ordered(Times(rows, key, now - Window(key)));
    if |times| >= Limit(key) then Denied(key, RetryAfter(times[0] + Window(key), now)) else Allowed
  }

  /** The email scope is consulted first; an IP is only looked at after it. */
  function VerdictOn(rows: seq<Attempt>, email: string, ip: string, now: int): Verdict {
    var byEmail := ScopeVerdict(rows, ByEmail(email), now);
    if byEmail.Denied? then byEmail else ScopeVerdict(rows, ByIp(ip), now)
  }

  // ---- the table ----

  /** The rows of an email from a time on, by their places. */
  function FailuresOf(rows: seq<Attempt>, email: string, since: int): set<int> {
    set k | 0 <= k < |rows| && rows[k].email == email && rows[k].at >= since
  }

  function FailuresFrom(rows: seq<Attempt>, ip: string, since: int): set<int> {
    set k | 0 <= k < |rows| && rows[k].ip == ip && rows[k].at >= since
  }

  function Places(rows: seq<Attempt>, key: Key, since: int): set<int> {
    set k | 0 <= k < |rows| && Matches(key, rows[k]) && rows[k].at >= since
  }

  lemma {:induction false} PlacesNext(rows: seq<Attempt>, row: Attempt, key: Key, since: int)
    ensures |Places(rows + [row], key, since)|
         == |Places(rows, key, since)| + (if Matches(key, row) && row.at >= since then 1 else 0)
  {
    hide Matches;
    var n, more := |rows|, rows + [row];
    var all, few := Places(more, key, since), Places(rows, key, since);
    assert n !in few;
    forall k ensures k in all <==> k in few || (k == n && Matches(key, row) && row.at >= since) {
      if 0 <= k < n { assert more[k] == rows[k]; }
    }
    assert all == if Matches(key, row) && row.at >= since then few + {n} else few;
  }

  lemma {:induction false} TimesPlaces(rows: seq<Attempt>, key: Key, since: int)
    ensures |Times(rows, key, since)| == |Places(rows, key, since)|
  {
    if rows != [] {
      var n := |rows| - 1;
      var init, last := rows[..n], rows[n];
      TimesPlaces(init, key, since);
      OneTime(last, key, since);
      hide Matches, Times, Places;
      TimesConcat(init, [last], key, since);
      PlacesNext(init, last, key, since);
      assert rows == init + [last];
    }
  }

  lemma {:induction false} OneTime(row: Attempt, key: Key, since: int)
    ensures |Times([row], key, since)| == if Matches(key, row) && row.at >= since then 1 else 0
  {
    assert [row][1..] == [];
  }

  /** The verdict in plain numbers: an attempt is allowed exactly with fewer than
      5 failures of the account in 15 minutes and fewer than 20 from the address
      in an hour, both windows closed. */
  lemma {:induction false} AllowedIff(rows: seq<Attempt>, email: string, ip: string, now: int)
    ensures VerdictOn(rows, email, ip, now).Allowed?
       <==> |FailuresOf(rows, email, now - 15 * 60 * 1000)| < 5
            && |FailuresFrom(rows, ip, now - 60 * 60 * 1000)| < 20
  {
    hide Times, Ordered;
    TimesPlaces(rows, ByEmail(email), now - EMAIL_WINDOW_MS);
    TimesPlaces(rows, ByIp(ip), now - IP_WINDOW_MS);
    assert FailuresOf(rows, email, now - 15 * 60 * 1000)
        == set k | 0 <= k < |rows| && Matches(ByEmail(email), rows[k]) && rows[k].at >= now - EMAIL_WINDOW_MS;
    assert FailuresFrom(rows, ip, now - 60 * 60 * 1000)
        == set k | 0 <= k < |rows| && Matches(ByIp(ip), rows[k]) && rows[k].at >= now - IP_WINDOW_MS;
  }

  /** Pruning keeps exactly the rows that are not older than the cutoff. */
  lemma {:induction false} SinceRows(rows: seq<Attempt>, cutoff: int)
    ensures forall row ::
              multiset(Since(rows, cutoff))[row] == if row.at >= cutoff then multiset(rows)[row] else 0
  {
    if rows != [] {
      SinceRows(rows[1..], cutoff);
      assert rows == [rows[0]] + rows[1..];
      assert multiset(rows) == multiset{rows[0]} + multiset(rows[1..]);
      var rest := Since(rows[1..], cutoff);
      if rows[0].at >= cutoff {
        assert multiset([rows[0]] + rest) == multiset{rows[0]} + multiset(rest);
      }
    }
  }

  class LoginAttempts {
    var rows: seq<Attempt>

    constructor ()
      ensures rows == []
    {
      rows := [];
    }

    /** Prunes the table and says whether an attempt may proceed. */
    method CheckLoginRateLimit(rawEmail: string, ip: string, now: int) returns (verdict: Verdict)
      modifies this
      ensures rows == Since(old(rows), now - MAX_WINDOW_MS)
      ensures forall row ::
                multiset(rows)[row] == if row.at >= now - 60 * 60 * 1000 then multiset(old(rows))[row] else 0
      ensures verdict == VerdictOn(old(rows), Norm(rawEmail), ip, now)
      ensures verdict.Allowed?
         <==> |FailuresOf(old(rows), Norm(rawEmail), now - 15 * 60 * 1000)| < 5
              && |FailuresFrom(old(rows), ip, now - 60 * 60 * 1000)| < 20
      ensures forall other :: SameAddress(rawEmail, other) ==> verdict == VerdictOn(old(rows), Norm(other), ip, now)
    {
      hide Times, Ordered, Since, Norm, SameAddress;
      forall other ensures SameAddress(rawEmail, other) <==> Norm(rawEmail) == Norm(other) { NormIff(rawEmail, other); }
      var email := Norm(rawEmail);
      SinceRows(rows, now - MAX_WINDOW_MS);
      AllowedIff(rows, email, ip, now);
      hide FailuresOf, FailuresFrom;
      rows := Since(rows, now - MAX_WINDOW_MS);
      PruningKeepsVerdict(old(rows), email, ip, now, now - MAX_WINDOW_MS);
      var emailRows := Ordered(Times(rows, ByEmail(email), now - EMAIL_WINDOW_MS));
      if |emailRows| >= EMAIL_LIMIT {
        return Denied(ByEmail(email), RetryAfter(emailRows[0] + EMAIL_WINDOW_MS, now));
      }
      var ipRows := Ordered(Times(rows, ByIp(ip), now - IP_WINDOW_MS));
      if |ipRows| >= IP_LIMIT {
        return Denied(ByIp(ip), RetryAfter(ipRows[0] + IP_WINDOW_MS, now));
      }
      return Allowed;
    }

    method RecordFailedLogin(rawEmail: string, ip: string, now: int)
      modifies this
      ensures rows == old(rows) + [Attempt(Norm(rawEmail), ip, now)]
      ensures forall key, lo, hi ::
                Count(rows, key, lo, hi)
                == Count(old(rows), key, lo, hi)
                   + if Matches(key, Attempt(Norm(rawEmail), ip, now)) && lo <= now <= hi then 1 else 0
      ensures Safe(old(rows)) && NotAfter(old(rows), now) && VerdictOn(old(rows), Norm(rawEmail), ip, now).Allowed?
              ==> Safe(rows)
    {
      hide Norm, Count, Safe, VerdictOn, NotAfter;
      var row := Attempt(Norm(rawEmail), ip, now);
      rows := rows + [row];
      forall key, lo, hi
        ensures Count(rows, key, lo, hi)
             == Count(old(rows), key, lo, hi) + if Matches(key, row) && lo <= now <= hi then 1 else 0
      {
        CountNext(old(rows), row, key, lo, hi);
      }
      if Safe(old(rows)) && NotAfter(old(rows), now) && VerdictOn(old(rows), row.email, ip, now).Allowed? {
        RoomForOne(old(rows), row, now);
      }
    }

    method ClearLoginFailures(rawEmail: string)
      modifies this
      ensures rows == Without(old(rows), Norm(rawEmail))
      ensures forall row ::
                multiset(rows)[row] == if row.email == Norm(rawEmail) then 0 else multiset(old(rows))[row]
      ensures forall email, lo, hi ::
                Count(rows, ByEmail(email), lo, hi)
                == if email == Norm(rawEmail) then 0 else Count(old(rows), ByEmail(email), lo, hi)
      ensures forall now :: ScopeVerdict(rows, ByEmail(Norm(rawEmail)), now).Allowed?
      ensures Safe(old(rows)) ==> Safe(rows)
    {
      hide Norm, Count, Safe, Without, ScopeVerdict;
      var account := Norm(rawEmail);
      rows := Without(rows, account);
      WithoutRows(old(rows), account);
      forall email, lo, hi
        ensures Count(rows, ByEmail(email), lo, hi)
             == if email == account then 0 else Count(old(rows), ByEmail(email), lo, hi)
      {
        CountWithout(old(rows), account, ByEmail(email), lo, hi);
        NoneCounted(rows, ByEmail(account), lo, hi);
      }
      forall now ensures ScopeVerdict(rows, ByEmail(account), now).Allowed? {
        NoneDenied(rows, ByEmail(account), now);
      }
      if Safe(old(rows)) { WithoutSafe(old(rows), account); }
    }

    /** An absent or empty email counts by IP instead. */
    method CountRecentFailures(rawEmail: Option<string>, ip: Option<string>, now: int) returns (n: nat)
      ensures n == RecentFailures(rows, rawEmail, ip, now)
      ensures rawEmail.Some? && rawEmail.value != "" ==>
                n == |FailuresOf(rows, Norm(rawEmail.value), now - 15 * 60 * 1000)|
      ensures rawEmail.None? || rawEmail.value == "" ==>
                n == |FailuresFrom(rows, if ip.Some? then ip.value else "", now - 60 * 60 * 1000)|
      ensures forall hi :: NotAfter(rows, hi) ==>
                n == Count(rows, CountedKey(rawEmail, ip), now - Window(CountedKey(rawEmail, ip)), hi)
    {
      hide Times, Count, NotAfter, Norm;
      var key := CountedKey(rawEmail, ip);
      TimesPlaces(rows, key, now - Window(key));
      if key.ByEmail? {
        assert FailuresOf(rows, key.email, now - 15 * 60 * 1000)
            == set k | 0 <= k < |rows| && Matches(key, rows[k]) && rows[k].at >= now - Window(key);
      } else {
        assert FailuresFrom(rows, key.ip, now - 60 * 60 * 1000)
            == set k | 0 <= k < |rows| && Matches(key, rows[k]) && rows[k].at >= now - Window(key);
      }
      n := |Times(rows, key, now - Window(key))|;
      forall hi | NotAfter(rows, hi) ensures n == Count(rows, key, now - Window(key), hi) {
        TimesCount(rows, key, now - Window(key), hi);
      }
    }

    /** One login: the limiter is asked first, a wrong password is recorded, a
        right one clears the account's failures. */
    method Login(request: Request) returns (verdict: Verdict)
      modifies this
      ensures verdict == VerdictOn(old(rows), Norm(request.email), request.ip, request.checkedAt)
      ensures rows == Step(State(old(rows), []), request).rows
      ensures verdict.Allowed? && !request.correct ==>
                rows == Since(old(rows), request.checkedAt - MAX_WINDOW_MS)
                        + [Attempt(Norm(request.email), request.ip, request.answeredAt)]
      ensures verdict.Allowed? && request.correct ==>
                rows == Without(Since(old(rows), request.checkedAt - MAX_WINDOW_MS), Norm(request.email))
      ensures verdict.Denied? ==> rows == Since(old(rows), request.checkedAt - MAX_WINDOW_MS)
    {
      verdict := CheckLoginRateLimit(request.email, request.ip, request.checkedAt);
      if verdict.Allowed? {
        if request.correct {
          var account := Norm(request.email);
          NormIdempotent(request.email);
          ClearLoginFailures(account);
        } else {
          RecordFailedLogin(request.email, request.ip, request.answeredAt);
        }
      }
    }
  }

  function CountedKey(rawEmail: Option<string>, ip: Option<string>): Key {
    match rawEmail
    case Some(email) => if email != "" then ByEmail(Norm(email)) else ByIp(match ip case Some(a) => a case None => "")
    case None => ByIp(match ip case Some(a) => a case None => "")
  }

  lemma {:induction false} NormIdempotent(email: string)
    ensures Norm(Norm(email)) == Norm(email)
  {
    TrimIsTrimmed(email);
    LowerTrimmed(Trim(email));
    hide Trim, IsTrimmed;
    LowerTwice(Trim(email));
  }

  lemma {:induction false} LowerTrimmed(t: string)
    requires IsTrimmed(t)
    ensures Trim(Lower(t)) == Lower(t)
  {
    hide Lower;
    LowerSpace(t);
    assert IsTrimmed(Lower(t));
  }

  lemma {:induction false} LowerTwice(s: string)
    ensures Lower(Lower(s)) == Lower(s)
  {
    var once := Lower(s);
    assert forall k :: 0 <= k < |s| ==> Lower(once)[k] == once[k];
  }

  lemma {:induction false} LowerSpace(s: string)
    ensures forall k :: 0 <= k < |s| ==> (IsSpace(Lower(s)[k]) <==> IsSpace(s[k]))
  {
  }

  /** One address, written with other blanks around it or other letter case. */
  predicate SameAddress(a: string, b: string) {
    |Trim(a)| == |Trim(b)| && forall k :: 0 <= k < |Trim(a)| ==> SameLetter(Trim(a)[k], Trim(b)[k])
  }

  /** Two texts are one account's address exactly when they are written alike
      up to blanks around them and the case of letters; the stored form has
      neither. */
  lemma {:induction false} NormIff(a: string, b: string)
    ensures Norm(a) == Norm(b) <==> SameAddress(a, b)
    ensures IsTrimmed(Norm(a)) && SameAddress(Norm(a), a)
    ensures forall k :: 0 <= k < |Norm(a)| ==> !('A' <= Norm(a)[k] <= 'Z')
  {
    hide Trim, Lower, IsTrimmed, SameLetter;
    LowerIff(Trim(a), Trim(b));
    NormIdempotent(a);
    TrimIsTrimmed(a);
    LowerIff(Trim(Norm(a)), Trim(a));
    NormTrimmed(a);
  }

  lemma {:induction false} NormTrimmed(a: string)
    ensures IsTrimmed(Norm(a)) && Norm(a) == Lower(Trim(a))
    ensures forall k :: 0 <= k < |Norm(a)| ==> !('A' <= Norm(a)[k] <= 'Z')
  {
    TrimIsTrimmed(a);
    hide Trim;
    LowerSpace(Trim(a));
  }

  // ---- counting ----

  lemma {:induction false} CountConcat(a: seq<Attempt>, b: seq<Attempt>, key: Key, lo: int, hi: int)
    ensures Count(a + b, key, lo, hi) == Count(a, key, lo, hi) + Count(b, key, lo, hi)
  {
    if a == [] {
      assert a + b == b;
    } else {
      CountConcat(a[1..], b, key, lo, hi);
      assert (a + b)[1..] == a[1..] + b;
    }
  }

  lemma {:induction false} CountNext(rows: seq<Attempt>, row: Attempt, key: Key, lo: int, hi: int)
    ensures Count(rows + [row], key, lo, hi)
         == Count(rows, key, lo, hi) + (if Matches(key, row) && lo <= row.at <= hi then 1 else 0)
  {
    CountConcat(rows, [row], key, lo, hi);
    assert [row][1..] == [];
  }

  lemma {:induction false} CountWindow(rows: seq<Attempt>, key: Key, lo: int, hi: int, lo': int, hi': int)
    requires lo <= lo' && hi' <= hi
    ensures Count(rows, key, lo', hi') <= Count(rows, key, lo, hi)
  {
    if rows != [] { CountWindow(rows[1..], key, lo, hi, lo', hi'); }
  }

  lemma {:induction false} CountWithout(rows: seq<Attempt>, email: string, key: Key, lo: int, hi: int)
    ensures Count(Without(rows, email), key, lo, hi) <= Count(rows, key, lo, hi)
    ensures key.ByEmail? && key.email != email ==>
              Count(Without(rows, email), key, lo, hi) == Count(rows, key, lo, hi)
  {
    if rows != [] {
      CountWithout(rows[1..], email, key, lo, hi);
      assert rows[0].email != email ==> Without(rows, email)[1..] == Without(rows[1..], email);
    }
  }

  /** Deleting an email's rows keeps every other row as often as before. */
  lemma {:induction false} WithoutRows(rows: seq<Attempt>, email: string)
    ensures forall row ::
              multiset(Without(rows, email))[row] == if row.email == email then 0 else multiset(rows)[row]
    ensures forall k :: 0 <= k < |Without(rows, email)| ==> !Matches(ByEmail(email), Without(rows, email)[k])
  {
    if rows != [] {
      WithoutRows(rows[1..], email);
      assert rows == [rows[0]] + rows[1..];
      assert multiset(rows) == multiset{rows[0]} + multiset(rows[1..]);
      var rest := Without(rows[1..], email);
      if rows[0].email != email {
        assert multiset([rows[0]] + rest) == multiset{rows[0]} + multiset(rest);
      }
    }
  }

  lemma {:induction false} NoneCounted(rows: seq<Attempt>, key: Key, lo: int, hi: int)
    requires forall k :: 0 <= k < |rows| ==> !Matches(key, rows[k])
    ensures Count(rows, key, lo, hi) == 0
  {
    if rows != [] {
      NoneCounted(rows[1..], key, lo, hi);
      assert !Matches(key, rows[0]);
    }
  }

  lemma {:induction false} NoneDenied(rows: seq<Attempt>, key: Key, now: int)
    requires forall k :: 0 <= k < |rows| ==> !Matches(key, rows[k])
    ensures ScopeVerdict(rows, key, now).Allowed?
  {
    NoneMatch(rows, key, now - Window(key));
  }

  lemma {:induction false} CountSince(rows: seq<Attempt>, cutoff: int, key: Key, lo: int, hi: int)
    ensures Count(Since(rows, cutoff), key, lo, hi) <= Count(rows, key, lo, hi)
  {
    if rows != [] {
      CountSince(rows[1..], cutoff, key, lo, hi);
      assert rows[0].at >= cutoff ==> Since(rows, cutoff)[1..] == Since(rows[1..], cutoff);
    }
  }

  predicate NotAfter(rows: seq<Attempt>, clock: int) {
    forall k :: 0 <= k < |rows| ==> rows[k].at <= clock
  }

  /** A query without an upper end counts the window up to any later time. */
  lemma {:induction false} TimesCount(rows: seq<Attempt>, key: Key, since: int, hi: int)
    requires NotAfter(rows, hi)
    ensures |Times(rows, key, since)| == Count(rows, key, since, hi)
  {
    if rows != [] {
      assert rows[0].at <= hi;
      TimesCount(rows[1..], key, since, hi);
    }
  }

  lemma {:induction false} CountBeyond(rows: seq<Attempt>, key: Key, lo: int, hi: int, clock: int)
    requires NotAfter(rows, clock) && clock < lo
    ensures Count(rows, key, lo, hi) == 0
  {
    if rows != [] {
      assert rows[0].at <= clock;
      CountBeyond(rows[1..], key, lo, hi, clock);
    }
  }

  // ---- pruning ----

  lemma {:induction false} TimesSince(rows: seq<Attempt>, cutoff: int, key: Key, since: int)
    requires cutoff <= since
    ensures Times(Since(rows, cutoff), key, since) == Times(rows, key, since)
  {
    if rows != [] {
      TimesSince(rows[1..], cutoff, key, since);
      if rows[0].at >= cutoff {
        assert Since(rows, cutoff)[1..] == Since(rows[1..], cutoff);
      }
    }
  }

  /** Rows that no window reaches back to make no difference to the verdict. */
  lemma {:induction false} PruningKeepsVerdict(rows: seq<Attempt>, email: string, ip: string, now: int, cutoff: int)
    requires cutoff <= now - MAX_WINDOW_MS
    ensures VerdictOn(Since(rows, cutoff), email, ip, now) == VerdictOn(rows, email, ip, now)
  {
    hide Times, Since, Ordered;
    TimesSince(rows, cutoff, ByEmail(email), now - EMAIL_WINDOW_MS);
    TimesSince(rows, cutoff, ByIp(ip), now - IP_WINDOW_MS);
  }

  lemma {:induction false} SinceSince(rows: seq<Attempt>, c: int, d: int)
    requires c <= d
    ensures Since(Since(rows, c), d) == Since(rows, d)
  {
    if rows != [] {
      SinceSince(rows[1..], c, d);
      if rows[0].at >= c {
        assert Since(rows, c)[1..] == Since(rows[1..], c);
      }
    }
  }

  lemma {:induction false} SinceConcat(a: seq<Attempt>, b: seq<Attempt>, cutoff: int)
    ensures Since(a + b, cutoff) == Since(a, cutoff) + Since(b, cutoff)
  {
    if a == [] {
      assert a + b == b;
    } else {
      SinceConcat(a[1..], b, cutoff);
      assert (a + b)[1..] == a[1..] + b;
      assert [a[0]] + (Since(a[1..], cutoff) + Since(b, cutoff)) == [a[0]] + Since(a[1..], cutoff) + Since(b, cutoff);
    }
  }

  lemma {:induction false} SinceWithout(rows: seq<Attempt>, cutoff: int, email: string)
    ensures Without(Since(rows, cutoff), email) == Since(Without(rows, email), cutoff)
  {
    if rows != [] {
      SinceWithout(rows[1..], cutoff, email);
      if rows[0].at >= cutoff {
        assert Since(rows, cutoff)[1..] == Since(rows[1..], cutoff);
      }
      if rows[0].email != email {
        assert Without(rows, email)[1..] == Without(rows[1..], email);
      }
    }
  }

  // ---- runs ----

  /** One login request: when the limiter was asked, when the password check
      was answered, and whether the password was right. */
  datatype Request = Request(email: string, ip: string, checkedAt: int, answeredAt: int, correct: bool)

  datatype Entry = Failed(row: Attempt) | Succeeded(email: string, at: int)

  /** The table, and beside it everything that was ever answered. */
  datatype State = State(rows: seq<Attempt>, history: seq<Entry>)

  function Step(s: State, r: Request): State {
    var rows := Since(s.rows, r.checkedAt - MAX_WINDOW_MS);
    if VerdictOn(s.rows, Norm(r.email), r.ip, r.checkedAt).Denied? then State(rows, s.history)
    else if r.correct then
      State(Without(rows, Norm(r.email)), s.history + [Succeeded(Norm(r.email), r.answeredAt)])
    else
      var row := Attempt(Norm(r.email), r.ip, r.answeredAt);
      State(rows + [row], s.history + [Failed(row)])
  }

  /** The state after a run of requests, from an empty table. */
  function After(requests: seq<Request>): State {
    if requests == [] then State([], [])
    else Step(After(requests[..|requests| - 1]), requests[|requests| - 1])
  }

  /** One request at a time, under a clock that does not run backwards. */
  predicate Clocked(requests: seq<Request>) {
    && (forall k :: 0 <= k < |requests| ==> requests[k].checkedAt <= requests[k].answeredAt)
    && (forall i, j :: 0 <= i < j < |requests| ==> requests[i].answeredAt <= requests[j].checkedAt)
  }

  /** The failures of a history that no later success of their email cleared:
      the table if nothing were ever pruned. */
  function Live(history: seq<Entry>): seq<Attempt> {
    if history == [] then []
    else LiveAfter(Live(history[..|history| - 1]), history[|history| - 1])
  }

  function LiveAfter(live: seq<Attempt>, e: Entry): seq<Attempt> {
    match e
    case Failed(row) => live + [row]
    case Succeeded(email, _) => Without(live, email)
  }

  /** All failures of a history. */
  function Failures(history: seq<Entry>): seq<Attempt> {
    if history == [] then []
    else FailuresAfter(Failures(history[..|history| - 1]), history[|history| - 1])
  }

  function FailuresAfter(failures: seq<Attempt>, e: Entry): seq<Attempt> {
    match e
    case Failed(row) => failures + [row]
    case Succeeded(_, _) => failures
  }

  function EntryTime(e: Entry): int {
    match e case Failed(row) => row.at case Succeeded(_, at) => at
  }

  predicate HistoryNotAfter(history: seq<Entry>, clock: int) {
    forall k :: 0 <= k < |history| ==> EntryTime(history[k]) <= clock
  }

  predicate PrunedAt(rows: seq<Attempt>, live: seq<Attempt>, cutoff: int) {
    rows == Since(live, cutoff)
  }

  ghost predicate Safe(rows: seq<Attempt>) {
    forall key, x :: InWindow(rows, key, x) <= Limit(key)
  }

  /** What holds between requests, at any time `clock` after the last one. */
  ghost predicate Consistent(s: State, clock: int) {
    && HistoryNotAfter(s.history, clock)
    && NotAfter(Live(s.history), clock)
    && Safe(Live(s.history))
    && exists cutoff :: cutoff <= clock - MAX_WINDOW_MS && PrunedAt(s.rows, Live(s.history), cutoff)
  }

  lemma {:induction false} LiveNext(history: seq<Entry>, e: Entry)
    ensures Live(history + [e]) == LiveAfter(Live(history), e)
    ensures Failures(history + [e]) == FailuresAfter(Failures(history), e)
  {
    var h := history + [e];
    assert h[..|h| - 1] == history;
  }

  lemma {:induction false} WithoutNotAfter(rows: seq<Attempt>, email: string, clock: int)
    requires NotAfter(rows, clock)
    ensures NotAfter(Without(rows, email), clock)
  {
    if rows != [] {
      assert forall k :: 0 <= k < |rows[1..]| ==> rows[1..][k] == rows[k + 1];
      WithoutNotAfter(rows[1..], email, clock);
      assert rows[0].at <= clock;
    }
  }

  /** The verdict on the pruned table is the verdict on the full log. */
  lemma {:induction false} VerdictOnLog(s: State, clock: int, email: string, ip: string, now: int)
    requires Consistent(s, clock) && clock <= now
    ensures VerdictOn(s.rows, email, ip, now) == VerdictOn(Live(s.history), email, ip, now)
  {
    hide Live, Since, Safe, VerdictOn, HistoryNotAfter, NotAfter;
    var cutoff :| cutoff <= clock - MAX_WINDOW_MS && PrunedAt(s.rows, Live(s.history), cutoff);
    PruningKeepsVerdict(Live(s.history), email, ip, now, cutoff);
  }

  /** An allowed attempt leaves room in every window that its failure enters. */
  lemma {:induction false} RoomForOne(live: seq<Attempt>, row: Attempt, checkedAt: int)
    requires Safe(live) && NotAfter(live, checkedAt) && checkedAt <= row.at
    requires VerdictOn(live, row.email, row.ip, checkedAt).Allowed?
    ensures Safe(live + [row])
  {
    hide Times, Ordered, Count;
    forall key, x ensures InWindow(live + [row], key, x) <= Limit(key) {
      assert InWindow(live, key, x) <= Limit(key);
      CountNext(live, row, key, x, x + Window(key));
      if Matches(key, row) && x <= row.at <= x + Window(key) {
        TimesCount(live, key, checkedAt - Window(key), row.at);
        assert Count(live, key, checkedAt - Window(key), row.at) < Limit(key);
        CountUpTo(live, key, x, x + Window(key), row.at);
        CountWindow(live, key, checkedAt - Window(key), row.at, x, row.at);
      }
    }
  }

  lemma {:induction false} CountUpTo(rows: seq<Attempt>, key: Key, lo: int, hi: int, clock: int)
    requires NotAfter(rows, clock) && clock <= hi
    ensures Count(rows, key, lo, hi) == Count(rows, key, lo, clock)
  {
    if rows != [] {
      assert rows[0].at <= clock;
      CountUpTo(rows[1..], key, lo, hi, clock);
    }
  }

  lemma {:induction false} WithoutSafe(rows: seq<Attempt>, email: string)
    requires Safe(rows)
    ensures Safe(Without(rows, email))
  {
    forall key, x ensures InWindow(Without(rows, email), key, x) <= Limit(key) {
      assert InWindow(rows, key, x) <= Limit(key);
      CountWithout(rows, email, key, x, x + Window(key));
    }
  }

  lemma {:induction false} StepConsistent(s: State, clock: int, r: Request)
    requires Consistent(s, clock) && clock <= r.checkedAt <= r.answeredAt
    ensures Consistent(Step(s, r), r.answeredAt)
  {
    hide VerdictOn, Safe, Since, Without, Live;
    var live := Live(s.history);
    var cutoff :| cutoff <= clock - MAX_WINDOW_MS && PrunedAt(s.rows, live, cutoff);
    var c := r.checkedAt - MAX_WINDOW_MS;
    SinceSince(live, cutoff, c);
    VerdictOnLog(s, clock, Norm(r.email), r.ip, r.checkedAt);
    var s' := Step(s, r);
    if VerdictOn(s.rows, Norm(r.email), r.ip, r.checkedAt).Denied? {
      assert PrunedAt(s'.rows, live, c);
    } else if r.correct {
      var e := Succeeded(Norm(r.email), r.answeredAt);
      LiveNext(s.history, e);
      SinceWithout(live, c, Norm(r.email));
      WithoutSafe(live, Norm(r.email));
      WithoutNotAfter(live, Norm(r.email), clock);
      assert PrunedAt(s'.rows, Live(s'.history), c);
    } else {
      var row := Attempt(Norm(r.email), r.ip, r.answeredAt);
      LiveNext(s.history, Failed(row));
      RoomForOne(live, row, r.checkedAt);
      SinceConcat(live, [row], c);
      assert Since([row], c) == [row] by { SinceOne(row, c); }
      assert PrunedAt(s'.rows, Live(s'.history), c);
    }
  }

  lemma {:induction false} SinceOne(row: Attempt, cutoff: int)
    requires row.at >= cutoff
    ensures Since([row], cutoff) == [row]
  {
    assert [row][1..] == [];
  }

  lemma {:induction false} RunConsistent(requests: seq<Request>, clock: int)
    requires Clocked(requests)
    requires requests != [] ==> requests[|requests| - 1].answeredAt <= clock
    ensures Consistent(After(requests), clock)
  {
    hide Step, Consistent;
    if requests == [] {
      NothingYet(clock);
    } else {
      var n := |requests| - 1;
      var init := requests[..n];
      RunConsistent(init, requests[n].checkedAt);
      StepConsistent(After(init), requests[n].checkedAt, requests[n]);
      ConsistentLater(After(requests), requests[n].answeredAt, clock);
    }
  }

  lemma {:induction false} NothingYet(clock: int)
    ensures Consistent(State([], []), clock)
  {
    assert PrunedAt([], Live([]), clock - MAX_WINDOW_MS);
  }

  lemma {:induction false} ConsistentLater(s: State, clock: int, later: int)
    requires Consistent(s, clock) && clock <= later
    ensures Consistent(s, later)
  {
    hide Live, Since, Safe, PrunedAt;
    var cutoff :| cutoff <= clock - MAX_WINDOW_MS && PrunedAt(s.rows, Live(s.history), cutoff);
    assert cutoff <= later - MAX_WINDOW_MS && PrunedAt(s.rows, Live(s.history), cutoff);
  }

  /** No closed window ever holds more stored failures than its limit: 5 per
      email in 15 minutes, 20 per address in an hour. */
  lemma {:induction false} WindowSafety(requests: seq<Request>, key: Key, x: int)
    requires Clocked(requests)
    ensures InWindow(After(requests).rows, key, x) <= Limit(key)
  {
    hide After, Live, Since, Count, Limit, Window, HistoryNotAfter, NotAfter;
    var s := After(requests);
    var clock := if requests == [] then 0 else requests[|requests| - 1].answeredAt;
    RunConsistent(requests, clock);
    var cutoff :| cutoff <= clock - MAX_WINDOW_MS && PrunedAt(s.rows, Live(s.history), cutoff);
    CountSince(Live(s.history), cutoff, key, x, x + Window(key));
    assert InWindow(Live(s.history), key, x) <= Limit(key);
  }

  /** Over any run, asking the pruned table is asking the full log. */
  lemma {:induction false} PruningInvisible(requests: seq<Request>, email: string, ip: string, now: int)
    requires Clocked(requests)
    requires requests != [] ==> requests[|requests| - 1].answeredAt <= now
    ensures VerdictOn(After(requests).rows, email, ip, now)
         == VerdictOn(Live(After(requests).history), email, ip, now)
  {
    hide After, Live, Consistent, VerdictOn;
    RunConsistent(requests, now);
    VerdictOnLog(After(requests), now, email, ip, now);
  }

  // ---- the answered history ----

  predicate SuccessIn(history: seq<Entry>, email: string, lo: int, hi: int) {
    exists k :: 0 <= k < |history| && history[k].Succeeded? && history[k].email == email && lo <= history[k].at <= hi
  }

  /** No success of the email in the closed email window from `x`. */
  predicate Quiet(history: seq<Entry>, email: string, x: int) {
    !SuccessIn(history, email, x, x + EMAIL_WINDOW_MS)
  }

  predicate Chronological(history: seq<Entry>) {
    forall i, j :: 0 <= i < j < |history| ==> EntryTime(history[i]) <= EntryTime(history[j])
  }

  lemma {:induction false} FailuresNotAfter(history: seq<Entry>, clock: int)
    requires HistoryNotAfter(history, clock)
    ensures NotAfter(Failures(history), clock) && NotAfter(Live(history), clock)
  {
    if history != [] {
      var n := |history| - 1;
      var init := history[..n];
      FailuresNotAfter(init, clock);
      assert history == init + [history[n]];
      LiveNext(init, history[n]);
      assert EntryTime(history[n]) <= clock;
      if history[n].Succeeded? { WithoutNotAfter(Live(init), history[n].email, clock); }
    }
  }

  /** How many of a key's rows in a closed window are of emails outside a set. */
  function CountBut(rows: seq<Attempt>, emails: set<string>, key: Key, lo: int, hi: int): nat {
    if rows == [] then 0
    else
      (if Matches(key, rows[0]) && lo <= rows[0].at <= hi && rows[0].email !in emails then 1 else 0)
      + CountBut(rows[1..], emails, key, lo, hi)
  }

  lemma {:induction false} CountButConcat(a: seq<Attempt>, b: seq<Attempt>, emails: set<string>, key: Key,
                                          lo: int, hi: int)
    ensures CountBut(a + b, emails, key, lo, hi) == CountBut(a, emails, key, lo, hi) + CountBut(b, emails, key, lo, hi)
  {
    if a == [] {
      assert a + b == b;
    } else {
      CountButConcat(a[1..], b, emails, key, lo, hi);
      assert (a + b)[1..] == a[1..] + b;
    }
  }

  lemma {:induction false} CountButWithout(rows: seq<Attempt>, email: string, emails: set<string>, key: Key,
                                           lo: int, hi: int)
    requires email in emails
    ensures CountBut(Without(rows, email), emails, key, lo, hi) == CountBut(rows, emails, key, lo, hi)
  {
    if rows != [] {
      CountButWithout(rows[1..], email, emails, key, lo, hi);
      assert rows[0].email != email ==> Without(rows, email)[1..] == Without(rows[1..], email);
    }
  }

  lemma {:induction false} CountButAtMost(rows: seq<Attempt>, emails: set<string>, key: Key, lo: int, hi: int)
    ensures CountBut(rows, emails, key, lo, hi) <= Count(rows, key, lo, hi)
    ensures key.ByEmail? && key.email !in emails ==>
              CountBut(rows, emails, key, lo, hi) == Count(rows, key, lo, hi)
  {
    if rows != [] { CountButAtMost(rows[1..], emails, key, lo, hi); }
  }

  lemma {:induction false} CountButBeyond(rows: seq<Attempt>, emails: set<string>, key: Key, lo: int, hi: int,
                                          clock: int)
    requires NotAfter(rows, clock) && clock < lo
    ensures CountBut(rows, emails, key, lo, hi) == 0
  {
    CountBeyond(rows, key, lo, hi, clock);
    CountButAtMost(rows, emails, key, lo, hi);
  }

  /** The emails with a success in a closed window. */
  function Cleared(history: seq<Entry>, lo: int, hi: int): set<string> {
    set k | 0 <= k < |history| && history[k].Succeeded? && lo <= history[k].at <= hi :: history[k].email
  }

  /** Failures since `lo` are all still live but for emails with a success
      since then. */
  lemma {:induction false} UnclearedAreLive(history: seq<Entry>, emails: set<string>, key: Key, lo: int, hi: int)
    requires Chronological(history) && HistoryNotAfter(history, hi)
    requires Cleared(history, lo, hi) <= emails
    ensures CountBut(Failures(history), emails, key, lo, hi) == CountBut(Live(history), emails, key, lo, hi)
  {
    hide Live, Failures, CountBut;
    if history == [] {
      NoHistory();
    } else {
      var n := |history| - 1;
      var init, e := history[..n], history[n];
      assert history == init + [e];
      assert forall k :: 0 <= k < n ==> init[k] == history[k];
      UnclearedAreLive(init, emails, key, lo, hi);
      LiveNext(init, e);
      match e {
        case Failed(row) =>
          CountButConcat(Live(init), [row], emails, key, lo, hi);
          CountButConcat(Failures(init), [row], emails, key, lo, hi);
        case Succeeded(email, at) =>
          if email in emails {
            CountButWithout(Live(init), email, emails, key, lo, hi);
          } else {
            assert at < lo;
            FailuresNotAfter(init, at);
            CountButBeyond(Failures(init), emails, key, lo, hi, at);
            WithoutNotAfter(Live(init), email, at);
            CountButBeyond(Without(Live(init), email), emails, key, lo, hi, at);
          }
      }
    }
  }

  lemma {:induction false} NoHistory()
    ensures Live([]) == [] && Failures([]) == [] && Chronological([]) && FewFailures([])
  {
  }

  /** The failures answered for a key in a window of its length, but for emails
      with a success in that window. */
  function Uncleared(history: seq<Entry>, key: Key, x: int): nat {
    CountBut(Failures(history), Cleared(history, x, x + Window(key)), key, x, x + Window(key))
  }

  /** There are never more of them than the limit. */
  ghost predicate FewFailures(history: seq<Entry>) {
    forall key, x :: Uncleared(history, key, x) <= Limit(key)
  }

  lemma {:induction false} HistoryStep(s: State, clock: int, r: Request)
    requires Consistent(s, clock) && clock <= r.checkedAt <= r.answeredAt
    requires Chronological(s.history) && FewFailures(s.history)
    ensures Chronological(Step(s, r).history) && FewFailures(Step(s, r).history)
  {
    hide VerdictOn, Safe, Since, Without, Live, Failures, Count, CountBut, Uncleared;
    var s' := Step(s, r);
    StepConsistent(s, clock, r);
    if s'.history != s.history {
      var e := s'.history[|s.history|];
      assert s'.history == s.history + [e] && EntryTime(e) == r.answeredAt;
      forall key, x ensures Uncleared(s'.history, key, x) <= Limit(key) {
        HistoryWindow(s, s', e, key, x, r.answeredAt);
      }
    }
  }

  lemma {:induction false} HistoryWindow(s: State, s': State, e: Entry, key: Key, x: int, at: int)
    requires s'.history == s.history + [e] && EntryTime(e) == at
    requires Consistent(s', at) && Chronological(s'.history) && FewFailures(s.history)
    ensures Uncleared(s'.history, key, x) <= Limit(key)
  {
    hide Live, Failures, Count, CountBut, Cleared, Limit, Chronological;
    var hi := x + Window(key);
    LiveNext(s.history, e);
    if at <= hi {
      var emails := Cleared(s'.history, x, hi);
      UnclearedAreLive(s'.history, emails, key, x, hi);
      CountButAtMost(Live(s'.history), emails, key, x, hi);
      assert InWindow(Live(s'.history), key, x) <= Limit(key);
    } else {
      assert Uncleared(s.history, key, x) <= Limit(key);
      ClearedLater(s.history, e, x, hi);
      if e.Failed? { CountButLater(Failures(s.history), e.row, Cleared(s.history, x, hi), key, x, hi); }
    }
  }

  lemma {:induction false} CountButLater(rows: seq<Attempt>, row: Attempt, emails: set<string>, key: Key,
                                         lo: int, hi: int)
    requires row.at > hi
    ensures CountBut(rows + [row], emails, key, lo, hi) == CountBut(rows, emails, key, lo, hi)
  {
    CountButConcat(rows, [row], emails, key, lo, hi);
    assert [row][1..] == [];
  }

  lemma {:induction false} ClearedLater(history: seq<Entry>, e: Entry, lo: int, hi: int)
    requires EntryTime(e) > hi
    ensures Cleared(history + [e], lo, hi) == Cleared(history, lo, hi)
  {
    var longer := history + [e];
    assert longer[|history|] == e;
    assert forall k :: 0 <= k < |history| ==> longer[k] == history[k];
  }

  lemma {:induction false} RunHistory(requests: seq<Request>)
    requires Clocked(requests)
    ensures Chronological(After(requests).history) && FewFailures(After(requests).history)
  {
    hide Step, Live, Failures, Consistent, FewFailures, Chronological, Uncleared;
    if requests == [] {
      NoHistory();
    } else {
      var n := |requests| - 1;
      var init := requests[..n];
      RunHistory(init);
      RunConsistent(init, requests[n].checkedAt);
      HistoryStep(After(init), requests[n].checkedAt, requests[n]);
    }
  }

  /** In any closed window, of everything ever answered, pruned or not: at most
      20 wrong passwords from one address in an hour for emails without a
      success in that hour, and at most 5 for one email in 15 minutes. */
  lemma {:induction false} AnsweredFailuresOf(requests: seq<Request>, key: Key, x: int)
    requires Clocked(requests)
    ensures Uncleared(After(requests).history, key, x) <= Limit(key)
  {
    hide Uncleared;
    RunHistory(requests);
  }

  /** In any closed 15 minutes without a success of an email, at most five
      wrong passwords were ever answered for it, pruned or not. */
  lemma {:induction false} AnsweredFailures(requests: seq<Request>, email: string, x: int)
    requires Clocked(requests)
    requires Quiet(After(requests).history, email, x)
    ensures InWindow(Failures(After(requests).history), ByEmail(email), x) <= EMAIL_LIMIT
  {
    hide After, Failures, Count, CountBut;
    var history := After(requests).history;
    AnsweredFailuresOf(requests, ByEmail(email), x);
    CountButAtMost(Failures(history), Cleared(history, x, x + EMAIL_WINDOW_MS), ByEmail(email), x, x + EMAIL_WINDOW_MS);
  }

  // ---- the counts, and deleting rows ----

  function RecentFailures(rows: seq<Attempt>, rawEmail: Option<string>, ip: Option<string>, now: int): nat {
    var key := CountedKey(rawEmail, ip);
    |Times(rows, key, now - Window(key))|
  }

  /** An attempt is allowed exactly when both counts that
      `countRecentFailures` reports are below their limits, and a denial is on
      the email scope exactly when that count has reached its limit. */
  lemma {:induction false} AllowedIffCounts(rows: seq<Attempt>, rawEmail: string, ip: string, now: int)
    requires rawEmail != ""
    ensures VerdictOn(rows, Norm(rawEmail), ip, now).Allowed? <==>
              && RecentFailures(rows, Some(rawEmail), None, now) < EMAIL_LIMIT
              && RecentFailures(rows, None, Some(ip), now) < IP_LIMIT
    ensures VerdictOn(rows, Norm(rawEmail), ip, now).Denied? ==>
              (VerdictOn(rows, Norm(rawEmail), ip, now).key == ByEmail(Norm(rawEmail))
               <==> RecentFailures(rows, Some(rawEmail), None, now) >= EMAIL_LIMIT)
  {
  }

  lemma {:induction false} AllMatch(rows: seq<Attempt>, key: Key, since: int)
    requires forall k :: 0 <= k < |rows| ==> Matches(key, rows[k]) && rows[k].at >= since
    ensures |Times(rows, key, since)| == |rows|
  {
    if rows != [] {
      AllMatch(rows[1..], key, since);
      assert Matches(key, rows[0]) && rows[0].at >= since;
    }
  }

  lemma {:induction false} NoneMatch(rows: seq<Attempt>, key: Key, since: int)
    requires forall k :: 0 <= k < |rows| ==> !Matches(key, rows[k])
    ensures Times(rows, key, since) == []
  {
    if rows != [] {
      NoneMatch(rows[1..], key, since);
      assert !Matches(key, rows[0]);
    }
  }

  /** For an empty email the first count is about an address instead, so an
      email that is denied can report no failures at all. */
  lemma {:induction false} EmptyEmailCountsByAddress(rows: seq<Attempt>, ip: string, now: int)
    requires |rows| >= EMAIL_LIMIT && ip != ""
    requires forall k :: 0 <= k < |rows| ==> rows[k] == Attempt("", ip, now)
    ensures VerdictOn(rows, Norm(""), ip, now).Denied?
    ensures RecentFailures(rows, Some(""), None, now) == 0
  {
    AllMatch(rows, ByEmail(""), now - EMAIL_WINDOW_MS);
    NoneMatch(rows, ByIp(""), now - IP_WINDOW_MS);
  }

  predicate CountsDecide(rows: seq<Attempt>, rawEmail: string, ip: string, now: int) {
    VerdictOn(rows, Norm(rawEmail), ip, now).Allowed? <==>
      && RecentFailures(rows, Some(rawEmail), None, now) < EMAIL_LIMIT
      && RecentFailures(rows, None, Some(ip), now) < IP_LIMIT
  }

  /** The reported counts decide the verdict for every table, address and time
      exactly when the email is not empty. The login route refuses empty ones. */
  lemma {:induction false} CountsDecideIffEmail(rawEmail: string)
    ensures (forall rows, ip, now :: CountsDecide(rows, rawEmail, ip, now)) <==> rawEmail != ""
  {
    hide VerdictOn, RecentFailures;
    if rawEmail != "" {
      forall rows, ip, now ensures CountsDecide(rows, rawEmail, ip, now) {
        AllowedIffCounts(rows, rawEmail, ip, now);
      }
    } else {
      var row := Attempt("", "10.0.0.1", 0);
      var rows := [row, row, row, row, row];
      EmptyEmailCountsByAddress(rows, "10.0.0.1", 0);
      FewerThanRows(rows, 0);
      assert !CountsDecide(rows, rawEmail, "10.0.0.1", 0);
    }
  }

  lemma {:induction false} FewerThanRows(rows: seq<Attempt>, now: int)
    requires |rows| < IP_LIMIT
    ensures RecentFailures(rows, None, Some("10.0.0.1"), now) < IP_LIMIT
  {
    TimesAtMost(rows, ByIp("10.0.0.1"), now - IP_WINDOW_MS);
  }

  lemma {:induction false} TimesAtMost(rows: seq<Attempt>, key: Key, since: int)
    ensures |Times(rows, key, since)| <= |rows|
  {
    if rows != [] { TimesAtMost(rows[1..], key, since); }
  }

  lemma {:induction false} TimesConcat(a: seq<Attempt>, b: seq<Attempt>, key: Key, since: int)
    ensures Times(a + b, key, since) == Times(a, key, since) + Times(b, key, since)
  {
    if a == [] {
      assert a + b == b;
    } else {
      TimesConcat(a[1..], b, key, since);
      assert (a + b)[1..] == a[1..] + b;
      var rest := Times(a[1..], key, since);
      assert [a[0].at] + (rest + Times(b, key, since)) == [a[0].at] + rest + Times(b, key, since);
    }
  }

  lemma {:induction false} CancelOne(a: multiset<Attempt>, b: multiset<Attempt>, row: Attempt)
    requires multiset{row} + a <= b + multiset{row}
    ensures a <= b
  {
    forall x: Attempt ensures a[x] <= b[x] {
      assert (multiset{row} + a)[x] <= (b + multiset{row})[x];
    }
  }

  lemma {:induction false} FewerRowsFewerTimes(few: seq<Attempt>, many: seq<Attempt>, key: Key, since: int)
    requires multiset(few) <= multiset(many)
    ensures |Times(few, key, since)| <= |Times(many, key, since)|
  {
    if few != [] {
      var row := few[0];
      assert few == [row] + few[1..];
      assert multiset(few) == multiset{row} + multiset(few[1..]);
      assert row in multiset(few);
      assert row in multiset(many);
      var k :| 0 <= k < |many| && many[k] == row;
      var rest := many[..k] + many[k + 1..];
      assert many == many[..k] + ([row] + many[k + 1..]);
      assert multiset(many) == multiset(rest) + multiset{row};
      CancelOne(multiset(few[1..]), multiset(rest), row);
      FewerRowsFewerTimes(few[1..], rest, key, since);
      TimesConcat(many[..k], many[k + 1..], key, since);
      TimesConcat(many[..k], [row] + many[k + 1..], key, since);
      TimesConcat([row], many[k + 1..], key, since);
      TimesConcat([row], few[1..], key, since);
    }
  }

  /** Deleting rows never turns an allowed attempt into a denied one. */
  lemma {:induction false} DeletingOnlyAllows(few: seq<Attempt>, many: seq<Attempt>, email: string, ip: string,
                                              now: int)
    requires multiset(few) <= multiset(many)
    requires VerdictOn(many, email, ip, now).Allowed?
    ensures VerdictOn(few, email, ip, now).Allowed?
  {
    FewerRowsFewerTimes(few, many, ByEmail(email), now - EMAIL_WINDOW_MS);
    FewerRowsFewerTimes(few, many, ByIp(ip), now - IP_WINDOW_MS);
  }

  // ---- the retry hint ----

  /** The oldest counted failure of a key. */
  function Oldest(rows: seq<Attempt>, key: Key, now: int): int
    requires Times(rows, key, now - Window(key)) != []
  {
    Ordered(Times(rows, key, now - Window(key)))[0]
  }

  lemma {:induction false} OldestIsLeast(rows: seq<Attempt>, key: Key, now: int)
    requires Times(rows, key, now - Window(key)) != []
    ensures var ts := Times(rows, key, now - Window(key));
            Oldest(rows, key, now) in ts && forall t :: t in ts ==> Oldest(rows, key, now) <= t
  {
    var ts := Times(rows, key, now - Window(key));
    var r := Ordered(ts);
    assert r[0] in multiset(r);
    forall t | t in ts ensures r[0] <= t {
      assert t in multiset(ts);
      assert t in r;
    }
  }

  /** Moving the window start up to the oldest time loses nothing; moving it
      past that time loses at least one row. */
  lemma {:induction false} LaterStart(rows: seq<Attempt>, key: Key, lo: int, lo': int)
    requires lo <= lo'
    ensures |Times(rows, key, lo')| <= |Times(rows, key, lo)|
    ensures |Times(rows, key, lo')| == |Times(rows, key, lo)| <==> AllFrom(Times(rows, key, lo), lo')
  {
    if rows != [] {
      var rest := rows[1..];
      LaterStart(rest, key, lo, lo');
      if Matches(key, rows[0]) && rows[0].at >= lo {
        AllFromHead(rows[0].at, Times(rest, key, lo), lo');
      }
    }
  }

  predicate AllFrom(ts: seq<int>, start: int) {
    forall k :: 0 <= k < |ts| ==> ts[k] >= start
  }

  lemma {:induction false} AllFromHead(t: int, ts: seq<int>, start: int)
    ensures AllFrom([t] + ts, start) <==> t >= start && AllFrom(ts, start)
  {
    var all := [t] + ts;
    assert all[0] == t;
    assert forall k :: 0 <= k < |ts| ==> all[k + 1] == ts[k];
  }

  /** In a reachable state that denies a scope, with nothing recorded or
      cleared meanwhile, the scope stays denied up to and including the time
      the oldest counted failure leaves the window, and passes ever after. */
  lemma {:induction false} DeniedUntilOldestLeaves(requests: seq<Request>, key: Key, now: int, later: int)
    requires Clocked(requests)
    requires requests != [] ==> requests[|requests| - 1].answeredAt <= now
    requires ScopeVerdict(After(requests).rows, key, now).Denied? && now <= later
    ensures Times(After(requests).rows, key, now - Window(key)) != []
    ensures ScopeVerdict(After(requests).rows, key, later).Denied?
       <==> later <= Oldest(After(requests).rows, key, now) + Window(key)
  {
    hide Times, Ordered, Count, After;
    var rows := After(requests).rows;
    var lo, lo' := now - Window(key), later - Window(key);
    OldestIsLeast(rows, key, now);
    WindowSafety(requests, key, lo);
    RowsNotAfter(requests, now);
    TimesCount(rows, key, lo, now);
    LaterStart(rows, key, lo, lo');
    var ts, oldest := Times(rows, key, lo), Oldest(rows, key, now);
    var k :| 0 <= k < |ts| && ts[k] == oldest;
    assert forall j :: 0 <= j < |ts| ==> ts[j] in ts;
    assert AllFrom(ts, lo') <==> oldest >= lo';
  }

  lemma {:induction false} RowsNotAfter(requests: seq<Request>, now: int)
    requires Clocked(requests)
    requires requests != [] ==> requests[|requests| - 1].answeredAt <= now
    ensures NotAfter(After(requests).rows, now)
  {
    hide After, Live, Since, Safe, HistoryNotAfter, NotAfter;
    var s := After(requests);
    RunConsistent(requests, now);
    var cutoff :| cutoff <= now - MAX_WINDOW_MS && PrunedAt(s.rows, Live(s.history), cutoff);
    SinceNotAfter(Live(s.history), cutoff, now);
  }

  lemma {:induction false} SinceNotAfter(rows: seq<Attempt>, cutoff: int, clock: int)
    requires NotAfter(rows, clock)
    ensures NotAfter(Since(rows, cutoff), clock)
  {
    if rows != [] {
      assert forall k :: 0 <= k < |rows[1..]| ==> rows[1..][k] == rows[k + 1];
      SinceNotAfter(rows[1..], cutoff, clock);
      assert rows[0].at <= clock;
    }
  }

  /** The hint is at least a second, never ends before the window does, and
      overshoots by less than a second unless it is the minimum. */
  lemma {:induction false} RetryHint(rows: seq<Attempt>, key: Key, now: int)
    requires ScopeVerdict(rows, key, now).Denied?
    ensures Times(rows, key, now - Window(key)) != []
    ensures var seconds := ScopeVerdict(rows, key, now).retryAfterSeconds;
            var end := Oldest(rows, key, now) + Window(key);
            seconds >= 1 && end <= now + 1000 * seconds && (now + 1000 * seconds < end + 1000 || seconds == 1)
  {
  }
}
