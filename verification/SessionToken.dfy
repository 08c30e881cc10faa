/** The signed session cookie (lib/auth/customer-session.ts) and the reader
    that adds the idle rule (lib/server/customer-auth.ts). */
module SessionToken {
  import opened Wrappers
  import opened JsText
  import opened Base64
  import IdleTimeout

  datatype Role = Maker | Checker | Admin | Viewer

  function RoleName(role: Role): string {
    match role
    case Maker => "maker"
    case Checker => "checker"
    case Admin => "admin"
    case Viewer => "viewer"
  }

  const BUSINESS_ADMIN := "business_admin"

  /** A session; its display label is the constant `BUSINESS_ADMIN`. */
  datatype Session = Session(
    email: string,
    name: string,
    organization: string,
    userRole: Option<Role>,
    suiAddress: Option<string>,
    orgId: Option<string>,
    issuedAt: string,
    expiresAt: string,
    lastSeenAt: Option<string>)

  /** A field of decoded JSON that is checked for being a string. */
  datatype Field = Absent | Str(s: string) | Other

  datatype Payload = Payload(
    email: Option<string>,
    name: Option<string>,
    organization: Option<string>,
    role: Option<string>,
    userRole: Field,
    suiAddress: Field,
    orgId: Field,
    issuedAt: Option<string>,
    expiresAt: Option<string>,
    lastSeenAt: Option<string>,
    nonce: string,
    iat: Option<int>,
    exp: Option<int>)

  /** The platform: JSON, UTF-8, the keyed hash, dates and the denylist. */
  datatype Platform = Platform(
    stringify: Payload -> string,
    parse: string -> Option<Payload>,
    utf8: string -> seq<Byte>,
    fromUtf8: seq<Byte> -> string,
    hmac: (string, string) -> string,
    dateMs: string -> Option<int>,
    iso: int -> string,
    killed: string -> bool)

  /** What is taken from the platform for one payload and one secret: the JSON
      and UTF-8 text of the payload read back, and neither it nor the hash of
      its encoding is empty. */
  predicate Sound(on: Platform, payload: Payload, secret: string) {
    var text := on.stringify(payload);
    && on.parse(text) == Some(payload)
    && on.utf8(text) != []
    && on.fromUtf8(on.utf8(text)) == text
    && on.hmac(EncodeUrl(on.utf8(text)), secret) != ""
  }

  // ---- writing ----

  /** `Math.floor(ms / 1000)` */
  function Seconds(ms: int): int {
    ms / 1000
  }

  function FieldOf(s: Option<string>): Field {
    match s case Some(v) => Str(v) case None => Absent
  }

  function PayloadOf(on: Platform, session: Session, nonce: string, now: int): Payload {
    Payload(
      Some(session.email), Some(session.name), Some(session.organization), Some(BUSINESS_ADMIN),
      (match session.userRole case Some(role) => Str(RoleName(role)) case None => Absent),
      FieldOf(session.suiAddress), FieldOf(session.orgId),
      Some(session.issuedAt), Some(session.expiresAt), session.lastSeenAt,
      nonce, Some(Seconds(now)),
      match on.dateMs(session.expiresAt) case Some(ms) => Some(Seconds(ms)) case None => None)
  }

  function Signed(on: Platform, encoded: string, secret: string): string {
    encoded + "." + on.hmac(encoded, secret)
  }

  function CreateToken(on: Platform, session: Session, secret: string, nonce: string, now: int): string {
    Signed(on, EncodeUrl(on.utf8(on.stringify(PayloadOf(on, session, nonce, now)))), secret)
  }

  // ---- reading ----

  predicate Present(s: Option<string>) {
    s.Some? && s.value != ""
  }

  function RoleOf(field: Field): Option<Role> {
    match field
    case Str(s) =>
      if s == "maker" then Some(Maker)
      else if s == "checker" then Some(Checker)
      else if s == "admin" then Some(Admin)
      else if s == "viewer" then Some(Viewer)
      else None
    case _ => None
  }

  function NonEmpty(field: Field): Option<string> {
    match field
    case Str(s) => if s != "" then Some(s) else None
    case _ => None
  }

  function IsLive(exp: Option<int>, now: int): bool {
    exp.Some? && exp.value != 0 && exp.value * 1000 > now
  }

  /** The checks and the field-by-field copy, after the signature was right. */
  function SessionOf(on: Platform, payload: Payload, now: int): Option<Session> {
    if !Present(payload.email) || !Present(payload.name) || !Present(payload.organization)
       || payload.role != Some(BUSINESS_ADMIN) then None
    else if !IsLive(payload.exp, now) then None
    else if on.killed(payload.email.value) then None
    else
      Some(Session(
        payload.email.value,
        payload.name.value,
        payload.organization.value,
        RoleOf(payload.userRole),
        NonEmpty(payload.suiAddress),
        NonEmpty(payload.orgId),
        (if Present(payload.issuedAt) then payload.issuedAt.value
         else on.iso((match payload.iat case Some(s) => s case None => 0) * 1000)),
        (if Present(payload.expiresAt) then payload.expiresAt.value else on.iso(payload.exp.value * 1000)),
        None))
  }

  function ReadToken(on: Platform, token: Option<string>, secret: string, now: int): Option<Session> {
    if !Present(token) then None
    else
      var t := token.value;
      var dot := IndexOf(t, ".");
      if dot <= 0 || dot == |t| - 1 then None
      else
        var encoded, mac := t[..dot], t[dot + 1..];
        if mac != on.hmac(encoded, secret) then None
        else
          match on.parse(on.fromUtf8(DecodeUrl(encoded)))
          case None => None
          case Some(payload) => SessionOf(on, payload, now)
  }

  /** The checks behind the signature, and each field of what they let through. */
  lemma {:induction false} SessionIs(on: Platform, payload: Payload, now: int)
    ensures SessionOf(on, payload, now).Some? <==>
              && payload.email.Some? && payload.email.value != ""
              && payload.name.Some? && payload.name.value != ""
              && payload.organization.Some? && payload.organization.value != ""
              && payload.role == Some("business_admin")
              && payload.exp.Some? && payload.exp.value != 0 && now < 1000 * payload.exp.value
              && !on.killed(payload.email.value)
    ensures SessionOf(on, payload, now).Some? ==>
              var session := SessionOf(on, payload, now).value;
              && payload.email == Some(session.email) && payload.name == Some(session.name)
              && payload.organization == Some(session.organization)
              && (session.userRole == Some(Maker) <==> payload.userRole == Str("maker"))
              && (session.userRole == Some(Checker) <==> payload.userRole == Str("checker"))
              && (session.userRole == Some(Admin) <==> payload.userRole == Str("admin"))
              && (session.userRole == Some(Viewer) <==> payload.userRole == Str("viewer"))
              && (if payload.suiAddress.Str? && payload.suiAddress.s != "" then
                    session.suiAddress == Some(payload.suiAddress.s)
                  else session.suiAddress == None)
              && (if payload.orgId.Str? && payload.orgId.s != "" then session.orgId == Some(payload.orgId.s)
                  else session.orgId == None)
              && (if payload.issuedAt.Some? && payload.issuedAt.value != "" then
                    session.issuedAt == payload.issuedAt.value
                  else session.issuedAt == on.iso(if payload.iat.Some? then 1000 * payload.iat.value else 0))
              && (if payload.expiresAt.Some? && payload.expiresAt.value != "" then
                    session.expiresAt == payload.expiresAt.value
                  else session.expiresAt == on.iso(1000 * payload.exp.value))
              && session.lastSeenAt == None
  {
    RoleIs(payload.userRole);
    hide RoleOf;
  }

  lemma {:induction false} RoleIs(field: Field)
    ensures RoleOf(field) == Some(Maker) <==> field == Str("maker")
    ensures RoleOf(field) == Some(Checker) <==> field == Str("checker")
    ensures RoleOf(field) == Some(Admin) <==> field == Str("admin")
    ensures RoleOf(field) == Some(Viewer) <==> field == Str("viewer")
  {
  }

  /** The payload written for a session: its own fields, the seconds it was
      made and expires in rounded down, and the one fixed role. */
  lemma {:induction false} PayloadIs(on: Platform, session: Session, nonce: string, now: int)
    ensures var p := PayloadOf(on, session, nonce, now);
            && p.email == Some(session.email) && p.name == Some(session.name)
            && p.organization == Some(session.organization) && p.role == Some("business_admin")
            && (session.userRole == Some(Maker) ==> p.userRole == Str("maker"))
            && (session.userRole == Some(Checker) ==> p.userRole == Str("checker"))
            && (session.userRole == Some(Admin) ==> p.userRole == Str("admin"))
            && (session.userRole == Some(Viewer) ==> p.userRole == Str("viewer"))
            && (session.userRole == None ==> p.userRole == Absent)
            && (if session.suiAddress.Some? then p.suiAddress == Str(session.suiAddress.value)
                else p.suiAddress == Absent)
            && (if session.orgId.Some? then p.orgId == Str(session.orgId.value) else p.orgId == Absent)
            && p.issuedAt == Some(session.issuedAt) && p.expiresAt == Some(session.expiresAt)
            && p.lastSeenAt == session.lastSeenAt && p.nonce == nonce
            && p.iat.Some? && 1000 * p.iat.value <= now < 1000 * (p.iat.value + 1)
            && (p.exp.None? <==> on.dateMs(session.expiresAt).None?)
            && (p.exp.Some? ==>
                  1000 * p.exp.value <= on.dateMs(session.expiresAt).value < 1000 * (p.exp.value + 1))
  {
  }

  // ---- a token and its own reader ----

  /** The encoded part never holds a dot, so the first dot ends it. */
  lemma {:induction false} FirstDot(on: Platform, bytes: seq<Byte>, secret: string)
    requires bytes != []
    ensures var encoded := EncodeUrl(bytes);
            encoded != "" && IndexOf(Signed(on, encoded, secret), ".") == |encoded|
  {
    hide EncodeUrl, IndexOf;
    EncodeUrlForm(bytes);
    DotAfter(EncodeUrl(bytes), on.hmac(EncodeUrl(bytes), secret));
  }

  lemma {:induction false} DotAfter(encoded: string, mac: string)
    requires '.' !in encoded
    ensures IndexOf(encoded + "." + mac, ".") == |encoded|
  {
    var t := encoded + "." + mac;
    var i := IndexOf(t, ".");
    hide IndexOf;
    assert t[|encoded|..|encoded| + 1] == ".";
    assert OccursAt(t, ".", |encoded|);
    assert t[i] == t[i..i + 1][0] == '.';
    assert t[..|encoded|] == encoded;
  }

  /** A signed encoding is read as its payload. */
  lemma {:induction false} ReadSigned(on: Platform, payload: Payload, secret: string, now: int)
    requires Sound(on, payload, secret)
    ensures ReadToken(on, Some(Signed(on, EncodeUrl(on.utf8(on.stringify(payload))), secret)), secret, now)
         == SessionOf(on, payload, now)
  {
    hide EncodeUrl, DecodeUrl, IndexOf, SessionOf;
    var bytes := on.utf8(on.stringify(payload));
    var encoded := EncodeUrl(bytes);
    var t := Signed(on, encoded, secret);
    FirstDot(on, bytes, secret);
    assert t[..|encoded|] == encoded;
    assert t[|encoded| + 1..] == on.hmac(encoded, secret);
    DecodeOfEncodeUrl(bytes);
  }

  /** A session as it comes back: without the activity stamp, and with empty
      optional or date texts replaced as the reader replaces them. */
  function Restored(on: Platform, session: Session, now: int): Session {
    var exp := match on.dateMs(session.expiresAt) case Some(ms) => Seconds(ms) case None => 0;
    session.(
      suiAddress := (if Present(session.suiAddress) then session.suiAddress else None),
      orgId := (if Present(session.orgId) then session.orgId else None),
      issuedAt := (if session.issuedAt != "" then session.issuedAt else on.iso(Seconds(now) * 1000)),
      expiresAt := (if session.expiresAt != "" then session.expiresAt else on.iso(exp * 1000)),
      lastSeenAt := None)
  }

  /** The expiry in whole seconds, when the session has a date for it. */
  predicate ExpiresAfter(on: Platform, session: Session, now: int) {
    match on.dateMs(session.expiresAt)
    case None => false
    case Some(ms) => Seconds(ms) != 0 && now < Seconds(ms) * 1000
  }

  /** What the reader asks of a session's contents at a time. */
  predicate Acceptable(on: Platform, session: Session, now: int) {
    && session.email != "" && session.name != "" && session.organization != ""
    && ExpiresAfter(on, session, now)
    && !on.killed(session.email)
  }

  /** Reading a created token with its secret gives the session back exactly
      when the required fields are filled, the domain is not denied and the
      time is before the expiry truncated to whole seconds. */
  lemma {:induction false} TokenRoundTrip(on: Platform, session: Session, secret: string, nonce: string,
                                          created: int, now: int)
    requires Sound(on, PayloadOf(on, session, nonce, created), secret)
    ensures ReadToken(on, Some(CreateToken(on, session, secret, nonce, created)), secret, now)
         == if Acceptable(on, session, now) then Some(Restored(on, session, created)) else None
  {
    hide ReadToken, EncodeUrl, Signed;
    ReadSigned(on, PayloadOf(on, session, nonce, created), secret, now);
  }

  /** For a session whose optional fields and dates are filled, that is the
      session itself minus its activity stamp. */
  lemma {:induction false} RestoredIsSession(on: Platform, session: Session, created: int)
    requires session.issuedAt != "" && session.expiresAt != ""
    requires session.suiAddress != Some("") && session.orgId != Some("")
    ensures Restored(on, session, created) == session.(lastSeenAt := None)
  {
  }

  /** Whatever is accepted, from any source, carries the secret's hash over the
      text before its first dot, is not expired and not denied. */
  lemma {:induction false} AcceptedIsSigned(on: Platform, token: string, secret: string, now: int)
    requires ReadToken(on, Some(token), secret, now).Some?
    ensures exists encoded: string, payload ::
              && token == Signed(on, encoded, secret) && '.' !in encoded && encoded != ""
              && on.parse(on.fromUtf8(DecodeUrl(encoded))) == Some(payload)
              && payload.role == Some("business_admin") && on.hmac(encoded, secret) != ""
              && payload.exp.Some? && now < payload.exp.value * 1000
              && payload.email == Some(ReadToken(on, Some(token), secret, now).value.email)
              && !on.killed(payload.email.value)
  {
    hide DecodeUrl;
    var dot := IndexOf(token, ".");
    var encoded := token[..dot];
    var payload := on.parse(on.fromUtf8(DecodeUrl(encoded))).value;
    assert token[dot..dot + 1] == ".";
    assert token == encoded + "." + token[dot + 1..];
    forall k | 0 <= k < dot ensures encoded[k] != '.' {
      assert OccursAt(token, ".", k) <==> token[k..k + 1] == ".";
    }
    assert token == Signed(on, encoded, secret);
  }

  // ---- the idle rule on the reading path ----

  function IdleVerdictOf(on: Platform, session: Session, now: int): IdleTimeout.IdleVerdict {
    IdleTimeout.EvaluateIdle(
      match session.lastSeenAt
      case Some(stamp) => if stamp != "" then on.dateMs(stamp) else None
      case None => None,
      now)
  }

  /** The current session: the cookie's, unless it has been idle too long. */
  function CurrentSession(on: Platform, token: Option<string>, secret: string, now: int): Option<Session> {
    match ReadToken(on, token, secret, now)
    case None => None
    case Some(session) => if IdleVerdictOf(on, session, now).Expired? then None else Some(session)
  }

  /** A session without a readable stamp counts as active now; one with a stamp
      is idle exactly from fifteen minutes after it on. */
  lemma {:induction false} IdleIs(on: Platform, session: Session, now: int)
    ensures IdleVerdictOf(on, session, now).Expired?
       <==> session.lastSeenAt.Some? && session.lastSeenAt.value != "" && on.dateMs(session.lastSeenAt.value).Some?
            && on.dateMs(session.lastSeenAt.value).value + 15 * 60 * 1000 <= now
  {
  }

  /** The reader does not copy the activity stamp, so the idle rule, correct on
      its own, has nothing to work on here: no token is ever idle, however old
      the stamp inside it is. */
  lemma {:induction false} IdleNeverApplies(on: Platform, token: Option<string>, secret: string, now: int)
    ensures CurrentSession(on, token, secret, now) == ReadToken(on, token, secret, now)
    ensures ReadToken(on, token, secret, now).Some? ==>
              IdleVerdictOf(on, ReadToken(on, token, secret, now).value, now)
              == IdleTimeout.EvaluateIdle(None, now)
  {
  }

  /** Exactly when the documented rule, that a session idle for fifteen minutes
      counts as absent, holds of a created token: its stamp is not that old, or
      its contents are refused anyway. */
  lemma {:induction false} IdleKeptIff(on: Platform, session: Session, secret: string, nonce: string, created: int,
                                       now: int)
    requires Sound(on, PayloadOf(on, session, nonce, created), secret)
    ensures var token := Some(CreateToken(on, session, secret, nonce, created));
            (IdleVerdictOf(on, session, now).Expired? ==> CurrentSession(on, token, secret, now).None?)
            <==> !IdleVerdictOf(on, session, now).Expired? || !Acceptable(on, session, now)
  {
    hide ReadToken, Acceptable, CreateToken;
    IdleNeverApplies(on, Some(CreateToken(on, session, secret, nonce, created)), secret, now);
    TokenRoundTrip(on, session, secret, nonce, created, now);
  }

  /** A platform and a session of one hour that is still current when its stamp
      is fifteen minutes old. */
  lemma {:induction false} StaleSessionWitness() returns (on: Platform, session: Session)
    ensures Sound(on, PayloadOf(on, session, "nonce", 0), "secret")
    ensures session.lastSeenAt == Some("start") && on.dateMs("start") == Some(0)
    ensures IdleVerdictOf(on, session, IdleTimeout.IDLE_TIMEOUT_MS).Expired?
    ensures var token := Some(CreateToken(on, session, "secret", "nonce", 0));
            CurrentSession(on, token, "secret", IdleTimeout.IDLE_TIMEOUT_MS) == Some(session.(lastSeenAt := None))
  {
    hide ReadToken, CreateToken, EncodeUrl;
    var payload := Payload(
      Some("a@b.c"), Some("A"), Some("B"), Some(BUSINESS_ADMIN), Absent, Absent, Absent,
      Some("start"), Some("end"), Some("start"), "nonce", Some(0), Some(3600));
    session := Session("a@b.c", "A", "B", None, None, None, "start", "end", Some("start"));
    on := Platform(
      _ => "{}", _ => Some(payload), _ => [0], _ => "{}", (_, _) => "mac",
      text => if text == "end" then Some(3600000) else Some(0), _ => "start", _ => false);
    assert PayloadOf(on, session, "nonce", 0) == payload;
    IdleNeverApplies(on, Some(CreateToken(on, session, "secret", "nonce", 0)), "secret", IdleTimeout.IDLE_TIMEOUT_MS);
    TokenRoundTrip(on, session, "secret", "nonce", 0, IdleTimeout.IDLE_TIMEOUT_MS);
  }
}
