/** Accounts in the users table (lib/auth/accounts.ts): creation, and login with
    upgrade of outdated hashes. */
module Accounts {
  import opened Wrappers
  import opened JsText
  import opened Base64
  import opened Password
  import LoginLimiter

  datatype User = User(id: string, email: string, name: string, passwordHash: Option<string>)

  /** The table, keyed by its unique email column. */
  type Users = map<string, User>

  datatype Identity = Identity(userId: string, email: string, name: string)

  datatype AccountError = AccountExists | BadPassword(reason: PasswordError)

  function Norm(email: string): string {
    LoginLimiter.Norm(email)
  }

  function UserIdFromEmail(email: string): string {
    "op_" + Norm(email)
  }

  function OrElse(s: string, fallback: string): string {
    if s == "" then fallback else s
  }

  function DisplayName(email: string, name: Option<string>): string {
    var given := match name case Some(n) => Trim(n) case None => "";
    OrElse(given, OrElse(Split(email, "@")[0], "member"))
  }

  predicate IdTaken(users: Users, id: string) {
    exists e :: e in users && users[e].id == id
  }

  /** `insert … on conflict do nothing` on the unique email and id. */
  function Inserted(users: Users, row: User): Users {
    if row.email in users || IdTaken(users, row.id) then users else users[row.email := row]
  }

  function Created(h: Hasher, users: Users, rawEmail: string, password: string, name: Option<string>, salt: seq<Byte>)
    : (Users, Result<Identity, AccountError>)
  {
    var email := Norm(rawEmail);
    if email in users then (users, Err(AccountExists))
    else
      match HashPassword(h, password, salt)
      case Err(e) => (users, Err(BadPassword(e)))
      case Ok(stored) =>
        var row := User(UserIdFromEmail(email), email, DisplayName(email, name), Some(stored));
        (Inserted(users, row), Ok(Identity(row.id, email, row.name)))
  }

  /** `update … set password_hash where id` */
  function WithHash(users: Users, id: string, stored: string): Users {
    map e | e in users :: if users[e].id == id then users[e].(passwordHash := Some(stored)) else users[e]
  }

  predicate HasHash(user: User) {
    user.passwordHash.Some? && user.passwordHash.value != ""
  }

  /** `writable` says whether the upgrade's own write goes through. */
  function LoggedIn(h: Hasher, users: Users, rawEmail: string, password: string, salt: seq<Byte>, writable: bool)
    : (Users, Option<Identity>)
  {
    var email := Norm(rawEmail);
    if email !in users || !HasHash(users[email]) then (users, None)
    else
      var row := users[email];
      var stored := row.passwordHash.value;
      if !VerifyPassword(h, password, stored) then (users, None)
      else
        var renewed := HashPassword(h, password, salt);
        var users' := if NeedsRehash(h, stored) && renewed.Ok? && writable then WithHash(users, row.id, renewed.value)
                      else users;
        (users', Some(Identity(row.id, row.email, row.name)))
  }

  class AccountStore {
    var users: Users

    constructor (users: Users)
      ensures this.users == users
    {
      this.users := users;
    }

    method CreateAccount(h: Hasher, rawEmail: string, password: string, name: Option<string>, salt: seq<Byte>)
      returns (result: Result<Identity, AccountError>)
      modifies this
      ensures (users, result) == Created(h, old(users), rawEmail, password, name, salt)
    {
      hide HashPassword, DisplayName, LoginLimiter.Norm, UserIdFromEmail;
      var email := Norm(rawEmail);
      if email in users {
        return Err(AccountExists);
      }
      var hashed := HashPassword(h, password, salt);
      if hashed.Err? {
        return Err(BadPassword(hashed.error));
      }
      var userId := UserIdFromEmail(email);
      var display := DisplayName(email, name);
      var conflict := false;
      var rest := users.Keys;
      while rest != {}
        invariant rest <= users.Keys
        invariant conflict <==> exists e :: e in users.Keys - rest && users[e].id == userId
        decreases |rest|
      {
        var e :| e in rest;
        rest := rest - {e};
        assert users.Keys - rest == (users.Keys - (rest + {e})) + {e};
        conflict := conflict || users[e].id == userId;
      }
      assert conflict <==> IdTaken(users, userId);
      if !conflict {
        users := users[email := User(userId, email, display, Some(hashed.value))];
      }
      return Ok(Identity(userId, email, display));
    }

    method VerifyAccountPassword(h: Hasher, rawEmail: string, password: string, salt: seq<Byte>, writable: bool)
      returns (who: Option<Identity>)
      modifies this
      ensures (users, who) == LoggedIn(h, old(users), rawEmail, password, salt, writable)
    {
      hide HashPassword, VerifyPassword, NeedsRehash, LoginLimiter.Norm;
      var email := Norm(rawEmail);
      if email !in users || !HasHash(users[email]) {
        return None;
      }
      var row := users[email];
      if !VerifyPassword(h, password, row.passwordHash.value) {
        return None;
      }
      if NeedsRehash(h, row.passwordHash.value) {
        var renewed := HashPassword(h, password, salt);
        if renewed.Ok? && writable {
          users := WithHash(users, row.id, renewed.value);
        }
      }
      return Some(Identity(row.id, row.email, row.name));
    }
  }

  // ---- what a creation does ----

  /** An account is created exactly when the address is free and its password
      can be hashed; every refusal leaves the table as it is. */
  lemma {:induction false} CreatedIff(h: Hasher, users: Users, rawEmail: string, password: string,
                                      name: Option<string>, salt: seq<Byte>)
    ensures var (users', result) := Created(h, users, rawEmail, password, name, salt);
            && (result.Ok? <==> Norm(rawEmail) !in users && HashPassword(h, password, salt).Ok?)
            && (result == Err(AccountExists) <==> Norm(rawEmail) in users)
            && (result.Err? ==> users' == users)
            && (result.Ok? ==> result.value.email == Norm(rawEmail)
                               && result.value.userId == "op_" + Norm(rawEmail)
                               && result.value.name == DisplayName(Norm(rawEmail), name))
            && (users' != users ==>
                  users' == users[Norm(rawEmail) := User("op_" + Norm(rawEmail), Norm(rawEmail),
                                                         DisplayName(Norm(rawEmail), name),
                                                         Some(HashPassword(h, password, salt).value))])
  {
    hide HashPassword, LoginLimiter.Norm, DisplayName;
    LoginLimiter.NormIdempotent(rawEmail);
  }

  /** A login succeeds exactly for a stored account whose hash verifies the
      password, as that account; it rewrites nothing but the hash of the rows
      with its id, and that exactly when the hash is outdated, the password can
      be hashed again and the write goes through. */
  lemma {:induction false} LoggedInIff(h: Hasher, users: Users, rawEmail: string, password: string, salt: seq<Byte>,
                                       writable: bool)
    ensures var (users', who) := LoggedIn(h, users, rawEmail, password, salt, writable);
            var email := Norm(rawEmail);
            var renewed := HashPassword(h, password, salt);
            && (who.Some? <==> email in users && users[email].passwordHash.Some?
                               && VerifyPassword(h, password, users[email].passwordHash.value))
            && (who.Some? ==> who.value.userId == users[email].id && who.value.email == users[email].email
                              && who.value.name == users[email].name)
            && users'.Keys == users.Keys
            && (forall e :: e in users ==>
                  users'[e] == if who.Some? && NeedsRehash(h, users[email].passwordHash.value) && renewed.Ok?
                                  && writable && users[e].id == users[email].id
                               then users[e].(passwordHash := Some(renewed.value)) else users[e])
  {
    hide HashPassword, NeedsRehash, LoginLimiter.Norm, VerifyPassword;
    NothingVerifies(h, password);
  }

  lemma {:induction false} NothingVerifies(h: Hasher, password: string)
    ensures !VerifyPassword(h, password, "")
  {
    assert |Split("", "$")| == 1;
  }

  /** The name shown: the one given without the blanks around it, or else the
      address up to its first at sign, or else a fixed word. */
  lemma {:induction false} NameShown(before: string, domain: string, name: Option<string>)
    requires '@' !in before
    ensures name.Some? && Trim(name.value) != "" ==> DisplayName(before + "@" + domain, name) == Trim(name.value)
    ensures name.None? || Trim(name.value) == "" ==>
              DisplayName(before + "@" + domain, name) == DisplayName(before, name)
              && DisplayName(before, name) == if before != "" then before else "member"
  {
    hide Split, Trim;
    SplitHead(before, domain, "@");
  }

  /** However an address is written, creating and logging in do the same. */
  lemma {:induction false} AnySpelling(h: Hasher, users: Users, email: string, other: string, password: string,
                                       name: Option<string>, salt: seq<Byte>, writable: bool)
    requires LoginLimiter.SameAddress(email, other)
    ensures Created(h, users, email, password, name, salt) == Created(h, users, other, password, name, salt)
    ensures LoggedIn(h, users, email, password, salt, writable) == LoggedIn(h, users, other, password, salt, writable)
  {
    hide LoginLimiter.Norm, LoginLimiter.SameAddress, HashPassword, VerifyPassword;
    LoginLimiter.NormIff(email, other);
  }

  // ---- single steps ----

  /** An account reported as created is in the table, with a hash of its
      password, exactly when no other row already had its id. */
  lemma {:induction false} CreationStores(h: Hasher, users: Users, rawEmail: string, password: string,
                                          name: Option<string>, salt: seq<Byte>)
    requires Sound(h)
    requires Created(h, users, rawEmail, password, name, salt).1.Ok?
    ensures var users' := Created(h, users, rawEmail, password, name, salt).0;
            var email := Norm(rawEmail);
            (email in users' && HasHash(users'[email])
             && VerifyPassword(h, password, users'[email].passwordHash.value))
            <==> !IdTaken(users, UserIdFromEmail(email))
  {
    hide VerifyPassword, NeedsRehash, Printed, Parse, LoginLimiter.Norm, DisplayName;
    FreshHash(h, password, salt);
    PrintedNotEmpty(h, password, salt);
  }

  lemma {:induction false} PrintedNotEmpty(h: Hasher, password: string, salt: seq<Byte>)
    requires HashPassword(h, password, salt).Ok?
    ensures HashPassword(h, password, salt).value != ""
  {
    hide Printed;
    PrintedStarts(Parsed(POLICY, salt, h.scrypt(password, salt, KEY_LENGTH, POLICY).value));
  }

  lemma {:induction false} PrintedStarts(x: Parsed)
    ensures Printed(x) != ""
  {
    assert Printed(x)[0] == 's';
  }

  /** After a successful login the account's hash is outdated exactly when it
      was before and the upgrade itself failed; the password still verifies. */
  lemma {:induction false} LoginUpgrades(h: Hasher, users: Users, rawEmail: string, password: string,
                                         salt: seq<Byte>, writable: bool)
    requires Sound(h)
    requires LoggedIn(h, users, rawEmail, password, salt, writable).1.Some?
    ensures var users' := LoggedIn(h, users, rawEmail, password, salt, writable).0;
            var email := Norm(rawEmail);
            email in users' && HasHash(users'[email])
            && VerifyPassword(h, password, users'[email].passwordHash.value)
            && (NeedsRehash(h, users'[email].passwordHash.value)
                <==> NeedsRehash(h, users[email].passwordHash.value)
                     && !(HashPassword(h, password, salt).Ok? && writable))
  {
    hide VerifyPassword, NeedsRehash, HashPassword, LoginLimiter.Norm;
    if HashPassword(h, password, salt).Ok? {
      FreshHash(h, password, salt);
      PrintedNotEmpty(h, password, salt);
    }
  }

  // ---- runs ----

  datatype Op =
    | Create(email: string, password: string, name: Option<string>, salt: seq<Byte>)
    | Login(email: string, password: string, salt: seq<Byte>, writable: bool)

  /** The table, and the password each account was created with. */
  datatype World = World(users: Users, registered: map<string, string>)

  function Step(h: Hasher, w: World, op: Op): World {
    match op
    case Create(email, password, name, salt) =>
      var (users, result) := Created(h, w.users, email, password, name, salt);
      World(users, if result.Ok? then w.registered[Norm(email) := password] else w.registered)
    case Login(email, password, salt, writable) =>
      World(LoggedIn(h, w.users, email, password, salt, writable).0, w.registered)
  }

  function Run(h: Hasher, w: World, ops: seq<Op>): World
    decreases |ops|
  {
    if ops == [] then w else Run(h, Step(h, w, ops[0]), ops[1..])
  }

  /** No two of the given passwords verify against one stored hash. */
  predicate TellsApart(h: Hasher, passwords: set<string>, stored: string) {
    forall p, q :: p in passwords && q in passwords && VerifyPassword(h, p, stored) && VerifyPassword(h, q, stored)
      ==> p == q
  }

  /** The idealisation of scrypt, for the passwords and salts a run uses. */
  ghost predicate NoCollisions(h: Hasher, passwords: set<string>, ops: seq<Op>) {
    forall k :: 0 <= k < |ops| ==>
      ops[k].password in passwords
      && (HashPassword(h, ops[k].password, ops[k].salt).Ok? ==>
            TellsApart(h, passwords, HashPassword(h, ops[k].password, ops[k].salt).value))
  }

  /** Runs with one password meet it on every platform. */
  lemma {:induction false} OnePassword(h: Hasher, password: string, ops: seq<Op>)
    requires forall k :: 0 <= k < |ops| ==> ops[k].password == password
    ensures NoCollisions(h, {password}, ops)
  {
    hide VerifyPassword, HashPassword;
  }

  /** Ids belong to emails, hashes tell the passwords apart, and every
      registered password verifies. */
  ghost predicate Good(h: Hasher, passwords: set<string>, w: World) {
    && (forall e :: e in w.users ==> w.users[e].id == "op_" + e && w.users[e].email == e)
    && (forall e :: e in w.users && HasHash(w.users[e]) ==>
          TellsApart(h, passwords, w.users[e].passwordHash.value))
    && (forall e :: e in w.registered ==> w.registered[e] in passwords && Verifies(h, w, e))
  }

  predicate Verifies(h: Hasher, w: World, email: string)
    requires email in w.registered
  {
    && email in w.users && HasHash(w.users[email])
    && VerifyPassword(h, w.registered[email], w.users[email].passwordHash.value)
  }

  /** In such a table an address without a row has a free id. */
  lemma {:induction false} FreeEmailFreesId(h: Hasher, passwords: set<string>, w: World, email: string)
    requires Good(h, passwords, w) && email !in w.users
    ensures !IdTaken(w.users, "op_" + email)
  {
    hide TellsApart, Verifies;
    forall e | e in w.users ensures w.users[e].id != "op_" + email {
      assert ("op_" + e)[3..] == e && ("op_" + email)[3..] == email;
    }
  }

  const EMPTY := World(map[], map[])

  lemma {:induction false} EmptyIsGood(h: Hasher, passwords: set<string>)
    ensures Good(h, passwords, EMPTY)
  {
  }

  lemma {:induction false} CreateGood(h: Hasher, passwords: set<string>, w: World, op: Op)
    requires Sound(h) && op.Create? && Good(h, passwords, w) && NoCollisions(h, passwords, [op])
    ensures Good(h, passwords, Step(h, w, op))
  {
    hide VerifyPassword, HashPassword, LoginLimiter.Norm, DisplayName, TellsApart;
    assert [op][0] == op;
    var email := Norm(op.email);
    LoginLimiter.NormIdempotent(op.email);
    if email !in w.users && HashPassword(h, op.password, op.salt).Ok? {
      FreshHash(h, op.password, op.salt);
      PrintedNotEmpty(h, op.password, op.salt);
      FreeEmailFreesId(h, passwords, w, email);
    }
  }

  lemma {:induction false} LoginGood(h: Hasher, passwords: set<string>, w: World, op: Op)
    requires Sound(h) && op.Login? && Good(h, passwords, w) && NoCollisions(h, passwords, [op])
    ensures Good(h, passwords, Step(h, w, op))
  {
    hide VerifyPassword, HashPassword, LoginLimiter.Norm, NeedsRehash;
    assert [op][0] == op;
    var email := Norm(op.email);
    var w' := Step(h, w, op);
    if w'.users != w.users {
      var stored := HashPassword(h, op.password, op.salt).value;
      FreshHash(h, op.password, op.salt);
      PrintedNotEmpty(h, op.password, op.salt);
      forall e | e in w.users ensures w.users[e].id == w.users[email].id ==> e == email {
        assert ("op_" + e)[3..] == e && ("op_" + email)[3..] == email;
      }
      forall e | e in w'.registered ensures Verifies(h, w', e) {
        assert Verifies(h, w, e);
        if e == email { assert w.registered[e] == op.password; }
      }
    }
  }

  /** Over every run of creations and logins, before and after any upgrade, each
      registered password keeps verifying. */
  lemma {:induction false} RegisteredPasswordsVerify(h: Hasher, passwords: set<string>, w: World, ops: seq<Op>)
    requires Sound(h) && Good(h, passwords, w) && NoCollisions(h, passwords, ops)
    ensures Good(h, passwords, Run(h, w, ops))
    decreases |ops|
  {
    hide Good, Step, Sound, HashPassword, TellsApart;
    if ops != [] {
      assert NoCollisions(h, passwords, [ops[0]]) by { assert [ops[0]][0] == ops[0]; }
      assert NoCollisions(h, passwords, ops[1..]) by {
        assert forall k :: 0 <= k < |ops[1..]| ==> ops[1..][k] == ops[k + 1];
      }
      if ops[0].Create? { CreateGood(h, passwords, w, ops[0]); } else { LoginGood(h, passwords, w, ops[0]); }
      RegisteredPasswordsVerify(h, passwords, Step(h, w, ops[0]), ops[1..]);
    }
  }

  /** From the empty table on, every account reported as created is stored with
      a hash of its password: no other row can have its id. */
  lemma {:induction false} CreatedIsStored(h: Hasher, passwords: set<string>, ops: seq<Op>, rawEmail: string,
                                           password: string, name: Option<string>, salt: seq<Byte>)
    requires Sound(h) && NoCollisions(h, passwords, ops)
    requires Created(h, Run(h, EMPTY, ops).users, rawEmail, password, name, salt).1.Ok?
    ensures var users' := Created(h, Run(h, EMPTY, ops).users, rawEmail, password, name, salt).0;
            var email := Norm(rawEmail);
            email in users' && HasHash(users'[email]) && VerifyPassword(h, password, users'[email].passwordHash.value)
  {
    hide Run, Sound, Good, NoCollisions, VerifyPassword, HasHash, HashPassword, LoginLimiter.Norm, IdTaken, DisplayName;
    var w := Run(h, EMPTY, ops);
    EmptyIsGood(h, passwords);
    RegisteredPasswordsVerify(h, passwords, EMPTY, ops);
    CreatedIsNew(h, w.users, rawEmail, password, name, salt);
    LoginLimiter.NormIdempotent(rawEmail);
    FreeEmailFreesId(h, passwords, w, Norm(rawEmail));
    CreationStores(h, w.users, rawEmail, password, name, salt);
  }

  lemma {:induction false} CreatedIsNew(h: Hasher, users: Users, rawEmail: string, password: string,
                                        name: Option<string>, salt: seq<Byte>)
    requires Created(h, users, rawEmail, password, name, salt).1.Ok?
    ensures Norm(rawEmail) !in users && UserIdFromEmail(Norm(rawEmail)) == "op_" + Norm(rawEmail)
  {
    hide LoginLimiter.Norm, HashPassword, DisplayName;
    LoginLimiter.NormIdempotent(rawEmail);
  }

  /** A later creation for the same address replaces neither the password an
      account is registered with nor, by itself, any row. */
  lemma {:induction false} RegistrationIsFinal(h: Hasher, passwords: set<string>, w: World, ops: seq<Op>, email: string)
    requires Sound(h) && Good(h, passwords, w) && NoCollisions(h, passwords, ops)
    requires email in w.registered
    ensures var w' := Run(h, w, ops);
            email in w'.registered && w'.registered[email] == w.registered[email]
    ensures ops != [] && ops[0].Create? && Norm(ops[0].email) == email ==> Step(h, w, ops[0]) == w
    decreases |ops|
  {
    hide HashPassword, TellsApart, VerifyPassword, LoginLimiter.Norm;
    assert Verifies(h, w, email);
    if ops != [] {
      RegisteredPasswordsVerify(h, passwords, w, [ops[0]]) by {
        assert NoCollisions(h, passwords, [ops[0]]) by { assert [ops[0]][0] == ops[0]; }
      }
      assert NoCollisions(h, passwords, ops[1..]) by {
        assert forall k :: 0 <= k < |ops[1..]| ==> ops[1..][k] == ops[k + 1];
      }
      assert Run(h, w, [ops[0]]) == Step(h, w, ops[0]) by { assert [ops[0]][1..] == []; }
      RegistrationIsFinal(h, passwords, Step(h, w, ops[0]), ops[1..], email);
    }
  }

  /** So a registered account can always log in with its password, however the
      address is written. */
  lemma {:induction false} RegisteredCanLogIn(h: Hasher, passwords: set<string>, w: World, ops: seq<Op>,
                                              rawEmail: string, salt: seq<Byte>, writable: bool)
    requires Sound(h) && Good(h, passwords, w) && NoCollisions(h, passwords, ops)
    requires Norm(rawEmail) in Run(h, w, ops).registered
    ensures var w' := Run(h, w, ops);
            var who := LoggedIn(h, w'.users, rawEmail, w'.registered[Norm(rawEmail)], salt, writable).1;
            who.Some? && who.value.email == Norm(rawEmail) && who.value.userId == "op_" + Norm(rawEmail)
  {
    hide Run, VerifyPassword, HashPassword, NeedsRehash, LoginLimiter.Norm;
    RegisteredPasswordsVerify(h, passwords, w, ops);
    assert Verifies(h, Run(h, w, ops), Norm(rawEmail));
  }

  /** From the empty table on: an account created under some address logs in
      with its password ever after, under every way to write that address. */
  lemma {:induction false} CreatedCanLogIn(h: Hasher, passwords: set<string>, ops: seq<Op>, create: Op, later: seq<Op>,
                                           rawEmail: string, salt: seq<Byte>, writable: bool)
    requires Sound(h) && NoCollisions(h, passwords, ops) && NoCollisions(h, passwords, later)
    requires create.Create? && NoCollisions(h, passwords, [create])
    requires var users := Run(h, EMPTY, ops).users;
             Created(h, users, create.email, create.password, create.name, create.salt).1.Ok?
    requires LoginLimiter.SameAddress(create.email, rawEmail)
    ensures var users := Run(h, Step(h, Run(h, EMPTY, ops), create), later).users;
            var who := LoggedIn(h, users, rawEmail, create.password, salt, writable).1;
            who.Some? && who.value.email == Norm(create.email) && who.value.userId == "op_" + Norm(create.email)
  {
    hide Run, Sound, Good, NoCollisions, LoggedIn, LoginLimiter.Norm, LoginLimiter.SameAddress, HashPassword;
    var w := Run(h, EMPTY, ops);
    var w1 := Step(h, w, create);
    EmptyIsGood(h, passwords);
    RegisteredPasswordsVerify(h, passwords, EMPTY, ops);
    CreateGood(h, passwords, w, create);
    LoginLimiter.NormIff(create.email, rawEmail);
    assert Norm(create.email) in w1.registered && w1.registered[Norm(create.email)] == create.password;
    RegistrationIsFinal(h, passwords, w1, later, Norm(create.email));
    RegisteredCanLogIn(h, passwords, w1, later, rawEmail, salt, writable);
  }
}
