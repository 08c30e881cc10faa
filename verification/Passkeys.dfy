/** Passkey credentials with tombstones (lib/auth/passkey.ts), one statement at
    a time, on a table whose id and credential id columns are unique. */
module Passkeys {
  import opened Wrappers
  import opened Base64
  import Password

  datatype Credential = Credential(
    id: string,
    userId: string,
    credentialId: string,
    publicKey: string,
    suiAddress: string,
    rpId: string,
    revokedAt: Option<int>,
    lastUsedAt: Option<int>)

  type Table = seq<Credential>

  datatype PasskeyError = BadPublicKey | AlreadyEnrolled | NotUnique

  datatype Enrolment = Enrolment(userId: string, credentialId: string, publicKey: string, rpId: string)

  const COMPRESSED_P256_BYTES := 33

  /** A compressed point: 33 bytes, the first of them 2 or 3. */
  predicate IsCompressedP256(publicKey: string) {
    var bytes := Decode(publicKey);
    |bytes| == COMPRESSED_P256_BYTES && (bytes[0] == 2 || bytes[0] == 3)
  }

  predicate IsActive(c: Credential, userId: string, rpId: string) {
    c.userId == userId && c.rpId == rpId && c.revokedAt.None?
  }

  predicate HasActive(rows: Table, userId: string, rpId: string) {
    exists k :: 0 <= k < |rows| && IsActive(rows[k], userId, rpId)
  }

  /** The first active row, as `limit 1` returns it. */
  function Found(rows: Table, userId: string, rpId: string): Option<Credential> {
    if rows == [] then None
    else if IsActive(rows[0], userId, rpId) then Some(rows[0])
    else Found(rows[1..], userId, rpId)
  }

  predicate UsesId(rows: Table, id: string) {
    exists k :: 0 <= k < |rows| && rows[k].id == id
  }

  predicate UsesCredentialId(rows: Table, credentialId: string) {
    exists k :: 0 <= k < |rows| && rows[k].credentialId == credentialId
  }

  /** `address` derives the account address from the key bytes. */
  function NewRow(input: Enrolment, id: string, address: seq<Byte> -> string): Credential {
    Credential(id, input.userId, input.credentialId, input.publicKey, address(Decode(input.publicKey)), input.rpId,
               None, None)
  }

  function Enrolled(rows: Table, input: Enrolment, id: string, address: seq<Byte> -> string)
    : (Table, Result<Credential, PasskeyError>)
  {
    if !IsCompressedP256(input.publicKey) then (rows, Err(BadPublicKey))
    else if HasActive(rows, input.userId, input.rpId) then (rows, Err(AlreadyEnrolled))
    else if UsesId(rows, id) || UsesCredentialId(rows, input.credentialId) then (rows, Err(NotUnique))
    else
      var row := NewRow(input, id, address);
      (rows + [row], Ok(row))
  }

  function Revoked(rows: Table, id: string, now: int): (r: Table)
    ensures |r| == |rows|
    ensures forall k :: 0 <= k < |rows| ==>
              r[k] == if rows[k].id == id then rows[k].(revokedAt := Some(now)) else rows[k]
  {
    if rows == [] then []
    else [if rows[0].id == id then rows[0].(revokedAt := Some(now)) else rows[0]] + Revoked(rows[1..], id, now)
  }

  function Used(rows: Table, id: string, now: int): (r: Table)
    ensures |r| == |rows|
    ensures forall k :: 0 <= k < |rows| ==>
              r[k] == if rows[k].id == id then rows[k].(lastUsedAt := Some(now)) else rows[k]
  {
    if rows == [] then []
    else [if rows[0].id == id then rows[0].(lastUsedAt := Some(now)) else rows[0]] + Used(rows[1..], id, now)
  }

  /** The new credential: active and unused, with what was enrolled, and the
      address derived from the key's own bytes, which are 33 after a 2 or a 3. */
  lemma {:induction false} EnrolledRow(rows: Table, input: Enrolment, id: string, address: seq<Byte> -> string)
    requires Enrolled(rows, input, id, address).1.Ok?
    ensures var (rows', result) := Enrolled(rows, input, id, address);
            var row := result.value;
            && rows' == rows + [row]
            && row.id == id && row.userId == input.userId && row.credentialId == input.credentialId
            && row.publicKey == input.publicKey && row.rpId == input.rpId
            && row.suiAddress == address(Decode(input.publicKey))
            && row.revokedAt.None? && row.lastUsedAt.None?
  {
    hide IsCompressedP256, Decode;
  }

  /** Why an enrolment is refused, each reason in its turn; a refusal changes
      nothing. */
  lemma {:induction false} EnrolRefused(rows: Table, input: Enrolment, id: string, address: seq<Byte> -> string)
    ensures var (rows', result) := Enrolled(rows, input, id, address);
            var compressed := |Decode(input.publicKey)| == 33 && Decode(input.publicKey)[0] in {2, 3};
            var active := exists k :: 0 <= k < |rows| && rows[k].userId == input.userId && rows[k].rpId == input.rpId
                                      && rows[k].revokedAt == None;
            var used := exists k :: 0 <= k < |rows| && (rows[k].id == id || rows[k].credentialId == input.credentialId);
            && (result == Err(BadPublicKey) <==> !compressed)
            && (result == Err(AlreadyEnrolled) <==> compressed && active)
            && (result == Err(NotUnique) <==> compressed && !active && used)
            && (result.Err? ==> rows' == rows)
  {
    hide Decode;
    UsedIff(rows, id, input.credentialId);
    ActiveIff(rows, input.userId, input.rpId);
    hide HasActive, UsesId, UsesCredentialId, IsActive;
  }

  lemma {:induction false} UsedIff(rows: Table, id: string, credentialId: string)
    ensures UsesId(rows, id) || UsesCredentialId(rows, credentialId)
       <==> exists k :: 0 <= k < |rows| && (rows[k].id == id || rows[k].credentialId == credentialId)
  {
  }

  lemma {:induction false} ActiveIff(rows: Table, userId: string, rpId: string)
    ensures HasActive(rows, userId, rpId)
       <==> exists k :: 0 <= k < |rows| && rows[k].userId == userId && rows[k].rpId == rpId && rows[k].revokedAt == None
  {
    if k :| 0 <= k < |rows| && rows[k].userId == userId && rows[k].rpId == rpId && rows[k].revokedAt == None {
      assert IsActive(rows[k], userId, rpId);
    }
  }

  class PasskeyStore {
    var rows: Table

    constructor ()
      ensures rows == []
    {
      rows := [];
    }

    method EnrolPasskey(input: Enrolment, id: string, address: seq<Byte> -> string)
      returns (result: Result<Credential, PasskeyError>)
      modifies this
      ensures (rows, result) == Enrolled(old(rows), input, id, address)
      ensures rows == Step(old(rows), Enrol(input, id), address)
    {
      if !IsCompressedP256(input.publicKey) {
        return Err(BadPublicKey);
      }
      if HasActive(rows, input.userId, input.rpId) {
        return Err(AlreadyEnrolled);
      }
      if UsesId(rows, id) || UsesCredentialId(rows, input.credentialId) {
        return Err(NotUnique);
      }
      var row := NewRow(input, id, address);
      rows := rows + [row];
      return Ok(row);
    }

    method FindCredential(userId: string, rpId: string) returns (found: Option<Credential>)
      ensures found.None? <==> !HasActive(rows, userId, rpId)
      ensures found.Some? ==> found.value in rows && IsActive(found.value, userId, rpId)
      ensures Valid(rows) ==>
                forall k :: 0 <= k < |rows| && IsActive(rows[k], userId, rpId) ==> found == Some(rows[k])
      ensures found == Found(rows, userId, rpId)
    {
      hide Valid, Found, HasActive;
      found := Found(rows, userId, rpId);
      FindsNullOtherwise(rows, userId, rpId);
      if Valid(rows) {
        forall k | 0 <= k < |rows| && IsActive(rows[k], userId, rpId) ensures found == Some(rows[k]) {
          FindsTheActiveOne(rows, userId, rpId, k);
        }
      }
    }

    method RevokePasskey(id: string, now: int)
      modifies this
      ensures |rows| == |old(rows)|
      ensures forall k :: 0 <= k < |rows| ==>
                rows[k] == if old(rows)[k].id == id then old(rows)[k].(revokedAt := Some(now)) else old(rows)[k]
      ensures forall userId, rpId :: HasActive(rows, userId, rpId) <==> OtherActive(old(rows), id, userId, rpId)
      ensures Valid(old(rows)) ==> Valid(rows)
      ensures rows == Revoked(old(rows), id, now)
      ensures forall address :: rows == Step(old(rows), Revoke(id, now), address)
    {
      hide Valid, HasActive, OtherActive;
      rows := Revoked(rows, id, now);
      forall userId, rpId ensures HasActive(rows, userId, rpId) <==> OtherActive(old(rows), id, userId, rpId) {
        RevokedActive(old(rows), id, now, userId, rpId);
      }
      if Valid(old(rows)) { UpdateKeeps(old(rows), rows); }
    }

    method MarkCredentialUsed(id: string, now: int)
      modifies this
      ensures |rows| == |old(rows)|
      ensures forall k :: 0 <= k < |rows| ==>
                rows[k] == if old(rows)[k].id == id then old(rows)[k].(lastUsedAt := Some(now)) else old(rows)[k]
      ensures Valid(old(rows)) ==> Valid(rows)
      ensures rows == Used(old(rows), id, now)
      ensures forall address :: rows == Step(old(rows), MarkUsed(id, now), address)
    {
      hide Valid;
      rows := Used(rows, id, now);
      if Valid(old(rows)) { UpdateKeeps(old(rows), rows); }
    }
  }

  /** A row other than the one with the id is active. */
  predicate OtherActive(rows: Table, id: string, userId: string, rpId: string) {
    exists k :: 0 <= k < |rows| && rows[k].id != id && IsActive(rows[k], userId, rpId)
  }

  /** Revoking an id makes its own row inactive and no other. */
  lemma {:induction false} RevokedActive(rows: Table, id: string, now: int, userId: string, rpId: string)
    ensures HasActive(Revoked(rows, id, now), userId, rpId) <==> OtherActive(rows, id, userId, rpId)
  {
    var rows' := Revoked(rows, id, now);
    if k :| 0 <= k < |rows'| && IsActive(rows'[k], userId, rpId) {
      assert rows[k].id != id && IsActive(rows[k], userId, rpId);
    }
    if k :| 0 <= k < |rows| && rows[k].id != id && IsActive(rows[k], userId, rpId) {
      assert IsActive(rows'[k], userId, rpId);
    }
  }

  // ---- runs ----

  datatype Op =
    | Enrol(input: Enrolment, newId: string)
    | Revoke(id: string, now: int)
    | MarkUsed(id: string, now: int)

  function Step(rows: Table, op: Op, address: seq<Byte> -> string): Table {
    match op
    case Enrol(input, newId) => Enrolled(rows, input, newId, address).0
    case Revoke(id, now) => Revoked(rows, id, now)
    case MarkUsed(id, now) => Used(rows, id, now)
  }

  function Run(rows: Table, ops: seq<Op>, address: seq<Byte> -> string): Table
    decreases |ops|
  {
    if ops == [] then rows else Run(Step(rows, ops[0], address), ops[1..], address)
  }

  /** Unique ids, and at most one active credential per user and origin. */
  predicate Valid(rows: Table) {
    forall i, j :: 0 <= i < j < |rows| ==>
      && rows[i].id != rows[j].id
      && rows[i].credentialId != rows[j].credentialId
      && !(rows[i].userId == rows[j].userId && rows[i].rpId == rows[j].rpId
           && rows[i].revokedAt.None? && rows[j].revokedAt.None?)
  }

  /** What never changes about a row. */
  predicate SameKey(a: Credential, b: Credential) {
    b == a.(revokedAt := b.revokedAt, lastUsedAt := b.lastUsedAt)
  }

  /** Every row stays in its place with its key fields, and a tombstone stays one. */
  predicate Extends(rows: Table, rows': Table) {
    && |rows| <= |rows'|
    && forall k :: 0 <= k < |rows| ==>
         SameKey(rows[k], rows'[k]) && (rows[k].revokedAt.Some? ==> rows'[k].revokedAt.Some?)
  }

  /** Rows whose keys stay and whose tombstones stay keep the table valid. */
  lemma {:induction false} UpdateKeeps(rows: Table, rows': Table)
    requires Valid(rows) && Extends(rows, rows') && |rows'| == |rows|
    ensures Valid(rows')
  {
    forall i, j | 0 <= i < j < |rows'|
      ensures rows'[i].id != rows'[j].id && rows'[i].credentialId != rows'[j].credentialId
      ensures !(rows'[i].userId == rows'[j].userId && rows'[i].rpId == rows'[j].rpId
                && rows'[i].revokedAt.None? && rows'[j].revokedAt.None?)
    {
      assert SameKey(rows[i], rows'[i]) && SameKey(rows[j], rows'[j]);
    }
  }

  lemma {:induction false} AppendKeeps(rows: Table, row: Credential)
    requires Valid(rows) && row.revokedAt.None?
    requires !UsesId(rows, row.id) && !UsesCredentialId(rows, row.credentialId)
    requires !HasActive(rows, row.userId, row.rpId)
    ensures Valid(rows + [row])
  {
    forall i | 0 <= i < |rows|
      ensures rows[i].id != row.id && rows[i].credentialId != row.credentialId
      ensures !IsActive(rows[i], row.userId, row.rpId)
    {
    }
  }

  lemma {:induction false} StepKeeps(rows: Table, op: Op, address: seq<Byte> -> string)
    requires Valid(rows)
    ensures Valid(Step(rows, op, address)) && Extends(rows, Step(rows, op, address))
  {
    hide Valid, IsCompressedP256, UsesId, UsesCredentialId, HasActive, IsActive;
    var rows' := Step(rows, op, address);
    match op {
      case Enrol(input, newId) =>
        if rows' != rows { AppendKeeps(rows, NewRow(input, newId, address)); }
      case Revoke(_, _) => UpdateKeeps(rows, rows');
      case MarkUsed(_, _) => UpdateKeeps(rows, rows');
    }
  }

  lemma {:induction false} RunKeeps(rows: Table, ops: seq<Op>, address: seq<Byte> -> string)
    requires Valid(rows)
    ensures Valid(Run(rows, ops, address)) && Extends(rows, Run(rows, ops, address))
    decreases |ops|
  {
    hide Valid, Step;
    if ops != [] {
      StepKeeps(rows, ops[0], address);
      RunKeeps(Step(rows, ops[0], address), ops[1..], address);
    }
  }

  /** `findCredential` returns the one active credential, or null without one. */
  lemma {:induction false} FindsTheActiveOne(rows: Table, userId: string, rpId: string, k: nat)
    requires Valid(rows) && k < |rows| && IsActive(rows[k], userId, rpId)
    ensures Found(rows, userId, rpId) == Some(rows[k])
  {
    if k > 0 {
      assert !IsActive(rows[0], userId, rpId);
      assert Valid(rows[1..]) by {
        assert forall i :: 0 <= i < |rows[1..]| ==> rows[1..][i] == rows[i + 1];
      }
      FindsTheActiveOne(rows[1..], userId, rpId, k - 1);
    }
  }

  lemma {:induction false} FindsNullOtherwise(rows: Table, userId: string, rpId: string)
    ensures Found(rows, userId, rpId).None? <==> !HasActive(rows, userId, rpId)
    ensures Found(rows, userId, rpId).Some? ==>
              Found(rows, userId, rpId).value in rows && IsActive(Found(rows, userId, rpId).value, userId, rpId)
  {
    if rows != [] {
      var rest := rows[1..];
      FindsNullOtherwise(rest, userId, rpId);
      if k :| 0 <= k < |rows| && IsActive(rows[k], userId, rpId) {
        if k > 0 { assert rest[k - 1] == rows[k]; }
      }
      if k :| 0 <= k < |rest| && IsActive(rest[k], userId, rpId) {
        assert rows[k + 1] == rest[k];
      }
    }
  }

  lemma {:induction false} RevokedHasNoActive(rows: Table, k: nat, now: int)
    requires Valid(rows) && k < |rows| && rows[k].revokedAt.None?
    ensures !HasActive(Revoked(rows, rows[k].id, now), rows[k].userId, rows[k].rpId)
    ensures UsesCredentialId(Revoked(rows, rows[k].id, now), rows[k].credentialId)
  {
    var rows' := Revoked(rows, rows[k].id, now);
    forall j | 0 <= j < |rows'| ensures !IsActive(rows'[j], rows[k].userId, rows[k].rpId) {
      assert rows'[j].id == rows[j].id;
    }
    assert rows'[k].credentialId == rows[k].credentialId;
  }

  lemma {:induction false} EnrolledIsFound(rows: Table, input: Enrolment, id: string, address: seq<Byte> -> string)
    requires Valid(rows) && Enrolled(rows, input, id, address).1.Ok?
    ensures Found(Enrolled(rows, input, id, address).0, input.userId, input.rpId) == Some(NewRow(input, id, address))
  {
    hide IsCompressedP256, Valid;
    StepKeeps(rows, Enrol(input, id), address);
    FindsTheActiveOne(Enrolled(rows, input, id, address).0, input.userId, input.rpId, |rows|);
  }

  lemma {:induction false} EnrolOutcome(rows: Table, input: Enrolment, id: string, address: seq<Byte> -> string)
    requires Valid(rows) && !HasActive(rows, input.userId, input.rpId)
    ensures Enrolled(rows, input, id, address).1.Ok? <==>
              IsCompressedP256(input.publicKey) && !UsesId(rows, id) && !UsesCredentialId(rows, input.credentialId)
    ensures Enrolled(rows, input, id, address).1.Ok? ==>
              Found(Enrolled(rows, input, id, address).0, input.userId, input.rpId)
              == Some(NewRow(input, id, address))
  {
    hide IsCompressedP256, Found, Valid, HasActive, UsesId, UsesCredentialId, NewRow;
    if Enrolled(rows, input, id, address).1.Ok? {
      EnrolledIsFound(rows, input, id, address);
    }
  }

  lemma {:induction false} ActiveIndex(rows: Table, userId: string, rpId: string, active: Credential) returns (k: nat)
    requires Found(rows, userId, rpId) == Some(active)
    ensures k < |rows| && rows[k] == active && IsActive(active, userId, rpId)
  {
    FindsNullOtherwise(rows, userId, rpId);
    k :| 0 <= k < |rows| && rows[k] == active;
  }

  /** In every state reached by any run, re-enrolling after the active
      credential was revoked succeeds exactly with a well-formed key, a fresh id
      and a credential id no row, retired ones included, has used. */
  lemma {:induction false} EnrolAfterRevoke(ops: seq<Op>, address: seq<Byte> -> string, active: Credential, now: int,
                                            input: Enrolment, id: string)
    requires Found(Run([], ops, address), input.userId, input.rpId) == Some(active)
    ensures var rows := Revoked(Run([], ops, address), active.id, now);
            !HasActive(rows, input.userId, input.rpId)
            && (Enrolled(rows, input, id, address).1.Ok? <==>
                  IsCompressedP256(input.publicKey) && !UsesId(rows, id)
                  && !UsesCredentialId(rows, input.credentialId))
            && (Enrolled(rows, input, id, address).1.Ok? ==>
                  Found(Enrolled(rows, input, id, address).0, input.userId, input.rpId)
                  == Some(NewRow(input, id, address)))
            && UsesCredentialId(rows, active.credentialId)
  {
    hide Run, Found, Valid, HasActive, UsesId, UsesCredentialId, Enrolled, IsCompressedP256, Revoked;
    var before := Run([], ops, address);
    RunKeeps([], ops, address) by { EmptyIsValid(); }
    var k := ActiveIndex(before, input.userId, input.rpId, active);
    RevokedHasNoActive(before, k, now);
    StepKeeps(before, Revoke(active.id, now), address);
    EnrolOutcome(Revoked(before, active.id, now), input, id, address);
  }

  lemma {:induction false} EmptyIsValid()
    ensures Valid([])
  {
  }

  lemma {:induction false} FirstEnrolment(input: Enrolment, id: string, address: seq<Byte> -> string)
    requires IsCompressedP256(input.publicKey)
    ensures Enrolled([], input, id, address) == ([NewRow(input, id, address)], Ok(NewRow(input, id, address)))
  {
    hide IsCompressedP256, NewRow;
    assert [] + [NewRow(input, id, address)] == [NewRow(input, id, address)];
  }

  lemma {:induction false} EnrolThenRevoke(input: Enrolment, id: string, address: seq<Byte> -> string, now: int)
    requires IsCompressedP256(input.publicKey)
    ensures Run([], [Enrol(input, id), Revoke(id, now)], address)
         == [NewRow(input, id, address).(revokedAt := Some(now))]
  {
    hide IsCompressedP256, Enrolled;
    FirstEnrolment(input, id, address);
    var ops, row := [Enrol(input, id), Revoke(id, now)], NewRow(input, id, address);
    assert ops[1..] == [Revoke(id, now)] && ops[1..][1..] == [];
    assert Step([], ops[0], address) == [row];
    assert Step([row], ops[1], address) == [row.(revokedAt := Some(now))];
    hide Step;
    assert Run([], ops, address) == Run([row], ops[1..], address);
    assert Run([row], ops[1..], address) == Run([row.(revokedAt := Some(now))], ops[1..][1..], address);
  }

  /** A run after which the same credential cannot be enrolled again. */
  lemma {:induction false} RetiredIdWitness(address: seq<Byte> -> string, userId: string, credentialId: string,
                                            rpId: string, now: int)
    ensures var input := Enrolment(userId, credentialId, EncodeUrl([2] + seq(32, _ => 0)), rpId);
            var rows := Run([], [Enrol(input, "pk1"), Revoke("pk1", now)], address);
            Enrolled([], input, "pk1", address).1.Ok? && !HasActive(rows, userId, rpId)
            && Enrolled(rows, input, "pk2", address).1 == Err(NotUnique)
  {
    hide EncodeUrl, Decode, Run;
    var key: seq<Byte> := [2] + seq(32, _ => 0);
    var input := Enrolment(userId, credentialId, EncodeUrl(key), rpId);
    Password.DecodeUnpadded(key);
    assert IsCompressedP256(input.publicKey);
    hide IsCompressedP256;
    FirstEnrolment(input, "pk1", address);
    EnrolThenRevoke(input, "pk1", address, now);
    var rows := Run([], [Enrol(input, "pk1"), Revoke("pk1", now)], address);
    assert rows[0].credentialId == credentialId;
  }
}
