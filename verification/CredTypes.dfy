/**
 Credential records and their validators (include/pass_store.h, src/pass_store.cpp).

 Fixed-size character arrays are modelled by the text up to the first NUL.
 */
module CredTypes {
  import opened Basics
  import opened Timeout

  type int32 = x: int | -0x8000_0000 <= x < 0x8000_0000

  const FIRST_KEY: uint32 := 0
  const LAST_KEY: uint32 := 0xFFFF_FFFF

  const MIN_PIN_LENGTH := 6
  const MAX_PIN_LENGTH := 8
  const MAX_NAME_LENGTH := 10
  const PACKET_NUMBER_MIN := 8
  const PACKET_NUMBER_MAX := 20
  const PACKET_SCAN_MAX := 64

  datatype CredType = All | Password | PacketNumber

  // A credential without its links: what the cache holds and what callers pass in.
  datatype CacheRecord = CacheRecord(
    credType: CredType, credId: uint32, name: string, credential: string,
    doorNum: uint8, validFrom: uint64, validTo: uint64, remaining: int32)

  // The stored record: a credential plus its links.
  datatype CredRecord = CredRecord(
    credType: CredType, credId: uint32, prevId: uint32, nextId: uint32, doorNum: uint8,
    name: string, credential: string, validFrom: uint64, validTo: uint64, remaining: int32)

  predicate IsRealCredId(id: uint32) {
    id != FIRST_KEY && id != LAST_KEY
  }

  predicate IsCredentialType(t: CredType) {
    t == Password || t == PacketNumber
  }

  predicate IsCredentialChar(t: CredType, c: char) {
    if t == Password then '0' <= c <= '9' else 33 <= c as int <= 126
  }

  function MinimumLength(t: CredType): nat {
    if t == Password then MIN_PIN_LENGTH else PACKET_NUMBER_MIN
  }

  // maxOverride == 0 selects the limit of the type.
  function MaximumLength(t: CredType, maxOverride: nat): nat {
    if maxOverride != 0 then maxOverride
    else if t == Password then MAX_PIN_LENGTH else PACKET_NUMBER_MAX
  }

  predicate ValidateCredential(value: string, t: CredType, maxOverride: nat) {
    && IsCredentialType(t)
    && MinimumLength(t) <= |value| <= MaximumLength(t, maxOverride)
    && forall i :: 0 <= i < |value| ==> IsCredentialChar(t, value[i])
  }

  predicate ValidateCred(p: CacheRecord) {
    && ValidateCredential(p.credential, p.credType, 0)
    && 0 < |p.name| <= MAX_NAME_LENGTH
    && !(p.validFrom != 0 && p.validTo != 0 && p.validFrom > p.validTo)
  }

  function Clip(s: string, maximum: nat): string {
    if |s| <= maximum then s else s[..maximum]
  }

  function ToCacheRecord(r: CredRecord): CacheRecord {
    CacheRecord(r.credType, r.credId, Clip(r.name, MAX_NAME_LENGTH),
                Clip(r.credential, if r.credType == PacketNumber then PACKET_NUMBER_MAX else MAX_PIN_LENGTH),
                r.doorNum, r.validFrom, r.validTo, r.remaining)
  }

  predicate IsStoredCredValid(r: CredRecord) {
    && IsRealCredId(r.credId)
    && ValidateCredential(r.credential, r.credType, 0)
    && |r.name| <= MAX_NAME_LENGTH
    && ValidateCred(ToCacheRecord(r))
  }

  predicate IsActive(c: CacheRecord, now: nat) {
    && !(c.validFrom != 0 && now < c.validFrom)
    && !(c.validTo != 0 && now > c.validTo)
    && c.remaining != 0
  }

  // A credential together with its place in the chain.
  function Link(c: CacheRecord, prevId: uint32, nextId: uint32): CredRecord {
    CredRecord(c.credType, c.credId, prevId, nextId, c.doorNum, c.name, c.credential,
               c.validFrom, c.validTo, c.remaining)
  }

  // HEAD and TAIL carry no credential.
  function Sentinel(id: uint32, prevId: uint32, nextId: uint32): CredRecord {
    CredRecord(Password, id, prevId, nextId, 0, "", "", 0, 0, 0)
  }

  // Storing a valid credential loses nothing.
  lemma LinkRoundTrip(c: CacheRecord, prevId: uint32, nextId: uint32)
    requires ValidateCred(c)
    ensures ToCacheRecord(Link(c, prevId, nextId)) == c
    ensures IsStoredCredValid(Link(c, prevId, nextId)) <==> IsRealCredId(c.credId)
  {
  }
}
