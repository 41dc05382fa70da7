/**
 The credential chain in non-volatile storage (src/pass_store.cpp): a doubly linked
 list of records in a flat key/value store, anchored by HEAD (0) and TAIL (0xFFFFFFFF).

 Every operation is described by the sequence of single writes it issues. A power cut
 keeps some prefix of that sequence.
 */
module CredChain {
  import opened Timeout
  import opened CredTypes

  type Nvs = map<uint32, CredRecord>

  datatype Write = Put(rec: CredRecord) | Erase(id: uint32) | Clear

  function Apply(s: Nvs, w: Write): Nvs {
    match w
    case Put(rec) => s[rec.credId := rec]
    case Erase(id) => s - {id}
    case Clear => map[]
  }

  function ApplyAll(s: Nvs, ws: seq<Write>): Nvs {
    if ws == [] then s else Apply(ApplyAll(s, ws[..|ws| - 1]), ws[|ws| - 1])
  }

  lemma {:induction false} ApplyAllAppend(s: Nvs, a: seq<Write>, b: seq<Write>)
    ensures ApplyAll(s, a + b) == ApplyAll(ApplyAll(s, a), b)
  {
    if b == [] {
      assert a + b == a;
    } else {
      var b' := b[..|b| - 1];
      assert (a + b)[..|a + b| - 1] == a + b';
      ApplyAllAppend(s, a, b');
    }
  }

  lemma ApplyAllOne(s: Nvs, a: Write)
    ensures ApplyAll(s, [a]) == Apply(s, a)
  {
    assert [a][..0] == [];
  }

  lemma ApplyAllTwo(s: Nvs, a: Write, b: Write)
    ensures ApplyAll(s, [a, b]) == Apply(Apply(s, a), b)
  {
    assert [a, b][..1] == [a];
    ApplyAllOne(s, a);
  }

  lemma ApplyAllThree(s: Nvs, a: Write, b: Write, c: Write)
    ensures ApplyAll(s, [a, b, c]) == Apply(Apply(Apply(s, a), b), c)
  {
    assert [a, b, c][..2] == [a, b];
    ApplyAllTwo(s, a, b);
  }

  // 32-bit increment.
  function Succ(id: uint32): uint32 {
    if id == LAST_KEY then 0 else id + 1
  }

  // ---------- the writes of each operation, on an arbitrary store ----------

  predicate VerifyLocalChain(s: Nvs, id: uint32) {
    id in s &&
    var rec := s[id];
    || !IsRealCredId(rec.credId)
    || (rec.prevId in s && rec.nextId in s
        && s[rec.prevId].nextId == rec.credId && s[rec.nextId].prevId == rec.credId)
  }

  // writeCred: three writes link a new record in front of TAIL; an existing one is overwritten.
  function WriteCredWrites(s: Nvs, cred: CredRecord): seq<Write> {
    if cred.credId == FIRST_KEY || cred.credId !in s then
      if LAST_KEY !in s || s[LAST_KEY].prevId !in s then []
      else
        var tail := s[LAST_KEY];
        var prev := s[tail.prevId];
        var newId := tail.nextId;
        [Put(prev.(nextId := newId)),
         Put(cred.(credId := newId, prevId := tail.prevId, nextId := LAST_KEY)),
         Put(tail.(nextId := Succ(newId), prevId := newId))]
    else if VerifyLocalChain(s, cred.credId) then [Put(cred)]
    else []
  }

  function WriteCredId(s: Nvs, cred: CredRecord): uint32 {
    if WriteCredWrites(s, cred) == [] then 0
    else if cred.credId == FIRST_KEY || cred.credId !in s then s[LAST_KEY].nextId
    else cred.credId
  }

  // addCred
  function AddWrites(s: Nvs, rec: CacheRecord): seq<Write> {
    if ValidateCred(rec) then WriteCredWrites(s, Link(rec.(credId := FIRST_KEY), 0, 0)) else []
  }

  function AddId(s: Nvs, rec: CacheRecord): uint32 {
    if ValidateCred(rec) then WriteCredId(s, Link(rec.(credId := FIRST_KEY), 0, 0)) else 0
  }

  predicate SameIdentity(stored: CredRecord, rec: CacheRecord) {
    stored.credType == rec.credType && stored.name == rec.name && stored.credential == rec.credential
  }

  function WithRights(stored: CredRecord, rec: CacheRecord): CredRecord {
    stored.(validFrom := rec.validFrom, validTo := rec.validTo, remaining := rec.remaining, doorNum := rec.doorNum)
  }

  // updateCred
  function UpdateWrites(s: Nvs, rec: CacheRecord): seq<Write> {
    if !ValidateCred(rec) || rec.credId !in s || !SameIdentity(s[rec.credId], rec) then []
    else WriteCredWrites(s, WithRights(s[rec.credId], rec))
  }

  predicate UpdateSucceeds(s: Nvs, rec: CacheRecord) {
    && ValidateCred(rec) && rec.credId in s && SameIdentity(s[rec.credId], rec)
    && WriteCredId(s, WithRights(s[rec.credId], rec)) != 0
  }

  // removeCred: three writes, the deleted record leaves the store in the second one.
  predicate RemoveSucceeds(s: Nvs, rec: CacheRecord) {
    && rec.credId in s
    && VerifyLocalChain(s, rec.credId)
    && ValidateCredential(rec.credential, rec.credType, 0)
    && SameIdentity(s[rec.credId], rec)
    && s[rec.credId].prevId in s && s[rec.credId].nextId in s
  }

  function RemoveWrites(s: Nvs, rec: CacheRecord): seq<Write> {
    if !RemoveSucceeds(s, rec) then []
    else
      var gone := s[rec.credId];
      [Put(s[gone.prevId].(nextId := gone.nextId)),
       Erase(rec.credId),
       Put(s[gone.nextId].(prevId := gone.prevId))]
  }

  function ResetWrites(): seq<Write> {
    [Clear, Put(Sentinel(FIRST_KEY, FIRST_KEY, LAST_KEY)), Put(Sentinel(LAST_KEY, FIRST_KEY, 1))]
  }

  predicate HasPool(s: Nvs) {
    FIRST_KEY in s && LAST_KEY in s && s[FIRST_KEY].credId == FIRST_KEY && s[LAST_KEY].credId == LAST_KEY
  }

  // ---------- boot-time recovery ----------

  const CRED_GC_MAX_SCAN_ID := 4096

  datatype Repair = Repair(ok: bool, writes: seq<Write>)

  function FinishDelete(s: Nvs, current: CredRecord, next: CredRecord): Repair {
    var relink := Put(next.(prevId := current.credId));
    if next.prevId !in s then Repair(true, [relink])
    else if s[next.prevId].credId == next.prevId then Repair(true, [Erase(next.prevId), relink])
    else Repair(false, [])
  }

  // One iteration after another of the scan in repairCredChain, from `current` on.
  function RepairFrom(s: Nvs, tail: CredRecord, current: CredRecord, steps: nat): Repair
    decreases CRED_GC_MAX_SCAN_ID - steps
  {
    if steps >= CRED_GC_MAX_SCAN_ID then Repair(false, [])
    else if current.nextId == FIRST_KEY || current.nextId == current.credId then Repair(false, [])
    else if current.nextId !in s then
      if current.credId == tail.prevId then Repair(true, [Put(current.(nextId := LAST_KEY))])
      else Repair(false, [])
    else
      var next := s[current.nextId];
      if next.credId != current.nextId then Repair(false, [])
      else if IsRealCredId(next.credId) && !IsStoredCredValid(next) then Repair(false, [])
      else if next.prevId != current.credId then
        if next.prevId == current.prevId && next.credId == LAST_KEY then
          Repair(true, [Put(tail.(prevId := current.credId, nextId := Succ(current.credId)))])
        else FinishDelete(s, current, next)
      else if next.credId == LAST_KEY then Repair(true, [])
      else RepairFrom(s, tail, next, steps + 1)
  }

  function RepairChain(s: Nvs): Repair {
    if HasPool(s) then RepairFrom(s, s[LAST_KEY], s[FIRST_KEY], 0) else Repair(false, [])
  }

  function GcWrites(s: Nvs): seq<Write> {
    if !HasPool(s) then ResetWrites()
    else
      var repair := RepairChain(s);
      if repair.ok then repair.writes else repair.writes + ResetWrites()
  }

  function Gc(s: Nvs): Nvs {
    ApplyAll(s, GcWrites(s))
  }

  // ---------- the abstract pool and its image in the store ----------

  // What the store stands for: the credentials in chain order and the next free id.
  datatype Pool = Pool(creds: seq<CacheRecord>, nextId: uint32)

  const EMPTY_POOL := Pool([], 1)

  ghost predicate Ordered(p: Pool) {
    && 1 <= p.nextId
    && (forall i :: 0 <= i < |p.creds| ==> 0 < p.creds[i].credId < p.nextId)
    && (forall i, j :: 0 <= i < j < |p.creds| ==> p.creds[i].credId < p.creds[j].credId)
  }

  ghost predicate ValidPool(p: Pool) {
    && Ordered(p)
    && (forall i :: 0 <= i < |p.creds| ==> ValidateCred(p.creds[i]))
  }

  // Node 0 is HEAD, nodes 1..n are the credentials, node n+1 is TAIL.
  function NodeId(p: Pool, i: nat): uint32
    requires i <= |p.creds| + 1
  {
    if i == 0 then FIRST_KEY else if i <= |p.creds| then p.creds[i - 1].credId else LAST_KEY
  }

  function NodeRec(p: Pool, i: nat): CredRecord
    requires i <= |p.creds| + 1
  {
    if i == 0 then Sentinel(FIRST_KEY, FIRST_KEY, NodeId(p, 1))
    else if i <= |p.creds| then Link(p.creds[i - 1], NodeId(p, i - 1), NodeId(p, i + 1))
    else Sentinel(LAST_KEY, NodeId(p, i - 1), p.nextId)
  }

  lemma NodeIdsIncrease(p: Pool, i: nat, j: nat)
    requires Ordered(p) && i < j <= |p.creds| + 1
    ensures NodeId(p, i) < NodeId(p, j)
  {
  }

  ghost predicate IsNode(p: Pool, k: uint32) {
    exists i: nat :: i <= |p.creds| + 1 && NodeId(p, i) == k
  }

  ghost function NodeIndex(p: Pool, k: uint32): (i: nat)
    requires IsNode(p, k)
    ensures i <= |p.creds| + 1 && NodeId(p, i) == k
  {
    var i: nat :| i <= |p.creds| + 1 && NodeId(p, i) == k;
    i
  }

  ghost function NodeIds(p: Pool): (ids: set<uint32>)
    ensures forall k :: k in ids <==> IsNode(p, k)
  {
    set i: nat | i <= |p.creds| + 1 :: NodeId(p, i)
  }

  // The store that holds exactly pool p: no orphan keys, every link in place.
  ghost function Image(p: Pool): Nvs {
    map k | k in NodeIds(p) :: NodeRec(p, NodeIndex(p, k))
  }

  ghost predicate HoldsNode(s: Nvs, p: Pool, i: nat)
    requires i <= |p.creds| + 1
  {
    NodeId(p, i) in s && s[NodeId(p, i)] == NodeRec(p, i)
  }

  ghost predicate Holds(s: Nvs, p: Pool) {
    && (forall i: nat :: i <= |p.creds| + 1 ==> HoldsNode(s, p, i))
    && (forall k :: k in s ==> IsNode(p, k))
  }

  lemma NodeIdsInjective(p: Pool, i: nat, j: nat)
    requires Ordered(p) && i <= |p.creds| + 1 && j <= |p.creds| + 1
    ensures NodeId(p, i) == NodeId(p, j) <==> i == j
  {
    if i < j {
      NodeIdsIncrease(p, i, j);
    } else if j < i {
      NodeIdsIncrease(p, j, i);
    }
  }

  // Holds(s, p) determines the store.
  lemma HoldsIffImage(s: Nvs, p: Pool)
    requires Ordered(p)
    ensures Holds(s, p) <==> s == Image(p)
  {
    forall i: nat | i <= |p.creds| + 1
      ensures HoldsNode(Image(p), p, i)
    {
      assert IsNode(p, NodeId(p, i));
      NodeIdsInjective(p, i, NodeIndex(p, NodeId(p, i)));
    }
    if Holds(s, p) {
      forall k | k in s
        ensures k in Image(p) && Image(p)[k] == s[k]
      {
        assert HoldsNode(s, p, NodeIndex(p, k));
      }
      forall k | k in Image(p)
        ensures k in s
      {
        assert HoldsNode(s, p, NodeIndex(p, k));
      }
    }
  }
}
