/**
 The CredStorage object (src/pass_store.cpp, include/pass_store.h). Its methods are proved
 against the functions of CredChain and CredCache on arbitrary stores. The ghost journal
 lists the single writes in the order they reach the flash.
 */
module CredStorageObject {
  import opened Basics
  import opened Timeout
  import opened CredTypes
  import opened CredChain
  import opened CredCache
  import opened CredBoot

  class CredStorage {
    var nvs: Nvs
    var credsCache: seq<CacheRecord>
    var verifiedCredId: uint32
    ghost var journal: seq<Write>

    ghost function State(): Store
      reads this
    {
      Store(nvs, credsCache, verifiedCredId)
    }

    // The writes ws, and no others, were issued since the old state.
    twostate predicate Wrote(ws: seq<Write>)
      reads this
    {
      journal == old(journal) + ws && nvs == ApplyAll(old(nvs), ws)
    }

    constructor (flash: Nvs)
      ensures State() == Store(flash, [], 0) && journal == []
    {
      nvs, credsCache, verifiedCredId, journal := flash, [], 0, [];
    }

    method WriteData(rec: CredRecord)
      modifies `nvs, `journal
      ensures nvs == Apply(old(nvs), Put(rec)) && journal == old(journal) + [Put(rec)]
    {
      nvs := nvs[rec.credId := rec];
      journal := journal + [Put(rec)];
    }

    method RemoveKey(id: uint32)
      modifies `nvs, `journal
      ensures nvs == Apply(old(nvs), Erase(id)) && journal == old(journal) + [Erase(id)]
    {
      nvs := nvs - {id};
      journal := journal + [Erase(id)];
    }

    method ClearAll()
      modifies `nvs, `journal
      ensures nvs == Apply(old(nvs), Clear) && journal == old(journal) + [Clear]
    {
      nvs := map[];
      journal := journal + [Clear];
    }

    method WriteCred(credIn: CredRecord) returns (id: uint32)
      modifies `nvs, `journal
      ensures Wrote(WriteCredWrites(old(nvs), credIn))
      ensures id == WriteCredId(old(nvs), credIn)
    {
      ghost var ws := WriteCredWrites(nvs, credIn);
      if credIn.credId == FIRST_KEY || credIn.credId !in nvs {
        if LAST_KEY !in nvs { return 0; }
        var lastCred := nvs[LAST_KEY];
        if lastCred.prevId !in nvs { return 0; }
        var prevCred := nvs[lastCred.prevId];
        var cred := credIn.(credId := lastCred.nextId, nextId := LAST_KEY, prevId := lastCred.prevId);
        WriteData(prevCred.(nextId := cred.credId));
        WriteData(cred);
        WriteData(lastCred.(nextId := Succ(lastCred.nextId), prevId := cred.credId));
        ApplyAllThree(old(nvs), ws[0], ws[1], ws[2]);
        return cred.credId;
      } else {
        if !VerifyLocalChain(nvs, credIn.credId) { return 0; }
        WriteData(credIn);
        ApplyAllOne(old(nvs), ws[0]);
        return credIn.credId;
      }
    }

    method AddCred(rec: CacheRecord) returns (id: uint32)
      modifies this
      ensures Wrote(AddWrites(old(nvs), rec))
      ensures (State(), id) == CredCache.AddCred(old(State()), rec)
    {
      if !ValidateCred(rec) { return 0; }
      id := WriteCred(Link(rec.(credId := FIRST_KEY), 0, 0));
      if id == 0 { return; }
      credsCache := credsCache + [rec.(credId := id)];
    }

    method UpdateCred(rec: CacheRecord) returns (ok: bool)
      modifies this
      ensures Wrote(UpdateWrites(old(nvs), rec))
      ensures (State(), ok) == CredCache.UpdateCred(old(State()), rec)
    {
      if !ValidateCred(rec) { return false; }
      if rec.credId !in nvs { return false; }
      if !SameIdentity(nvs[rec.credId], rec) { return false; }
      var id := WriteCred(WithRights(nvs[rec.credId], rec));
      if id == 0 { return false; }
      for i := 0 to |credsCache|
        invariant credsCache == old(credsCache) && verifiedCredId == old(verifiedCredId)
        invariant forall j :: 0 <= j < i ==> credsCache[j].credId != rec.credId
        invariant nvs == ApplyAll(old(nvs), UpdateWrites(old(nvs), rec))
        invariant journal == old(journal) + UpdateWrites(old(nvs), rec)
      {
        if credsCache[i].credId == rec.credId {
          assert IndexOf(credsCache, rec.credId) == i;
          credsCache := credsCache[i := rec];
          return true;
        }
      }
      credsCache := credsCache + [rec];
      return true;
    }

    method RemoveCred(rec: CacheRecord) returns (id: uint32)
      modifies this
      ensures Wrote(RemoveWrites(old(nvs), rec))
      ensures (State(), id) == CredCache.RemoveCred(old(State()), rec)
    {
      if rec.credId !in nvs { return 0; }
      var credRec := nvs[rec.credId];
      if !VerifyLocalChain(nvs, rec.credId) { return 0; }
      if !ValidateCredential(rec.credential, rec.credType, 0) || !SameIdentity(credRec, rec) { return 0; }
      if credRec.prevId !in nvs { return 0; }
      if credRec.nextId !in nvs { return 0; }
      var prevRec, nextRec := nvs[credRec.prevId], nvs[credRec.nextId];
      ghost var ws := RemoveWrites(nvs, rec);
      WriteData(prevRec.(nextId := credRec.nextId));
      RemoveKey(rec.credId);
      WriteData(nextRec.(prevId := credRec.prevId));
      ApplyAllThree(old(nvs), ws[0], ws[1], ws[2]);
      EvictFromCache(rec.credId);
      return rec.credId;
    }

    method EvictFromCache(id: uint32)
      modifies `credsCache
      ensures credsCache == Evict(old(credsCache), id)
    {
      for i := 0 to |credsCache|
        invariant credsCache == old(credsCache)
        invariant forall j :: 0 <= j < i ==> credsCache[j].credId != id
      {
        if credsCache[i].credId == id {
          assert IndexOf(credsCache, id) == i;
          credsCache := credsCache[..i] + credsCache[i + 1..];
          return;
        }
      }
    }

    method VerifyCred(entered: string, t: CredType, now: nat) returns (door: uint8)
      modifies `verifiedCredId
      ensures (State(), door) == CredCache.VerifyCred(old(State()), entered, t, now)
    {
      verifiedCredId := 0;
      if !ValidateCredential(entered, t, if t == PacketNumber then PACKET_SCAN_MAX else 0) { return DOOR_UNKNOWN; }
      for i := 0 to |credsCache|
        invariant verifiedCredId == 0
        invariant forall j :: 0 <= j < i ==> !TextMatches(credsCache[j], entered, t)
      {
        var p := credsCache[i];
        if TextMatches(p, entered, t) {
          assert FirstTextMatch(credsCache, entered, t) == i;
          if p.validFrom != 0 && now < p.validFrom { return DOOR_UNKNOWN; }
          if p.validTo != 0 && now > p.validTo { return DOOR_UNKNOWN; }
          if p.remaining == 0 { return DOOR_UNKNOWN; }
          verifiedCredId := p.credId;
          return p.doorNum;
        }
      }
      return DOOR_UNKNOWN;
    }

    method UsedCred(door: uint8, now: nat) returns (ok: bool)
      modifies this
      ensures (State(), ok) == CredCache.UsedCred(old(State()), door, now)
    {
      if verifiedCredId == 0 { return false; }
      for i := 0 to |credsCache|
        invariant State() == old(State())
        invariant forall j :: 0 <= j < i ==> credsCache[j].credId != verifiedCredId || credsCache[j].doorNum != door
      {
        var p := credsCache[i];
        if p.credId == verifiedCredId && p.doorNum == door {
          assert IndexOfUse(credsCache, verifiedCredId, door) == i;
          if !IsActive(p, now) {
            verifiedCredId := 0;
            return false;
          }
          if p.remaining > 1 {
            var updated := UpdateCred(p.(remaining := p.remaining - 1));
            if !updated { return false; }
          } else if p.remaining == 1 {
            var removed := RemoveCred(p);
            if removed == 0 { return false; }
          }
          verifiedCredId := 0;
          return true;
        }
      }
      verifiedCredId := 0;
      return false;
    }

    method GetCreds(first: uint32, num: uint32, t: CredType, now: nat) returns (creds: seq<CacheRecord>)
      ensures creds == CredCache.GetCreds(credsCache, first, num, t, now)
    {
      creds := [];
      if num == 0 { return; }
      for i := 0 to |credsCache|
        invariant |creds| < num
        invariant Selected(credsCache, first, t, now) == creds + Selected(credsCache[i..], first, t, now)
      {
        assert credsCache[i..][1..] == credsCache[i + 1..];
        if Listed(credsCache[i], first, t, now) {
          creds := creds + [credsCache[i]];
          if |creds| == num { return; }
        }
      }
    }

    // Callers must have a store whose forward walk ends, as every boot provides (CertifiedIsWalkable, RebuildOnPool).
    method RebuildCache(now: nat) returns (hasHead: bool)
      requires Walkable(nvs)
      modifies `credsCache
      ensures hasHead == (FIRST_KEY in nvs)
      ensures State() == CredCache.RebuildCache(old(State()), now)
    {
      credsCache := [];
      if FIRST_KEY !in nvs { return false; }
      var cur := FIRST_KEY;
      ghost var n := WalkLength(nvs);
      ghost var all := WalkCache(nvs, FIRST_KEY, n, now);
      while cur != LAST_KEY
        invariant WalkEnds(nvs, cur, n)
        invariant all == credsCache + WalkCache(nvs, cur, n, now)
        decreases n
      {
        if cur !in nvs { break; }
        var curCred := nvs[cur];
        WalkStep(nvs, cur, n, now, credsCache);
        if IsRealCredId(cur) && IsActive(ToCacheRecord(curCred), now) {
          credsCache := credsCache + [ToCacheRecord(curCred)];
        }
        cur := curCred.nextId;
        n := n - 1;
      }
      return true;
    }

    // ---------- recovery ----------

    method ResetPool()
      modifies this
      ensures Wrote(ResetWrites()) && credsCache == [] && verifiedCredId == old(verifiedCredId)
    {
      ghost var ws := ResetWrites();
      ClearAll();
      WriteData(Sentinel(FIRST_KEY, FIRST_KEY, LAST_KEY));
      WriteData(Sentinel(LAST_KEY, FIRST_KEY, 1));
      ApplyAllThree(old(nvs), ws[0], ws[1], ws[2]);
      credsCache := [];
    }

    method EnsurePool() returns (ok: bool)
      modifies this
      ensures ok == HasPool(old(nvs)) && verifiedCredId == old(verifiedCredId)
      ensures ok ==> nvs == old(nvs) && journal == old(journal) && credsCache == old(credsCache)
      ensures !ok ==> Wrote(ResetWrites()) && credsCache == []
    {
      var hasHead, hasTail := FIRST_KEY in nvs, LAST_KEY in nvs;
      if !hasHead && !hasTail {
        ResetPool();
        return false;
      }
      if !hasHead || !hasTail || nvs[FIRST_KEY].credId != FIRST_KEY || nvs[LAST_KEY].credId != LAST_KEY {
        ResetPool();
        return false;
      }
      return true;
    }

    // A repair by one write.
    method Rewrite(rec: CredRecord)
      modifies `nvs, `journal
      ensures Wrote([Put(rec)])
    {
      WriteData(rec);
      ApplyAllOne(old(nvs), Put(rec));
    }

    method RepairCredChain() returns (ok: bool)
      modifies `nvs, `journal
      ensures Wrote(RepairChain(old(nvs)).writes) && ok == RepairChain(old(nvs)).ok
    {
      if LAST_KEY !in nvs || nvs[LAST_KEY].credId != LAST_KEY { return false; }
      var tail := nvs[LAST_KEY];
      if FIRST_KEY !in nvs || nvs[FIRST_KEY].credId != FIRST_KEY { return false; }
      var current := nvs[FIRST_KEY];
      ghost var repair := RepairChain(nvs);
      for steps := 0 to CRED_GC_MAX_SCAN_ID
        invariant nvs == old(nvs) && journal == old(journal)
        invariant repair == RepairFrom(nvs, tail, current, steps)
      {
        if current.nextId == FIRST_KEY || current.nextId == current.credId { return false; }
        if current.nextId !in nvs {
          if current.credId != tail.prevId { return false; }
          Rewrite(current.(nextId := LAST_KEY));
          return true;
        }
        var next := nvs[current.nextId];
        if next.credId != current.nextId { return false; }
        if IsRealCredId(next.credId) && !IsStoredCredValid(next) { return false; }
        if next.prevId != current.credId {
          if next.prevId == current.prevId && next.credId == LAST_KEY {
            Rewrite(tail.(prevId := current.credId, nextId := Succ(current.credId)));
            return true;
          }
          ok := CompleteDelete(current, next);
          return;
        }
        if next.credId == LAST_KEY { return true; }
        current := next;
      }
      return false;
    }

    // The interrupted-delete branch of repairCredChain.
    method CompleteDelete(current: CredRecord, next: CredRecord) returns (ok: bool)
      modifies `nvs, `journal
      ensures Wrote(FinishDelete(old(nvs), current, next).writes) && ok == FinishDelete(old(nvs), current, next).ok
    {
      ghost var ws := FinishDelete(nvs, current, next).writes;
      if next.prevId in nvs && next.prevId == nvs[next.prevId].credId {
        RemoveKey(next.prevId);
      }
      if next.prevId !in nvs {
        WriteData(next.(prevId := current.credId));
        if |ws| == 1 {
          ApplyAllOne(old(nvs), ws[0]);
        } else {
          ApplyAllTwo(old(nvs), ws[0], ws[1]);
        }
        return true;
      }
      return false;
    }

    method RepairOrReset()
      requires HasPool(nvs)
      modifies this
      ensures var repair := RepairChain(old(nvs));
              Wrote(if repair.ok then repair.writes else repair.writes + ResetWrites())
      ensures verifiedCredId == old(verifiedCredId)
    {
      ghost var s, writes := nvs, RepairChain(nvs).writes;
      var repaired := RepairCredChain();
      if !repaired {
        ResetPool();
        ApplyAllAppend(s, writes, ResetWrites());
      }
    }

    method GarbageCollect()
      modifies this
      ensures Wrote(GcWrites(old(nvs))) && nvs == Gc(old(nvs))
      ensures verifiedCredId == old(verifiedCredId)
    {
      var ok := EnsurePool();
      if ok {
        RepairOrReset();
      }
    }

    // Boot: recovery, then the cache. The rebuild walks the chain without a bound. BootEnds is exactly when it returns
    // (BootEndsIff); on every other store the code loops for ever and there is no new state to describe.
    method Begin(now: nat)
      requires BootEnds(nvs)
      modifies this
      ensures Wrote(GcWrites(old(nvs)))
      ensures Walkable(Gc(old(nvs))) && State() == Booted(old(nvs), old(verifiedCredId), now)
    {
      BootEndsIff(nvs);
      GarbageCollect();
      var hasHead := RebuildCache(now);
    }
  }
}
