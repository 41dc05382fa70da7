/**
 The in-memory cache over the credential chain (src/pass_store.cpp): access checks,
 consumption of credentials, rebuilding and paging.

 A Store is the value of a CredStorage object: its non-volatile store, its cache and
 the credential verified last. The functions say what each operation does to it.
 */
module CredCache {
  import opened Basics
  import opened Timeout
  import opened CredTypes
  import opened CredChain
  import opened CredRecovery
  import opened CredCrash

  datatype Store = Store(nvs: Nvs, cache: seq<CacheRecord>, verified: uint32)

  // ---------- operations ----------

  // Index of the first cached record with this id, |cache| if there is none.
  function IndexOf(cache: seq<CacheRecord>, id: uint32): (i: nat)
    ensures i <= |cache|
    ensures i < |cache| ==> cache[i].credId == id
    ensures forall j :: 0 <= j < i ==> cache[j].credId != id
  {
    if cache == [] then 0
    else if cache[0].credId == id then 0
    else 1 + IndexOf(cache[1..], id)
  }

  function Upsert(cache: seq<CacheRecord>, rec: CacheRecord): seq<CacheRecord> {
    var i := IndexOf(cache, rec.credId);
    if i < |cache| then cache[i := rec] else cache + [rec]
  }

  function Evict(cache: seq<CacheRecord>, id: uint32): seq<CacheRecord> {
    var i := IndexOf(cache, id);
    if i < |cache| then cache[..i] + cache[i + 1..] else cache
  }

  function AddCred(st: Store, rec: CacheRecord): (Store, uint32) {
    var id := AddId(st.nvs, rec);
    var st' := st.(nvs := ApplyAll(st.nvs, AddWrites(st.nvs, rec)));
    (if id == 0 then st' else st'.(cache := st.cache + [rec.(credId := id)]), id)
  }

  function UpdateCred(st: Store, rec: CacheRecord): (Store, bool) {
    var st' := st.(nvs := ApplyAll(st.nvs, UpdateWrites(st.nvs, rec)));
    if UpdateSucceeds(st.nvs, rec) then (st'.(cache := Upsert(st.cache, rec)), true) else (st', false)
  }

  function RemoveCred(st: Store, rec: CacheRecord): (Store, uint32) {
    if RemoveSucceeds(st.nvs, rec) then
      (st.(nvs := ApplyAll(st.nvs, RemoveWrites(st.nvs, rec)), cache := Evict(st.cache, rec.credId)), rec.credId)
    else (st, 0)
  }

  predicate OccursAt(whole: string, text: string, i: nat) {
    i + |text| <= |whole| && whole[i..i + |text|] == text
  }

  predicate Contains(whole: string, text: string) {
    exists i :: 0 <= i <= |whole| && OccursAt(whole, text, i)
  }

  predicate TextMatches(c: CacheRecord, entered: string, t: CredType) {
    && c.credType == t
    && if t == Password then c.credential == entered else Contains(entered, c.credential)
  }

  // Index of the first record whose text matches, |cache| if there is none.
  function FirstTextMatch(cache: seq<CacheRecord>, entered: string, t: CredType): (i: nat)
    ensures i <= |cache|
    ensures i < |cache| ==> TextMatches(cache[i], entered, t)
    ensures forall j :: 0 <= j < i ==> !TextMatches(cache[j], entered, t)
  {
    if cache == [] then 0
    else if TextMatches(cache[0], entered, t) then 0
    else 1 + FirstTextMatch(cache[1..], entered, t)
  }

  predicate Enterable(entered: string, t: CredType) {
    ValidateCredential(entered, t, if t == PacketNumber then PACKET_SCAN_MAX else 0)
  }

  function VerifyCred(st: Store, entered: string, t: CredType, now: nat): (Store, uint8) {
    var i := FirstTextMatch(st.cache, entered, t);
    if Enterable(entered, t) && i < |st.cache| && IsActive(st.cache[i], now)
    then (st.(verified := st.cache[i].credId), st.cache[i].doorNum)
    else (st.(verified := 0), DOOR_UNKNOWN)
  }

  // Index of the first cached record with this id and door.
  function IndexOfUse(cache: seq<CacheRecord>, id: uint32, door: uint8): (i: nat)
    ensures i <= |cache|
    ensures i < |cache| ==> cache[i].credId == id && cache[i].doorNum == door
    ensures forall j :: 0 <= j < i ==> cache[j].credId != id || cache[j].doorNum != door
  {
    if cache == [] then 0
    else if cache[0].credId == id && cache[0].doorNum == door then 0
    else 1 + IndexOfUse(cache[1..], id, door)
  }

  function UsedCred(st: Store, door: uint8, now: nat): (Store, bool) {
    var i := IndexOfUse(st.cache, st.verified, door);
    if st.verified == 0 then (st, false)
    else if i == |st.cache| || !IsActive(st.cache[i], now) then (st.(verified := 0), false)
    else
      var c := st.cache[i];
      if c.remaining > 1 then
        var (st', ok) := UpdateCred(st, c.(remaining := c.remaining - 1));
        if ok then (st'.(verified := 0), true) else (st', false)
      else if c.remaining == 1 then
        var (st', id) := RemoveCred(st, c);
        if id != 0 then (st'.(verified := 0), true) else (st', false)
      else (st.(verified := 0), true)
  }

  // ---------- rebuilding ----------

  // The walk from cur over forward links stops, at TAIL or at a broken link, within n steps.
  ghost predicate WalkEnds(s: Nvs, cur: uint32, n: nat)
    decreases n
  {
    cur == LAST_KEY || cur !in s || (n > 0 && WalkEnds(s, s[cur].nextId, n - 1))
  }

  function CachedAt(s: Nvs, cur: uint32, now: nat): seq<CacheRecord>
    requires cur in s
  {
    if IsRealCredId(cur) && IsActive(ToCacheRecord(s[cur]), now) then [ToCacheRecord(s[cur])] else []
  }

  ghost function WalkCache(s: Nvs, cur: uint32, n: nat, now: nat): seq<CacheRecord>
    requires WalkEnds(s, cur, n)
    decreases n
  {
    if cur == LAST_KEY || cur !in s then [] else CachedAt(s, cur, now) + WalkCache(s, s[cur].nextId, n - 1, now)
  }

  // One step of the walk, with the records found before it.
  lemma WalkStep(s: Nvs, cur: uint32, n: nat, now: nat, before: seq<CacheRecord>)
    requires WalkEnds(s, cur, n) && cur != LAST_KEY && cur in s
    ensures n > 0 && WalkEnds(s, s[cur].nextId, n - 1)
    ensures before + WalkCache(s, cur, n, now) ==
            before + CachedAt(s, cur, now) + WalkCache(s, s[cur].nextId, n - 1, now)
  {
  }

  ghost predicate Walkable(s: Nvs) {
    exists n: nat :: WalkEnds(s, FIRST_KEY, n)
  }

  ghost function WalkLength(s: Nvs): (n: nat)
    requires Walkable(s)
    ensures WalkEnds(s, FIRST_KEY, n)
  {
    var n: nat :| WalkEnds(s, FIRST_KEY, n);
    n
  }

  ghost function RebuildCache(st: Store, now: nat): Store
    requires Walkable(st.nvs)
  {
    st.(cache := WalkCache(st.nvs, FIRST_KEY, WalkLength(st.nvs), now))
  }

  lemma {:induction false} WalkFuelIrrelevant(s: Nvs, cur: uint32, n: nat, m: nat, now: nat)
    requires WalkEnds(s, cur, n) && WalkEnds(s, cur, m)
    ensures WalkCache(s, cur, n, now) == WalkCache(s, cur, m, now)
    decreases n
  {
    if cur != LAST_KEY && cur in s {
      WalkFuelIrrelevant(s, s[cur].nextId, n - 1, m - 1, now);
    }
  }

  // The forward links of s lead along path and from its end to TAIL.
  ghost predicate ForwardAt(s: Nvs, path: seq<uint32>, j: nat)
    requires j < |path|
  {
    path[j] in s && s[path[j]].nextId == if j + 1 < |path| then path[j + 1] else LAST_KEY
  }

  lemma {:induction false} ForwardWalkEnds(s: Nvs, path: seq<uint32>, i: nat)
    requires i < |path| && forall j: nat :: j < |path| ==> ForwardAt(s, path, j)
    ensures WalkEnds(s, path[i], |path| - i)
    decreases |path| - i
  {
    assert ForwardAt(s, path, i);
    if i + 1 < |path| {
      ForwardWalkEnds(s, path, i + 1);
    } else {
      assert WalkEnds(s, LAST_KEY, 0);
    }
  }

  // A store that recovery accepts untouched can be walked: the unbounded loop of rebuildCache terminates.
  lemma CertifiedIsWalkable(s: Nvs)
    requires RepairChain(s) == Repair(true, [])
    ensures Walkable(s)
  {
    AcceptedIffCertified(s);
    var path :| WholeChain(s, path) && |path| <= CRED_GC_MAX_SCAN_ID;
    forall j: nat | j < |path| ensures ForwardAt(s, path, j) { assert LinkedAt(s, path, j); }
    ForwardWalkEnds(s, path, 0);
  }

  function FilterActive(creds: seq<CacheRecord>, now: nat): seq<CacheRecord> {
    if creds == [] then []
    else if IsActive(creds[0], now) then [creds[0]] + FilterActive(creds[1..], now)
    else FilterActive(creds[1..], now)
  }

  lemma {:induction false} FilterMembers(creds: seq<CacheRecord>, now: nat, c: CacheRecord)
    ensures c in FilterActive(creds, now) <==> c in creds && IsActive(c, now)
  {
    if creds != [] {
      FilterMembers(creds[1..], now, c);
      assert c in creds <==> c == creds[0] || c in creds[1..];
    }
  }

  // Credential i of the pool, as the walk finds it.
  lemma CredOnPool(s: Nvs, p: Pool, i: nat)
    requires ValidPool(p) && Holds(s, p) && i < |p.creds|
    ensures var cur := NodeId(p, i + 1);
            && cur in s && IsRealCredId(cur) && ToCacheRecord(s[cur]) == p.creds[i] && s[cur].nextId == NodeId(p, i + 2)
  {
    assert HoldsNode(s, p, i + 1);
    NodeIdsIncrease(p, 0, i + 1);
    NodeIdsIncrease(p, i + 1, |p.creds| + 1);
    LinkRoundTrip(p.creds[i], NodeId(p, i), NodeId(p, i + 2));
  }

  lemma {:induction false} WalkOnPool(s: Nvs, p: Pool, i: nat, now: nat)
    requires ValidPool(p) && Holds(s, p) && i <= |p.creds|
    ensures WalkEnds(s, NodeId(p, i + 1), |p.creds| - i)
    ensures WalkCache(s, NodeId(p, i + 1), |p.creds| - i, now) == FilterActive(p.creds[i..], now)
    decreases |p.creds| - i
  {
    if i < |p.creds| {
      CredOnPool(s, p, i);
      WalkOnPool(s, p, i + 1, now);
      assert p.creds[i..][1..] == p.creds[i + 1..];
    }
  }

  // Rebuilding yields exactly the active credentials, in chain order.
  lemma RebuildOnPool(st: Store, p: Pool, now: nat)
    requires ValidPool(p) && Holds(st.nvs, p)
    ensures Walkable(st.nvs)
    ensures RebuildCache(st, now) == st.(cache := FilterActive(p.creds, now))
  {
    HoldsEnds(st.nvs, p);
    WalkOnPool(st.nvs, p, 0, now);
    assert p.creds[0..] == p.creds;
    var m := |p.creds| + 1;
    assert WalkEnds(st.nvs, FIRST_KEY, m);
    WalkFuelIrrelevant(st.nvs, FIRST_KEY, WalkLength(st.nvs), m, now);
  }

  // ---------- the cache refines the chain ----------

  ghost predicate DistinctIds(cache: seq<CacheRecord>) {
    forall i, j :: 0 <= i < j < |cache| ==> cache[i].credId != cache[j].credId
  }

  ghost predicate SortedIds(cache: seq<CacheRecord>) {
    forall i, j :: 0 <= i < j < |cache| ==> cache[i].credId < cache[j].credId
  }

  // The store holds pool p, and every cached record is a distinct credential of p, unchanged.
  ghost predicate Refines(st: Store, p: Pool) {
    && ValidPool(p) && Holds(st.nvs, p)
    && DistinctIds(st.cache)
    && (forall i :: 0 <= i < |st.cache| ==> st.cache[i] in p.creds)
  }

  lemma AddRefines(st: Store, p: Pool, c: CacheRecord)
    requires Refines(st, p) && p.nextId < LAST_KEY
    ensures Refines(AddCred(st, c).0, PoolOp(p, Add(c)))
    ensures AddCred(st, c).1 == if ValidateCred(c) then p.nextId else 0
    ensures SortedIds(st.cache) ==> SortedIds(AddCred(st, c).0.cache)
  {
    OpCompletes(st.nvs, p, Add(c));
    if ValidateCred(c) {
      AddWritesOnPool(st.nvs, p, c);
    }
  }

  lemma UpdateRefines(st: Store, p: Pool, c: CacheRecord)
    requires Refines(st, p)
    ensures Refines(UpdateCred(st, c).0, PoolOp(p, Update(c)))
    ensures UpdateCred(st, c).1 <==> ValidateCred(c) && HasMatch(p, c)
    ensures SortedIds(st.cache) && IndexOf(st.cache, c.credId) < |st.cache| ==> SortedIds(UpdateCred(st, c).0.cache)
  {
    UpdateOpCompletes(st.nvs, p, c);
    if ValidateCred(c) {
      UpdateWritesOnPool(st.nvs, p, c);
      if HasMatch(p, c) {
        UpsertRefines(st.cache, p, c, MatchIndex(p, c));
      }
    }
  }

  lemma UpsertRefines(cache: seq<CacheRecord>, p: Pool, c: CacheRecord, d: nat)
    requires Ordered(p) && d < |p.creds| && p.creds[d].credId == c.credId
    requires DistinctIds(cache) && forall i :: 0 <= i < |cache| ==> cache[i] in p.creds
    ensures DistinctIds(Upsert(cache, c))
    ensures forall i :: 0 <= i < |Upsert(cache, c)| ==> Upsert(cache, c)[i] in p.creds[d := c]
  {
    var q, kept := p.creds[d := c], Upsert(cache, c);
    assert q[d] == c;
    forall i | 0 <= i < |kept|
      ensures kept[i] in q
    {
      if kept[i] != c {
        assert kept[i] == cache[i];
        var e :| 0 <= e < |p.creds| && p.creds[e] == cache[i];
        assert q[e] == cache[i];
      }
    }
  }

  lemma RemoveRefines(st: Store, p: Pool, c: CacheRecord)
    requires Refines(st, p)
    ensures Refines(RemoveCred(st, c).0, PoolOp(p, Remove(c)))
    ensures RemoveCred(st, c).1 == if HasMatch(p, c) then c.credId else 0
    ensures SortedIds(st.cache) ==> SortedIds(RemoveCred(st, c).0.cache)
  {
    OpCompletes(st.nvs, p, Remove(c));
    RemoveWritesOnPool(st.nvs, p, c);
    if HasMatch(p, c) {
      EvictRefines(st.cache, p, c.credId, MatchIndex(p, c));
      if SortedIds(st.cache) { EvictSorted(st.cache, c.credId); }
    }
  }

  lemma EvictSorted(cache: seq<CacheRecord>, id: uint32)
    requires SortedIds(cache)
    ensures SortedIds(Evict(cache, id))
  {
  }

  lemma EvictDistinct(cache: seq<CacheRecord>, id: uint32)
    requires DistinctIds(cache)
    ensures DistinctIds(Evict(cache, id))
    ensures forall i :: 0 <= i < |Evict(cache, id)| ==> Evict(cache, id)[i] in cache && Evict(cache, id)[i].credId != id
  {
  }

  lemma RemoveAtKeeps(p: Pool, d: nat, c: CacheRecord)
    requires d < |p.creds| && c in p.creds && c.credId != p.creds[d].credId
    ensures c in PoolRemoveAt(p, d).creds
  {
    var e :| 0 <= e < |p.creds| && p.creds[e] == c;
    assert PoolRemoveAt(p, d).creds[if e < d then e else e - 1] == c;
  }

  lemma EvictRefines(cache: seq<CacheRecord>, p: Pool, id: uint32, d: nat)
    requires d < |p.creds| && p.creds[d].credId == id
    requires DistinctIds(cache) && forall i :: 0 <= i < |cache| ==> cache[i] in p.creds
    ensures DistinctIds(Evict(cache, id))
    ensures forall i :: 0 <= i < |Evict(cache, id)| ==> Evict(cache, id)[i] in PoolRemoveAt(p, d).creds
  {
    EvictDistinct(cache, id);
    forall i | 0 <= i < |Evict(cache, id)|
      ensures Evict(cache, id)[i] in PoolRemoveAt(p, d).creds
    {
      RemoveAtKeeps(p, d, Evict(cache, id)[i]);
    }
  }

  lemma RebuildRefines(st: Store, p: Pool, now: nat)
    requires Refines(st, p)
    ensures Walkable(st.nvs) && Refines(RebuildCache(st, now), p) && SortedIds(RebuildCache(st, now).cache)
  {
    RebuildOnPool(st, p, now);
    FilterSorted(p.creds, now);
    forall c | c in FilterActive(p.creds, now)
      ensures c in p.creds
    {
      FilterMembers(p.creds, now, c);
    }
  }

  lemma {:induction false} FilterSorted(creds: seq<CacheRecord>, now: nat)
    requires SortedIds(creds)
    ensures SortedIds(FilterActive(creds, now))
  {
    if creds != [] {
      FilterSorted(creds[1..], now);
      forall c | c in FilterActive(creds[1..], now)
        ensures creds[0].credId < c.credId
      {
        FilterMembers(creds[1..], now, c);
      }
    }
  }

  // ---------- access checks ----------

  // A door other than "unknown" is the door of a stored, matching credential that is active now.
  lemma VerifySound(st: Store, p: Pool, entered: string, t: CredType, now: nat)
    requires Refines(st, p)
    ensures var (st', door) := VerifyCred(st, entered, t, now);
            && st' == st.(verified := st'.verified)
            && (door != DOOR_UNKNOWN ==>
                  exists c :: c in p.creds && c.credId == st'.verified && c.doorNum == door
                              && TextMatches(c, entered, t) && IsActive(c, now))
  {
  }

  // Index of the first credential, in chain order, that is active and matches.
  function FirstGrant(creds: seq<CacheRecord>, entered: string, t: CredType, now: nat): (k: nat)
    ensures k <= |creds|
    ensures k < |creds| ==> IsActive(creds[k], now) && TextMatches(creds[k], entered, t)
    ensures forall j :: 0 <= j < k ==> !(IsActive(creds[j], now) && TextMatches(creds[j], entered, t))
  {
    if creds == [] then 0
    else if IsActive(creds[0], now) && TextMatches(creds[0], entered, t) then 0
    else 1 + FirstGrant(creds[1..], entered, t, now)
  }

  lemma {:induction false} FirstMatchOfActive(creds: seq<CacheRecord>, entered: string, t: CredType, now: nat)
    ensures var cache := FilterActive(creds, now);
            var i, k := FirstTextMatch(cache, entered, t), FirstGrant(creds, entered, t, now);
            if k == |creds| then i == |cache| else i < |cache| && cache[i] == creds[k]
  {
    if creds != [] {
      FirstMatchOfActive(creds[1..], entered, t, now);
      if IsActive(creds[0], now) {
        assert FilterActive(creds, now)[1..] == FilterActive(creds[1..], now);
      }
    }
  }

  // Right after a rebuild at the same instant, access goes exactly to the first active match in chain order.
  lemma VerifyAfterRebuild(st: Store, p: Pool, entered: string, t: CredType, now: nat)
    requires Refines(st, p) && Enterable(entered, t)
    ensures Walkable(st.nvs)
    ensures var (st', door) := VerifyCred(RebuildCache(st, now), entered, t, now);
            var k := FirstGrant(p.creds, entered, t, now);
            if k == |p.creds| then st'.verified == 0 && door == DOOR_UNKNOWN
            else st'.verified == p.creds[k].credId && door == p.creds[k].doorNum
  {
    RebuildOnPool(st, p, now);
    FirstMatchOfActive(p.creds, entered, t, now);
  }

  // At any time: if a stored credential is active and matches, the first one that does is granted if and only if it is
  // the first textual match in the cache. If none is, nobody is let in.
  lemma GrantedIffCached(st: Store, p: Pool, entered: string, t: CredType, now: nat)
    requires Refines(st, p) && Enterable(entered, t)
    ensures var k, i := FirstGrant(p.creds, entered, t, now), FirstTextMatch(st.cache, entered, t);
            var (st', door) := VerifyCred(st, entered, t, now);
            if k == |p.creds| then st'.verified == 0 && door == DOOR_UNKNOWN
            else st'.verified == p.creds[k].credId <==> i < |st.cache| && st.cache[i] == p.creds[k]
  {
    var k, i := FirstGrant(p.creds, entered, t, now), FirstTextMatch(st.cache, entered, t);
    if i < |st.cache| {
      var d :| 0 <= d < |p.creds| && p.creds[d] == st.cache[i];
      assert k < |p.creds| && p.creds[d].credId == p.creds[k].credId ==> d == k;
    }
    assert k < |p.creds| ==> p.creds[k].credId != 0;
  }

  // A credential that becomes valid after the last rebuild is refused until the next one, whatever is entered.
  lemma LateIsRefused(st: Store, p: Pool, c: CacheRecord, rebuilt: nat, entered: string, t: CredType, now: nat)
    requires Refines(st, p) && c in p.creds && rebuilt < c.validFrom
    ensures Walkable(st.nvs) && VerifyCred(RebuildCache(st, rebuilt), entered, t, now).0.verified != c.credId
  {
    RebuildRefines(st, p, rebuilt);
    RebuildOnPool(st, p, rebuilt);
    var cache := RebuildCache(st, rebuilt).cache;
    forall i | 0 <= i < |cache| ensures cache[i].credId != c.credId {
      FilterMembers(p.creds, rebuilt, cache[i]);
      var d, e :| 0 <= d < |p.creds| && p.creds[d] == c && 0 <= e < |p.creds| && p.creds[e] == cache[i];
      assert d != e;
    }
  }

  // ---------- paging ----------

  predicate Listed(c: CacheRecord, first: uint32, t: CredType, now: nat) {
    IsActive(c, now) && c.credId >= first && (t == All || c.credType == t)
  }

  function Selected(cache: seq<CacheRecord>, first: uint32, t: CredType, now: nat): seq<CacheRecord> {
    if cache == [] then []
    else if Listed(cache[0], first, t, now) then [cache[0]] + Selected(cache[1..], first, t, now)
    else Selected(cache[1..], first, t, now)
  }

  lemma {:induction false} SelectedMembers(cache: seq<CacheRecord>, first: uint32, t: CredType, now: nat,
                                           c: CacheRecord)
    ensures c in Selected(cache, first, t, now) <==> c in cache && Listed(c, first, t, now)
  {
    if cache != [] {
      SelectedMembers(cache[1..], first, t, now, c);
      assert c in cache <==> c == cache[0] || c in cache[1..];
    }
  }

  function GetCreds(cache: seq<CacheRecord>, first: uint32, num: uint32, t: CredType, now: nat): seq<CacheRecord> {
    var all := Selected(cache, first, t, now);
    if |all| <= num then all else all[..num]
  }

  lemma {:induction false} SelectedSorted(cache: seq<CacheRecord>, first: uint32, t: CredType, now: nat)
    requires SortedIds(cache)
    ensures SortedIds(Selected(cache, first, t, now))
  {
    if cache != [] {
      SelectedSorted(cache[1..], first, t, now);
      forall c | c in Selected(cache[1..], first, t, now)
        ensures cache[0].credId < c.credId
      {
        SelectedMembers(cache[1..], first, t, now, c);
      }
    }
  }

  // Starting after the i-th listed record lists the remaining ones.
  lemma {:induction false} SelectedAfter(cache: seq<CacheRecord>, first: uint32, t: CredType, now: nat, i: nat)
    requires SortedIds(cache) && i < |Selected(cache, first, t, now)|
    requires Selected(cache, first, t, now)[i].credId < LAST_KEY
    ensures var all := Selected(cache, first, t, now);
            Selected(cache, all[i].credId + 1, t, now) == all[i + 1..]
    decreases |cache|
  {
    var all, tail := Selected(cache, first, t, now), cache[1..];
    var rest, next := Selected(tail, first, t, now), all[i].credId + 1;
    if i == 0 && Listed(cache[0], first, t, now) {
      SelectedAllAbove(tail, first, next, t, now);
      assert all[1..] == rest;
    } else {
      var j := if Listed(cache[0], first, t, now) then i - 1 else i;
      assert rest[j] == all[i] && rest[j + 1..] == all[i + 1..];
      SelectedMembers(tail, first, t, now, rest[j]);
      assert !Listed(cache[0], next, t, now);
      SelectedAfter(tail, first, t, now, j);
    }
  }

  // The start id only matters for records below it.
  lemma {:induction false} SelectedAllAbove(cache: seq<CacheRecord>, first: uint32, next: uint32, t: CredType, now: nat)
    requires forall j :: 0 <= j < |cache| ==> cache[j].credId >= first && cache[j].credId >= next
    ensures Selected(cache, first, t, now) == Selected(cache, next, t, now)
  {
    if cache != [] {
      SelectedAllAbove(cache[1..], first, next, t, now);
    }
  }

  // What a client sees that asks for pages of num records, each starting after the last id it got.
  function Pages(cache: seq<CacheRecord>, first: uint32, num: uint32, t: CredType, now: nat): seq<CacheRecord>
    requires num > 0 && SortedIds(cache) && forall j :: 0 <= j < |cache| ==> cache[j].credId < LAST_KEY
    decreases |Selected(cache, first, t, now)|
  {
    var page := GetCreds(cache, first, num, t, now);
    if |page| < num then page
    else
      SelectedMembers(cache, first, t, now, page[num - 1]);
      SelectedAfter(cache, first, t, now, num - 1);
      page + Pages(cache, page[num - 1].credId + 1, num, t, now)
  }

  // A full page, and the listing that starts after its last record, make up the listing.
  lemma FullPage(cache: seq<CacheRecord>, first: uint32, num: uint32, t: CredType, now: nat) returns (next: uint32)
    requires 0 < num <= |Selected(cache, first, t, now)| && SortedIds(cache)
    requires forall j :: 0 <= j < |cache| ==> cache[j].credId < LAST_KEY
    ensures GetCreds(cache, first, num, t, now)[num - 1].credId + 1 == next
    ensures |Selected(cache, next, t, now)| < |Selected(cache, first, t, now)|
    ensures GetCreds(cache, first, num, t, now) + Selected(cache, next, t, now) == Selected(cache, first, t, now)
  {
    var all := Selected(cache, first, t, now);
    SelectedMembers(cache, first, t, now, all[num - 1]);
    next := all[num - 1].credId + 1;
    SelectedAfter(cache, first, t, now, num - 1);
    assert all == all[..num] + all[num..];
  }

  // Paging an id-sorted cache lists every active record of the type exactly once, whatever the page size.
  lemma {:induction false} PagingIsComplete(cache: seq<CacheRecord>, first: uint32, num: uint32, t: CredType, now: nat)
    requires num > 0 && SortedIds(cache) && forall j :: 0 <= j < |cache| ==> cache[j].credId < LAST_KEY
    ensures Pages(cache, first, num, t, now) == Selected(cache, first, t, now)
    decreases |Selected(cache, first, t, now)|
  {
    if num <= |Selected(cache, first, t, now)| {
      var next := FullPage(cache, first, num, t, now);
      PagingIsComplete(cache, next, num, t, now);
    }
  }
}
