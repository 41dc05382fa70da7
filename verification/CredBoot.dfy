/**
 Boot (src/pass_store.cpp): recovery followed by a rebuild of the cache. When the boot ends, for arbitrary stores, and
 what it serves after any run.
 */
module CredBoot {
  import opened Basics
  import opened Timeout
  import opened CredTypes
  import opened CredChain
  import opened CredRecovery
  import opened CredCrash
  import opened CredRuns
  import opened CredCache

  // ---------- where the scan completes a delete ----------

  // The scan goes on to the next record.
  predicate Passes(s: Nvs, current: CredRecord) {
    && current.nextId != FIRST_KEY && current.nextId != current.credId && current.nextId in s
    && var next := s[current.nextId];
       && next.credId == current.nextId && next.prevId == current.credId && IsStoredCredValid(next)
  }

  // The scan takes the delete branch here and succeeds.
  predicate CompletesDelete(s: Nvs, current: CredRecord) {
    && current.nextId != FIRST_KEY && current.nextId != current.credId && current.nextId in s
    && var next := s[current.nextId];
       && next.credId == current.nextId && (IsRealCredId(next.credId) ==> IsStoredCredValid(next))
       && next.prevId != current.credId && !(next.prevId == current.prevId && next.credId == LAST_KEY)
       && FinishDelete(s, current, next).ok
  }

  // The record behind which recovery completes a delete, if it does.
  function DeleteStop(s: Nvs, current: CredRecord, steps: nat): Option<CredRecord>
    decreases CRED_GC_MAX_SCAN_ID - steps
  {
    if steps >= CRED_GC_MAX_SCAN_ID then None
    else if Passes(s, current) then DeleteStop(s, s[current.nextId], steps + 1)
    else if CompletesDelete(s, current) then Some(current)
    else None
  }

  // The store whose forward links are those after recovery: without the record a completed delete erases.
  function Forward(s: Nvs): Nvs {
    if !HasPool(s) then s
    else match DeleteStop(s, s[FIRST_KEY], 0)
      case None => s
      case Some(current) =>
        if current.nextId in s then s - ({s[current.nextId].prevId} - {current.nextId}) else s
  }

  // Recovery completes no delete, or the forward links it leaves end within as many steps as there are records.
  ghost predicate BootEnds(s: Nvs) {
    || !HasPool(s) || DeleteStop(s, s[FIRST_KEY], 0).None?
    || WalkEnds(Forward(s), FIRST_KEY, |Forward(s)|)
  }

  lemma {:induction false} DeleteStopRepairs(s: Nvs, tail: CredRecord, current: CredRecord, steps: nat)
    requires DeleteStop(s, current, steps).Some?
    ensures var stop := DeleteStop(s, current, steps).value;
            CompletesDelete(s, stop) && RepairFrom(s, tail, current, steps) == FinishDelete(s, stop, s[stop.nextId])
    decreases CRED_GC_MAX_SCAN_ID - steps
  {
    if Passes(s, current) {
      DeleteStopRepairs(s, tail, s[current.nextId], steps + 1);
    }
  }

  // ---------- every other outcome of recovery ends the boot ----------

  // Recovery without a delete changes the chain at most at the end of the path it has scanned.
  lemma {:induction false} NoDeleteEnds(s: Nvs, path: seq<uint32>)
    requires HasPool(s) && Linked(s, path) && LinkedAt(s, path, |path| - 1)
    requires var current := s[path[|path| - 1]];
             && DeleteStop(s, current, |path| - 1).None?
             && RepairFrom(s, s[LAST_KEY], current, |path| - 1).ok
    ensures var repair := RepairFrom(s, s[LAST_KEY], s[path[|path| - 1]], |path| - 1);
            Walkable(ApplyAll(s, repair.writes))
    decreases CRED_GC_MAX_SCAN_ID - |path|
  {
    var current := s[path[|path| - 1]];
    if Passes(s, current) {
      var longer := path + [current.nextId];
      forall j: nat | j < |longer| ensures LinkedAt(s, longer, j) {
        if j < |path| { assert LinkedAt(s, path, j); }
      }
      NoDeleteEnds(s, longer);
    } else {
      var writes := RepairFrom(s, s[LAST_KEY], current, |path| - 1).writes;
      NoDeleteWrites(s, current, |path| - 1);
      if writes != [] { ApplyAllOne(s, writes[0]); }
      EndedPathWalks(s, path, ApplyAll(s, writes));
    }
  }

  // Where the scan stops without a delete, it accepts, rolls an insert back or redoes it.
  lemma NoDeleteWrites(s: Nvs, current: CredRecord, steps: nat)
    requires HasPool(s) && !Passes(s, current) && DeleteStop(s, current, steps).None?
    requires RepairFrom(s, s[LAST_KEY], current, steps).ok
    ensures var writes := RepairFrom(s, s[LAST_KEY], current, steps).writes;
            || (writes == [] && current.nextId == LAST_KEY)
            || writes == [Put(current.(nextId := LAST_KEY))]
            || (current.nextId == LAST_KEY
                && writes == [Put(s[LAST_KEY].(prevId := current.credId, nextId := Succ(current.credId)))])
  {
  }

  // t has the path of s and leads from its end to TAIL.
  lemma EndedPathWalks(s: Nvs, path: seq<uint32>, t: Nvs)
    requires Linked(s, path) && LinkedAt(s, path, |path| - 1)
    requires var current := s[path[|path| - 1]];
             || (t == s && current.nextId == LAST_KEY)
             || t == Apply(s, Put(current.(nextId := LAST_KEY)))
             || (current.nextId == LAST_KEY
                 && exists tail: CredRecord :: tail.credId == LAST_KEY && t == Apply(s, Put(tail)))
    ensures Walkable(t)
  {
    var n := |path| - 1;
    forall j: nat | j < |path| ensures ForwardAt(t, path, j) {
      assert LinkedAt(s, path, j);
      if j < n { LinkedIsDistinct(s, path, j, n); }
    }
    ForwardWalkEnds(t, path, 0);
  }

  lemma ResetEnds(s: Nvs)
    requires !HasPool(s) || !RepairChain(s).ok
    ensures Walkable(Gc(s))
  {
    ResetGivesEmptyPool(s);
    if HasPool(s) {
      var writes := RepairChain(s).writes;
      ApplyAllAppend(s, writes, ResetWrites());
      ResetGivesEmptyPool(ApplyAll(s, writes));
    }
    HoldsIffImage(Gc(s), EMPTY_POOL);
    RebuildOnPool(Store(Gc(s), [], 0), EMPTY_POOL, 0);
  }

  // ---------- walks ----------

  // A walk depends on keys and forward links only.
  lemma {:induction false} SameWalk(s: Nvs, t: Nvs, cur: uint32, n: nat)
    requires s.Keys == t.Keys && forall k :: k in s ==> s[k].nextId == t[k].nextId
    ensures WalkEnds(s, cur, n) <==> WalkEnds(t, cur, n)
    decreases n
  {
    if cur in s && n > 0 { SameWalk(s, t, s[cur].nextId, n - 1); }
  }

  lemma {:induction false} MoreFuel(s: Nvs, cur: uint32, n: nat, m: nat)
    requires WalkEnds(s, cur, n) && n <= m
    ensures WalkEnds(s, cur, m)
    decreases n
  {
    if cur != LAST_KEY && cur in s { MoreFuel(s, s[cur].nextId, n - 1, m - 1); }
  }

  // Without a record a walk ends no later.
  lemma {:induction false} FewerRecords(s: Nvs, gone: uint32, cur: uint32, n: nat)
    requires WalkEnds(s, cur, n)
    ensures WalkEnds(s - {gone}, cur, n)
    decreases n
  {
    if cur != LAST_KEY && cur in s { FewerRecords(s, gone, s[cur].nextId, n - 1); }
  }

  // A walk that ends sooner than the walk from gone does not pass gone.
  lemma {:induction false} PutBack(s: Nvs, gone: uint32, cur: uint32, n: nat, k: nat)
    requires WalkEnds(s, cur, k) && !WalkEnds(s, gone, k) && WalkEnds(s - {gone}, cur, n)
    ensures WalkEnds(s, cur, n)
    decreases n
  {
    if cur != LAST_KEY && cur in s {
      assert cur != gone && cur in s - {gone};
      if WalkEnds(s, gone, k - 1) { MoreFuel(s, gone, k - 1, k); }
      PutBack(s, gone, s[cur].nextId, n - 1, k - 1);
    }
  }

  // A walk that ends visits no record twice, so it ends within as many steps as there are records.
  lemma {:induction false} WalkBound(s: Nvs, cur: uint32, n: nat)
    requires WalkEnds(s, cur, n)
    ensures WalkEnds(s, cur, |s|)
    decreases |s|, n
  {
    if cur != LAST_KEY && cur in s {
      if WalkEnds(s, cur, n - 1) {
        WalkBound(s, cur, n - 1);
      } else {
        var rest, next := s - {cur}, s[cur].nextId;
        assert |rest| == |s| - 1 by {
          assert rest.Keys == s.Keys - {cur} && |rest.Keys| == |rest| && |s.Keys| == |s|;
        }
        FewerRecords(s, cur, next, n - 1);
        WalkBound(rest, next, n - 1);
        PutBack(s, cur, next, |rest|, n - 1);
      }
    }
  }

  // ---------- the exact condition ----------

  lemma DeleteLinks(s: Nvs)
    requires HasPool(s) && DeleteStop(s, s[FIRST_KEY], 0).Some?
    ensures Gc(s).Keys == Forward(s).Keys && forall k :: k in Gc(s) ==> Gc(s)[k].nextId == Forward(s)[k].nextId
  {
    var stop := DeleteStop(s, s[FIRST_KEY], 0).value;
    DeleteStopRepairs(s, s[LAST_KEY], s[FIRST_KEY], 0);
    var writes := FinishDelete(s, stop, s[stop.nextId]).writes;
    assert GcWrites(s) == writes;
    if |writes| == 1 { ApplyAllOne(s, writes[0]); } else { ApplyAllTwo(s, writes[0], writes[1]); }
  }

  // For every store: the boot ends if and only if recovery completes no delete, or the forward links of the store
  // without the erased record end. Rolling an insert back, redoing it, accepting and resetting never leave a loop.
  lemma BootEndsIff(s: Nvs)
    ensures Walkable(Gc(s)) <==> BootEnds(s)
  {
    if !HasPool(s) || !RepairChain(s).ok {
      ResetEnds(s);
      if HasPool(s) && DeleteStop(s, s[FIRST_KEY], 0).Some? {
        DeleteStopRepairs(s, s[LAST_KEY], s[FIRST_KEY], 0);
        assert false;
      }
    } else if DeleteStop(s, s[FIRST_KEY], 0).None? {
      assert LinkedAt(s, [FIRST_KEY], 0);
      NoDeleteEnds(s, [FIRST_KEY]);
    } else {
      DeleteLinks(s);
      var t, u := Gc(s), Forward(s);
      if Walkable(t) {
        SameWalk(t, u, FIRST_KEY, WalkLength(t));
        WalkBound(u, FIRST_KEY, WalkLength(t));
      }
      if BootEnds(s) { SameWalk(t, u, FIRST_KEY, |u|); }
    }
  }

  // ---------- a loop ----------

  function Pin(id: uint32): CacheRecord {
    CacheRecord(Password, id, "name", "123456", 0, 0, 0, 1)
  }

  // Credential 1 points back to a record that is gone, and credential 2 forward to credential 1.
  function TwoFaults(): Nvs {
    map[FIRST_KEY := Sentinel(FIRST_KEY, FIRST_KEY, 1), 1 := Link(Pin(1), 9, 2), 2 := Link(Pin(2), 1, 1),
        LAST_KEY := Sentinel(LAST_KEY, 2, 3)]
  }

  // Recovery returns after its first repair, so with a second fault it can leave a loop on which rebuildCache never
  // ends.
  lemma RepairMayLeaveLoop()
    ensures HasPool(TwoFaults()) && RepairChain(TwoFaults()).ok && !Walkable(Gc(TwoFaults()))
  {
    var s := TwoFaults();
    var fix := Put(Link(Pin(1), FIRST_KEY, 2));
    LinkRoundTrip(Pin(1), 9, 2);
    assert RepairFrom(s, s[LAST_KEY], s[FIRST_KEY], 0) == FinishDelete(s, s[FIRST_KEY], s[1]);
    assert GcWrites(s) == [fix];
    ApplyAllOne(s, fix);
    forall n: nat ensures !WalkEnds(Gc(s), FIRST_KEY, n) {
      if n > 0 { LoopNeverEnds(Gc(s), 1, n - 1); }
    }
  }

  lemma {:induction false} LoopNeverEnds(s: Nvs, cur: uint32, n: nat)
    requires cur in {1, 2} && 1 in s && 2 in s && s[1].nextId == 2 && s[2].nextId == 1
    ensures !WalkEnds(s, cur, n)
    decreases n
  {
    if n > 0 { LoopNeverEnds(s, s[cur].nextId, n - 1); }
  }

  // ---------- boots of reachable stores ----------

  // The cache after a boot of this store.
  ghost function Booted(s: Nvs, verified: uint32, now: nat): Store
    requires Walkable(Gc(s))
  {
    RebuildCache(Store(Gc(s), [], verified), now)
  }

  // After any run within the limits the next completed boot ends, and serves exactly the active credentials of the
  // committed pool, sorted by id.
  lemma BootServesCommitted(p: Pool, d: Device, run: seq<Event>, verified: uint32, now: nat)
    requires !d.on && ValidPool(p) && (d.nvs == Image(p) || (d.nvs == map[] && p == EMPTY_POOL))
    requires WithinLimits(p, d, run)
    ensures var s, q := After(d, run).nvs, Committed(p, d, run);
            && BootEnds(s) && Walkable(Gc(s))
            && Refines(Booted(s, verified, now), q) && SortedIds(Booted(s, verified, now).cache)
            && Booted(s, verified, now).cache == FilterActive(q.creds, now)
  {
    var s, q := After(d, run).nvs, Committed(p, d, run);
    RecoveryRestoresCommitted(p, d, run);
    HoldsIffImage(Gc(s), q);
    var st := Store(Gc(s), [], verified);
    RebuildOnPool(st, q, now);
    RebuildRefines(st, q, now);
    BootEndsIff(s);
  }

  // Hence right after such a boot access goes exactly to the first active match among the committed credentials...
  lemma AccessAfterBoot(p: Pool, d: Device, run: seq<Event>, verified: uint32, entered: string, t: CredType, now: nat)
    requires !d.on && ValidPool(p) && (d.nvs == Image(p) || (d.nvs == map[] && p == EMPTY_POOL))
    requires WithinLimits(p, d, run) && Enterable(entered, t)
    ensures Walkable(Gc(After(d, run).nvs))
    ensures var q := Committed(p, d, run);
            var k := FirstGrant(q.creds, entered, t, now);
            VerifyCred(Booted(After(d, run).nvs, verified, now), entered, t, now).1
            == if k == |q.creds| then DOOR_UNKNOWN else q.creds[k].doorNum
  {
    var s, q := After(d, run).nvs, Committed(p, d, run);
    RecoveryRestoresCommitted(p, d, run);
    HoldsIffImage(Gc(s), q);
    VerifyAfterRebuild(Store(Gc(s), [], verified), q, entered, t, now);
  }

  // ... and paging lists exactly the active ones of them, each once.
  lemma PagingAfterBoot(p: Pool, d: Device, run: seq<Event>, verified: uint32, first: uint32, num: uint32,
                        t: CredType, now: nat)
    requires !d.on && ValidPool(p) && (d.nvs == Image(p) || (d.nvs == map[] && p == EMPTY_POOL))
    requires WithinLimits(p, d, run) && num > 0
    ensures Walkable(Gc(After(d, run).nvs))
    ensures var cache, q := Booted(After(d, run).nvs, verified, now).cache, Committed(p, d, run);
            && SortedIds(cache) && (forall j :: 0 <= j < |cache| ==> cache[j].credId < LAST_KEY)
            && SortedIds(Pages(cache, first, num, t, now))
            && forall c :: c in Pages(cache, first, num, t, now) <==> c in q.creds && Listed(c, first, t, now)
  {
    BootServesCommitted(p, d, run, verified, now);
    var cache, q := Booted(After(d, run).nvs, verified, now).cache, Committed(p, d, run);
    assert forall j :: 0 <= j < |cache| ==> cache[j] in q.creds;
    PagingIsComplete(cache, first, num, t, now);
    SelectedSorted(cache, first, t, now);
    forall c ensures c in Selected(cache, first, t, now) <==> c in q.creds && Listed(c, first, t, now) {
      SelectedMembers(cache, first, t, now, c);
      FilterMembers(q.creds, now, c);
    }
  }
}
