/**
 Crash recovery of the credential chain: what boot-time recovery certifies of arbitrary stores, and what it
 does after a power cut at any single write of an insert or a delete.
 */
module CredRecovery {
  import opened Timeout
  import opened CredTypes
  import opened CredChain

  // ---------- the scan along a consistent prefix of the chain ----------

  ghost predicate LinkedAt(s: Nvs, path: seq<uint32>, j: nat)
    requires j < |path|
  {
    && path[j] in s && s[path[j]].credId == path[j]
    && (j > 0 ==> IsStoredCredValid(s[path[j]]) && s[path[j]].prevId == path[j - 1])
    && (j + 1 < |path| ==> s[path[j]].nextId == path[j + 1])
  }

  // path starts at HEAD, its nodes link to each other both ways and all but HEAD are valid credentials.
  ghost predicate Linked(s: Nvs, path: seq<uint32>) {
    && |path| > 0 && path[0] == FIRST_KEY
    && (forall j: nat :: j < |path| ==> LinkedAt(s, path, j))
  }

  // A consistent path never visits an id twice: two equal ids would have equal predecessors, down to HEAD.
  lemma {:induction false} LinkedIsDistinct(s: Nvs, path: seq<uint32>, i: nat, j: nat)
    requires Linked(s, path) && i < j < |path|
    ensures path[i] != path[j]
    decreases i
  {
    assert LinkedAt(s, path, i) && LinkedAt(s, path, j);
    if i > 0 && path[i] == path[j] {
      LinkedIsDistinct(s, path, i - 1, j - 1);
    }
  }

  lemma {:induction false} ScanSkipsLinked(s: Nvs, tail: CredRecord, path: seq<uint32>, j: nat)
    requires Linked(s, path) && j < |path| && j <= CRED_GC_MAX_SCAN_ID
    ensures FIRST_KEY in s && path[j] in s
    ensures RepairFrom(s, tail, s[FIRST_KEY], 0) == RepairFrom(s, tail, s[path[j]], j)
  {
    assert LinkedAt(s, path, 0) && LinkedAt(s, path, j);
    if j > 0 {
      assert LinkedAt(s, path, j - 1);
      ScanSkipsLinked(s, tail, path, j - 1);
      LinkedIsDistinct(s, path, j - 1, j);
    }
  }

  // ---------- certification of arbitrary stores ----------

  // The whole chain, HEAD to TAIL, is consistent.
  ghost predicate WholeChain(s: Nvs, path: seq<uint32>) {
    && Linked(s, path)
    && LinkedAt(s, path, |path| - 1) && s[path[|path| - 1]].nextId == LAST_KEY
    && LAST_KEY in s && s[LAST_KEY].credId == LAST_KEY
    && s[LAST_KEY].prevId == path[|path| - 1]
  }

  ghost predicate Certified(s: Nvs) {
    exists path :: WholeChain(s, path) && |path| <= CRED_GC_MAX_SCAN_ID
  }

  lemma {:induction false} ExtendToWholeChain(s: Nvs, path: seq<uint32>) returns (whole: seq<uint32>)
    requires HasPool(s) && Linked(s, path)
    requires LinkedAt(s, path, |path| - 1)
    requires RepairFrom(s, s[LAST_KEY], s[path[|path| - 1]], |path| - 1) == Repair(true, [])
    ensures WholeChain(s, whole) && |whole| <= CRED_GC_MAX_SCAN_ID
    decreases CRED_GC_MAX_SCAN_ID - |path|
  {
    var current := s[path[|path| - 1]];
    if current.nextId == LAST_KEY {
      whole := path;
    } else {
      var longer := path + [current.nextId];
      forall j: nat | j < |longer|
        ensures LinkedAt(s, longer, j)
      {
        if j < |path| { assert LinkedAt(s, path, j); }
      }
      whole := ExtendToWholeChain(s, longer);
    }
  }

  // For every store: recovery accepts it untouched if and only if the HEAD-to-TAIL walk is a consistent
  // chain of at most 4095 valid credentials.
  lemma AcceptedIffCertified(s: Nvs)
    ensures RepairChain(s) == Repair(true, []) <==> Certified(s)
  {
    if RepairChain(s) == Repair(true, []) {
      assert LinkedAt(s, [FIRST_KEY], 0);
      var whole := ExtendToWholeChain(s, [FIRST_KEY]);
    }
    if Certified(s) {
      var path :| WholeChain(s, path) && |path| <= CRED_GC_MAX_SCAN_ID;
      assert LinkedAt(s, path, 0);
      ScanSkipsLinked(s, s[LAST_KEY], path, |path| - 1);
    }
  }

  // ---------- pools ----------

  ghost function Path(p: Pool, k: nat): seq<uint32>
    requires k <= |p.creds| + 1
  {
    seq(k, i requires 0 <= i < k => NodeId(p, i))
  }

  // s agrees with pool p on nodes 0..k, except perhaps for the forward link of node k.
  ghost predicate HoldsUpTo(s: Nvs, p: Pool, k: nat)
    requires k <= |p.creds|
  {
    && (forall i: nat :: i < k ==> HoldsNode(s, p, i))
    && NodeId(p, k) in s
    && s[NodeId(p, k)] == NodeRec(p, k).(nextId := s[NodeId(p, k)].nextId)
  }

  lemma PoolPathLinked(s: Nvs, p: Pool, k: nat)
    requires ValidPool(p) && k <= |p.creds| && HoldsUpTo(s, p, k)
    ensures Linked(s, Path(p, k + 1))
  {
    var path := Path(p, k + 1);
    forall j: nat | j < |path|
      ensures LinkedAt(s, path, j)
    {
      assert j < k ==> HoldsNode(s, p, j);
      if j > 0 {
        NodeIdsIncrease(p, 0, j);
        NodeIdsIncrease(p, j, |p.creds| + 1);
        LinkRoundTrip(p.creds[j - 1], NodeId(p, j - 1), s[path[j]].nextId);
      }
    }
  }

  // The scan of a store that agrees with p up to node k arrives at node k.
  lemma ScanArrives(s: Nvs, p: Pool, k: nat)
    requires ValidPool(p) && k <= |p.creds| && k <= CRED_GC_MAX_SCAN_ID && HoldsUpTo(s, p, k)
    requires HasPool(s)
    ensures RepairChain(s) == RepairFrom(s, s[LAST_KEY], s[NodeId(p, k)], k)
  {
    PoolPathLinked(s, p, k);
    ScanSkipsLinked(s, s[LAST_KEY], Path(p, k + 1), k);
  }

  lemma HoldsEnds(s: Nvs, p: Pool)
    requires Holds(s, p)
    ensures HasPool(s) && s[LAST_KEY] == NodeRec(p, |p.creds| + 1)
    ensures HoldsNode(s, p, 0) && HoldsNode(s, p, |p.creds|)
  {
    assert HoldsNode(s, p, 0) && HoldsNode(s, p, |p.creds|) && HoldsNode(s, p, |p.creds| + 1);
  }

  // Recovery leaves a well-formed pool alone if it has at most 4095 credentials...
  lemma CleanPoolIsKept(s: Nvs, p: Pool)
    requires ValidPool(p) && Holds(s, p) && |p.creds| < CRED_GC_MAX_SCAN_ID
    ensures GcWrites(s) == [] && Gc(s) == s
  {
    HoldsEnds(s, p);
    ScanArrives(s, p, |p.creds|);
    NodeIdsIncrease(p, |p.creds|, |p.creds| + 1);
  }

  // ... and wipes every larger one, down to the empty pool whose ids start again at 1.
  lemma OversizedPoolIsWiped(s: Nvs, p: Pool)
    requires ValidPool(p) && Holds(s, p) && |p.creds| >= CRED_GC_MAX_SCAN_ID
    ensures Gc(s) == Image(EMPTY_POOL)
  {
    HoldsEnds(s, p);
    assert HoldsNode(s, p, CRED_GC_MAX_SCAN_ID);
    LongScanWipes(s, p);
  }

  // A store that agrees with a pool on the first 4096 credentials is wiped.
  lemma LongScanWipes(s: Nvs, p: Pool)
    requires ValidPool(p) && |p.creds| >= CRED_GC_MAX_SCAN_ID && HasPool(s) && HoldsUpTo(s, p, CRED_GC_MAX_SCAN_ID)
    ensures Gc(s) == Image(EMPTY_POOL)
  {
    ScanArrives(s, p, CRED_GC_MAX_SCAN_ID);
    assert GcWrites(s) == ResetWrites();
    ResetGivesEmptyPool(s);
  }

  lemma ResetGivesEmptyPool(s: Nvs)
    ensures ApplyAll(s, ResetWrites()) == Image(EMPTY_POOL)
  {
    var ws := ResetWrites();
    ApplyAllThree(s, ws[0], ws[1], ws[2]);
    var t := ApplyAll(s, ws);
    assert NodeId(EMPTY_POOL, 0) == FIRST_KEY && NodeId(EMPTY_POOL, 1) == LAST_KEY;
    HoldsIffImage(t, EMPTY_POOL);
  }

  // ---------- insert ----------

  ghost function PoolAdd(p: Pool, c: CacheRecord): Pool
    requires p.nextId < LAST_KEY
  {
    Pool(p.creds + [c.(credId := p.nextId)], p.nextId + 1)
  }

  lemma PoolAddIsValid(p: Pool, c: CacheRecord)
    requires ValidPool(p) && ValidateCred(c) && p.nextId < LAST_KEY
    ensures ValidPool(PoolAdd(p, c))
  {
  }

  lemma PoolAddNodes(p: Pool, c: CacheRecord, i: nat)
    requires p.nextId < LAST_KEY && i <= |p.creds|
    ensures NodeId(PoolAdd(p, c), i) == NodeId(p, i)
    ensures NodeRec(PoolAdd(p, c), i) ==
            if i < |p.creds| then NodeRec(p, i) else NodeRec(p, i).(nextId := p.nextId)
  {
  }

  // The three writes of an insert, read off the pool.
  ghost function InsertWrites(p: Pool, c: CacheRecord): seq<Write>
    requires p.nextId < LAST_KEY
  {
    var n := |p.creds|;
    [Put(NodeRec(p, n).(nextId := p.nextId)),
     Put(Link(c.(credId := p.nextId), NodeId(p, n), LAST_KEY)),
     Put(Sentinel(LAST_KEY, p.nextId, p.nextId + 1))]
  }

  lemma AddWritesOnPool(s: Nvs, p: Pool, c: CacheRecord)
    requires Holds(s, p) && ValidateCred(c) && p.nextId < LAST_KEY
    ensures AddWrites(s, c) == InsertWrites(p, c)
    ensures AddId(s, c) == p.nextId
  {
    HoldsEnds(s, p);
  }

  lemma NextIdIsFree(s: Nvs, p: Pool)
    requires Ordered(p) && Holds(s, p) && p.nextId < LAST_KEY
    ensures p.nextId !in s && p.nextId != FIRST_KEY
  {
    assert p.nextId in s ==> IsNode(p, p.nextId);
  }

  // The store after all three writes holds the larger pool.
  lemma InsertCompletes(s: Nvs, p: Pool, c: CacheRecord)
    requires ValidPool(p) && Holds(s, p) && ValidateCred(c) && p.nextId < LAST_KEY
    ensures ValidPool(PoolAdd(p, c)) && Holds(ApplyAll(s, InsertWrites(p, c)), PoolAdd(p, c))
  {
    var n, q, ws := |p.creds|, PoolAdd(p, c), InsertWrites(p, c);
    PoolAddIsValid(p, c);
    ApplyAllThree(s, ws[0], ws[1], ws[2]);
    var t := ApplyAll(s, ws);
    forall i: nat | i <= n + 2
      ensures HoldsNode(t, q, i)
    {
      if i <= n {
        PoolAddNodes(p, c, i);
        NodeIdsIncrease(q, i, n + 1);
        NodeIdsIncrease(q, i, n + 2);
        assert HoldsNode(s, p, i);
        if i < n {
          NodeIdsIncrease(p, i, n);
        }
      }
    }
    forall k | k in t
      ensures IsNode(q, k)
    {
      if k in s && k != LAST_KEY {
        PoolAddNodes(p, c, NodeIndex(p, k));
        assert NodeId(q, NodeIndex(p, k)) == k;
      } else {
        assert NodeId(q, n + 1) == p.nextId && NodeId(q, n + 2) == LAST_KEY && NodeId(q, n) == NodeId(p, n);
      }
    }
  }

  // After one write only the forward link of the last credential has changed.
  lemma InsertCut1Chain(s: Nvs, p: Pool, c: CacheRecord)
    requires ValidPool(p) && Holds(s, p) && p.nextId < LAST_KEY
    ensures var t := Apply(s, InsertWrites(p, c)[0]); HasPool(t) && HoldsUpTo(t, p, |p.creds|)
  {
    var n, t := |p.creds|, Apply(s, InsertWrites(p, c)[0]);
    HoldsEnds(s, p);
    NodeIdsIncrease(p, n, n + 1);
    forall i: nat | i < n
      ensures HoldsNode(t, p, i)
    {
      assert HoldsNode(s, p, i);
      NodeIdsIncrease(p, i, n);
    }
  }

  // Cut after the first write: recovery restores the old pool, by undoing that write.
  lemma InsertCut1RollsBack(s: Nvs, p: Pool, c: CacheRecord)
    requires ValidPool(p) && Holds(s, p) && p.nextId < LAST_KEY && |p.creds| < CRED_GC_MAX_SCAN_ID
    ensures var cut := Apply(s, InsertWrites(p, c)[0]);
            GcWrites(cut) == [Put(NodeRec(p, |p.creds|))] && Gc(cut) == s
  {
    var n, t := |p.creds|, Apply(s, InsertWrites(p, c)[0]);
    HoldsEnds(s, p);
    InsertCut1Chain(s, p, c);
    NodeIdsIncrease(p, n, n + 1);
    NextIdIsFree(s, p);
    ScanArrives(t, p, n);
    assert GcWrites(t) == [Put(NodeRec(p, n))];
    ApplyAllOne(t, Put(NodeRec(p, n)));
    assert Gc(t) == s;
  }

  // After two writes the new credential hangs off the old chain, and TAIL does not know it yet.
  lemma InsertCut2Chain(s: Nvs, p: Pool, c: CacheRecord)
    requires ValidPool(p) && Holds(s, p) && ValidateCred(c) && p.nextId < LAST_KEY
    ensures var ws, q := InsertWrites(p, c), PoolAdd(p, c);
            var t := Apply(Apply(s, ws[0]), ws[1]);
            && HoldsUpTo(t, q, |p.creds| + 1) && t[p.nextId] == ws[1].rec
            && HasPool(t) && t[LAST_KEY] == NodeRec(p, |p.creds| + 1)
  {
    var n, q, ws := |p.creds|, PoolAdd(p, c), InsertWrites(p, c);
    var t := Apply(Apply(s, ws[0]), ws[1]);
    PoolAddIsValid(p, c);
    forall i: nat | i < n + 1
      ensures HoldsNode(t, q, i)
    {
      PoolAddNodes(p, c, i);
      NodeIdsIncrease(q, i, n + 1);
      assert HoldsNode(s, p, i);
      if i < n { NodeIdsIncrease(p, i, n); }
    }
    HoldsEnds(s, p);
    NodeIdsIncrease(p, n, n + 1);
    assert HoldsNode(t, q, 0);
  }

  // The scan stands on the last credential of q and finds TAIL still pointing at its predecessor.
  lemma RedoInsert(t: Nvs, q: Pool, redo: Write)
    requires ValidPool(q) && 0 < |q.creds| < CRED_GC_MAX_SCAN_ID
    requires HasPool(t) && HoldsUpTo(t, q, |q.creds|)
    requires t[NodeId(q, |q.creds|)].nextId == LAST_KEY && t[LAST_KEY].prevId == NodeId(q, |q.creds| - 1)
    requires redo == Put(t[LAST_KEY].(prevId := NodeId(q, |q.creds|), nextId := Succ(NodeId(q, |q.creds|))))
    ensures GcWrites(t) == [redo]
  {
    var n := |q.creds|;
    ScanArrives(t, q, n);
    NodeIdsIncrease(q, n - 1, n);
    NodeIdsIncrease(q, n, n + 1);
  }

  // Cut after the second write: recovery issues the missing third one.
  lemma InsertCut2RollsForward(s: Nvs, p: Pool, c: CacheRecord, t: Nvs)
    requires ValidPool(p) && Holds(s, p) && ValidateCred(c) && p.nextId < LAST_KEY
    requires |p.creds| + 1 < CRED_GC_MAX_SCAN_ID
    requires t == Apply(Apply(s, InsertWrites(p, c)[0]), InsertWrites(p, c)[1])
    ensures GcWrites(t) == [InsertWrites(p, c)[2]]
  {
    PoolAddIsValid(p, c);
    InsertCut2Chain(s, p, c);
    PoolAddNodes(p, c, |p.creds|);
    assert NodeId(PoolAdd(p, c), |p.creds| + 1) == p.nextId;
    RedoInsert(t, PoolAdd(p, c), InsertWrites(p, c)[2]);
  }

  // ---------- delete ----------

  ghost function PoolRemoveAt(p: Pool, d: nat): Pool
    requires d < |p.creds|
  {
    Pool(p.creds[..d] + p.creds[d + 1..], p.nextId)
  }

  lemma PoolRemoveAtIsValid(p: Pool, d: nat)
    requires ValidPool(p) && d < |p.creds|
    ensures ValidPool(PoolRemoveAt(p, d))
  {
  }

  lemma PoolRemoveAtNodes(p: Pool, d: nat, i: nat)
    requires d < |p.creds| && i <= |p.creds|
    ensures NodeId(PoolRemoveAt(p, d), i) == NodeId(p, if i <= d then i else i + 1)
    ensures NodeRec(PoolRemoveAt(p, d), i) ==
            if i < d then NodeRec(p, i)
            else if i == d then NodeRec(p, d).(nextId := NodeId(p, d + 2))
            else if i == d + 1 then NodeRec(p, d + 2).(prevId := NodeId(p, d))
            else NodeRec(p, i + 1)
  {
    var q := PoolRemoveAt(p, d);
    assert forall j :: 0 <= j < |q.creds| ==> q.creds[j] == p.creds[if j < d then j else j + 1];
    if d < i {
      assert i == d + 1 || NodeId(q, i - 1) == NodeId(p, i);
    }
  }

  // The three writes that delete credential d.
  ghost function DeleteWrites(p: Pool, d: nat): seq<Write>
    requires d < |p.creds|
  {
    [Put(NodeRec(p, d).(nextId := NodeId(p, d + 2))),
     Erase(p.creds[d].credId),
     Put(NodeRec(p, d + 2).(prevId := NodeId(p, d)))]
  }

  // The store after all three writes holds the smaller pool.
  lemma DeleteCompletes(s: Nvs, p: Pool, d: nat)
    requires ValidPool(p) && Holds(s, p) && d < |p.creds|
    ensures ValidPool(PoolRemoveAt(p, d)) && Holds(ApplyAll(s, DeleteWrites(p, d)), PoolRemoveAt(p, d))
  {
    var q, ws := PoolRemoveAt(p, d), DeleteWrites(p, d);
    PoolRemoveAtIsValid(p, d);
    ApplyAllThree(s, ws[0], ws[1], ws[2]);
    var t := ApplyAll(s, ws);
    forall i: nat | i <= |p.creds|
      ensures HoldsNode(t, q, i)
    {
      PoolRemoveAtNodes(p, d, i);
      DeleteKeepsNode(s, p, d, if i <= d then i else i + 1);
    }
    forall k | k in t ensures IsNode(q, k) { DeleteKeepsNoOther(s, p, d, k); }
  }

  lemma DeleteKeepsNoOther(s: Nvs, p: Pool, d: nat, k: uint32)
    requires ValidPool(p) && Holds(s, p) && d < |p.creds|
    requires var ws := DeleteWrites(p, d); k in Apply(Apply(Apply(s, ws[0]), ws[1]), ws[2])
    ensures IsNode(PoolRemoveAt(p, d), k)
  {
    NodeIdsIncrease(p, d, d + 1);
    NodeIdsIncrease(p, d + 1, d + 2);
    assert HoldsNode(s, p, d) && HoldsNode(s, p, d + 2);
    var i := NodeIndex(p, k);
    PoolRemoveAtNodes(p, d, if i <= d then i else i - 1);
  }

  lemma DeleteKeepsNode(s: Nvs, p: Pool, d: nat, i: nat)
    requires ValidPool(p) && Holds(s, p) && d < |p.creds| && i <= |p.creds| + 1 && i != d + 1
    ensures var ws := DeleteWrites(p, d);
            var t := Apply(Apply(Apply(s, ws[0]), ws[1]), ws[2]);
            && NodeId(p, i) in t
            && t[NodeId(p, i)] == if i == d then ws[0].rec else if i == d + 2 then ws[2].rec else NodeRec(p, i)
  {
    assert HoldsNode(s, p, i);
    NodeIdsInjective(p, i, d);
    NodeIdsInjective(p, i, d + 1);
    NodeIdsInjective(p, i, d + 2);
  }

  ghost predicate DeleteIsCut(s: Nvs, p: Pool, d: nat, t: Nvs)
    requires d < |p.creds|
  {
    var ws := DeleteWrites(p, d);
    t == Apply(s, ws[0]) || t == Apply(Apply(s, ws[0]), ws[1])
  }

  // A cut delete changes node d only in its forward link and touches no other node but the deleted one.
  lemma DeleteCutKeepsNode(s: Nvs, p: Pool, d: nat, t: Nvs, i: nat)
    requires ValidPool(p) && Holds(s, p) && d < |p.creds| && DeleteIsCut(s, p, d, t)
    requires i <= |p.creds| + 1 && i != d + 1
    ensures NodeId(p, i) in t
    ensures t[NodeId(p, i)] == if i == d then DeleteWrites(p, d)[0].rec else NodeRec(p, i)
  {
    assert HoldsNode(s, p, i);
    NodeIdsInjective(p, i, d);
    NodeIdsInjective(p, i, d + 1);
  }

  lemma DeleteCutChain(s: Nvs, p: Pool, d: nat, t: Nvs)
    requires ValidPool(p) && Holds(s, p) && d < |p.creds| && DeleteIsCut(s, p, d, t)
    ensures HasPool(t) && HoldsUpTo(t, p, d)
  {
    DeleteCutKeepsNode(s, p, d, t, 0);
    DeleteCutKeepsNode(s, p, d, t, d);
    DeleteCutKeepsNode(s, p, d, t, |p.creds| + 1);
    forall i: nat | i < d
      ensures HoldsNode(t, p, i)
    {
      DeleteCutKeepsNode(s, p, d, t, i);
    }
  }

  // The scan stands on the predecessor of the deleted record and sees the successor point past it.
  lemma DeleteCutScan(s: Nvs, p: Pool, d: nat, t: Nvs)
    requires ValidPool(p) && Holds(s, p) && d < |p.creds| && d < CRED_GC_MAX_SCAN_ID && DeleteIsCut(s, p, d, t)
    ensures HasPool(t)
    ensures RepairChain(t) == FinishDelete(t, NodeRec(p, d).(nextId := NodeId(p, d + 2)), NodeRec(p, d + 2))
  {
    DeleteCutChain(s, p, d, t);
    DeleteCutKeepsNode(s, p, d, t, d);
    DeleteCutKeepsNode(s, p, d, t, d + 2);
    ScanArrives(t, p, d);
    DeleteCutStep(t, p, d);
  }

  lemma DeleteCutStep(t: Nvs, p: Pool, d: nat)
    requires ValidPool(p) && d < |p.creds| && d < CRED_GC_MAX_SCAN_ID && LAST_KEY in t
    requires NodeId(p, d + 2) in t && t[NodeId(p, d + 2)] == NodeRec(p, d + 2)
    ensures var current := NodeRec(p, d).(nextId := NodeId(p, d + 2));
            RepairFrom(t, t[LAST_KEY], current, d) == FinishDelete(t, current, NodeRec(p, d + 2))
  {
    NodeIdsIncrease(p, d, d + 1);
    NodeIdsIncrease(p, d, d + 2);
    NodeIdsIncrease(p, 0, d + 2);
    if d > 0 { NodeIdsIncrease(p, d - 1, d + 1); }
    if d + 2 <= |p.creds| {
      LinkRoundTrip(p.creds[d + 1], NodeId(p, d + 1), NodeId(p, d + 3));
    }
  }

  // Cut after the first write: recovery erases the record and relinks, the two missing writes.
  lemma DeleteCut1RollsForward(s: Nvs, p: Pool, d: nat)
    requires ValidPool(p) && Holds(s, p) && d < |p.creds| && d < CRED_GC_MAX_SCAN_ID
    ensures var ws := DeleteWrites(p, d); GcWrites(Apply(s, ws[0])) == [ws[1], ws[2]]
  {
    var t := Apply(s, DeleteWrites(p, d)[0]);
    DeleteCutScan(s, p, d, t);
    assert HoldsNode(s, p, d + 1);
    NodeIdsIncrease(p, d, d + 1);
  }

  // Cut after the second write: recovery relinks.
  lemma DeleteCut2RollsForward(s: Nvs, p: Pool, d: nat)
    requires ValidPool(p) && Holds(s, p) && d < |p.creds| && d < CRED_GC_MAX_SCAN_ID
    ensures var ws := DeleteWrites(p, d); GcWrites(Apply(Apply(s, ws[0]), ws[1])) == [ws[2]]
  {
    var ws := DeleteWrites(p, d);
    DeleteCutScan(s, p, d, Apply(Apply(s, ws[0]), ws[1]));
  }
}
