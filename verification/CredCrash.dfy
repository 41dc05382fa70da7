/**
 Crash atomicity of single operations: the stores an interruption can leave, what recovery writes to each of
 them, and that recovery itself may be interrupted.
 */
module CredCrash {
  import opened Timeout
  import opened CredTypes
  import opened CredChain
  import opened CredRecovery

  datatype Op = Add(c: CacheRecord) | Remove(c: CacheRecord) | Update(c: CacheRecord)

  function OpWrites(s: Nvs, op: Op): seq<Write> {
    match op
    case Add(c) => AddWrites(s, c)
    case Remove(c) => RemoveWrites(s, c)
    case Update(c) => UpdateWrites(s, c)
  }

  // ---------- the operations on pools ----------

  ghost predicate Matches(p: Pool, d: nat, rec: CacheRecord)
    requires d < |p.creds|
  {
    var c := p.creds[d];
    c.credId == rec.credId && c.credType == rec.credType && c.name == rec.name && c.credential == rec.credential
  }

  ghost predicate HasMatch(p: Pool, rec: CacheRecord) {
    exists d: nat :: d < |p.creds| && Matches(p, d, rec)
  }

  ghost function MatchIndex(p: Pool, rec: CacheRecord): (d: nat)
    requires HasMatch(p, rec)
    ensures d < |p.creds| && Matches(p, d, rec)
  {
    var d: nat :| d < |p.creds| && Matches(p, d, rec);
    d
  }

  ghost function PoolOp(p: Pool, op: Op): Pool {
    match op
    case Add(c) => if ValidateCred(c) && p.nextId < LAST_KEY then PoolAdd(p, c) else p
    case Remove(c) => if HasMatch(p, c) then PoolRemoveAt(p, MatchIndex(p, c)) else p
    case Update(c) =>
      if ValidateCred(c) && HasMatch(p, c) then p.(creds := p.creds[MatchIndex(p, c) := c]) else p
  }

  // The write after which the operation is committed.
  function CommitPoint(op: Op): nat {
    if op.Add? then 2 else 1
  }

  // ---------- the store's writes, read off the pool ----------

  // A stored record with the identity of rec is a credential of the pool, never a sentinel.
  lemma StoredIsMatch(s: Nvs, p: Pool, rec: CacheRecord)
    requires ValidPool(p) && Holds(s, p) && ValidateCredential(rec.credential, rec.credType, 0)
    ensures rec.credId in s && SameIdentity(s[rec.credId], rec) <==> HasMatch(p, rec)
  {
    if rec.credId in s {
      var i := NodeIndex(p, rec.credId);
      assert HoldsNode(s, p, i);
      if 0 < i <= |p.creds| && SameIdentity(s[rec.credId], rec) {
        assert Matches(p, i - 1, rec);
      }
    }
    if HasMatch(p, rec) {
      assert HoldsNode(s, p, MatchIndex(p, rec) + 1);
    }
  }

  lemma NodeIsLocallyChained(s: Nvs, p: Pool, d: nat)
    requires ValidPool(p) && Holds(s, p) && d < |p.creds|
    ensures HoldsNode(s, p, d) && HoldsNode(s, p, d + 1) && HoldsNode(s, p, d + 2)
    ensures VerifyLocalChain(s, p.creds[d].credId)
  {
    assert HoldsNode(s, p, d) && HoldsNode(s, p, d + 1) && HoldsNode(s, p, d + 2);
  }

  lemma RemoveWritesOnPool(s: Nvs, p: Pool, rec: CacheRecord)
    requires ValidPool(p) && Holds(s, p)
    ensures RemoveSucceeds(s, rec) <==> HasMatch(p, rec)
    ensures HasMatch(p, rec) ==> RemoveWrites(s, rec) == DeleteWrites(p, MatchIndex(p, rec))
  {
    if HasMatch(p, rec) {
      var d := MatchIndex(p, rec);
      assert ValidateCred(p.creds[d]);
      NodeIsLocallyChained(s, p, d);
    } else if ValidateCredential(rec.credential, rec.credType, 0) {
      StoredIsMatch(s, p, rec);
    }
  }

  lemma UpdateWritesOnPool(s: Nvs, p: Pool, rec: CacheRecord)
    requires ValidPool(p) && Holds(s, p) && ValidateCred(rec)
    ensures UpdateSucceeds(s, rec) <==> HasMatch(p, rec)
    ensures HasMatch(p, rec) ==>
              var d := MatchIndex(p, rec);
              UpdateWrites(s, rec) == [Put(Link(rec, NodeId(p, d), NodeId(p, d + 2)))]
    ensures !HasMatch(p, rec) ==> UpdateWrites(s, rec) == []
  {
    StoredIsMatch(s, p, rec);
    if HasMatch(p, rec) {
      var d := MatchIndex(p, rec);
      NodeIsLocallyChained(s, p, d);
      NodeIdsIncrease(p, 0, d + 1);
    }
  }

  lemma PoolUpdateNodes(p: Pool, d: nat, rec: CacheRecord, i: nat)
    requires d < |p.creds| && p.creds[d].credId == rec.credId && i <= |p.creds| + 1
    ensures var q := p.(creds := p.creds[d := rec]);
            && NodeId(q, i) == NodeId(p, i)
            && NodeRec(q, i) == if i == d + 1 then Link(rec, NodeId(p, d), NodeId(p, d + 2)) else NodeRec(p, i)
  {
  }

  lemma UpdateCompletes(s: Nvs, p: Pool, d: nat, rec: CacheRecord)
    requires ValidPool(p) && Holds(s, p) && ValidateCred(rec) && d < |p.creds| && Matches(p, d, rec)
    ensures var q := p.(creds := p.creds[d := rec]);
            ValidPool(q) && Holds(Apply(s, Put(Link(rec, NodeId(p, d), NodeId(p, d + 2)))), q)
  {
    var q := p.(creds := p.creds[d := rec]);
    var t := Apply(s, Put(Link(rec, NodeId(p, d), NodeId(p, d + 2))));
    forall i: nat | i <= |p.creds| + 1
      ensures HoldsNode(t, q, i)
    {
      PoolUpdateNodes(p, d, rec, i);
      assert HoldsNode(s, p, i);
      NodeIdsInjective(p, i, d + 1);
    }
    forall k | k in t
      ensures IsNode(q, k)
    {
      assert HoldsNode(s, p, d + 1);
      PoolUpdateNodes(p, d, rec, NodeIndex(p, k));
    }
  }

  // An operation that is not cut takes the image of a pool to the image of the next pool.
  lemma OpCompletes(s: Nvs, p: Pool, op: Op)
    requires ValidPool(p) && Holds(s, p) && (op.Add? ==> p.nextId < LAST_KEY)
    ensures ValidPool(PoolOp(p, op)) && Holds(ApplyAll(s, OpWrites(s, op)), PoolOp(p, op))
  {
    match op
    case Add(c) =>
      if ValidateCred(c) {
        AddWritesOnPool(s, p, c);
        InsertCompletes(s, p, c);
      }
    case Remove(c) =>
      RemoveWritesOnPool(s, p, c);
      if HasMatch(p, c) { DeleteCompletes(s, p, MatchIndex(p, c)); }
    case Update(c) => UpdateOpCompletes(s, p, c);
  }

  lemma UpdateOpCompletes(s: Nvs, p: Pool, c: CacheRecord)
    requires ValidPool(p) && Holds(s, p)
    ensures ValidPool(PoolOp(p, Update(c))) && Holds(ApplyAll(s, UpdateWrites(s, c)), PoolOp(p, Update(c)))
  {
    if ValidateCred(c) && HasMatch(p, c) {
      var d := MatchIndex(p, c);
      var w := Put(Link(c, NodeId(p, d), NodeId(p, d + 2)));
      assert ApplyAll(s, UpdateWrites(s, c)) == Apply(s, w) by {
        UpdateWritesOnPool(s, p, c);
        ApplyAllOne(s, w);
      }
      UpdateCompletes(s, p, d, c);
    } else {
      assert UpdateWrites(s, c) == [] by {
        if ValidateCred(c) { UpdateWritesOnPool(s, p, c); }
      }
    }
  }

  // ---------- interrupted stores ----------

  // How far an interrupted operation or reset got. p0 is the pool the operation started from.
  datatype Stage =
    | Clean
    | Inserting(c: CacheRecord)              // after write 1 of an insert: will be undone
    | Inserted(p0: Pool, c: CacheRecord)     // after write 2 of an insert
    | Unlinked(p0: Pool, d: nat)             // after write 1 of a delete
    | Erased(p0: Pool, d: nat)               // after write 2 of a delete
    | Blank                                  // nothing stored
    | HeadOnly                               // a reset that got as far as HEAD

  // s is the store of an interrupted operation that recovery must turn into pool p.
  ghost predicate AtStage(s: Nvs, p: Pool, g: Stage) {
    && ValidPool(p) && (!g.Unlinked? && !g.Erased? ==> |p.creds| < CRED_GC_MAX_SCAN_ID)
    && match g
       case Clean => Holds(s, p)
       case Inserting(c) => p.nextId < LAST_KEY && s == Apply(Image(p), InsertWrites(p, c)[0])
       case Inserted(p0, c) =>
         && ValidPool(p0) && ValidateCred(c) && p0.nextId < LAST_KEY && p == PoolAdd(p0, c)
         && var ws := InsertWrites(p0, c); s == Apply(Apply(Image(p0), ws[0]), ws[1])
       case Unlinked(p0, d) =>
         && ValidPool(p0) && d < |p0.creds| && d < CRED_GC_MAX_SCAN_ID && p == PoolRemoveAt(p0, d)
         && s == Apply(Image(p0), DeleteWrites(p0, d)[0])
       case Erased(p0, d) =>
         && ValidPool(p0) && d < |p0.creds| && d < CRED_GC_MAX_SCAN_ID && p == PoolRemoveAt(p0, d)
         && var ws := DeleteWrites(p0, d); s == Apply(Apply(Image(p0), ws[0]), ws[1])
       case Blank => p == EMPTY_POOL && s == map[]
       case HeadOnly => p == EMPTY_POOL && s == Apply(map[], ResetWrites()[1])
  }

  // The writes with which recovery finishes each stage.
  ghost function FinishingWrites(p: Pool, g: Stage): seq<Write>
    requires g.Inserted? ==> g.p0.nextId < LAST_KEY
    requires g.Unlinked? || g.Erased? ==> g.d < |g.p0.creds|
  {
    match g
    case Clean => []
    case Inserting(c) => [Put(NodeRec(p, |p.creds|))]
    case Inserted(p0, c) => [InsertWrites(p0, c)[2]]
    case Unlinked(p0, d) => DeleteWrites(p0, d)[1..]
    case Erased(p0, d) => DeleteWrites(p0, d)[2..]
    case Blank => ResetWrites()
    case HeadOnly => ResetWrites()
  }

  lemma StageWrites(s: Nvs, p: Pool, g: Stage)
    requires AtStage(s, p, g)
    ensures GcWrites(s) == FinishingWrites(p, g)
  {
    match g
    case Clean => CleanPoolIsKept(s, p);
    case Inserting(c) =>
      HoldsIffImage(Image(p), p);
      InsertCut1RollsBack(Image(p), p, c);
    case Inserted(p0, c) =>
      HoldsIffImage(Image(p0), p0);
      InsertCut2RollsForward(Image(p0), p0, c, s);
    case Unlinked(p0, d) =>
      HoldsIffImage(Image(p0), p0);
      DeleteCut1RollsForward(Image(p0), p0, d);
      assert DeleteWrites(p0, d)[1..] == [DeleteWrites(p0, d)[1], DeleteWrites(p0, d)[2]];
    case Erased(p0, d) =>
      HoldsIffImage(Image(p0), p0);
      DeleteCut2RollsForward(Image(p0), p0, d);
    case Blank =>
    case HeadOnly =>
  }

  // One recovery boot brings every interrupted store to the image of its pool.
  lemma StageRecovers(s: Nvs, p: Pool, g: Stage)
    requires AtStage(s, p, g)
    ensures Gc(s) == Image(p)
  {
    StageWrites(s, p, g);
    match g
    case Clean => HoldsIffImage(s, p);
    case Inserting(c) =>
      HoldsIffImage(Image(p), p);
      InsertCut1RollsBack(Image(p), p, c);
    case Inserted(p0, c) =>
      var ws := InsertWrites(p0, c);
      HoldsIffImage(Image(p0), p0);
      InsertCompletes(Image(p0), p0, c);
      ApplyAllThree(Image(p0), ws[0], ws[1], ws[2]);
      ApplyAllOne(s, ws[2]);
      HoldsIffImage(Gc(s), p);
    case Unlinked(p0, d) => FinishedDelete(s, p, g);
    case Erased(p0, d) => FinishedDelete(s, p, g);
    case Blank => ResetGivesEmptyPool(s);
    case HeadOnly => ResetGivesEmptyPool(s);
  }

  lemma FinishedDelete(s: Nvs, p: Pool, g: Stage)
    requires AtStage(s, p, g) && (g.Unlinked? || g.Erased?)
    ensures Gc(s) == Image(p)
  {
    StageWrites(s, p, g);
    var ws := DeleteWrites(g.p0, g.d);
    HoldsIffImage(Image(g.p0), g.p0);
    DeleteCompletes(Image(g.p0), g.p0, g.d);
    ApplyAllThree(Image(g.p0), ws[0], ws[1], ws[2]);
    if g.Unlinked? {
      assert ws[1..] == [ws[1], ws[2]];
      ApplyAllTwo(s, ws[1], ws[2]);
    } else {
      ApplyAllOne(s, ws[2]);
    }
    HoldsIffImage(Gc(s), p);
  }

  // A power cut inside recovery, after k of its writes, leaves a store that recovers to the same pool.
  lemma StageSurvivesCut(s: Nvs, p: Pool, g: Stage, k: nat) returns (g': Stage)
    requires AtStage(s, p, g) && (k < |GcWrites(s)| || (k == |GcWrites(s)| && |p.creds| < CRED_GC_MAX_SCAN_ID))
    ensures AtStage(ApplyAll(s, GcWrites(s)[..k]), p, g')
  {
    StageWrites(s, p, g);
    StageRecovers(s, p, g);
    g' := CutFinishing(s, p, g, k, FinishingWrites(p, g));
  }

  lemma CutFinishing(s: Nvs, p: Pool, g: Stage, k: nat, ws: seq<Write>) returns (g': Stage)
    requires AtStage(s, p, g) && ws == FinishingWrites(p, g) && ApplyAll(s, ws) == Image(p)
    requires k < |ws| || (k == |ws| && |p.creds| < CRED_GC_MAX_SCAN_ID)
    ensures AtStage(ApplyAll(s, ws[..k]), p, g')
  {
    if k == 0 {
      assert ApplyAll(s, ws[..0]) == s;
      g' := g;
    } else if k == |ws| {
      FinishedStage(s, p, ws, k);
      g' := Clean;
    } else if g.Unlinked? {
      g' := CutFinishStage(s, p, g, ws);
    } else {
      g' := CutResetStage(s, k);
    }
  }

  lemma FinishedStage(s: Nvs, p: Pool, ws: seq<Write>, k: nat)
    requires ValidPool(p) && |p.creds| < CRED_GC_MAX_SCAN_ID && ApplyAll(s, ws) == Image(p) && k == |ws|
    ensures AtStage(ApplyAll(s, ws[..k]), p, Clean)
  {
    assert ws[..k] == ws;
    HoldsIffImage(Image(p), p);
  }

  // Finishing a delete, cut after the first of its two writes.
  lemma CutFinishStage(s: Nvs, p: Pool, g: Stage, ws: seq<Write>) returns (g': Stage)
    requires AtStage(s, p, g) && g.Unlinked? && ws == DeleteWrites(g.p0, g.d)[1..]
    ensures AtStage(ApplyAll(s, ws[..1]), p, g')
  {
    assert ws[..1] == [ws[0]];
    ApplyAllOne(s, ws[0]);
    g' := Erased(g.p0, g.d);
  }

  // A reset, cut after its first or second write.
  lemma CutResetStage(s: Nvs, k: nat) returns (g': Stage)
    requires 0 < k < 3
    ensures AtStage(ApplyAll(s, ResetWrites()[..k]), EMPTY_POOL, g')
  {
    CutStoreIsPrefix(s, ResetWrites(), k);
    g' := if k == 1 then Blank else HeadOnly;
  }

  // ---------- one operation ----------

  // The pool that k writes of an operation commit to.
  ghost function Outcome(p: Pool, op: Op, k: nat): Pool {
    if k < CommitPoint(op) then p else PoolOp(p, op)
  }

  // Recovery gets there in its 4096 steps: the place of a cut delete, or the end of the chain.
  ghost predicate WithinScan(p: Pool, op: Op, k: nat) {
    if op.Remove? && HasMatch(p, op.c) && 0 < k < 3 then MatchIndex(p, op.c) < CRED_GC_MAX_SCAN_ID
    else |Outcome(p, op, k).creds| < CRED_GC_MAX_SCAN_ID
  }

  // The store after k writes of an operation is an interrupted store of the old pool before the
  // commit point and of the new pool from it on.
  lemma CutOpStage(s: Nvs, p: Pool, op: Op, k: nat) returns (g: Stage)
    requires ValidPool(p) && Holds(s, p) && (op.Add? ==> p.nextId < LAST_KEY)
    requires k <= |OpWrites(s, op)| && WithinScan(p, op, k)
    ensures AtStage(ApplyAll(s, OpWrites(s, op)[..k]), Outcome(p, op, k), g)
  {
    var ws := OpWrites(s, op);
    OpSize(s, p, op);
    if k == 0 {
      g := Clean;
    } else if k == |ws| {
      assert ws[..k] == ws;
      OpCompletes(s, p, op);
      g := Clean;
    } else if op.Add? {
      g := CutAddStage(s, p, op.c, k);
    } else {
      g := CutRemoveStage(s, p, op.c, k);
    }
  }

  // The store after one or two writes.
  function CutStore(s: Nvs, ws: seq<Write>, k: nat): Nvs
    requires |ws| == 3 && 0 < k < 3
  {
    if k == 1 then Apply(s, ws[0]) else Apply(Apply(s, ws[0]), ws[1])
  }

  lemma CutStoreIsPrefix(s: Nvs, ws: seq<Write>, k: nat)
    requires |ws| == 3 && 0 < k < 3
    ensures ApplyAll(s, ws[..k]) == CutStore(s, ws, k)
  {
    if k == 1 {
      assert ws[..1] == [ws[0]];
      ApplyAllOne(s, ws[0]);
    } else {
      assert ws[..2] == [ws[0], ws[1]];
      ApplyAllTwo(s, ws[0], ws[1]);
    }
  }

  lemma CutAddStage(s: Nvs, p: Pool, c: CacheRecord, k: nat) returns (g: Stage)
    requires ValidPool(p) && Holds(s, p) && p.nextId < LAST_KEY
    requires 0 < k < 3 && |AddWrites(s, c)| == 3 && WithinScan(p, Add(c), k)
    ensures AtStage(ApplyAll(s, AddWrites(s, c)[..k]), Outcome(p, Add(c), k), g)
  {
    HoldsIffImage(s, p);
    AddWritesOnPool(s, p, c);
    PoolAddIsValid(p, c);
    CutStoreIsPrefix(s, AddWrites(s, c), k);
    g := if k == 1 then Inserting(c) else Inserted(p, c);
  }

  lemma CutRemoveStage(s: Nvs, p: Pool, c: CacheRecord, k: nat) returns (g: Stage)
    requires ValidPool(p) && Holds(s, p)
    requires 0 < k < 3 && |RemoveWrites(s, c)| == 3 && WithinScan(p, Remove(c), k)
    ensures AtStage(ApplyAll(s, RemoveWrites(s, c)[..k]), Outcome(p, Remove(c), k), g)
  {
    HoldsIffImage(s, p);
    RemoveWritesOnPool(s, p, c);
    var d := MatchIndex(p, c);
    PoolRemoveAtIsValid(p, d);
    CutStoreIsPrefix(s, RemoveWrites(s, c), k);
    g := if k == 1 then Unlinked(p, d) else Erased(p, d);
  }

  lemma OpSize(s: Nvs, p: Pool, op: Op)
    requires ValidPool(p) && Holds(s, p) && (op.Add? ==> p.nextId < LAST_KEY)
    ensures |OpWrites(s, op)| in {0, if op.Update? then 1 else 3}
    ensures OpWrites(s, op) == [] ==> PoolOp(p, op) == p
  {
    match op
    case Add(c) => if ValidateCred(c) { AddWritesOnPool(s, p, c); }
    case Remove(c) => RemoveWritesOnPool(s, p, c);
    case Update(c) => if ValidateCred(c) { UpdateWritesOnPool(s, p, c); }
  }

  // Outside the scan recovery gives up and wipes the store.
  lemma BeyondScanIsWiped(s: Nvs, p: Pool, op: Op, k: nat)
    requires ValidPool(p) && Holds(s, p) && (op.Add? ==> p.nextId < LAST_KEY)
    requires k <= |OpWrites(s, op)| && !WithinScan(p, op, k)
    ensures Gc(ApplyAll(s, OpWrites(s, op)[..k])) == Image(EMPTY_POOL)
  {
    var ws := OpWrites(s, op);
    OpSize(s, p, op);
    if k == 0 {
      OversizedPoolIsWiped(s, p);
    } else if k == |ws| {
      assert ws[..k] == ws;
      OpCompletes(s, p, op);
      OversizedPoolIsWiped(ApplyAll(s, ws), PoolOp(p, op));
    } else if op.Add? {
      LongAddIsWiped(s, p, op.c, k);
    } else {
      LongRemoveIsWiped(s, p, op.c, k);
    }
  }

  lemma LongAddIsWiped(s: Nvs, p: Pool, c: CacheRecord, k: nat)
    requires ValidPool(p) && Holds(s, p) && p.nextId < LAST_KEY
    requires 0 < k < 3 && |AddWrites(s, c)| == 3 && !WithinScan(p, Add(c), k)
    ensures Gc(ApplyAll(s, AddWrites(s, c)[..k])) == Image(EMPTY_POOL)
  {
    AddWritesOnPool(s, p, c);
    PoolAddIsValid(p, c);
    CutStoreIsPrefix(s, AddWrites(s, c), k);
    var t, q := CutStore(s, AddWrites(s, c), k), Outcome(p, Add(c), k);
    if k == 1 { InsertCut1Chain(s, p, c); } else { InsertCut2Chain(s, p, c); }
    assert HoldsUpTo(t, q, |q.creds|);
    ShorterPrefix(t, q, |q.creds|, CRED_GC_MAX_SCAN_ID);
    LongScanWipes(t, q);
  }

  lemma LongRemoveIsWiped(s: Nvs, p: Pool, c: CacheRecord, k: nat)
    requires ValidPool(p) && Holds(s, p)
    requires 0 < k < 3 && |RemoveWrites(s, c)| == 3 && !WithinScan(p, Remove(c), k)
    ensures Gc(ApplyAll(s, RemoveWrites(s, c)[..k])) == Image(EMPTY_POOL)
  {
    RemoveWritesOnPool(s, p, c);
    CutStoreIsPrefix(s, RemoveWrites(s, c), k);
    var t, d := CutStore(s, RemoveWrites(s, c), k), MatchIndex(p, c);
    DeleteCutChain(s, p, d, t);
    ShorterPrefix(t, p, d, CRED_GC_MAX_SCAN_ID);
    LongScanWipes(t, p);
  }

  lemma ShorterPrefix(t: Nvs, p: Pool, k: nat, n: nat)
    requires n <= k <= |p.creds| && HoldsUpTo(t, p, k)
    ensures HoldsUpTo(t, p, n)
  {
    if n < k { assert HoldsNode(t, p, n); }
  }

  lemma NotEmptyPool(p: Pool)
    requires Ordered(p) && p.creds != []
    ensures Image(p) != Image(EMPTY_POOL)
  {
    HoldsIffImage(Image(p), p);
    HoldsIffImage(Image(EMPTY_POOL), EMPTY_POOL);
    assert HoldsNode(Image(p), p, 1);
    NodeIdsIncrease(p, 0, 1);
    NodeIdsIncrease(p, 1, |p.creds| + 1);
  }

  // Crash atomicity: cut an operation on any well-formed pool after any number k of its writes and boot. The store is
  // then exactly the image of the old pool (k below the commit point: 2 for an insert, 1 for a delete or an update) or
  // exactly the image of the new one, if and only if recovery gets far enough: to the place of a cut delete, or else
  // to the end of a chain of at most 4095 credentials.
  lemma CrashAtomicity(p: Pool, op: Op, k: nat)
    requires ValidPool(p) && (op.Add? ==> p.nextId < LAST_KEY)
    requires k <= |OpWrites(Image(p), op)|
    ensures Gc(ApplyAll(Image(p), OpWrites(Image(p), op)[..k])) == Image(Outcome(p, op, k)) <==> WithinScan(p, op, k)
  {
    var s, q := Image(p), Outcome(p, op, k);
    HoldsIffImage(s, p);
    if WithinScan(p, op, k) {
      var g := CutOpStage(s, p, op, k);
      StageRecovers(ApplyAll(s, OpWrites(s, op)[..k]), q, g);
    } else {
      BeyondScanIsWiped(s, p, op, k);
      OpCompletes(s, p, op);
      NotEmptyPool(q);
    }
  }
}
