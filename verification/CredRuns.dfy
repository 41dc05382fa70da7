/**
 Whole runs of the credential store: operations, boots and power cuts in any order.
 */
module CredRuns {
  import opened Timeout
  import opened CredTypes
  import opened CredChain
  import opened CredRecovery
  import opened CredCrash

  datatype Device = Device(nvs: Nvs, on: bool)

  // power is the number of writes the supply still lasts. A step that needs more is cut there.
  datatype Event = Operate(op: Op, power: nat) | Boot(power: nat) | PowerOff

  function Issue(s: Nvs, ws: seq<Write>, power: nat): Device {
    if power < |ws| then Device(ApplyAll(s, ws[..power]), false) else Device(ApplyAll(s, ws), true)
  }

  function Next(d: Device, e: Event): Device {
    match e
    case Operate(op, power) => if d.on then Issue(d.nvs, OpWrites(d.nvs, op), power) else d
    case Boot(power) => if d.on then d else Issue(d.nvs, GcWrites(d.nvs), power)
    case PowerOff => d.(on := false)
  }

  function After(d: Device, run: seq<Event>): Device {
    if run == [] then d else Next(After(d, run[..|run| - 1]), run[|run| - 1])
  }

  // The pool the user may rely on: every operation whose commit point was reached, in order.
  ghost function Committed(p: Pool, d: Device, run: seq<Event>): Pool {
    if run == [] then p
    else
      var before, e := run[..|run| - 1], run[|run| - 1];
      var q := Committed(p, d, before);
      if e.Operate? && After(d, before).on && e.power >= CommitPoint(e.op) then PoolOp(q, e.op) else q
  }

  ghost predicate WithinLimits(p: Pool, d: Device, run: seq<Event>) {
    && |Committed(p, d, run).creds| < CRED_GC_MAX_SCAN_ID
    && Committed(p, d, run).nextId < LAST_KEY
    && (run != [] ==> WithinLimits(p, d, run[..|run| - 1]))
  }

  lemma {:induction false} RunStage(p: Pool, d: Device, g: Stage, run: seq<Event>) returns (g': Stage)
    requires AtStage(d.nvs, p, g) && (d.on ==> g.Clean?) && WithinLimits(p, d, run)
    ensures AtStage(After(d, run).nvs, Committed(p, d, run), g') && (After(d, run).on ==> g'.Clean?)
  {
    if run == [] {
      g' := g;
    } else {
      var before, e := run[..|run| - 1], run[|run| - 1];
      var h := RunStage(p, d, g, before);
      g' := StepStage(Committed(p, d, before), After(d, before), h, e, Committed(p, d, run));
    }
  }

  lemma StepStage(p: Pool, d: Device, g: Stage, e: Event, q: Pool) returns (g': Stage)
    requires AtStage(d.nvs, p, g) && (d.on ==> g.Clean?) && p.nextId < LAST_KEY
    requires q == if e.Operate? && d.on && e.power >= CommitPoint(e.op) then PoolOp(p, e.op) else p
    requires |q.creds| < CRED_GC_MAX_SCAN_ID
    ensures AtStage(Next(d, e).nvs, q, g') && (Next(d, e).on ==> g'.Clean?)
  {
    g' := g;
    if e.Operate? && d.on {
      g' := OperateStage(p, d.nvs, e.op, e.power);
    } else if e.Boot? && !d.on {
      var ws := GcWrites(d.nvs);
      if e.power < |ws| {
        g' := StageSurvivesCut(d.nvs, p, g, e.power);
      } else {
        StageRecovers(d.nvs, p, g);
        HoldsIffImage(Gc(d.nvs), p);
        g' := Clean;
      }
    }
  }

  lemma OperateStage(p: Pool, s: Nvs, op: Op, power: nat) returns (g: Stage)
    requires AtStage(s, p, Clean) && p.nextId < LAST_KEY
    requires power >= CommitPoint(op) ==> |PoolOp(p, op).creds| < CRED_GC_MAX_SCAN_ID
    ensures var d := Issue(s, OpWrites(s, op), power);
            && AtStage(d.nvs, if power < CommitPoint(op) then p else PoolOp(p, op), g)
            && (d.on ==> g.Clean?)
  {
    var ws := OpWrites(s, op);
    if power < |ws| {
      g := CutOpStage(s, p, op, power);
    } else {
      OpCompletes(s, p, op);
      OpSize(s, p, op);
      g := Clean;
    }
  }

  // Restartable recovery. Start from a blank store, or from the image of any pool, and run any sequence of
  // operations, boots and power cuts, recovery boots cut after any write included. Then the next boot that
  // completes yields exactly the image of the committed pool: no orphan keys, nothing lost, no reset.
  lemma RecoveryRestoresCommitted(p: Pool, d: Device, run: seq<Event>)
    requires !d.on && ValidPool(p) && (d.nvs == Image(p) || (d.nvs == map[] && p == EMPTY_POOL))
    requires WithinLimits(p, d, run)
    ensures ValidPool(Committed(p, d, run))
    ensures Gc(After(d, run).nvs) == Image(Committed(p, d, run))
    ensures After(d, run).on ==> After(d, run).nvs == Image(Committed(p, d, run))
  {
    HoldsIffImage(d.nvs, p);
    LimitsAtStart(p, d, run);
    var g := RunStage(p, d, if d.nvs == Image(p) then Clean else Blank, run);
    StageRecovers(After(d, run).nvs, Committed(p, d, run), g);
    HoldsIffImage(After(d, run).nvs, Committed(p, d, run));
  }

  lemma {:induction false} LimitsAtStart(p: Pool, d: Device, run: seq<Event>)
    requires WithinLimits(p, d, run)
    ensures WithinLimits(p, d, [])
  {
    if run != [] {
      LimitsAtStart(p, d, run[..|run| - 1]);
    }
  }

  // ---------- ids ----------

  // The ids handed out by adds that returned, in order.
  ghost function Issued(p: Pool, d: Device, run: seq<Event>): seq<uint32> {
    if run == [] then []
    else
      var before, e := run[..|run| - 1], run[|run| - 1];
      var now := After(d, before);
      var returned := e.Operate? && e.op.Add? && now.on && e.power >= |OpWrites(now.nvs, e.op)|
                      && AddId(now.nvs, e.op.c) != 0;
      Issued(p, d, before) + if returned then [AddId(now.nvs, e.op.c)] else []
  }

  ghost predicate IssuedBelow(ids: seq<uint32>, p: Pool, q: Pool) {
    && p.nextId <= q.nextId
    && (forall i :: 0 <= i < |ids| ==> p.nextId <= ids[i] < q.nextId)
    && (forall i, j :: 0 <= i < j < |ids| ==> ids[i] < ids[j])
  }

  // An id that was handed out is never handed out again, across deletes, cuts and recoveries.
  lemma {:induction false} IdsNeverReissued(p: Pool, d: Device, run: seq<Event>)
    requires !d.on && ValidPool(p) && (d.nvs == Image(p) || (d.nvs == map[] && p == EMPTY_POOL))
    requires WithinLimits(p, d, run)
    ensures IssuedBelow(Issued(p, d, run), p, Committed(p, d, run))
  {
    if run != [] {
      var before, e := run[..|run| - 1], run[|run| - 1];
      IdsNeverReissued(p, d, before);
      var now, q := After(d, before), Committed(p, d, before);
      if e.Operate? && e.op.Add? && now.on && ValidateCred(e.op.c) {
        assert AddId(now.nvs, e.op.c) == q.nextId && |AddWrites(now.nvs, e.op.c)| == 3 by {
          RecoveryRestoresCommitted(p, d, before);
          HoldsIffImage(now.nvs, q);
          AddWritesOnPool(now.nvs, q, e.op.c);
        }
      }
    }
  }

  // ---------- the exact limits ----------

  // A boot keeps a well-formed pool if and only if it has at most 4095 credentials.
  lemma BootKeepsPoolIff(p: Pool)
    requires ValidPool(p)
    ensures Gc(Image(p)) == Image(p) <==> |p.creds| <= 4095
  {
    HoldsIffImage(Image(p), p);
    if |p.creds| < CRED_GC_MAX_SCAN_ID {
      CleanPoolIsKept(Image(p), p);
    } else {
      OversizedPoolIsWiped(Image(p), p);
      NotEmptyPool(p);
    }
  }

  // The add that fills credential 4096 returns an id, and the next boot wipes everything.
  lemma FullPoolAddIsWiped(p: Pool, c: CacheRecord)
    requires ValidPool(p) && ValidateCred(c) && p.nextId < LAST_KEY && |p.creds| == 4095
    ensures AddId(Image(p), c) == p.nextId
    ensures Gc(ApplyAll(Image(p), AddWrites(Image(p), c))) == Image(EMPTY_POOL)
  {
    HoldsIffImage(Image(p), p);
    AddWritesOnPool(Image(p), p, c);
    OpCompletes(Image(p), p, Add(c));
    OversizedPoolIsWiped(ApplyAll(Image(p), AddWrites(Image(p), c)), PoolAdd(p, c));
  }

  // An add keeps the store well-formed if and only if the id counter has not run into the TAIL key.
  lemma AddKeepsPoolIff(p: Pool, c: CacheRecord)
    requires ValidPool(p) && ValidateCred(c)
    ensures (exists q :: ValidPool(q) && ApplyAll(Image(p), AddWrites(Image(p), c)) == Image(q))
            <==> p.nextId < LAST_KEY
  {
    var s := Image(p);
    HoldsIffImage(s, p);
    var t := ApplyAll(s, AddWrites(s, c));
    if p.nextId < LAST_KEY {
      OpCompletes(s, p, Add(c));
      HoldsIffImage(t, PoolAdd(p, c));
    } else {
      HoldsEnds(s, p);
      var ws := AddWrites(s, c);
      ApplyAllThree(s, ws[0], ws[1], ws[2]);
      forall q | ValidPool(q)
        ensures t != Image(q)
      {
        HoldsIffImage(Image(q), q);
        HoldsEnds(Image(q), q);
      }
    }
  }
}
