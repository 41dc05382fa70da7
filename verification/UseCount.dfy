/**
 Use counts across the state machine and the credential store: which openings a credential is charged for, and
 how many openings a credential with n uses can start.
 */
module UseCount {
  import opened Basics
  import opened Timeout
  import opened BoxMachine
  import opened CredChain
  import opened CredRecovery
  import opened CredCrash
  import opened CredCache
  import opened CredRules
  import CredTypes
  import BoxRuns

  type Cred = CredTypes.CacheRecord

  // ---------- credentials of a pool by id ----------

  ghost predicate HasId(p: Pool, id: uint32) {
    exists d :: 0 <= d < |p.creds| && p.creds[d].credId == id
  }

  ghost function Find(p: Pool, id: uint32): Option<Cred> {
    if HasId(p, id) then
      var d :| 0 <= d < |p.creds| && p.creds[d].credId == id;
      Some(p.creds[d])
    else None
  }

  lemma FindsMember(p: Pool, c: Cred)
    requires Ordered(p) && c in p.creds
    ensures Find(p, c.credId) == Some(c)
  {
    assert HasId(p, c.credId);
  }

  lemma FindAfterUpdate(p: Pool, c: Cred, d: nat, id: uint32)
    requires Ordered(p) && d < |p.creds| && p.creds[d].credId == c.credId
    ensures Find(p.(creds := p.creds[d := c]), id) == if id == c.credId then Some(c) else Find(p, id)
  {
    var q := p.(creds := p.creds[d := c]);
    if id == c.credId {
      assert q.creds[d] == c;
      FindsMember(q, c);
    } else if HasId(p, id) {
      var e :| 0 <= e < |p.creds| && p.creds[e].credId == id;
      assert q.creds[e] == p.creds[e];
      FindsMember(q, q.creds[e]);
      FindsMember(p, p.creds[e]);
    } else {
      assert !HasId(q, id);
    }
  }

  lemma KeptAfterRemove(p: Pool, d: nat, e: nat)
    requires Ordered(p) && d < |p.creds| && e < |p.creds| && e != d
    ensures Find(PoolRemoveAt(p, d), p.creds[e].credId) == Some(p.creds[e])
  {
    var q := PoolRemoveAt(p, d);
    assert q.creds[if e < d then e else e - 1] == p.creds[e];
    FindsMember(q, p.creds[e]);
  }

  lemma FindAfterRemove(p: Pool, d: nat, id: uint32)
    requires Ordered(p) && d < |p.creds|
    ensures Find(PoolRemoveAt(p, d), id) == if id == p.creds[d].credId then None else Find(p, id)
  {
    if id != p.creds[d].credId && HasId(p, id) {
      var e :| 0 <= e < |p.creds| && p.creds[e].credId == id;
      KeptAfterRemove(p, d, e);
      FindsMember(p, p.creds[e]);
    } else {
      assert !HasId(PoolRemoveAt(p, d), id);
    }
  }

  // ---------- consuming a verified credential ----------

  // The cached credential that usedCred consumes, if any.
  function Consumed(st: Store, door: uint8, wall: nat): Option<Cred> {
    var i := IndexOfUse(st.cache, st.verified, door);
    if st.verified != 0 && i < |st.cache| && CredTypes.IsActive(st.cache[i], wall) && st.cache[i].remaining > 0
    then Some(st.cache[i]) else None
  }

  ghost function PoolAfterUse(st: Store, p: Pool, door: uint8, wall: nat): Pool {
    match Consumed(st, door, wall)
    case None => p
    case Some(c) => PoolOp(p, if c.remaining > 1 then Update(c.(remaining := c.remaining - 1)) else Remove(c))
  }

  // usedCred keeps store and cache in step, and succeeds in writing what it consumes.
  lemma UseRefines(st: Store, p: Pool, door: uint8, wall: nat)
    requires Refines(st, p)
    ensures var st' := UsedCred(st, door, wall).0;
            && Refines(st', PoolAfterUse(st, p, door, wall))
            && (Consumed(st, door, wall).None? ==> st'.cache == st.cache)
            && (st.verified != 0 ==> st'.verified == 0)
  {
    match Consumed(st, door, wall)
    case None =>
    case Some(c) =>
      var d :| 0 <= d < |p.creds| && p.creds[d] == c;
      if c.remaining > 1 {
        var c' := c.(remaining := c.remaining - 1);
        assert Matches(p, d, c');
        UpdateRefines(st, p, c');
      } else {
        assert Matches(p, d, c);
        RemoveRefines(st, p, c);
      }
  }

  // Consuming takes one use from exactly the consumed credential.
  lemma UseTakesOne(st: Store, p: Pool, door: uint8, wall: nat, id: uint32)
    requires Refines(st, p)
    ensures Find(PoolAfterUse(st, p, door, wall), id) ==
            match Consumed(st, door, wall)
            case None => Find(p, id)
            case Some(c) =>
              if c.credId != id then Find(p, id)
              else if c.remaining > 1 then Some(c.(remaining := c.remaining - 1)) else None
  {
    match Consumed(st, door, wall)
    case None =>
    case Some(c) =>
      var d :| 0 <= d < |p.creds| && p.creds[d] == c;
      if c.remaining > 1 {
        var c' := c.(remaining := c.remaining - 1);
        assert Matches(p, d, c');
        FindAfterUpdate(p, c', MatchIndex(p, c'), id);
      } else {
        assert Matches(p, d, c);
        FindAfterRemove(p, MatchIndex(p, c), id);
      }
  }

  // ---------- runs ----------

  // What can happen: an input to the machine, or a rebuild of the cache after a clock adjustment.
  datatype Happening = Handle(x: Input) | Refresh(wall: nat)

  function WallOf(h: Happening): nat {
    match h
    case Handle(x) => x.env.wall
    case Refresh(wall) => wall
  }

  ghost function Next(m: Machine, h: Happening): Machine {
    match h
    case Handle(x) => Step(m, x)
    case Refresh(wall) => if Walkable(m.store.nvs) then m.(store := RebuildCache(m.store, wall)) else m
  }

  ghost function After(m: Machine, run: seq<Happening>): Machine {
    if run == [] then m else Next(After(m, run[..|run| - 1]), run[|run| - 1])
  }

  // Whose attempt entered the current Opening state, if it was an attempt, and whether a web request was handled since.
  datatype History = History(opener: Option<uint32>, taken: bool)

  predicate IsWebOpen(h: Happening) {
    h.Handle? && h.x.event.WebOpen?
  }

  // This happening is an attempt that enters Opening.
  predicate Grants(m: Machine, h: Happening) {
    h.Handle? && IsAttempt(m, h.x) && Step(m, h.x).ctx.state == Opening
  }

  // What matters of one happening: the credential it grants, whether the door was opening and still is, and whether
  // it is a web request.
  datatype Glance = Glance(grant: Option<uint32>, stays: bool, web: bool)

  ghost function GlanceOf(m: Machine, h: Happening): Glance {
    Glance(if Grants(m, h) then Some(Next(m, h).store.verified) else None,
           m.ctx.state == Opening && Next(m, h).ctx.state == Opening, IsWebOpen(h))
  }

  function Noted(y: History, g: Glance): History {
    if g.grant.Some? then History(g.grant, false)
    else if g.stays then History(y.opener, y.taken || g.web)
    else History(None, false)
  }

  ghost function NextHistory(y: History, m: Machine, h: Happening): History {
    Noted(y, GlanceOf(m, h))
  }

  function Start(m: Machine): History {
    History(if m.ctx.grant.verified then Some(m.store.verified) else None, false)
  }

  ghost function HistoryOf(m: Machine, run: seq<Happening>): History {
    if run == [] then Start(m)
    else
      var before := run[..|run| - 1];
      NextHistory(HistoryOf(m, before), After(m, before), run[|run| - 1])
  }

  // The glances of a run, one for each happening.
  ghost function Glances(m: Machine, run: seq<Happening>): (gs: seq<Glance>)
    ensures |gs| == |run|
  {
    if run == [] then [] else Glances(m, run[..|run| - 1]) + [GlanceOf(After(m, run[..|run| - 1]), run[|run| - 1])]
  }

  lemma {:induction false} GlanceAt(m: Machine, run: seq<Happening>, k: nat)
    requires k < |run|
    ensures Glances(m, run)[k] == GlanceOf(After(m, run[..k]), run[k])
  {
    var before := run[..|run| - 1];
    if k < |before| {
      GlanceAt(m, before, k);
      assert before[..k] == run[..k];
    }
  }

  function Past(y: History, gs: seq<Glance>): History {
    if gs == [] then y else Noted(Past(y, gs[..|gs| - 1]), gs[|gs| - 1])
  }

  lemma {:induction false} HistoryIsPast(m: Machine, run: seq<Happening>)
    ensures HistoryOf(m, run) == Past(Start(m), Glances(m, run))
  {
    if run != [] {
      HistoryIsPast(m, run[..|run| - 1]);
      assert Glances(m, run)[..|run| - 1] == Glances(m, run[..|run| - 1]);
    }
  }

  // Happening j granted credential id, and the door has been opening ever since.
  predicate GrantedAt(gs: seq<Glance>, j: int, id: uint32) {
    && 0 <= j < |gs| && gs[j].grant == Some(id)
    && forall k :: j < k < |gs| ==> gs[k].grant.None? && gs[k].stays
  }

  // A web request was handled after happening j.
  predicate WebSince(gs: seq<Glance>, j: int) {
    exists k :: 0 <= j < k < |gs| && gs[k].web
  }

  // The history says what happened: credential id was granted the current Opening by some happening j, and a web
  // request was handled since, or not.
  lemma {:induction false} PastMeans(y: History, gs: seq<Glance>, id: uint32, taken: bool)
    requires y.opener != Some(id)
    ensures Past(y, gs) == History(Some(id), taken) <==>
            exists j :: GrantedAt(gs, j, id) && (taken <==> WebSince(gs, j))
  {
    if gs != [] {
      var n := |gs| - 1;
      var before, g := gs[..n], gs[n];
      if g.grant.Some? {
        assert GrantedAt(gs, n, id) <==> g.grant == Some(id);
        assert !WebSince(gs, n);
      } else if g.stays {
        PastMeans(y, before, id, true);
        PastMeans(y, before, id, false);
        forall j | 0 <= j < n
          ensures GrantedAt(gs, j, id) <==> GrantedAt(before, j, id)
          ensures WebSince(gs, j) <==> WebSince(before, j) || g.web
        {
          WebSinceGrows(before, g, gs, j);
        }
        assert !GrantedAt(gs, n, id);
        if Past(y, gs) == History(Some(id), taken) {
          var was := Past(y, before).taken;
          var j :| GrantedAt(before, j, id) && (was <==> WebSince(before, j));
          assert GrantedAt(gs, j, id) && (taken <==> WebSince(gs, j));
        }
        if exists j :: GrantedAt(gs, j, id) && (taken <==> WebSince(gs, j)) {
          var j :| GrantedAt(gs, j, id) && (taken <==> WebSince(gs, j));
          assert GrantedAt(before, j, id);
        }
      }
    }
  }

  lemma WebSinceGrows(before: seq<Glance>, g: Glance, gs: seq<Glance>, j: nat)
    requires gs == before + [g] && j < |before|
    ensures WebSince(gs, j) <==> WebSince(before, j) || g.web
  {
    var n := |before|;
    assert gs[n] == g && forall k :: 0 <= k < n ==> gs[k] == before[k];
    if WebSince(before, j) {
      var k :| j < k < n && before[k].web;
      assert gs[k].web;
    }
    if g.web { assert gs[n].web; }
  }

  // This happening is an Opening-to-Open transition of an Opening that credential id started.
  ghost predicate OpensFor(m: Machine, y: History, h: Happening, id: uint32) {
    m.ctx.state == Opening && Next(m, h).ctx.state == Open && y.opener == Some(id)
  }

  predicate Expired(c: Cred, wall: nat) {
    c.validTo != 0 && wall > c.validTo
  }

  // ---------- what is known of a credential during a run ----------

  // The machine holds a verified grant exactly while the Opening of a credential has not been taken over.
  ghost predicate Attributed(m: Machine, y: History) {
    && (m.ctx.grant.verified <==> y.opener.Some? && !y.taken)
    && (m.ctx.grant.verified ==> y.opener == Some(m.store.verified))
    && (y.opener.Some? ==> m.ctx.state == Opening)
  }

  // While its grant is verified: the door is that of c, and c is at hand unless it has expired.
  predicate AtHand(m: Machine, c: Cred, wall: nat) {
    && c.doorNum == m.ctx.grant.door
    && c.validFrom <= wall
    && (Expired(c, wall) || c in m.store.cache)
  }

  // The uses that credential id has left.
  ghost function Uses(p: Pool, id: uint32): int {
    match Find(p, id)
    case None => 0
    case Some(c) => c.remaining
  }

  ghost predicate Tracks(m: Machine, y: History, p: Pool, c: Cred, wall: nat) {
    && BoxRuns.Invariant(m) && !m.keepCred
    && Refines(m.store, p) && Attributed(m, y)
    && match Find(p, c.credId)
       case None => y.opener != Some(c.credId)
       case Some(d) =>
         && d == c.(remaining := d.remaining) && d.remaining >= 1
         && (y.opener == Some(c.credId) && !y.taken ==> AtHand(m, d, wall))
  }

  lemma Wait(m: Machine, y: History, p: Pool, c: Cred, wall: nat, later: nat)
    requires Tracks(m, y, p, c, wall) && wall <= later
    ensures Tracks(m, y, p, c, later)
  {
  }

  // ---------- one step ----------

  predicate Consuming(m: Machine, x: Input) {
    m.ctx.state == Opening && m.ctx.grant.verified && Target(m, x) == Open
  }

  lemma PrepareGrant(m: Machine, x: Input)
    requires BoxRuns.Invariant(m) && !IsAttempt(m, x)
    ensures var m' := Prepare(m, x);
            && m'.store == m.store && m'.keepCred == m.keepCred && m'.ctx.state == m.ctx.state
            && m'.ctx.grant == (if x.event.WebOpen? then Grant(x.event.door, false, false) else m.ctx.grant)
            && (x.event.WebOpen? ==> Target(m, x) == Opening)
  {
  }

  // What a step that is no attempt does to the store and to the grant.
  lemma QuietStep(m: Machine, x: Input)
    requires BoxRuns.Invariant(m) && !m.keepCred && !IsAttempt(m, x)
    ensures var m' := Step(m, x);
            && m'.store == (if Consuming(m, x) then UsedCred(m.store, m.ctx.grant.door, x.env.wall).0 else m.store)
            && m'.ctx.state == Target(m, x) && m'.keepCred == m.keepCred
            && (Target(m, x) == Open ==> m.ctx.state in {Opening, Open} && !m'.ctx.grant.verified)
            && (m'.ctx.grant.verified <==> m.ctx.grant.verified && Target(m, x) == Opening && !x.event.WebOpen?)
            && (m'.ctx.grant.verified ==> m'.ctx.grant == m.ctx.grant)
  {
    PrepareGrant(m, x);
    BoxRuns.TargetIsEdge(m, x);
    BoxRuns.StepInvariant(m, x);
    var c, to := Prepare(m, x).ctx, Target(m, x);
    if to != c.state {
      assert Step(m, x).ctx.grant == NewGrant(c.grant, to);
    }
  }

  lemma AttemptStep(m: Machine, x: Input)
    requires BoxRuns.Invariant(m) && IsAttempt(m, x)
    ensures var (st, door) := Answer(m, x);
            var m' := Step(m, x);
            && m'.store == st && m'.keepCred == m.keepCred && m.ctx.state != Opening
            && m'.ctx.state == (if door == DOOR_UNKNOWN then BadPass else Opening)
            && (m'.ctx.grant.verified <==> door != DOOR_UNKNOWN)
            && (m'.ctx.grant.verified ==> m'.ctx.grant.door == door)
  {
    BoxRuns.StepInvariant(m, x);
  }

  // An opening of credential c is charged to it, one use, if and only if no web request has taken it over since the
  // grant and c has not expired. Nothing else changes its count.
  lemma OpeningIsChargedIff(m: Machine, y: History, p: Pool, c: Cred, x: Input) returns (p': Pool)
    requires Tracks(m, y, p, c, x.env.wall) && OpensFor(m, y, Handle(x), c.credId)
    ensures Tracks(Step(m, x), NextHistory(y, m, Handle(x)), p', c, x.env.wall)
    ensures Uses(p', c.credId) == Uses(p, c.credId) - if !y.taken && !Expired(c, x.env.wall) then 1 else 0
  {
    QuietStep(m, x);
    p' := p;
    if Consuming(m, x) {
      p' := ConsumingTracks(m, y, p, c, x);
    } else {
      BoxRuns.StepInvariant(m, x);
    }
  }

  // A step that opens the door for a verified credential takes one use from it, unless it has expired.
  lemma ConsumingTracks(m: Machine, y: History, p: Pool, c: Cred, x: Input) returns (p': Pool)
    requires Tracks(m, y, p, c, x.env.wall) && !IsAttempt(m, x) && Consuming(m, x)
    ensures Tracks(Step(m, x), NextHistory(y, m, Handle(x)), p', c, x.env.wall)
    ensures Uses(p', c.credId) ==
            Uses(p, c.credId) - if y.opener == Some(c.credId) && !Expired(c, x.env.wall) then 1 else 0
  {
    var st, door, wall, id := m.store, m.ctx.grant.door, x.env.wall, c.credId;
    p' := PoolAfterUse(st, p, door, wall);
    QuietStep(m, x);
    BoxRuns.StepInvariant(m, x);
    UseRefines(st, p, door, wall);
    UseTakesOne(st, p, door, wall, id);
    if y.opener == Some(id) {
      ConsumesInFlight(m, y, p, c, wall);
    } else {
      ConsumesVerified(st, door, wall);
    }
  }

  lemma ConsumesVerified(st: Store, door: uint8, wall: nat)
    ensures Consumed(st, door, wall).Some? ==> Consumed(st, door, wall).value.credId == st.verified
  {
  }

  // The credential whose grant is verified is consumed exactly if it has not expired meanwhile.
  lemma ConsumesInFlight(m: Machine, y: History, p: Pool, c: Cred, wall: nat)
    requires Tracks(m, y, p, c, wall) && y.opener == Some(c.credId) && !y.taken
    ensures Find(p, c.credId).Some?
    ensures Consumed(m.store, m.ctx.grant.door, wall) == if Expired(c, wall) then None else Find(p, c.credId)
  {
    var st, door, d := m.store, m.ctx.grant.door, Find(p, c.credId).value;
    assert c.credId != 0 by { assert HasId(p, c.credId); }
    var i := IndexOfUse(st.cache, c.credId, door);
    assert d in st.cache ==> i < |st.cache|;
    if i < |st.cache| {
      FindsMember(p, st.cache[i]);
    }
  }

  // An attempt charges nothing, and never grants an expired credential.
  lemma AttemptTracks(m: Machine, y: History, p: Pool, c: Cred, x: Input)
    requires Tracks(m, y, p, c, x.env.wall) && IsAttempt(m, x)
    ensures Tracks(Step(m, x), NextHistory(y, m, Handle(x)), p, c, x.env.wall)
    ensures Expired(c, x.env.wall) ==> NextHistory(y, m, Handle(x)).opener != Some(c.credId)
  {
    AttemptStep(m, x);
    BoxRuns.StepInvariant(m, x);
    AnswerAtHand(m, p, x);
  }

  // A granted door belongs to a cached credential of the pool that is active now.
  lemma AnswerAtHand(m: Machine, p: Pool, x: Input)
    requires BoxRuns.Invariant(m) && Refines(m.store, p) && IsAttempt(m, x)
    ensures var (st, door) := Answer(m, x);
            && st.nvs == m.store.nvs && st.cache == m.store.cache
            && (door != DOOR_UNKNOWN ==>
                  && Find(p, st.verified).Some?
                  && var c := Find(p, st.verified).value;
                     c in st.cache && c.doorNum == door && CredTypes.IsActive(c, x.env.wall))
  {
    var (st, door) := Answer(m, x);
    if door != DOOR_UNKNOWN {
      var i := IndexOf(st.cache, st.verified);
      VerifiedIsCached(m.store, if x.event.Enter? then x.event.pin else x.event.text,
                       if x.event.Enter? then CredTypes.Password else CredTypes.PacketNumber, x.env.wall);
      FindsMember(p, st.cache[i]);
    }
  }

  lemma VerifiedIsCached(st: Store, text: string, t: CredTypes.CredType, wall: nat)
    requires DistinctIds(st.cache)
    ensures var (st', door) := VerifyCred(st, text, t, wall);
            && st' == st.(verified := st'.verified)
            && (door != DOOR_UNKNOWN ==>
                  var i := IndexOf(st.cache, st'.verified);
                  i < |st.cache| && st.cache[i].doorNum == door && CredTypes.IsActive(st.cache[i], wall))
  {
    var i := FirstTextMatch(st.cache, text, t);
    if i < |st.cache| {
      var j := IndexOf(st.cache, st.cache[i].credId);
      assert j == i;
    }
  }

  lemma RefreshTracks(m: Machine, y: History, p: Pool, c: Cred, wall: nat)
    requires Tracks(m, y, p, c, wall)
    ensures Tracks(Next(m, Refresh(wall)), NextHistory(y, m, Refresh(wall)), p, c, wall)
  {
    RebuildRefines(m.store, p, wall);
    RebuildOnPool(m.store, p, wall);
    if Find(p, c.credId).Some? {
      FilterMembers(p.creds, wall, Find(p, c.credId).value);
    }
  }

  // This opening of c is charged.
  ghost predicate Charged(m: Machine, y: History, h: Happening, c: Cred) {
    OpensFor(m, y, h, c.credId) && !y.taken && !Expired(c, WallOf(h))
  }

  // Every happening takes a use from c exactly if it is a charged opening, and an expired credential starts nothing.
  lemma NextTracks(m: Machine, y: History, p: Pool, c: Cred, h: Happening) returns (p': Pool)
    requires Tracks(m, y, p, c, WallOf(h))
    ensures Tracks(Next(m, h), NextHistory(y, m, h), p', c, WallOf(h))
    ensures Uses(p', c.credId) == Uses(p, c.credId) - if Charged(m, y, h, c) then 1 else 0
    ensures Expired(c, WallOf(h)) && y.opener != Some(c.credId) ==> NextHistory(y, m, h).opener != Some(c.credId)
    ensures OpensFor(m, y, h, c.credId) ==> NextHistory(y, m, h).opener == None
  {
    p' := p;
    match h
    case Refresh(wall) => RefreshTracks(m, y, p, c, wall);
    case Handle(x) =>
      if IsAttempt(m, x) {
        AttemptTracks(m, y, p, c, x);
        AttemptStep(m, x);
      } else {
        QuietStep(m, x);
        if OpensFor(m, y, h, c.credId) {
          p' := OpeningIsChargedIff(m, y, p, c, x);
        } else if Consuming(m, x) {
          p' := ConsumingTracks(m, y, p, c, x);
        } else {
          BoxRuns.StepInvariant(m, x);
        }
      }
  }

  // ---------- whole runs ----------

  // The openings that credential id started.
  ghost function Openings(m: Machine, run: seq<Happening>, id: uint32): nat {
    if run == [] then 0
    else
      var before, h := run[..|run| - 1], run[|run| - 1];
      Openings(m, before, id) + if OpensFor(After(m, before), HistoryOf(m, before), h, id) then 1 else 0
  }

  // The openings of c that are charged, that a web request has taken over, and that come after c has expired.
  datatype Tally = Tally(charged: nat, taken: nat, lapsed: nat)

  ghost function TallyOf(m: Machine, run: seq<Happening>, c: Cred): Tally {
    if run == [] then Tally(0, 0, 0)
    else
      var before, h := run[..|run| - 1], run[|run| - 1];
      var t, y := TallyOf(m, before, c), HistoryOf(m, before);
      if !OpensFor(After(m, before), y, h, c.credId) then t
      else if y.taken then t.(taken := t.taken + 1)
      else if Expired(c, WallOf(h)) then t.(lapsed := t.lapsed + 1)
      else t.(charged := t.charged + 1)
  }

  // The wall clock never goes back.
  ghost predicate Monotone(wall: nat, run: seq<Happening>) {
    && (forall i :: 0 <= i < |run| ==> wall <= WallOf(run[i]))
    && (forall i, j :: 0 <= i < j < |run| ==> WallOf(run[i]) <= WallOf(run[j]))
  }

  function LastWall(wall: nat, run: seq<Happening>): nat {
    if run == [] then wall else WallOf(run[|run| - 1])
  }

  lemma {:induction false} RunTracks(m: Machine, p: Pool, c: Cred, wall: nat, run: seq<Happening>) returns (q: Pool)
    requires Tracks(m, Start(m), p, c, wall) && Monotone(wall, run)
    ensures Tracks(After(m, run), HistoryOf(m, run), q, c, LastWall(wall, run))
    ensures var t := TallyOf(m, run, c);
            && Openings(m, run, c.credId) == t.charged + t.taken + t.lapsed
            && Uses(q, c.credId) + t.charged == Uses(p, c.credId)
            && t.lapsed <= 1
            && (t.lapsed == 1 ==>
                  && Find(q, c.credId).Some? && Expired(c, LastWall(wall, run))
                  && HistoryOf(m, run).opener != Some(c.credId))
  {
    q := p;
    if run != [] {
      var before, h := run[..|run| - 1], run[|run| - 1];
      q := RunTracks(m, p, c, wall, before);
      Wait(After(m, before), HistoryOf(m, before), q, c, LastWall(wall, before), WallOf(h));
      q := NextTracks(After(m, before), HistoryOf(m, before), q, c, h);
    }
  }

  // Conservation of uses, over every run without administration. Of a credential with n > 0 uses, exactly the charged
  // openings are taken from its count; it starts at most n openings besides those that web requests take over; and if
  // it has not expired, the openings it starts are exactly the uses it has lost plus those taken over.
  lemma UsesAreConserved(m: Machine, p: Pool, c: Cred, wall: nat, run: seq<Happening>) returns (q: Pool)
    requires BoxRuns.Invariant(m) && !m.keepCred && Refines(m.store, p)
    requires c in p.creds && c.remaining > 0 && Start(m).opener != Some(c.credId) && Monotone(wall, run)
    ensures Refines(After(m, run).store, q)
    ensures c.remaining - Uses(q, c.credId) == TallyOf(m, run, c).charged
    ensures Openings(m, run, c.credId) <= c.remaining + TallyOf(m, run, c).taken
    ensures !Expired(c, LastWall(wall, run)) || Find(q, c.credId).None? ==>
              Openings(m, run, c.credId) == c.remaining - Uses(q, c.credId) + TallyOf(m, run, c).taken
  {
    FindsMember(p, c);
    q := RunTracks(m, p, c, wall, run);
  }

  // In every run: an opening that happening j granted to c takes a use from c if and only if no web request was handled
  // since and c has not expired.
  lemma GrantIsChargedIff(m: Machine, p: Pool, c: Cred, wall: nat, run: seq<Happening>, j: nat, h: Happening)
    returns (q: Pool, q': Pool)
    requires BoxRuns.Invariant(m) && !m.keepCred && Refines(m.store, p)
    requires c in p.creds && c.remaining > 0 && Start(m).opener != Some(c.credId) && Monotone(wall, run + [h])
    requires GrantedAt(Glances(m, run), j, c.credId) && Next(After(m, run), h).ctx.state == Open
    ensures Refines(After(m, run).store, q) && Refines(Next(After(m, run), h).store, q')
    ensures Uses(q', c.credId) ==
            Uses(q, c.credId) - if !WebSince(Glances(m, run), j) && !Expired(c, WallOf(h)) then 1 else 0
  {
    FindsMember(p, c);
    assert (run + [h])[|run|] == h && forall i :: 0 <= i < |run| ==> (run + [h])[i] == run[i];
    q := RunTracks(m, p, c, wall, run);
    var y := HistoryOf(m, run);
    HistoryIsPast(m, run);
    PastMeans(Start(m), Glances(m, run), c.credId, WebSince(Glances(m, run), j));
    Wait(After(m, run), y, q, c, LastWall(wall, run), WallOf(h));
    q' := NextTracks(After(m, run), y, q, c, h);
  }

  // No web request is handled while a door is being opened for credential id.
  ghost predicate Undisturbed(m: Machine, run: seq<Happening>, id: uint32) {
    forall i :: 0 <= i < |run| && HistoryOf(m, run[..i]).opener == Some(id) ==> !IsWebOpen(run[i])
  }

  lemma {:induction false} UndisturbedIsNotTaken(m: Machine, run: seq<Happening>, c: Cred)
    requires Undisturbed(m, run, c.credId)
    ensures HistoryOf(m, run).opener == Some(c.credId) ==> !HistoryOf(m, run).taken
    ensures TallyOf(m, run, c).taken == 0
  {
    if run != [] {
      var before := run[..|run| - 1];
      assert forall i :: 0 <= i < |before| ==> before[..i] == run[..i];
      UndisturbedIsNotTaken(m, before, c);
    }
  }

  // In every run without such a request, a credential with n > 0 uses starts at most n openings.
  lemma UndisturbedBound(m: Machine, p: Pool, c: Cred, wall: nat, run: seq<Happening>)
    requires BoxRuns.Invariant(m) && !m.keepCred && Refines(m.store, p)
    requires c in p.creds && c.remaining > 0 && Start(m).opener != Some(c.credId) && Monotone(wall, run)
    requires Undisturbed(m, run, c.credId)
    ensures Openings(m, run, c.credId) <= c.remaining
  {
    var q := UsesAreConserved(m, p, c, wall, run);
    UndisturbedIsNotTaken(m, run, c);
  }

  // ---------- unlimited credentials ----------

  // What a step does to the store: an attempt verifies, and an opening may use up.
  lemma StepStore(m: Machine, x: Input)
    ensures var st' := Step(m, x).store;
            || (st'.nvs == m.store.nvs && st'.cache == m.store.cache)
            || exists door :: st' == UsedCred(m.store, door, x.env.wall).0
  {
    if !IsAttempt(m, x) {
      assert Prepare(m, x).store == m.store;
      if Target(m, x) != Prepare(m, x).ctx.state && Consumes(Prepare(m, x), Target(m, x)) {
        assert Step(m, x).store == UsedCred(m.store, Prepare(m, x).ctx.grant.door, x.env.wall).0;
      }
    }
  }

  lemma NextKeepsUnlimited(m: Machine, p: Pool, c: Cred, h: Happening) returns (q: Pool)
    requires Refines(m.store, p) && Find(p, c.credId) == Some(c) && c.remaining < 0
    ensures Refines(Next(m, h).store, q) && Find(q, c.credId) == Some(c)
  {
    q := p;
    match h
    case Refresh(wall) =>
      RebuildRefines(m.store, p, wall);
    case Handle(x) =>
      StepStore(m, x);
      var st' := Step(m, x).store;
      if st'.nvs != m.store.nvs || st'.cache != m.store.cache {
        var door :| st' == UsedCred(m.store, door, x.env.wall).0;
        q := PoolAfterUse(m.store, p, door, x.env.wall);
        UseRefines(m.store, p, door, x.env.wall);
        UseTakesOne(m.store, p, door, x.env.wall, c.credId);
        ConsumedIsStored(m.store, p, door, x.env.wall);
      }
  }

  lemma ConsumedIsStored(st: Store, p: Pool, door: uint8, wall: nat)
    requires Refines(st, p) && Consumed(st, door, wall).Some?
    ensures var d := Consumed(st, door, wall).value; Find(p, d.credId) == Some(d) && d.remaining > 0
  {
    FindsMember(p, Consumed(st, door, wall).value);
  }

  // No run without administration changes an unlimited credential, whatever the clocks and the test flag.
  lemma {:induction false} UnlimitedIsKept(m: Machine, p: Pool, c: Cred, run: seq<Happening>) returns (q: Pool)
    requires Refines(m.store, p) && c in p.creds && c.remaining < 0
    ensures Refines(After(m, run).store, q) && Find(q, c.credId) == Some(c) && c in q.creds
  {
    if run == [] {
      q := p;
      FindsMember(p, c);
    } else {
      q := UnlimitedIsKept(m, p, c, run[..|run| - 1]);
      q := NextKeepsUnlimited(After(m, run[..|run| - 1]), q, c, run[|run| - 1]);
      assert HasId(q, c.credId);
    }
  }

  // After every such run and a rebuild, an unlimited PIN that no other stored credential shares opens its door in its
  // window, however often it was used.
  lemma UnlimitedAlwaysEnters(m: Machine, p: Pool, c: Cred, run: seq<Happening>, env: Env) returns (q: Pool)
    requires Refines(m.store, p) && c in p.creds && c.remaining < 0 && c.credType == CredTypes.Password
             && c.doorNum != 255
    requires (c.validFrom == 0 || c.validFrom <= env.wall) && (c.validTo == 0 || env.wall <= c.validTo)
    ensures Refines(After(m, run).store, q) && c in q.creds
    ensures var now := Next(After(m, run), Refresh(env.wall));
            now.ctx.state == Password
            && (forall d :: d in q.creds && d.credType == CredTypes.Password && d.credential == c.credential ==>
                 d == c) ==>
              Step(now, Input(Enter(c.credential), env)).ctx.state == Opening
              && Step(now, Input(Enter(c.credential), env)).ctx.grant == Grant(c.doorNum, true, false)
  {
    q := UnlimitedIsKept(m, p, c, run);
    var st := After(m, run).store;
    RebuildOnPool(st, q, env.wall);
    if forall d :: d in q.creds && d.credType == CredTypes.Password && d.credential == c.credential ==> d == c {
      AcceptableIffValid(c);
      assert IsReadable(c.credential, CredTypes.Password);
      OnlyAnswerIsAdmittedIff(st, q, c, c.credential, CredTypes.Password, env.wall);
    }
  }

  // ---------- web requests that take an opening over ----------

  function Do(event: Event, env: Env): Happening {
    Handle(Input(event, env))
  }

  // While a door is being opened for a verified credential, a web request for a door followed by the opening of that
  // door reaches Open without touching the store.
  lemma TakeoverIsFree(m: Machine, door: uint8, env: Env, env': Env)
    requires m.ctx.state == Opening
    ensures var m1 := Step(m, Input(WebOpen(door), env));
            var m2 := Step(m1, Input(DoorOpened(door), env'));
            && m1.ctx.state == Opening && m2.ctx.state == Open
            && m2.store == m.store && m2.ctx.grant == Grant(door, false, false)
            && m2.ctx.penalty == m.ctx.penalty && m2.keepCred == m.keepCred
  {
    var m1 := Step(m, Input(WebOpen(door), env));
    assert m1 == m.(ctx := m.ctx.(grant := Grant(door, false, false)));
  }

  // Entering this PIN, now or later, grants this door to credential id, the door has a lock, and nothing keeps a PIN
  // from being entered.
  ghost predicate Enters(m: Machine, pin: string, door: uint8, id: uint32, base: Env) {
    && BoxRuns.Invariant(m) && m.ctx.state == Home && !m.ctx.penalty.active
    && door != DOOR_UNKNOWN && door in base.lockDoors
    && Admits(m.store, pin, door, id, base.wall)
  }

  ghost predicate Admits(st: Store, pin: string, door: uint8, id: uint32, since: nat) {
    forall wall: nat :: since <= wall ==> VerifyCred(st, pin, CredTypes.Password, wall) == (st.(verified := id), door)
  }

  // The surroundings a number of milliseconds later.
  function EnvAt(base: Env, ms: nat): Env {
    base.(now := base.now + ms, lockAt := base.now + ms, wall := base.wall + ms / 1000)
  }

  lemma EntersOpening(m: Machine, pin: string, door: uint8, id: uint32, base: Env, ms: nat)
    requires Enters(m, pin, door, id, base)
    ensures var m1 := Step(m, Input(Key1, EnvAt(base, ms)));
            var m2 := Step(m1, Input(Enter(pin), EnvAt(base, ms + 1000)));
            && m1.ctx.state == Password && Grants(m1, Do(Enter(pin), EnvAt(base, ms + 1000)))
            && m2.ctx.state == Opening && m2.store == m.store.(verified := id)
            && !m2.ctx.penalty.active && BoxRuns.Invariant(m2)
  {
    var x1, x2 := Input(Key1, EnvAt(base, ms)), Input(Enter(pin), EnvAt(base, ms + 1000));
    var m1 := Step(m, x1);
    BoxRuns.StepInvariant(m, x1);
    BoxRuns.StepInvariant(m1, x2);
    assert m1.ctx.state == Password && m1.store == m.store && !m1.ctx.penalty.active;
    AttemptStep(m1, x2);
  }

  // The door is closed, and the update 5000 ms later returns to Home.
  lemma ClosesToHome(m: Machine, door: uint8, env: Env, env': Env)
    requires m.ctx.state == Open && m.ctx.grant.door == door && !m.ctx.penalty.active && env'.now == env.now + 5000
    ensures var m1 := Step(m, Input(DoorClosed(door), env));
            var m2 := Step(m1, Input(Tick, env'));
            m1.ctx.state == Closed && m2.ctx.state == Home && m2.store == m.store && !m2.ctx.penalty.active
  {
    var m1 := Step(m, Input(DoorClosed(door), env));
    assert m1.ctx.state == Closed && m1.store == m.store && !m1.ctx.penalty.active
           && m1.ctx.timers.ambientAt == env.now;
    ExactWithinOneWrap(env.now, AMBIENT_TIMEOUT_MS, env'.now);
  }

  const ROUND_MS: nat := 7000

  // An update at which nothing is due changes neither state, grant nor store, so updates in between play no part.
  lemma IdleTick(m: Machine, env: Env)
    requires TickTarget(m.ctx, env) == m.ctx.state
    ensures var m' := Step(m, Input(Tick, env));
            m'.ctx.state == m.ctx.state && m'.ctx.grant == m.ctx.grant && m'.store == m.store
  {
  }

  // k times: the PIN is entered, a web request for its door comes before the contact reports it open, the door is
  // opened and closed, and the box goes home.
  function TakenOver(pin: string, door: uint8, base: Env, k: nat): seq<Happening> {
    if k == 0 then [] else Round(TakenOver(pin, door, base, k - 1), pin, door, base, ROUND_MS * (k - 1))
  }

  function Round(run: seq<Happening>, pin: string, door: uint8, base: Env, ms: nat): seq<Happening> {
    run + [Do(Key1, EnvAt(base, ms))] + [Do(Enter(pin), EnvAt(base, ms + 1000))]
    + [Do(WebOpen(door), EnvAt(base, ms + 1200))] + [Do(DoorOpened(door), EnvAt(base, ms + 1400))]
    + [Do(DoorClosed(door), EnvAt(base, ms + 1900))] + [Do(Tick, EnvAt(base, ms + 6900))]
  }

  // ---------- the clocks of such a run ----------

  function MsAt(h: Happening, base: Env): int
    requires h.Handle?
  {
    h.x.env.now - base.now
  }

  // Happening i is an input, at most ms after the start and not before the one that precedes it.
  ghost predicate PacedAt(run: seq<Happening>, base: Env, ms: nat, i: int) {
    0 <= i < |run| ==>
      && run[i].Handle? && 0 <= MsAt(run[i], base) <= ms && run[i].x.env == EnvAt(base, MsAt(run[i], base))
      && (i > 0 && run[i - 1].Handle? ==> MsAt(run[i - 1], base) <= MsAt(run[i], base))
  }

  ghost predicate Paced(run: seq<Happening>, base: Env, ms: nat) {
    forall i :: PacedAt(run, base, ms, i)
  }

  lemma PacedSnoc(run: seq<Happening>, base: Env, ms: nat, event: Event, later: nat)
    requires Paced(run, base, ms) && ms <= later
    ensures Paced(run + [Do(event, EnvAt(base, later))], base, later)
  {
    var more := run + [Do(event, EnvAt(base, later))];
    forall i ensures PacedAt(more, base, later, i) {
      assert PacedAt(run, base, ms, i) && PacedAt(run, base, ms, i - 1);
    }
  }

  lemma {:induction false} PacedInOrder(run: seq<Happening>, base: Env, ms: nat, i: nat, j: nat)
    requires Paced(run, base, ms) && i <= j < |run|
    ensures run[i].Handle? && run[j].Handle? && 0 <= MsAt(run[i], base) <= MsAt(run[j], base)
  {
    assert PacedAt(run, base, ms, i) && PacedAt(run, base, ms, j);
    if i < j {
      PacedInOrder(run, base, ms, i, j - 1);
    }
  }

  ghost predicate AllInputs(run: seq<Happening>) {
    forall i :: 0 <= i < |run| ==> run[i].Handle?
  }

  ghost function Inputs(run: seq<Happening>): seq<Input>
    requires AllInputs(run)
  {
    seq(|run|, i requires 0 <= i < |run| => run[i].x)
  }

  lemma PacedIsTimed(run: seq<Happening>, base: Env, ms: nat)
    requires Paced(run, base, ms)
    ensures AllInputs(run) && BoxRuns.Timed(Inputs(run)) && Monotone(base.wall, run)
  {
    forall i | 0 <= i < |run|
      ensures run[i].Handle? && run[i].x.env.now <= run[i].x.env.lockAt && base.wall <= run[i].x.env.wall
    {
      assert PacedAt(run, base, ms, i);
    }
    forall i, j | 0 <= i < j < |run|
      ensures WallOf(run[i]) <= WallOf(run[j]) && run[i].x.env.lockAt <= run[j].x.env.now
    {
      PacedInOrder(run, base, ms, i, j);
      assert PacedAt(run, base, ms, i) && PacedAt(run, base, ms, j);
      var a, b := MsAt(run[i], base), MsAt(run[j], base);
      assert a / 1000 <= b / 1000;
    }
  }

  lemma RoundIsPaced(run: seq<Happening>, pin: string, door: uint8, base: Env, ms: nat)
    requires Paced(run, base, ms)
    ensures Paced(Round(run, pin, door, base, ms), base, ms + ROUND_MS)
  {
    var r1 := run + [Do(Key1, EnvAt(base, ms))];
    PacedSnoc(run, base, ms, Key1, ms);
    var r2 := r1 + [Do(Enter(pin), EnvAt(base, ms + 1000))];
    PacedSnoc(r1, base, ms, Enter(pin), ms + 1000);
    var r3 := r2 + [Do(WebOpen(door), EnvAt(base, ms + 1200))];
    PacedSnoc(r2, base, ms + 1000, WebOpen(door), ms + 1200);
    var r4 := r3 + [Do(DoorOpened(door), EnvAt(base, ms + 1400))];
    PacedSnoc(r3, base, ms + 1200, DoorOpened(door), ms + 1400);
    var r5 := r4 + [Do(DoorClosed(door), EnvAt(base, ms + 1900))];
    PacedSnoc(r4, base, ms + 1400, DoorClosed(door), ms + 1900);
    PacedSnoc(r5, base, ms + 1900, Tick, ms + 6900);
    PacedLonger(r5 + [Do(Tick, EnvAt(base, ms + 6900))], base, ms + 6900, ms + ROUND_MS);
  }

  lemma PacedLonger(run: seq<Happening>, base: Env, ms: nat, later: nat)
    requires Paced(run, base, ms) && ms <= later
    ensures Paced(run, base, later)
  {
    forall i ensures PacedAt(run, base, later, i) { assert PacedAt(run, base, ms, i); }
  }

  lemma {:induction false} TakenOverIsPaced(pin: string, door: uint8, base: Env, k: nat)
    ensures Paced(TakenOver(pin, door, base, k), base, ROUND_MS * k)
  {
    if k > 0 {
      TakenOverIsPaced(pin, door, base, k - 1);
      RoundIsPaced(TakenOver(pin, door, base, k - 1), pin, door, base, ROUND_MS * (k - 1));
    }
  }

  // ---------- what such a run does ----------

  lemma Snoc(m: Machine, run: seq<Happening>, h: Happening, id: uint32)
    ensures var more := run + [h];
            && After(m, more) == Next(After(m, run), h)
            && HistoryOf(m, more) == NextHistory(HistoryOf(m, run), After(m, run), h)
            && Openings(m, more, id) ==
               Openings(m, run, id) + if OpensFor(After(m, run), HistoryOf(m, run), h, id) then 1 else 0
  {
    assert (run + [h])[..|run|] == run;
  }

  ghost predicate Reaches(m: Machine, run: seq<Happening>, m': Machine, id: uint32, n: nat) {
    After(m, run) == m' && Openings(m, run, id) == n
  }

  // However such a run ends: the PIN has opened its door k times, nothing is written, and it can be entered again.
  ghost predicate Leaked(m: Machine, run: seq<Happening>, pin: string, door: uint8, id: uint32, base: Env, k: nat) {
    forall m', n: nat :: Reaches(m, run, m', id, n) ==>
      n == k && m'.store.nvs == m.store.nvs && Enters(m', pin, door, id, base)
  }

  // Such a PIN opens its door any number of times, whatever its count, in a run whose clocks never go back.
  lemma TakeoversAreUnbounded(m: Machine, pin: string, door: uint8, id: uint32, base: Env, k: nat, run: seq<Happening>)
    requires Enters(m, pin, door, id, base) && run == TakenOver(pin, door, base, k)
    ensures AllInputs(run) && BoxRuns.Timed(Inputs(run)) && Monotone(base.wall, run)
    ensures Openings(m, run, id) == k && After(m, run).store.nvs == m.store.nvs
  {
    TakenOverIsPaced(pin, door, base, k);
    PacedIsTimed(run, base, ROUND_MS * k);
    TakeoversLeak(m, pin, door, id, base, k);
    assert Reaches(m, run, After(m, run), id, Openings(m, run, id));
  }

  lemma TakeoversLeak(m: Machine, pin: string, door: uint8, id: uint32, base: Env, k: nat)
    requires Enters(m, pin, door, id, base)
    ensures Leaked(m, TakenOver(pin, door, base, k), pin, door, id, base, k)
  {
    var P := (i: nat) => Leaked(m, TakenOver(pin, door, base, i), pin, door, id, base, i);
    NothingLeaked(m, pin, door, id, base);
    forall i: nat | P(i) ensures P(i + 1) {
      TakeoverRound(m, TakenOver(pin, door, base, i), pin, door, id, base, i, ROUND_MS * i);
    }
    Iterate(P, k);
  }

  lemma {:induction false} Iterate(P: nat -> bool, k: nat)
    requires P(0) && forall i: nat :: P(i) ==> P(i + 1)
    ensures P(k)
  {
    if k > 0 { Iterate(P, k - 1); }
  }

  lemma NothingLeaked(m: Machine, pin: string, door: uint8, id: uint32, base: Env)
    requires Enters(m, pin, door, id, base)
    ensures Leaked(m, [], pin, door, id, base, 0)
  {
  }

  lemma TakeoverRound(m: Machine, run: seq<Happening>, pin: string, door: uint8, id: uint32, base: Env, k: nat, ms: nat)
    requires Leaked(m, run, pin, door, id, base, k)
    ensures Leaked(m, Round(run, pin, door, base, ms), pin, door, id, base, k + 1)
  {
    assert Reaches(m, run, After(m, run), id, Openings(m, run, id));
    var m' := ClosedAfterTakeover(m, run, pin, door, id, base, ms);
  }

  lemma ClosedAfterTakeover(m: Machine, run: seq<Happening>, pin: string, door: uint8, id: uint32, base: Env, ms: nat)
    returns (m': Machine)
    requires Enters(After(m, run), pin, door, id, base)
    ensures Reaches(m, Round(run, pin, door, base, ms), m', id, Openings(m, run, id) + 1)
    ensures m'.store.nvs == After(m, run).store.nvs && Enters(m', pin, door, id, base)
  {
    var r1 := run + [Do(Key1, EnvAt(base, ms))];
    var r2 := r1 + [Do(Enter(pin), EnvAt(base, ms + 1000))];
    var r4 := OpenedByTakeover(m, run, r1, r2, pin, door, id, base, ms);
    var r5 := r4 + [Do(DoorClosed(door), EnvAt(base, ms + 1900))];
    var r6 := r5 + [Do(Tick, EnvAt(base, ms + 6900))];
    m' := After(m, r6);
    Snoc(m, r4, Do(DoorClosed(door), EnvAt(base, ms + 1900)), id);
    Snoc(m, r5, Do(Tick, EnvAt(base, ms + 6900)), id);
    ClosesToHome(After(m, r4), door, EnvAt(base, ms + 1900), EnvAt(base, ms + 6900));
    BoxRuns.StepInvariant(After(m, r4), Input(DoorClosed(door), EnvAt(base, ms + 1900)));
    BoxRuns.StepInvariant(After(m, r5), Input(Tick, EnvAt(base, ms + 6900)));
    AdmitsAgain(After(m, run).store, m'.store, pin, door, id, base.wall);
  }

  // Which credential was verified last plays no part.
  lemma AdmitsAgain(st: Store, st': Store, pin: string, door: uint8, id: uint32, since: nat)
    requires Admits(st, pin, door, id, since) && st' == st.(verified := id)
    ensures Admits(st', pin, door, id, since)
  {
    forall wall: nat | since <= wall
      ensures VerifyCred(st', pin, CredTypes.Password, wall) == (st'.(verified := id), door)
    {
      assert VerifyCred(st, pin, CredTypes.Password, wall) == (st.(verified := id), door);
    }
  }

  // The first four happenings of a round reach Open, one opening for the credential, with nothing written.
  lemma OpenedByTakeover(m: Machine, run: seq<Happening>, r1: seq<Happening>, r2: seq<Happening>,
                         pin: string, door: uint8, id: uint32, base: Env, ms: nat)
    returns (r4: seq<Happening>)
    requires Enters(After(m, run), pin, door, id, base)
    requires r1 == run + [Do(Key1, EnvAt(base, ms))] && r2 == r1 + [Do(Enter(pin), EnvAt(base, ms + 1000))]
    ensures r4 == r2 + [Do(WebOpen(door), EnvAt(base, ms + 1200))] + [Do(DoorOpened(door), EnvAt(base, ms + 1400))]
    ensures var m4 := After(m, r4);
            && Openings(m, r4, id) == Openings(m, run, id) + 1 && BoxRuns.Invariant(m4) && m4.ctx.state == Open
            && m4.ctx.grant.door == door && !m4.ctx.penalty.active && m4.store == After(m, run).store.(verified := id)
  {
    var e3, e4 := EnvAt(base, ms + 1200), EnvAt(base, ms + 1400);
    var r3 := r2 + [Do(WebOpen(door), e3)];
    r4 := r3 + [Do(DoorOpened(door), e4)];
    Snoc(m, run, Do(Key1, EnvAt(base, ms)), id);
    Snoc(m, r1, Do(Enter(pin), EnvAt(base, ms + 1000)), id);
    Snoc(m, r2, Do(WebOpen(door), e3), id);
    Snoc(m, r3, Do(DoorOpened(door), e4), id);
    EntersOpening(After(m, run), pin, door, id, base, ms);
    TakeoverIsFree(After(m, r2), door, e3, e4);
    BoxRuns.StepInvariant(After(m, r2), Input(WebOpen(door), e3));
    BoxRuns.StepInvariant(After(m, r3), Input(DoorOpened(door), e4));
  }

  // For example: a PIN with one use left, on a machine just booted, opens its door twice and still has its use.
  lemma OneUseOpensTwice(c: Cred, p: Pool, base: Env, m: Machine, run: seq<Happening>)
    requires c == CredTypes.CacheRecord(CredTypes.Password, 1, "name", "123456", 0, 0, 0, 1) && p == Pool([c], 2)
    requires m == Machine(BOOT, Store(Image(p), [c], 0), false, 0) && 0 in base.lockDoors
    requires run == TakenOver("123456", 0, base, 2)
    ensures BoxRuns.Invariant(m) && Refines(m.store, p) && c in p.creds && c.remaining == 1
    ensures AllInputs(run) && BoxRuns.Timed(Inputs(run))
    ensures Openings(m, run, 1) == 2 && After(m, run).store.nvs == Image(p)
  {
    ExampleEnters(c, p, base, m);
    TakeoversAreUnbounded(m, "123456", 0, 1, base, 2, run);
  }

  lemma ExampleEnters(c: Cred, p: Pool, base: Env, m: Machine)
    requires c == CredTypes.CacheRecord(CredTypes.Password, 1, "name", "123456", 0, 0, 0, 1) && p == Pool([c], 2)
    requires m == Machine(BOOT, Store(Image(p), [c], 0), false, 0) && 0 in base.lockDoors
    ensures BoxRuns.Invariant(m) && Refines(m.store, p) && Enters(m, "123456", 0, 1, base)
  {
    HoldsIffImage(Image(p), p);
    assert FirstTextMatch([c], "123456", CredTypes.Password) == 0;
  }
}
