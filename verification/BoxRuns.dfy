/**
 Whole runs of the access-control state machine: invariants, separation of failed
 attempts by their penalty, and bounded return to Home.
 */
module BoxRuns {
  import opened Basics
  import opened Timeout
  import opened BoxMachine
  import CredCache

  // ---------- invariants ----------

  predicate ContextInvariant(c: Context<nat>) {
    && c.state != External
    && (c.grant.verified ==> c.state == Opening && c.grant.door != DOOR_UNKNOWN)
    && (c.grant.scanned ==> c.grant.verified)
    && PenaltyInvariant(c.penalty, c.state)
    && (c.light ==> c.state in {Opening, Open, Closed})
    && (c.state in {Password, Scan, Opening, Open, Closed} ==> c.ui == DisableControls)
    && (c.state in {Home, Presence} ==> c.ui == EnableControls)
    && (c.state == Password ==> c.timers.passwordMillis == PASS_ENTRY_TIMEOUT_MS)
    && (c.state == Opening ==> c.timers.doorOpenMillis <= DOOR_OPENING_TIMEOUT_MS)
  }

  predicate PenaltyInvariant(p: Penalty<nat>, s: BoxState) {
    && (p.active ==> p.count >= 1 && p.millis == PenaltyMillis(p.count))
    && (s == BadPass ==> p.active)
    && (s in {Password, Scan} ==> !p.active)
  }

  // The context invariants, and: a verified credential opens the door it was verified for.
  predicate Invariant(m: Machine) {
    ContextInvariant(m.ctx) && (m.ctx.grant.verified ==> m.ctx.grant.door == m.verifiedDoor)
  }

  lemma BootInvariant(store: CredCache.Store, keepCred: bool, door: uint8)
    ensures Invariant(Machine(BOOT, store, keepCred, door))
  {
  }

  // The transitions the handlers make.
  predicate Edge(from: BoxState, to: BoxState) {
    || to == Home || to == Opening
    || (to in {Password, Scan} && from in {Home, BadPass})
    || (to == Presence && from == Home)
    || (to == BadPass && from in {Home, Password, Scan})
    || (to == Open && from == Opening)
    || (to == Closed && from == Open)
  }

  lemma TargetIsEdge(m: Machine, x: Input)
    requires m.ctx.state != External
    ensures Target(m, x) == m.ctx.state || Edge(m.ctx.state, Target(m, x))
  {
  }

  // What the context must satisfy for a transition to establish the invariants.
  predicate ReadyFor(c: Context<nat>, to: BoxState) {
    && c.state != External && to != External
    && (c.grant.verified ==> (c.state == Opening || to == Opening) && c.grant.door != DOOR_UNKNOWN)
    && (c.grant.scanned ==> c.grant.verified)
    && (c.penalty.active ==> c.penalty.count >= 1 && c.penalty.millis == PenaltyMillis(c.penalty.count))
    && (to == BadPass ==> c.penalty.count >= 1)
    && (c.light ==> c.state in {Opening, Open, Closed})
    && (c.state in {Password, Scan, Opening, Open, Closed} ==> c.ui == DisableControls)
    && (c.state in {Home, Presence} ==> c.ui == EnableControls)
  }

  lemma TransitionInvariant(c: Context<nat>, to: BoxState, env: Env, pulsed: bool)
    requires c.state != to && Edge(c.state, to) && ReadyFor(c, to)
    ensures ContextInvariant(NewContext(c, to, env, pulsed))
  {
  }

  lemma JudgeIsReady(c: Context<nat>, door: uint8, scanned: bool)
    requires ContextInvariant(c) && c.state in {Password, Scan}
    ensures ReadyFor(Judge(c, door, scanned), if door == DOOR_UNKNOWN then BadPass else Opening)
  {
  }

  lemma PrepareIsReady(m: Machine, x: Input)
    requires Invariant(m)
    ensures Prepare(m, x).ctx.state == m.ctx.state
    ensures Target(m, x) == m.ctx.state ==> Invariant(Prepare(m, x))
    ensures Target(m, x) != m.ctx.state ==> ReadyFor(Prepare(m, x).ctx, Target(m, x))
    ensures Prepare(m, x).ctx.grant.verified ==> Prepare(m, x).ctx.grant.door == Prepare(m, x).verifiedDoor
  {
    if IsAttempt(m, x) {
      JudgeIsReady(m.ctx, Answer(m, x).1, m.ctx.state == Scan);
    }
  }

  // Every input keeps the invariants.
  lemma StepInvariant(m: Machine, x: Input)
    requires Invariant(m)
    ensures Invariant(Step(m, x))
  {
    TargetIsEdge(m, x);
    PrepareIsReady(m, x);
    var m', to := Prepare(m, x), Target(m, x);
    if to != m.ctx.state {
      TransitionInvariant(m'.ctx, to, x.env, Pulsed(m', x.env));
    }
  }

  // ---------- runs ----------

  function After(m: Machine, run: seq<Input>): Machine {
    if run == [] then m else Step(After(m, run[..|run| - 1]), run[|run| - 1])
  }

  // Clock readings never go back.
  ghost predicate Timed(run: seq<Input>) {
    && (forall i :: 0 <= i < |run| ==> run[i].env.now <= run[i].env.lockAt)
    && (forall i, j :: 0 <= i < j < |run| ==> run[i].env.lockAt <= run[j].env.now)
  }

  lemma {:induction false} RunInvariant(m: Machine, run: seq<Input>)
    requires Invariant(m)
    ensures Invariant(After(m, run))
  {
    if run != [] {
      RunInvariant(m, run[..|run| - 1]);
      StepInvariant(After(m, run[..|run| - 1]), run[|run| - 1]);
    }
  }

  // ---------- penalties ----------

  predicate Fails(m: Machine, x: Input) {
    IsAttempt(m, x) && Answer(m, x).1 == DOOR_UNKNOWN
  }

  // The number of failed attempts since the last successful one.
  function Streak(m: Machine, run: seq<Input>): nat {
    if run == [] then 0
    else
      var before, x := run[..|run| - 1], run[|run| - 1];
      var now := After(m, before);
      if Fails(now, x) then Streak(m, before) + 1 else if IsAttempt(now, x) then 0 else Streak(m, before)
  }

  function Cap(k: nat): uint8 {
    if k < 255 then k else 255
  }

  lemma StepCount(m: Machine, x: Input)
    ensures Step(m, x).ctx.penalty.count ==
            if Fails(m, x) then Cap(m.ctx.penalty.count + 1) else if IsAttempt(m, x) then 0 else m.ctx.penalty.count
  {
    var c := Prepare(m, x).ctx;
    assert c.penalty.count == if Fails(m, x) then Cap(m.ctx.penalty.count + 1)
                              else if IsAttempt(m, x) then 0 else m.ctx.penalty.count;
    assert NewPenalty(c.penalty, Target(m, x), x.env.now).count == c.penalty.count;
  }

  // The counter in the machine is the streak, saturated at 255.
  lemma {:induction false} CountIsStreak(m: Machine, run: seq<Input>)
    requires m.ctx.penalty.count == 0
    ensures After(m, run).ctx.penalty.count == Cap(Streak(m, run))
  {
    if run != [] {
      CountIsStreak(m, run[..|run| - 1]);
      StepCount(After(m, run[..|run| - 1]), run[|run| - 1]);
    }
  }

  // A penalty of length pen started at t and keeps the machine out of the entry states.
  predicate Blocked(c: Context<nat>, t: nat, pen: uint32) {
    c.penalty.active && c.penalty.at == t && c.penalty.millis == pen && c.state !in {Password, Scan}
  }

  lemma FailureBlocks(m: Machine, x: Input)
    requires Invariant(m) && Fails(m, x)
    ensures Blocked(Step(m, x).ctx, x.env.now, PenaltyMillis(Step(m, x).ctx.penalty.count))
  {
  }

  lemma PrepareKeepsBlocked(m: Machine, x: Input, t: nat, pen: uint32)
    requires Blocked(m.ctx, t, pen) && Pending(m.ctx.penalty, x.env.now)
    ensures Blocked(Prepare(m, x).ctx, t, pen) && Target(m, x) !in {Password, Scan}
  {
  }

  lemma TransitionKeepsBlocked(c: Context<nat>, to: BoxState, env: Env, pulsed: bool, t: nat, pen: uint32)
    requires Blocked(c, t, pen) && Pending(c.penalty, env.now) && to !in {Password, Scan}
    ensures Blocked(NewContext(c, to, env, pulsed), t, pen)
  {
  }

  lemma BlockedStays(m: Machine, x: Input, t: nat, pen: uint32)
    requires Blocked(m.ctx, t, pen) && t <= x.env.now < t + pen
    ensures Blocked(Step(m, x).ctx, t, pen)
  {
    ExactWithinOneWrap(t, pen, x.env.now);
    PrepareKeepsBlocked(m, x, t, pen);
    var m' := Prepare(m, x);
    TransitionKeepsBlocked(m'.ctx, Target(m, x), x.env, Pulsed(m', x.env), t, pen);
  }

  // Once blocked, the machine stays blocked until real time has passed the penalty.
  lemma {:induction false} BlockedUntil(m: Machine, run: seq<Input>, i: nat, n: nat, pen: uint32)
    requires Timed(run) && i < n <= |run| && Blocked(After(m, run[..i + 1]).ctx, run[i].env.now, pen)
    ensures Blocked(After(m, run[..n]).ctx, run[i].env.now, pen) || run[n - 1].env.now >= run[i].env.now + pen
  {
    if n > i + 1 {
      BlockedUntil(m, run, i, n - 1, pen);
      if run[n - 1].env.now < run[i].env.now + pen {
        BlockedStays(After(m, run[..n - 1]), run[n - 1], run[i].env.now, pen);
        AfterLast(m, run, n);
      }
    }
  }

  lemma AfterLast(m: Machine, run: seq<Input>, n: nat)
    requires 0 < n <= |run|
    ensures After(m, run[..n]) == Step(After(m, run[..n - 1]), run[n - 1])
  {
    assert run[..n][..n - 1] == run[..n - 1];
  }

  // Penalty separation: in every run after boot the k-th failed attempt in a row is followed by no attempt
  // for 5000 * min(k, 7) ms of real time, whatever happens in between and however often the clock wraps.
  lemma PenaltySeparation(m: Machine, run: seq<Input>, i: nat, j: nat)
    requires Invariant(m) && m.ctx.penalty.count == 0 && Timed(run) && i < j < |run|
    requires Fails(After(m, run[..i]), run[i]) && IsAttempt(After(m, run[..j]), run[j])
    ensures var k := Streak(m, run[..i + 1]);
            k >= 1 && run[j].env.now - run[i].env.now >= 5000 * (if k < 7 then k else 7)
  {
    var k := Streak(m, run[..i + 1]);
    var pen := PenaltyMillis(Cap(k));
    FailureInRunBlocks(m, run, i);
    BlockedUntil(m, run, i, j, pen);
    assert run[j - 1].env.now <= run[j].env.now;
  }

  lemma FailureInRunBlocks(m: Machine, run: seq<Input>, i: nat)
    requires Invariant(m) && m.ctx.penalty.count == 0 && i < |run| && Fails(After(m, run[..i]), run[i])
    ensures var k := Streak(m, run[..i + 1]);
            k >= 1 && Blocked(After(m, run[..i + 1]).ctx, run[i].env.now, PenaltyMillis(Cap(k)))
  {
    CountIsStreak(m, run[..i + 1]);
    assert Streak(m, run[..i + 1]) >= 1 by { assert run[..i + 1][..i] == run[..i]; }
    AfterLast(m, run, i + 1);
    RunInvariant(m, run[..i]);
    FailureBlocks(After(m, run[..i]), run[i]);
  }

  // ---------- bounded return ----------

  predicate Settled(c: Context<nat>) {
    c.state == Home || c.state == Open
  }

  // The timeout that ends the current state: when it started and how long it is.
  function Since(c: Context<nat>): nat {
    match c.state
    case Password => c.timers.passwordAt
    case Scan => c.timers.scanAt
    case Presence => c.timers.presenceAt
    case Opening => c.timers.doorOpenAt
    case Closed => c.timers.ambientAt
    case BadPass => c.penalty.at
    case _ => 0
  }

  function Length(c: Context<nat>): uint32 {
    match c.state
    case Password => c.timers.passwordMillis
    case Scan => SCAN_TIMEOUT_MS
    case Presence => PRESENCE_VALIDITY_MS
    case Opening => c.timers.doorOpenMillis
    case Closed => AMBIENT_TIMEOUT_MS
    case BadPass => c.penalty.millis
    case _ => 0
  }

  // The tick at time last did not find a timeout of this start and length due.
  predicate NotDueAt(start: nat, length: uint32, last: nat) {
    last <= start || last < start + length
  }

  // Nothing that is running was due at the last tick, and everything running has started by now.
  predicate Live(c: Context<nat>, last: nat, now: nat) {
    && (!Settled(c) ==> NotDueAt(Since(c), Length(c), last) && Since(c) <= now)
    && (c.penalty.active ==> NotDueAt(c.penalty.at, c.penalty.millis, last) && c.penalty.at <= now)
  }

  // The gap between ticks is short enough for the 32-bit clock not to alias.
  const MAX_GAP := WRAP - 40000

  // The instant by which ticks at most gap apart bring the machine to Home or Open.
  function Deadline(c: Context<nat>, gap: nat): nat {
    Since(c) + Length(c) + gap + if c.state == BadPass then PASS_ENTRY_TIMEOUT_MS + gap else 0
  }

  lemma DueIsReal(start: nat, length: uint32, last: nat, now: nat, gap: nat)
    requires start <= now && last <= now <= last + gap && gap <= MAX_GAP && length <= 35000
    requires NotDueAt(start, length, last)
    ensures Due(start, length, now) <==> now >= start + length
    ensures now <= start + length + gap
  {
    ExactWithinOneWrap(start, length, now);
  }

  lemma LengthBound(c: Context<nat>)
    requires ContextInvariant(c)
    ensures Length(c) <= 35000
    ensures c.penalty.active ==> c.penalty.millis <= 35000
    ensures c.state in {Password, Scan} ==> Length(c) <= PASS_ENTRY_TIMEOUT_MS
  {
  }

  lemma TickLeaves(c: Context<nat>, env: Env)
    requires ContextInvariant(c) && !Settled(c)
    requires c.state == Opening ==> c.grant.door !in env.openDoors
    ensures TickTarget(c, env) != c.state <==> Due(Since(c), Length(c), env.now)
    ensures TickTarget(c, env) in {c.state, Home, Password, Scan}
    ensures TickTarget(c, env) !in {c.state, Home} ==> c.state == BadPass
  {
  }

  function TickStep(m: Machine, env: Env): Machine {
    Step(m, Input(Tick, env))
  }

  lemma TickContext(m: Machine, env: Env)
    ensures var c, to := Expire(m.ctx, env.now), TickTarget(m.ctx, env);
            TickStep(m, env).ctx == if to == m.ctx.state then c else NewContext(c, to, env, Pulsed(m, env))
  {
  }

  // A tick either settles the machine in time or keeps it live with no later deadline.
  lemma TickProgress(m: Machine, env: Env, last: nat, gap: nat)
    requires Invariant(m) && !Settled(m.ctx) && Live(m.ctx, last, env.now)
    requires last <= env.now <= last + gap && gap <= MAX_GAP
    ensures var c := TickStep(m, env).ctx;
            && env.now <= Deadline(m.ctx, gap)
            && (Settled(c) || (Live(c, env.now, env.now) && Deadline(c, gap) <= Deadline(m.ctx, gap)))
  {
    TickContext(m, env);
    LengthBound(m.ctx);
    DueIsReal(Since(m.ctx), Length(m.ctx), last, env.now, gap);
    ContextProgress(m.ctx, env, Pulsed(m, env), last, gap);
  }

  lemma ContextProgress(c: Context<nat>, env: Env, pulsed: bool, last: nat, gap: nat)
    requires ContextInvariant(c) && !Settled(c) && Live(c, last, env.now)
    requires last <= env.now <= last + gap && gap <= MAX_GAP
    ensures var to := TickTarget(c, env);
            var c' := if to == c.state then Expire(c, env.now) else NewContext(Expire(c, env.now), to, env, pulsed);
            Settled(c') || (Live(c', env.now, env.now) && Deadline(c', gap) <= Deadline(c, gap))
  {
    LengthBound(c);
    DueIsReal(Since(c), Length(c), last, env.now, gap);
    if c.penalty.active {
      DueIsReal(c.penalty.at, c.penalty.millis, last, env.now, gap);
    }
    if !(c.state == Opening && c.grant.door in env.openDoors) {
      TickLeaves(c, env);
    }
  }

  function AfterTicks(m: Machine, ticks: seq<Env>): Machine
    decreases |ticks|
  {
    if ticks == [] then m else AfterTicks(TickStep(m, ticks[0]), ticks[1..])
  }

  // Ticks at most gap apart, the first at most gap after the tick at time last.
  ghost predicate Regular(ticks: seq<Env>, last: nat, gap: nat) {
    ticks != [] ==> last <= ticks[0].now <= last + gap && Regular(ticks[1..], ticks[0].now, gap)
  }

  lemma {:induction false} ReturnsByDeadline(m: Machine, ticks: seq<Env>, last: nat, gap: nat, deadline: nat)
    returns (j: nat)
    requires Invariant(m) && Regular(ticks, last, gap) && gap <= MAX_GAP
    requires ticks != [] && ticks[|ticks| - 1].now > deadline && last <= deadline
    requires Settled(m.ctx) || (Live(m.ctx, last, ticks[0].now) && Deadline(m.ctx, gap) <= deadline)
    ensures j <= |ticks| && Settled(AfterTicks(m, ticks[..j]).ctx)
    ensures j > 0 ==> ticks[j - 1].now <= deadline
    decreases |ticks|
  {
    j := 0;
    if !Settled(m.ctx) {
      var env := ticks[0];
      TickProgress(m, env, last, gap);
      StepInvariant(m, Input(Tick, env));
      var k := 0;
      if |ticks| > 1 {
        assert ticks[1..][|ticks| - 2] == ticks[|ticks| - 1];
        k := ReturnsByDeadline(TickStep(m, env), ticks[1..], env.now, gap, deadline);
      }
      j := k + 1;
      assert ticks[..j][1..] == ticks[1..][..k];
    }
  }

  // Bounded return: with nothing but ticks, at most gap apart, a live machine is in Home or Open at the latest
  // 65 s and two gaps from now.
  lemma BoundedReturn(m: Machine, ticks: seq<Env>, last: nat, now: nat, gap: nat) returns (j: nat)
    requires Invariant(m) && Live(m.ctx, last, now) && gap <= MAX_GAP && last <= now
    requires Regular(ticks, last, gap) && ticks != [] && now <= ticks[0].now
    requires ticks[|ticks| - 1].now > now + 65000 + 2 * gap
    ensures j <= |ticks| && Settled(AfterTicks(m, ticks[..j]).ctx)
    ensures j > 0 ==> ticks[j - 1].now <= now + 65000 + 2 * gap
  {
    LengthBound(m.ctx);
    j := ReturnsByDeadline(m, ticks, last, gap, now + 65000 + 2 * gap);
  }

  // ---------- every reachable machine is live ----------

  // Time of the last tick in a run; start is the time of the boot.
  function LastTick(start: nat, run: seq<Input>): nat {
    if run == [] then start
    else if run[|run| - 1].event.Tick? then run[|run| - 1].env.now
    else LastTick(start, run[..|run| - 1])
  }

  // No input comes more than gap after the last tick.
  ghost predicate Ticking(start: nat, run: seq<Input>, gap: nat) {
    run != [] ==>
      && Ticking(start, run[..|run| - 1], gap)
      && LastTick(start, run[..|run| - 1]) <= run[|run| - 1].env.now
      && run[|run| - 1].env.now <= LastTick(start, run[..|run| - 1]) + gap
  }

  lemma TransitionLive(c: Context<nat>, to: BoxState, env: Env, pulsed: bool, last: nat)
    requires Live(c, last, env.now) && last <= env.now <= env.lockAt && to != External
    ensures Live(NewContext(c, to, env, pulsed), last, env.lockAt)
  {
  }

  // After a tick nothing is running that was due at it.
  lemma TickLive(m: Machine, env: Env, last: nat, gap: nat)
    requires Invariant(m) && Live(m.ctx, last, env.now) && last <= env.now <= last + gap && gap <= MAX_GAP
    ensures Live(TickStep(m, env).ctx, env.now, env.now)
  {
    if !Settled(TickStep(m, env).ctx) {
      TickProgress(m, env, last, gap);
    } else {
      LengthBound(m.ctx);
      if m.ctx.penalty.active {
        DueIsReal(m.ctx.penalty.at, m.ctx.penalty.millis, last, env.now, gap);
      }
    }
  }

  lemma PrepareLive(m: Machine, x: Input, last: nat)
    requires Invariant(m) && Live(m.ctx, last, x.env.now) && !x.event.Tick?
    ensures Live(Prepare(m, x).ctx, last, x.env.now) && Prepare(m, x).ctx.state == m.ctx.state
  {
  }

  lemma StepLive(m: Machine, x: Input, last: nat)
    requires Invariant(m) && Live(m.ctx, last, x.env.now) && last <= x.env.now <= x.env.lockAt && !x.event.Tick?
    ensures Live(Step(m, x).ctx, last, x.env.lockAt)
  {
    PrepareLive(m, x, last);
    TargetIsEdge(m, x);
    var m' := Prepare(m, x);
    TransitionLive(m'.ctx, Target(m, x), x.env, Pulsed(m', x.env), last);
  }

  lemma LiveLater(c: Context<nat>, last: nat, now: nat, later: nat)
    requires Live(c, last, now) && now <= later
    ensures Live(c, last, later)
  {
  }

  // Every machine reached from a live one in a run with regular ticks is live, so BoundedReturn applies to it.
  lemma {:induction false} ReachableIsLive(m: Machine, start: nat, run: seq<Input>, gap: nat)
    requires Invariant(m) && Live(m.ctx, start, start) && Timed(run) && Ticking(start, run, gap) && gap <= MAX_GAP
    ensures var now := if run == [] then start else run[|run| - 1].env.lockAt;
            LastTick(start, run) <= now && Live(After(m, run).ctx, LastTick(start, run), now)
  {
    if run != [] {
      var before, x := run[..|run| - 1], run[|run| - 1];
      var m', last := After(m, before), LastTick(start, before);
      ReachableIsLive(m, start, before, gap);
      RunInvariant(m, before);
      LiveLater(m'.ctx, last, if before == [] then start else before[|before| - 1].env.lockAt, x.env.now);
      if x.event.Tick? {
        TickLive(m', x.env, last, gap);
        LiveLater(After(m, run).ctx, x.env.now, x.env.now, x.env.lockAt);
      } else {
        StepLive(m', x, last);
      }
    }
  }

  // Any machine reached from boot in a run with regular ticks returns in time once only ticks follow.
  lemma ReachableReturns(m: Machine, start: nat, run: seq<Input>, ticks: seq<Env>, gap: nat) returns (j: nat)
    requires Invariant(m) && m.ctx == BOOT && Timed(run) && Ticking(start, run, gap) && gap <= MAX_GAP
    requires Regular(ticks, LastTick(start, run), gap) && ticks != []
    requires var now := if run == [] then start else run[|run| - 1].env.lockAt;
             now <= ticks[0].now && ticks[|ticks| - 1].now > now + 65000 + 2 * gap
    ensures var now := if run == [] then start else run[|run| - 1].env.lockAt;
            && j <= |ticks| && Settled(AfterTicks(After(m, run), ticks[..j]).ctx)
            && (j > 0 ==> ticks[j - 1].now <= now + 65000 + 2 * gap)
  {
    var now := if run == [] then start else run[|run| - 1].env.lockAt;
    ReachableIsLive(m, start, run, gap);
    RunInvariant(m, run);
    j := BoundedReturn(After(m, run), ticks, LastTick(start, run), now, gap);
  }
}
