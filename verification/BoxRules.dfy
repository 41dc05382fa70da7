/**
 What a user of the box sees (src/state_machine.cpp), said in plain numbers and from the history of a run: where each
 input leads, how long each state lasts, how long a penalty is, and what follows it.
 */
module BoxRules {
  import opened Basics
  import opened Timeout
  import opened BoxMachine
  import opened BoxRuns
  import CredTypes
  import CredCache

  // ---------- inputs ----------

  // A real-time penalty, as long as the clock has not wrapped since it began.
  predicate PenaltyRuns(p: Penalty<nat>, now: nat) {
    p.active && now < p.at + p.millis
  }

  // In Home the keys start a PIN, a presence code or a scan, or lead back to a running penalty.
  lemma HomeKeys(m: Machine, event: Event, env: Env)
    requires m.ctx.state == Home && event in {Key1, Key2, Key3}
    requires m.ctx.penalty.active ==> m.ctx.penalty.at <= env.now < m.ctx.penalty.at + 0x1_0000_0000
    ensures var m' := Step(m, Input(event, env));
            && m'.store == m.store
            && m'.ctx.state == (if event == Key2 then Presence
                                else if PenaltyRuns(m.ctx.penalty, env.now) then BadPass
                                else if event == Key1 then Password else Scan)
            && (m'.ctx.state == BadPass ==> m'.ctx.penalty == m.ctx.penalty)
  {
    if m.ctx.penalty.active { ExactWithinOneWrap(m.ctx.penalty.at, m.ctx.penalty.millis, env.now); }
  }

  // Keys mean nothing in other states.
  lemma OtherKeys(m: Machine, event: Event, env: Env)
    requires if event.Enter? then m.ctx.state != Password else event in {Key1, Key2, Key3} && m.ctx.state != Home
    ensures Step(m, Input(event, env)) == m
  {
  }

  // Cancel leaves an entry, a presence code or a penalty, and means nothing elsewhere.
  lemma CancelRule(m: Machine, env: Env)
    ensures var m' := Step(m, Input(Cancel, env));
            if m.ctx.state in {Password, Presence, Scan, BadPass}
            then m'.ctx.state == Home && m'.store == m.store && m'.ctx.penalty == m.ctx.penalty
            else m' == m
  {
  }

  // A web request always leads to Opening, for the door it names and on nobody's account.
  lemma WebRule(m: Machine, door: uint8, env: Env)
    ensures var m' := Step(m, Input(WebOpen(door), env));
            m'.ctx.state == Opening && m'.ctx.grant == Grant(door, false, false) && m'.store == m.store
  {
  }

  // A contact counts only if it is that of the door being opened, or closed again. Others change nothing.
  lemma DoorRule(m: Machine, door: uint8, env: Env)
    ensures var m' := Step(m, Input(DoorOpened(door), env));
            if m.ctx.state == Opening && door == m.ctx.grant.door then m'.ctx.state == Open else m' == m
    ensures var m' := Step(m, Input(DoorClosed(door), env));
            if m.ctx.state == Open && door == m.ctx.grant.door then m'.ctx.state == Closed else m' == m
  {
  }

  // An update that finds the contact open has the same effect.
  lemma ContactRule(m: Machine, env: Env)
    requires m.ctx.state == Opening && m.ctx.grant.door in env.openDoors
    ensures Step(m, Input(Tick, env)).ctx.state == Open
  {
  }

  // A timeout event ends its own state only.
  lemma TimeoutRule(m: Machine, event: Event, env: Env)
    requires event in {PasswordTimeout, ScanTimeout, PresenceTimeout, AmbientTimeout, DoorOpenTimeout}
    ensures var own := match event
                       case PasswordTimeout => Password case ScanTimeout => Scan case PresenceTimeout => Presence
                       case AmbientTimeout => Closed case _ => Opening;
            var m' := Step(m, Input(event, env));
            if m.ctx.state == own then m'.ctx.state == Home && m'.store == m.store else m' == m
  {
  }

  // The scanner means nothing outside Scan; a failure, and anything scanned after 9000 ms, ends it without an attempt.
  lemma ScannerRule(m: Machine, event: Event, env: Env)
    requires event.ScannerCode? || event.ScannerInvalid? || event.ScannerFailed?
    requires m.ctx.timers.scanAt <= env.now < m.ctx.timers.scanAt + 0x1_0000_0000
    ensures m.ctx.state != Scan ==> Step(m, Input(event, env)) == m
    ensures m.ctx.state == Scan && (event.ScannerFailed? || env.now >= m.ctx.timers.scanAt + 9000) ==>
              && Step(m, Input(event, env)).ctx.state == Home && Step(m, Input(event, env)).store == m.store
              && Step(m, Input(event, env)).ctx.penalty == m.ctx.penalty
  {
    ExactWithinOneWrap(m.ctx.timers.scanAt, 9000, env.now);
  }

  // A PIN opens the door that the store grants for it, or counts as a failure.
  lemma PinRule(m: Machine, pin: string, env: Env)
    requires Invariant(m) && m.ctx.state == Password
    ensures var (st, door) := CredCache.VerifyCred(m.store, pin, CredTypes.Password, env.wall);
            AttemptEnds(m, Step(m, Input(Enter(pin), env)), st, door, false)
  {
    JudgeOutcome(m, Input(Enter(pin), env));
  }

  // So does a code scanned within 9000 ms; an invalid one counts as a failure.
  lemma ScanRule(m: Machine, event: Event, env: Env)
    requires Invariant(m) && m.ctx.state == Scan && (event.ScannerCode? || event.ScannerInvalid?)
    requires m.ctx.timers.scanAt <= env.now < m.ctx.timers.scanAt + 9000
    ensures var (st, door) := if event.ScannerInvalid? then (m.store, 255)
                              else CredCache.VerifyCred(m.store, event.text, CredTypes.PacketNumber, env.wall);
            AttemptEnds(m, Step(m, Input(event, env)), st, door, true)
  {
    ExactWithinOneWrap(m.ctx.timers.scanAt, 9000, env.now);
    JudgeOutcome(m, Input(event, env));
  }

  // The machine after an attempt that was answered with this store and door; 255 is no door.
  predicate AttemptEnds(m: Machine, m': Machine, st: CredCache.Store, door: uint8, scanned: bool) {
    && m'.store == st
    && (if door != 255
        then m'.ctx.state == Opening && m'.ctx.grant == Grant(door, true, scanned) && m'.ctx.penalty.count == 0
        else m'.ctx.state == BadPass && !m'.ctx.grant.verified
             && m'.ctx.penalty.count == if m.ctx.penalty.count < 255 then m.ctx.penalty.count + 1 else 255)
  }

  lemma JudgeOutcome(m: Machine, x: Input)
    requires Invariant(m) && IsAttempt(m, x)
    ensures AttemptEnds(m, Step(m, x), Answer(m, x).0, Answer(m, x).1, m.ctx.state == Scan)
  {
    StepInvariant(m, x);
  }

  // ---------- light and test flag ----------

  // The light goes on with a pulsed lock, off in Home and when Closed ends, and stays as it is otherwise.
  lemma LightRule(m: Machine, x: Input)
    ensures var from, c := m.ctx.state, Step(m, x).ctx;
            c.light == if c.state == from then m.ctx.light
                       else if c.state == Home then false
                       else if c.state == Opening && c.grant.door != 255 && c.grant.door in x.env.lockDoors then true
                       else m.ctx.light && from != Closed
  {
    assert Prepare(m, x).ctx.light == m.ctx.light && Prepare(m, x).ctx.state == m.ctx.state;
  }

  // A presence code holds for 30 s from the last entry of Presence, in whatever state; only an update ends it.
  lemma PresenceRule(m: Machine, x: Input)
    ensures var t, t' := m.ctx.timers, Step(m, x).ctx.timers;
            if m.ctx.state != Presence && Step(m, x).ctx.state == Presence
            then t'.presenceActive && t'.presenceAt == x.env.now
            else t'.presenceAt == t.presenceAt && (!x.event.Tick? ==> t'.presenceActive == t.presenceActive)
  {
    PrepareTimers(m, x);
    var c, to := Prepare(m, x).ctx, Target(m, x);
    if x.event.Tick? { TickTargets(m.ctx, x.env); }
    if to != c.state {
      assert Step(m, x).ctx.timers ==
             StartedTimers(StoppedTimers(c.timers, c.state), to, x.env, Pulsed(Prepare(m, x), x.env));
    }
  }

  lemma PrepareTimers(m: Machine, x: Input)
    ensures Prepare(m, x).ctx.state == m.ctx.state
    ensures Prepare(m, x).ctx.timers == if x.event.Tick? then Expire(m.ctx, x.env.now).timers else m.ctx.timers
  {
  }

  lemma TickTargets(c: Context<nat>, env: Env)
    ensures TickTarget(c, env) in {c.state, Home, Open, Password, Scan}
  {
  }

  lemma PresenceTick(m: Machine, env: Env)
    requires m.ctx.timers.presenceAt <= env.now < m.ctx.timers.presenceAt + 0x1_0000_0000
    ensures var t, t' := m.ctx.timers, TickStep(m, env).ctx.timers;
            t'.presenceActive <==> t.presenceActive && env.now < t.presenceAt + 30000
  {
    ExactWithinOneWrap(m.ctx.timers.presenceAt, 30000, env.now);
    TickTargets(m.ctx, env);
    TickContext(m, env);
  }

  // The web controls are enabled on the way to Home, disabled on the way to an entry or an opening, and kept otherwise.
  lemma ControlsRule(m: Machine, x: Input)
    ensures var c := Step(m, x).ctx;
            c.ui == if c.state == m.ctx.state then m.ctx.ui
                    else if c.state == Home then EnableControls
                    else if c.state in {Password, Scan, Opening} then DisableControls
                    else m.ctx.ui
  {
    assert Prepare(m, x).ctx.ui == m.ctx.ui && Prepare(m, x).ctx.state == m.ctx.state;
  }

  // Reaching Open uses the verified credential, except a scanned one while the test flag is set.
  lemma ConsumptionRule(m: Machine, x: Input)
    requires m.ctx.state == Opening && Step(m, x).ctx.state == Open
    ensures Step(m, x).store ==
            if m.ctx.grant.verified && !(m.keepCred && m.ctx.grant.scanned)
            then CredCache.UsedCred(m.store, m.ctx.grant.door, x.env.wall).0 else m.store
  {
    ReachesOpen(m, x);
  }

  lemma ReachesOpen(m: Machine, x: Input)
    requires m.ctx.state == Opening && Step(m, x).ctx.state == Open
    ensures Target(m, x) == Open
    ensures var m' := Prepare(m, x);
            && m'.store == m.store && m'.keepCred == m.keepCred
            && m'.ctx.grant == m.ctx.grant && m'.ctx.state == Opening
  {
  }

  // ---------- what follows a penalty ----------

  // A failed scan, or a key that asks for a scan.
  predicate WantsScan(m: Machine, x: Input) {
    || (m.ctx.state == Scan && (x.event.ScannerCode? || x.event.ScannerInvalid?))
    || (m.ctx.state == Home && x.event == Key3)
  }

  // A failed PIN, or a key that asks for a PIN.
  predicate WantsPin(m: Machine, x: Input) {
    (m.ctx.state == Password && x.event.Enter?) || (m.ctx.state == Home && x.event == Key1)
  }

  datatype Entry = Never | Entry(m: Machine, x: Input)

  // The last input that led into BadPass, and the machine it found.
  function LastEntry(m: Machine, run: seq<Input>): Entry {
    if run == [] then Never
    else
      var before, x := run[..|run| - 1], run[|run| - 1];
      var now := After(m, before);
      if now.ctx.state != BadPass && Step(now, x).ctx.state == BadPass then Entry(now, x) else LastEntry(m, before)
  }

  lemma EntryCause(m: Machine, x: Input)
    requires m.ctx.state != BadPass && Step(m, x).ctx.state == BadPass
    ensures Step(m, x).ctx.retryScan <==> WantsScan(m, x)
    ensures !Step(m, x).ctx.retryScan <==> WantsPin(m, x)
  {
  }

  lemma StayKeepsRetry(m: Machine, x: Input)
    requires m.ctx.state == BadPass && Step(m, x).ctx.state == BadPass
    ensures Step(m, x).ctx.retryScan == m.ctx.retryScan
  {
  }

  lemma {:induction false} RetryIsCause(m: Machine, run: seq<Input>)
    requires m.ctx.state != BadPass && After(m, run).ctx.state == BadPass
    ensures var e := LastEntry(m, run);
            && e.Entry? && (After(m, run).ctx.retryScan <==> WantsScan(e.m, e.x))
            && (!After(m, run).ctx.retryScan <==> WantsPin(e.m, e.x))
  {
    var before, x := run[..|run| - 1], run[|run| - 1];
    var now := After(m, before);
    if now.ctx.state != BadPass {
      EntryCause(now, x);
    } else {
      RetryIsCause(m, before);
      StayKeepsRetry(now, x);
    }
  }

  // In every run: an update that leaves BadPass leads to Scan if and only if the last input that entered it was a
  // failed scan or a Key3, and to Password if and only if it was a failed PIN or a Key1.
  lemma RetryRule(m: Machine, run: seq<Input>, env: Env)
    requires m.ctx.state != BadPass && After(m, run).ctx.state == BadPass
    requires Step(After(m, run), Input(Tick, env)).ctx.state != BadPass
    ensures var e, to := LastEntry(m, run), Step(After(m, run), Input(Tick, env)).ctx.state;
            e.Entry? && (to == Scan <==> WantsScan(e.m, e.x)) && (to == Password <==> WantsPin(e.m, e.x))
  {
    RetryIsCause(m, run);
  }

  // ---------- how long a state lasts ----------

  // The state s began at t and lasts len.
  predicate Waits(c: Context<nat>, s: BoxState, t: nat, len: uint32) {
    && c.state == s && s !in {Home, Open, External} && Since(c) == t && Length(c) == len
    && (s == BadPass ==> c.penalty.active)
  }

  // Updates at instants from `from` on, before `to`.
  ghost predicate Between(ticks: seq<Env>, from: nat, to: nat) {
    forall i :: 0 <= i < |ticks| ==> from <= ticks[i].now < to
  }

  // Updates that find this door shut.
  ghost predicate FindShut(ticks: seq<Env>, door: uint8) {
    forall i :: 0 <= i < |ticks| ==> door !in ticks[i].openDoors
  }

  lemma TickWaits(m: Machine, env: Env, s: BoxState, t: nat, len: uint32)
    requires Waits(m.ctx, s, t, len) && t <= env.now < t + 0x1_0000_0000
    requires s == Opening ==> m.ctx.grant.door !in env.openDoors
    ensures var c := TickStep(m, env).ctx;
            if env.now < t + len then Waits(c, s, t, len) && c.grant == m.ctx.grant
            else if s == BadPass then c.state in {Password, Scan} else c.state == Home
  {
    ExactWithinOneWrap(t, len, env.now);
    TickContext(m, env);
  }

  lemma {:induction false} TicksWait(m: Machine, ticks: seq<Env>, s: BoxState, t: nat, len: uint32)
    requires Waits(m.ctx, s, t, len) && Between(ticks, t, t + len)
    requires s == Opening ==> FindShut(ticks, m.ctx.grant.door)
    ensures Waits(AfterTicks(m, ticks).ctx, s, t, len) && AfterTicks(m, ticks).ctx.grant == m.ctx.grant
    decreases |ticks|
  {
    if ticks != [] {
      TickWaits(m, ticks[0], s, t, len);
      TicksWait(TickStep(m, ticks[0]), ticks[1..], s, t, len);
    }
  }

  // How long the states last: a PIN entry 30 s, a scan 9 s, a presence code 30 s, the light after closing 5 s.
  function Lasts(s: BoxState): uint32 {
    match s
    case Password => 30000
    case Scan => 9000
    case Presence => 30000
    case Closed => 5000
    case _ => 0
  }

  // With nothing but updates each of these states lasts exactly so long from the input that entered it: no earlier
  // update ends it, and the first one from then on, less than a clock wrap later, leads to Home.
  lemma TimesOut(m: Machine, x: Input, ticks: seq<Env>, env: Env)
    requires Step(m, x).ctx.state != m.ctx.state && Step(m, x).ctx.state in {Password, Scan, Presence, Closed}
    requires var t, len := x.env.now, Lasts(Step(m, x).ctx.state);
             Between(ticks, t, t + len) && t + len <= env.now < t + 0x1_0000_0000
    ensures AfterTicks(Step(m, x), ticks).ctx.state == Step(m, x).ctx.state
    ensures TickStep(AfterTicks(Step(m, x), ticks), env).ctx.state == Home
  {
    var m', s, t := Step(m, x), Step(m, x).ctx.state, x.env.now;
    EntryWaits(m, x);
    TicksWait(m', ticks, s, t, Lasts(s));
    TickWaits(AfterTicks(m', ticks), env, s, t, Lasts(s));
  }

  lemma EntryWaits(m: Machine, x: Input)
    requires Step(m, x).ctx.state != m.ctx.state && Step(m, x).ctx.state in {Password, Scan, Presence, Closed}
    ensures Waits(Step(m, x).ctx, Step(m, x).ctx.state, x.env.now, Lasts(Step(m, x).ctx.state))
  {
    assert Prepare(m, x).ctx.state == m.ctx.state;
  }

  // An opening whose door stays shut lasts exactly 1 s from the pulse of its lock, and ends at once without a lock.
  lemma OpeningTimesOut(m: Machine, x: Input, ticks: seq<Env>, env: Env)
    requires m.ctx.state != Opening && Step(m, x).ctx.state == Opening
    requires var door, t := Step(m, x).ctx.grant.door, x.env.lockAt;
             var len := if door != 255 && door in x.env.lockDoors then 1000 else 0;
             && Between(ticks, t, t + len) && t + len <= env.now < t + 0x1_0000_0000
             && FindShut(ticks, door) && door !in env.openDoors
    ensures AfterTicks(Step(m, x), ticks).ctx.state == Opening
    ensures TickStep(AfterTicks(Step(m, x), ticks), env).ctx.state == Home
  {
    var m', t := Step(m, x), x.env.lockAt;
    var len := if m'.ctx.grant.door != 255 && m'.ctx.grant.door in x.env.lockDoors then 1000 else 0;
    OpeningWaits(m, x);
    TicksWait(m', ticks, Opening, t, len);
    TickWaits(AfterTicks(m', ticks), env, Opening, t, len);
  }

  lemma OpeningWaits(m: Machine, x: Input)
    requires m.ctx.state != Opening && Step(m, x).ctx.state == Opening
    ensures var door := Step(m, x).ctx.grant.door;
            Waits(Step(m, x).ctx, Opening, x.env.lockAt, if door != 255 && door in x.env.lockDoors then 1000 else 0)
  {
    assert Prepare(m, x).ctx.state == m.ctx.state;
  }

  // ---------- how long a penalty is ----------

  // In every run from boot, the k-th failed attempt in a row, at t, starts a penalty of 5 s times k, at most 35 s.
  lemma PenaltyRule(m: Machine, run: seq<Input>, i: nat)
    requires Invariant(m) && m.ctx.penalty.count == 0 && i < |run| && Fails(After(m, run[..i]), run[i])
    ensures var k, c := Streak(m, run[..i + 1]), After(m, run[..i + 1]).ctx;
            && k >= 1 && c.penalty.millis == 5000 * (if k < 7 then k else 7)
            && Waits(c, BadPass, run[i].env.now, 5000 * (if k < 7 then k else 7))
  {
    CountIsStreak(m, run[..i + 1]);
    assert Streak(m, run[..i + 1]) >= 1 by { assert run[..i + 1][..i] == run[..i]; }
    AfterLast(m, run, i + 1);
    RunInvariant(m, run[..i]);
    FailureWaits(After(m, run[..i]), run[i]);
  }

  lemma FailureWaits(m: Machine, x: Input)
    requires Invariant(m) && Fails(m, x)
    ensures var c := Step(m, x).ctx;
            Waits(c, BadPass, x.env.now, 5000 * if c.penalty.count < 7 then c.penalty.count else 7)
  {
  }

  // With nothing but updates, at most gap apart, the penalty of the k-th failure in a row, at t, ends at the first
  // update from t + 5000 * min(k, 7) on, so at most gap later, with a new entry. No earlier update ends it.
  lemma PenaltyEnds(m: Machine, run: seq<Input>, ticks: seq<Env>, gap: nat) returns (j: nat)
    requires Invariant(m) && m.ctx.penalty.count == 0 && run != []
    requires Fails(After(m, run[..|run| - 1]), run[|run| - 1])
    requires var k, t := Streak(m, run), run[|run| - 1].env.now;
             && Regular(ticks, t, gap) && gap <= 0x1_0000_0000 - 40000 && ticks != []
             && ticks[|ticks| - 1].now >= t + 5000 * (if k < 7 then k else 7)
    ensures var k, t := Streak(m, run), run[|run| - 1].env.now;
            && j < |ticks| && AfterTicks(After(m, run), ticks[..j]).ctx.state == BadPass
            && AfterTicks(After(m, run), ticks[..j + 1]).ctx.state in {Password, Scan}
            && t + 5000 * (if k < 7 then k else 7) <= ticks[j].now <= t + 5000 * (if k < 7 then k else 7) + gap
  {
    var n := |run| - 1;
    assert run[..n + 1] == run;
    PenaltyRule(m, run, n);
    var k, t := Streak(m, run), run[n].env.now;
    j := WaitEnds(After(m, run), ticks, t, 5000 * (if k < 7 then k else 7), t, gap);
  }

  lemma {:induction false} WaitEnds(m: Machine, ticks: seq<Env>, t: nat, len: uint32, last: nat, gap: nat)
    returns (j: nat)
    requires Waits(m.ctx, BadPass, t, len) && len <= 35000 && t <= last <= t + len
    requires Regular(ticks, last, gap) && gap <= 0x1_0000_0000 - 40000
    requires ticks != [] && ticks[|ticks| - 1].now >= t + len
    ensures j < |ticks| && AfterTicks(m, ticks[..j]).ctx.state == BadPass
    ensures AfterTicks(m, ticks[..j + 1]).ctx.state in {Password, Scan}
    ensures t + len <= ticks[j].now <= t + len + gap
    decreases |ticks|
  {
    var env := ticks[0];
    TickWaits(m, env, BadPass, t, len);
    if env.now >= t + len {
      j := 0;
      assert ticks[..1] == [env] && ticks[..0] == [];
      assert AfterTicks(m, [env]) == TickStep(m, env);
    } else {
      assert ticks[1..][|ticks| - 2] == ticks[|ticks| - 1];
      var i := WaitEnds(TickStep(m, env), ticks[1..], t, len, env.now, gap);
      j := i + 1;
      assert ticks[..j][1..] == ticks[1..][..i] && ticks[..j + 1][1..] == ticks[1..][..i + 1];
    }
  }
}
