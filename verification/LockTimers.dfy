/**
 One-shot and repeating timers (src/timer.cpp), and the lock pulses they end (src/gpio_hal.cpp, src/main.cpp).

 The model keeps the real instant at which each timer was started, and numbers the schedulings, so that a run can
 tell which of them have fired.
 */
module LockTimers {
  import opened Basics
  import opened Timeout

  const MAX_TIMERS: nat := 10
  const DOOR_DELAY: uint32 := 500
  const LOCK_DEACTIVATE: uint8 := 2
  const INVALID_PIN: uint8 := 255

  // T is the clock: real milliseconds in the model, their low 32 bits in the object.
  datatype Timer<T> = Timer(active: bool, startedAt: T, interval: uint32, repeating: bool, action: uint8, arg: uint8)

  // Scheduling number id fired at this instant, when its slot held this timer.
  datatype Firing = Firing(id: nat, timer: Timer<nat>, at: nat)

  datatype Timers = Timers(slots: seq<Timer<nat>>, ids: seq<nat>, issued: nat, fired: seq<Firing>)

  // ---------- the timers ----------

  function NoTimers(): Timers {
    Timers(seq(MAX_TIMERS, _ => Timer(false, 0, 0, false, 0, 0)), seq(MAX_TIMERS, _ => 0), 0, [])
  }

  function FreeSlot<T>(slots: seq<Timer<T>>): (i: nat)
    ensures i <= |slots| && (i < |slots| ==> !slots[i].active)
    ensures forall k :: 0 <= k < i ==> slots[k].active
  {
    if slots == [] || !slots[0].active then 0 else 1 + FreeSlot(slots[1..])
  }

  predicate Accepted(ts: Timers, t: Timer<nat>) {
    FreeSlot(ts.slots) < |ts.slots| && t.action != 0 && (t.repeating ==> t.interval != 0)
  }

  function Schedule(ts: Timers, t: Timer<nat>): Timers
    requires |ts.ids| == |ts.slots|
  {
    if Accepted(ts, t) then
      var i := FreeSlot(ts.slots);
      ts.(slots := ts.slots[i := t], ids := ts.ids[i := ts.issued], issued := ts.issued + 1)
    else ts
  }

  predicate Cancellable(ts: Timers, slot: int) {
    0 <= slot < |ts.slots| && ts.slots[slot].active
  }

  function Cancel(ts: Timers, slot: int): Timers {
    if Cancellable(ts, slot) then ts.(slots := ts.slots[slot := ts.slots[slot].(active := false)]) else ts
  }

  predicate Due(t: Timer<nat>, now: nat) {
    t.active && Elapsed(Millis(t.startedAt), t.interval, Millis(now))
  }

  function Fire(ts: Timers, i: nat, now: nat): Timers
    requires i < |ts.slots| == |ts.ids|
  {
    var t := ts.slots[i];
    if !Due(t, now) then ts
    else ts.(slots := ts.slots[i := if t.repeating then t.(startedAt := now) else t.(active := false)],
             fired := ts.fired + [Firing(ts.ids[i], t, now)])
  }

  // ---------- schedulings ----------

  // Active slots hold different schedulings, all started by now; a one-shot that fired is in no slot any more, has
  // not fired twice, and no timer fired early.
  ghost predicate ActiveWell(ts: Timers, i: int, now: nat)
    requires |ts.slots| == |ts.ids|
  {
    0 <= i < |ts.slots| && ts.slots[i].active ==> ts.ids[i] < ts.issued && ts.slots[i].startedAt <= now
  }

  ghost predicate ActiveApart(ts: Timers, i: int, j: int)
    requires |ts.slots| == |ts.ids|
  {
    0 <= i < j < |ts.slots| && ts.slots[i].active && ts.slots[j].active ==> ts.ids[i] != ts.ids[j]
  }

  ghost predicate FiredWell(ts: Timers, f: Firing) {
    f.id < ts.issued && f.timer.startedAt + f.timer.interval <= f.at
  }

  ghost predicate Ended(ts: Timers, f: Firing, i: int)
    requires |ts.slots| == |ts.ids|
  {
    !f.timer.repeating && 0 <= i < |ts.slots| && ts.slots[i].active ==> ts.ids[i] != f.id
  }

  ghost predicate FiredApart(f: Firing, g: Firing) {
    !f.timer.repeating ==> f.id != g.id
  }

  ghost predicate TimersInvariant(ts: Timers, now: nat) {
    && |ts.slots| == |ts.ids| == MAX_TIMERS
    && (forall i :: ActiveWell(ts, i, now))
    && (forall i, j :: ActiveApart(ts, i, j))
    && (forall k :: 0 <= k < |ts.fired| ==> FiredWell(ts, ts.fired[k]))
    && (forall k, i :: 0 <= k < |ts.fired| ==> Ended(ts, ts.fired[k], i))
    && (forall j, k :: 0 <= j < k < |ts.fired| ==> FiredApart(ts.fired[j], ts.fired[k]))
  }

  lemma ScheduleKeeps(ts: Timers, t: Timer<nat>, now: nat)
    requires TimersInvariant(ts, now) && t.active && t.startedAt <= now
    ensures TimersInvariant(Schedule(ts, t), now)
  {
    var ts' := Schedule(ts, t);
    if Accepted(ts, t) {
      forall i ensures ActiveWell(ts', i, now) { assert ActiveWell(ts, i, now); }
      forall i, j ensures ActiveApart(ts', i, j) {
        assert ActiveApart(ts, i, j) && ActiveWell(ts, i, now) && ActiveWell(ts, j, now);
      }
      forall k, i | 0 <= k < |ts.fired| ensures Ended(ts', ts.fired[k], i) {
        assert Ended(ts, ts.fired[k], i) && FiredWell(ts, ts.fired[k]);
      }
      forall k | 0 <= k < |ts.fired| ensures FiredWell(ts', ts.fired[k]) { assert FiredWell(ts, ts.fired[k]); }
    }
  }

  lemma CancelKeeps(ts: Timers, slot: int, now: nat)
    requires TimersInvariant(ts, now)
    ensures TimersInvariant(Cancel(ts, slot), now)
  {
    var ts' := Cancel(ts, slot);
    forall i ensures ActiveWell(ts', i, now) { assert ActiveWell(ts, i, now); }
    forall i, j ensures ActiveApart(ts', i, j) { assert ActiveApart(ts, i, j); }
    forall k, i | 0 <= k < |ts.fired| ensures Ended(ts', ts.fired[k], i) { assert Ended(ts, ts.fired[k], i); }
    forall k | 0 <= k < |ts.fired| ensures FiredWell(ts', ts.fired[k]) { assert FiredWell(ts, ts.fired[k]); }
  }

  lemma LaterKeeps(ts: Timers, now: nat, later: nat)
    requires TimersInvariant(ts, now) && now <= later
    ensures TimersInvariant(ts, later)
  {
    forall i ensures ActiveWell(ts, i, later) { assert ActiveWell(ts, i, now); }
  }

  lemma FireKeeps(ts: Timers, i: nat, now: nat)
    requires TimersInvariant(ts, now) && i < MAX_TIMERS
    ensures TimersInvariant(Fire(ts, i, now), now)
  {
    var ts', t := Fire(ts, i, now), ts.slots[i];
    if Due(t, now) {
      var f := Firing(ts.ids[i], t, now);
      assert ActiveWell(ts, i, now);
      NeverEarly(t.startedAt, t.interval, now);
      forall j ensures ActiveWell(ts', j, now) { assert ActiveWell(ts, j, now); }
      forall j, k ensures ActiveApart(ts', j, k) { assert ActiveApart(ts, j, k); }
      forall k | 0 <= k < |ts'.fired| ensures FiredWell(ts', ts'.fired[k]) {
        assert k < |ts.fired| ==> FiredWell(ts, ts.fired[k]);
      }
      forall k, j | 0 <= k < |ts'.fired| ensures Ended(ts', ts'.fired[k], j) {
        if k < |ts.fired| { assert Ended(ts, ts.fired[k], j); }
        else { assert ActiveApart(ts, i, j) && ActiveApart(ts, j, i); }
      }
      forall j, k | 0 <= j < k < |ts'.fired| ensures FiredApart(ts'.fired[j], ts'.fired[k]) {
        if k < |ts.fired| { assert FiredApart(ts.fired[j], ts.fired[k]); } else { assert Ended(ts, ts.fired[j], i); }
      }
    }
  }

  // ---------- the locks ----------

  // A physical door: the logical door it belongs to and the pin of its lock.
  datatype Lock = Lock(logDoor: uint8, pin: uint8)

  ghost predicate Drives(locks: seq<Lock>, i: int, door: uint8, pin: uint8) {
    0 <= i < |locks| && locks[i] == Lock(door, pin) && pin != INVALID_PIN
  }

  ghost predicate PinOf(locks: seq<Lock>, door: uint8, pin: uint8) {
    exists i :: Drives(locks, i, door, pin)
  }

  ghost function PinsOf(locks: seq<Lock>, door: uint8): set<uint8> {
    set pin: uint8 | PinOf(locks, door, pin)
  }

  // The energised pins with the instant of their last pulse, and the instant of the last timer update.
  datatype State = State(timers: Timers, pulsed: map<uint8, nat>, checked: nat)

  function DeactivateTimer<T>(door: uint8, now: T): Timer<T> {
    Timer(true, now, DOOR_DELAY, false, LOCK_DEACTIVATE, door)
  }

  ghost function Pulse(pulsed: map<uint8, nat>, pins: set<uint8>, now: nat): map<uint8, nat> {
    pulsed + map pin | pin in pins :: now
  }

  ghost function Opening(s: State, locks: seq<Lock>, door: uint8, now: nat): State
    requires |s.timers.ids| == |s.timers.slots|
  {
    var pins := PinsOf(locks, door);
    if pins == {} then s
    else s.(pulsed := Pulse(s.pulsed, pins, now), timers := Schedule(s.timers, DeactivateTimer(door, now)))
  }

  ghost function FireSlot(s: State, locks: seq<Lock>, i: nat, now: nat): State
    requires i < |s.timers.slots| == |s.timers.ids|
  {
    var t := s.timers.slots[i];
    s.(timers := Fire(s.timers, i, now),
       pulsed := if Due(t, now) && t.action == LOCK_DEACTIVATE then s.pulsed - PinsOf(locks, t.arg) else s.pulsed)
  }

  ghost function UpdateUpTo(s: State, locks: seq<Lock>, n: nat, now: nat): (r: State)
    requires n <= |s.timers.slots| == |s.timers.ids|
    ensures |r.timers.slots| == |r.timers.ids| == |s.timers.slots| && r.checked == s.checked
  {
    if n == 0 then s else FireSlot(UpdateUpTo(s, locks, n - 1, now), locks, n - 1, now)
  }

  datatype Event =
    | Open(door: uint8)
    | ScheduleTimer(delay: uint32, repeating: bool, action: uint8, arg: uint8)
    | CancelTimer(slot: int)
    | Update

  ghost function Next(s: State, locks: seq<Lock>, e: Event, now: nat): State
    requires |s.timers.slots| == |s.timers.ids|
  {
    match e
    case Open(door) => Opening(s, locks, door, now)
    case ScheduleTimer(delay, repeating, action, arg) =>
      s.(timers := Schedule(s.timers, Timer(true, now, delay, repeating, action, arg)))
    case CancelTimer(slot) => s.(timers := Cancel(s.timers, slot))
    case Update => UpdateUpTo(s, locks, |s.timers.slots|, now).(checked := now)
  }

  // ---------- every energised lock has its timer ----------

  ghost predicate Guards(s: State, locks: seq<Lock>, i: int, pin: uint8) {
    && pin in s.pulsed && 0 <= i < |s.timers.slots| && PinOf(locks, s.timers.slots[i].arg, pin)
    && s.timers.slots[i] == DeactivateTimer(s.timers.slots[i].arg, s.pulsed[pin])
  }

  ghost predicate Guarded(s: State, locks: seq<Lock>, pin: uint8) {
    exists i :: Guards(s, locks, i, pin)
  }

  ghost predicate AllGuarded(s: State, locks: seq<Lock>) {
    forall pin :: pin in s.pulsed ==> Guarded(s, locks, pin)
  }

  // No energised pin was due at the last update.
  ghost predicate AllRecent(s: State) {
    forall pin :: pin in s.pulsed ==> s.checked < s.pulsed[pin] + DOOR_DELAY
  }

  ghost predicate Invariant(s: State, locks: seq<Lock>, now: nat) {
    TimersInvariant(s.timers, now) && AllGuarded(s, locks) && AllRecent(s) && s.checked <= now
  }

  // What is asked of the caller: deactivation timers are not cancelled, and the timers are updated more than once per
  // wrap of the clock...
  ghost predicate Serviced(s: State, e: Event, now: nat) {
    match e
    case CancelTimer(slot) => 0 <= slot < |s.timers.slots| ==> s.timers.slots[slot].action != LOCK_DEACTIVATE
    case Update => now + DOOR_DELAY <= s.checked + WRAP
    case _ => true
  }

  // ... and each opening finds a free slot.
  ghost predicate Allowed(s: State, e: Event, now: nat) {
    Serviced(s, e, now) && (e.Open? ==> FreeSlot(s.timers.slots) < |s.timers.slots|)
  }

  // A slot that keeps its timer keeps guarding.
  lemma StillGuarded(s: State, s': State, locks: seq<Lock>, pin: uint8)
    requires Guarded(s, locks, pin) && pin in s'.pulsed && s'.pulsed[pin] == s.pulsed[pin]
    requires |s'.timers.slots| == |s.timers.slots|
    requires forall i :: Guards(s, locks, i, pin) ==> s'.timers.slots[i] == s.timers.slots[i]
    ensures Guarded(s', locks, pin)
  {
    var i :| Guards(s, locks, i, pin);
    assert Guards(s', locks, i, pin);
  }

  lemma OpenKeeps(s: State, locks: seq<Lock>, door: uint8, now: nat)
    requires Invariant(s, locks, now) && FreeSlot(s.timers.slots) < MAX_TIMERS
    ensures Invariant(Opening(s, locks, door, now), locks, now)
  {
    var s', pins := Opening(s, locks, door, now), PinsOf(locks, door);
    ScheduleKeeps(s.timers, DeactivateTimer(door, now), now);
    forall pin | pin in s'.pulsed ensures Guarded(s', locks, pin) {
      if pin in pins {
        assert Guards(s', locks, FreeSlot(s.timers.slots), pin);
      } else {
        StillGuarded(s, s', locks, pin);
      }
    }
  }

  lemma ScheduleGuards(s: State, s': State, locks: seq<Lock>, t: Timer<nat>)
    requires AllGuarded(s, locks) && |s.timers.slots| == |s.timers.ids|
    requires s' == State(Schedule(s.timers, t), s.pulsed, s.checked)
    ensures AllGuarded(s', locks)
  {
    forall pin | pin in s'.pulsed ensures Guarded(s', locks, pin) { StillGuarded(s, s', locks, pin); }
  }

  lemma CancelGuards(s: State, s': State, locks: seq<Lock>, slot: int)
    requires AllGuarded(s, locks) && s' == State(Cancel(s.timers, slot), s.pulsed, s.checked)
    requires 0 <= slot < |s.timers.slots| ==> s.timers.slots[slot].action != LOCK_DEACTIVATE
    ensures AllGuarded(s', locks)
  {
    forall pin | pin in s'.pulsed ensures Guarded(s', locks, pin) { StillGuarded(s, s', locks, pin); }
  }

  lemma FireGuards(s: State, locks: seq<Lock>, i: nat, now: nat)
    requires AllGuarded(s, locks) && i < |s.timers.slots| == |s.timers.ids|
    ensures AllGuarded(FireSlot(s, locks, i, now), locks)
  {
    var s' := FireSlot(s, locks, i, now);
    forall pin | pin in s'.pulsed ensures Guarded(s', locks, pin) { StillGuarded(s, s', locks, pin); }
  }

  // Slot i holds no one-shot that is due.
  ghost predicate NotDue(s: State, i: int, now: nat) {
    0 <= i < |s.timers.slots| && !s.timers.slots[i].repeating ==> !Due(s.timers.slots[i], now)
  }

  lemma {:induction false} UpdateKeepsTimers(s: State, locks: seq<Lock>, n: nat, now: nat)
    requires TimersInvariant(s.timers, now) && n <= MAX_TIMERS
    ensures TimersInvariant(UpdateUpTo(s, locks, n, now).timers, now)
  {
    if n > 0 {
      UpdateKeepsTimers(s, locks, n - 1, now);
      FireKeeps(UpdateUpTo(s, locks, n - 1, now).timers, n - 1, now);
    }
  }

  lemma {:induction false} UpdateGuards(s: State, locks: seq<Lock>, n: nat, now: nat)
    requires n <= |s.timers.slots| == |s.timers.ids| && AllGuarded(s, locks)
    ensures AllGuarded(UpdateUpTo(s, locks, n, now), locks)
  {
    if n > 0 {
      UpdateGuards(s, locks, n - 1, now);
      FireGuards(UpdateUpTo(s, locks, n - 1, now), locks, n - 1, now);
    }
  }

  lemma {:induction false} UpdateFiresDue(s: State, locks: seq<Lock>, n: nat, now: nat)
    requires n <= |s.timers.slots| == |s.timers.ids|
    ensures forall i :: i < n ==> NotDue(UpdateUpTo(s, locks, n, now), i, now)
  {
    if n > 0 {
      UpdateFiresDue(s, locks, n - 1, now);
      var r, r' := UpdateUpTo(s, locks, n - 1, now), UpdateUpTo(s, locks, n, now);
      forall i | i < n ensures NotDue(r', i, now) { assert i < n - 1 ==> NotDue(r, i, now); }
    }
  }

  // An update pulses nothing.
  lemma {:induction false} UpdateOnlyReleases(s: State, locks: seq<Lock>, n: nat, now: nat, pin: uint8)
    requires n <= |s.timers.slots| == |s.timers.ids|
    ensures pin in UpdateUpTo(s, locks, n, now).pulsed ==>
              pin in s.pulsed && UpdateUpTo(s, locks, n, now).pulsed[pin] == s.pulsed[pin]
  {
    if n > 0 { UpdateOnlyReleases(s, locks, n - 1, now, pin); }
  }

  lemma UpdateKeeps(s: State, locks: seq<Lock>, n: nat, now: nat)
    requires TimersInvariant(s.timers, now) && AllGuarded(s, locks) && n <= MAX_TIMERS
    ensures TimersInvariant(UpdateUpTo(s, locks, n, now).timers, now)
    ensures AllGuarded(UpdateUpTo(s, locks, n, now), locks)
    ensures forall i :: i < n ==> NotDue(UpdateUpTo(s, locks, n, now), i, now)
  {
    UpdateKeepsTimers(s, locks, n, now);
    UpdateGuards(s, locks, n, now);
    UpdateFiresDue(s, locks, n, now);
  }

  // After an update no energised pin is due.
  lemma UpdateEnds(s: State, locks: seq<Lock>, now: nat, pin: uint8)
    requires Invariant(s, locks, now) && now + DOOR_DELAY <= s.checked + WRAP
    requires pin in UpdateUpTo(s, locks, MAX_TIMERS, now).pulsed
    ensures now < UpdateUpTo(s, locks, MAX_TIMERS, now).pulsed[pin] + DOOR_DELAY
  {
    var s' := UpdateUpTo(s, locks, MAX_TIMERS, now);
    UpdateKeeps(s, locks, MAX_TIMERS, now);
    UpdateOnlyReleases(s, locks, MAX_TIMERS, now, pin);
    var i :| Guards(s', locks, i, pin);
    assert NotDue(s', i, now) && ActiveWell(s'.timers, i, now);
    ExactWithinOneWrap(s.pulsed[pin], DOOR_DELAY, now);
  }

  lemma StepKeeps(s: State, locks: seq<Lock>, e: Event, before: nat, now: nat)
    requires Invariant(s, locks, before) && before <= now && Allowed(s, e, now)
    ensures Invariant(Next(s, locks, e, now), locks, now)
  {
    LaterKeeps(s.timers, before, now);
    var s' := Next(s, locks, e, now);
    match e
    case Open(door) => OpenKeeps(s, locks, door, now);
    case ScheduleTimer(delay, repeating, action, arg) =>
      ScheduleKeeps(s.timers, Timer(true, now, delay, repeating, action, arg), now);
      ScheduleGuards(s, s', locks, Timer(true, now, delay, repeating, action, arg));
    case CancelTimer(slot) =>
      CancelKeeps(s.timers, slot, now);
      CancelGuards(s, s', locks, slot);
    case Update =>
      UpdateKeeps(s, locks, MAX_TIMERS, now);
      var r := UpdateUpTo(s, locks, MAX_TIMERS, now);
      forall pin | pin in s'.pulsed ensures Guarded(s', locks, pin) { StillGuarded(r, s', locks, pin); }
      forall pin | pin in s'.pulsed ensures now < s'.pulsed[pin] + DOOR_DELAY { UpdateEnds(s, locks, now, pin); }
  }

  // ---------- whole runs ----------

  datatype Timed = Timed(event: Event, at: nat)

  ghost predicate StepAt(locks: seq<Lock>, events: seq<Timed>, states: seq<State>, k: int)
    requires |states| == |events| + 1
  {
    0 <= k < |events| ==>
      && |states[k].timers.slots| == |states[k].timers.ids|
      && states[k + 1] == Next(states[k], locks, events[k].event, events[k].at)
  }

  // The states a run passes through, from boot.
  ghost predicate IsRun(locks: seq<Lock>, events: seq<Timed>, states: seq<State>) {
    && |states| == |events| + 1 && states[0] == State(NoTimers(), map[], 0)
    && forall k :: StepAt(locks, events, states, k)
  }

  function Clock(events: seq<Timed>, k: nat): nat
    requires k <= |events|
  {
    if k == 0 then 0 else events[k - 1].at
  }

  // The clock never goes back.
  ghost predicate InOrderAt(events: seq<Timed>, k: int) {
    0 <= k < |events| ==> Clock(events, k) <= events[k].at
  }

  ghost predicate InOrder(events: seq<Timed>) {
    forall k :: InOrderAt(events, k)
  }

  ghost predicate ServicedAt(events: seq<Timed>, states: seq<State>, k: int)
    requires |states| == |events| + 1
  {
    0 <= k < |events| ==> Serviced(states[k], events[k].event, events[k].at)
  }

  ghost predicate WellServiced(events: seq<Timed>, states: seq<State>)
    requires |states| == |events| + 1
  {
    InOrder(events) && forall k :: ServicedAt(events, states, k)
  }

  ghost predicate AllowedAt(events: seq<Timed>, states: seq<State>, k: int)
    requires |states| == |events| + 1
  {
    0 <= k < |events| ==> Allowed(states[k], events[k].event, events[k].at)
  }

  ghost predicate WellUsed(events: seq<Timed>, states: seq<State>)
    requires |states| == |events| + 1
  {
    InOrder(events) && forall k :: AllowedAt(events, states, k)
  }

  // Every state of every such run keeps the invariant: each energised lock has an active one-shot deactivation timer
  // started at its last pulse, none was left energised by an update 500 ms or more after that pulse, and every
  // one-shot fired at most once per scheduling and never early.
  lemma {:induction false} RunKeeps(locks: seq<Lock>, events: seq<Timed>, states: seq<State>, k: nat)
    requires IsRun(locks, events, states) && WellUsed(events, states) && k <= |events|
    ensures Invariant(states[k], locks, Clock(events, k))
  {
    if k > 0 {
      RunKeeps(locks, events, states, k - 1);
      assert StepAt(locks, events, states, k - 1) && InOrderAt(events, k - 1) && AllowedAt(events, states, k - 1);
      StepKeeps(states[k - 1], locks, events[k - 1].event, Clock(events, k - 1), events[k - 1].at);
    }
  }

  // ---------- one opening ----------

  // Slot i holds the deactivation timer of an opening of the door at this instant, and no update has found it due.
  ghost predicate WaitsAt(s: State, i: int, door: uint8, at: nat) {
    0 <= i < |s.timers.slots| && s.timers.slots[i] == DeactivateTimer(door, at) && s.checked < at + DOOR_DELAY
  }

  // The lock is off, or was pulsed again later.
  ghost predicate Over(s: State, pin: uint8, at: nat) {
    pin !in s.pulsed || s.pulsed[pin] > at
  }

  ghost predicate WaitsOrOver(s: State, door: uint8, pin: uint8, at: nat, now: nat) {
    (exists i :: WaitsAt(s, i, door, at)) || (now > at && Over(s, pin, at))
  }

  // An update keeps a timer that is not due.
  lemma {:induction false} UpdateKeepsSlot(s: State, locks: seq<Lock>, n: nat, now: nat, i: nat)
    requires i < |s.timers.slots| == |s.timers.ids| && n <= |s.timers.slots| && !Due(s.timers.slots[i], now)
    ensures UpdateUpTo(s, locks, n, now).timers.slots[i] == s.timers.slots[i]
  {
    if n > 0 { UpdateKeepsSlot(s, locks, n - 1, now, i); }
  }

  // At an update the timer ends the pulse if 500 ms have passed, and waits on otherwise.
  lemma WaitingUpdate(s: State, locks: seq<Lock>, i: int, door: uint8, pin: uint8, at: nat, now: nat)
    requires |s.timers.slots| == |s.timers.ids| && WaitsAt(s, i, door, at) && PinOf(locks, door, pin)
    requires at <= now && Serviced(s, Update, now)
    ensures var s' := Next(s, locks, Update, now);
            if now >= at + DOOR_DELAY then pin !in s'.pulsed else WaitsAt(s', i, door, at)
  {
    var n := |s.timers.slots|;
    ExactWithinOneWrap(at, DOOR_DELAY, now);
    UpdateOnlyReleases(s, locks, n, now, pin);
    if now < at + DOOR_DELAY {
      UpdateKeepsSlot(s, locks, n, now, i);
    } else if pin in s.pulsed {
      assert Releases(s, locks, i, pin, now);
      assert ReleasedBelow(s, locks, n, pin, now);
      UpdateReleasesIff(s, locks, n, now, pin);
    }
  }

  lemma WaitingStep(s: State, s': State, locks: seq<Lock>, e: Event, door: uint8, pin: uint8,
                    at: nat, before: nat, now: nat)
    requires |s.timers.slots| == |s.timers.ids| && s' == Next(s, locks, e, now)
    requires WaitsOrOver(s, door, pin, at, before) && PinOf(locks, door, pin)
    requires at <= before <= now && Serviced(s, e, now)
    ensures WaitsOrOver(s', door, pin, at, now)
    ensures e.Update? && now >= at + DOOR_DELAY ==> Over(s', pin, at)
  {
    if i :| WaitsAt(s, i, door, at) {
      if e.Update? { WaitingUpdate(s, locks, i, door, pin, at, now); } else { assert WaitsAt(s', i, door, at); }
    } else if e.Update? {
      UpdateOnlyReleases(s, locks, |s.timers.slots|, now, pin);
    }
  }

  lemma OpeningWaits(s: State, s': State, locks: seq<Lock>, door: uint8, pin: uint8, at: nat)
    requires |s.timers.slots| == |s.timers.ids| && s' == Next(s, locks, Open(door), at)
    requires FreeSlot(s.timers.slots) < |s.timers.slots| && PinOf(locks, door, pin) && s.checked <= at
    ensures pin in s'.pulsed && s'.pulsed[pin] == at && WaitsOrOver(s', door, pin, at, at)
  {
    assert pin in PinsOf(locks, door);
    assert WaitsAt(s', FreeSlot(s.timers.slots), door, at);
  }

  lemma {:induction false} CheckedInPast(locks: seq<Lock>, events: seq<Timed>, states: seq<State>, k: nat)
    requires IsRun(locks, events, states) && InOrder(events) && k <= |events|
    ensures states[k].checked <= Clock(events, k)
  {
    if k > 0 {
      CheckedInPast(locks, events, states, k - 1);
      assert StepAt(locks, events, states, k - 1) && InOrderAt(events, k - 1);
      CheckedIs(states[k - 1], states[k], locks, events[k - 1].event, events[k - 1].at);
    }
  }

  lemma CheckedIs(s: State, s': State, locks: seq<Lock>, e: Event, now: nat)
    requires |s.timers.slots| == |s.timers.ids| && s' == Next(s, locks, e, now)
    ensures s'.checked == if e.Update? then now else s.checked
  {
  }

  lemma {:induction false} RunWaits(locks: seq<Lock>, events: seq<Timed>, states: seq<State>, j: nat, n: nat,
                                    pin: uint8)
    requires IsRun(locks, events, states) && WellServiced(events, states) && j < n <= |events|
    requires events[j].event.Open? && PinOf(locks, events[j].event.door, pin)
    requires FreeSlot(states[j].timers.slots) < |states[j].timers.slots|
    ensures events[j].at <= Clock(events, n)
    ensures WaitsOrOver(states[n], events[j].event.door, pin, events[j].at, Clock(events, n))
    ensures n > j + 1 && events[n - 1].event.Update? && events[n - 1].at >= events[j].at + DOOR_DELAY ==>
              Over(states[n], pin, events[j].at)
  {
    var e := events[n - 1];
    if n == j + 1 {
      CheckedInPast(locks, events, states, j);
      assert StepAt(locks, events, states, j) && InOrderAt(events, j);
      OpeningWaits(states[j], states[n], locks, e.event.door, pin, e.at);
    } else {
      RunWaits(locks, events, states, j, n - 1, pin);
      assert StepAt(locks, events, states, n - 1) && InOrderAt(events, n - 1) && ServicedAt(events, states, n - 1);
      var door, at := events[j].event.door, events[j].at;
      WaitingStep(states[n - 1], states[n], locks, e.event, door, pin, at, Clock(events, n - 1), e.at);
    }
  }

  // The pulse of an opening that found a free slot, at event j, is over after any update at event k that comes at least
  // 500 ms later, unless the same lock was pulsed again after it. Other openings may have found no slot.
  lemma PulseIsBounded(locks: seq<Lock>, events: seq<Timed>, states: seq<State>, j: nat, k: nat, pin: uint8)
    requires IsRun(locks, events, states) && WellServiced(events, states) && j < k < |events|
    requires events[j].event.Open? && PinOf(locks, events[j].event.door, pin)
    requires FreeSlot(states[j].timers.slots) < |states[j].timers.slots|
    requires events[k].event == Update && events[k].at >= events[j].at + 500
    ensures pin in states[j + 1].pulsed && states[j + 1].pulsed[pin] == events[j].at
    ensures pin !in states[k + 1].pulsed || states[k + 1].pulsed[pin] > events[j].at
  {
    CheckedInPast(locks, events, states, j);
    assert StepAt(locks, events, states, j) && InOrderAt(events, j);
    OpeningWaits(states[j], states[j + 1], locks, events[j].event.door, pin, events[j].at);
    RunWaits(locks, events, states, j, k + 1, pin);
  }

  // ---------- schedulings in runs ----------

  lemma {:induction false} RunKeepsTimers(locks: seq<Lock>, events: seq<Timed>, states: seq<State>, k: nat)
    requires IsRun(locks, events, states) && InOrder(events) && k <= |events|
    ensures TimersInvariant(states[k].timers, Clock(events, k))
  {
    if k > 0 {
      RunKeepsTimers(locks, events, states, k - 1);
      assert StepAt(locks, events, states, k - 1) && InOrderAt(events, k - 1);
      var s, e, now := states[k - 1], events[k - 1].event, events[k - 1].at;
      LaterKeeps(s.timers, Clock(events, k - 1), now);
      match e
      case Open(door) => ScheduleKeeps(s.timers, DeactivateTimer(door, now), now);
      case ScheduleTimer(delay, repeating, action, arg) =>
        ScheduleKeeps(s.timers, Timer(true, now, delay, repeating, action, arg), now);
      case CancelTimer(slot) => CancelKeeps(s.timers, slot, now);
      case Update => UpdateKeepsTimers(s, locks, MAX_TIMERS, now);
    }
  }

  // In every run, firings j < k never belong to the same one-shot scheduling, and none is early.
  lemma OneShotsFireOnce(locks: seq<Lock>, events: seq<Timed>, states: seq<State>, n: nat, j: nat, k: nat)
    requires IsRun(locks, events, states) && InOrder(events) && n <= |events|
    requires j < k < |states[n].timers.fired|
    ensures var fired := states[n].timers.fired;
            && (fired[j].timer.repeating || fired[j].id != fired[k].id)
            && fired[j].at >= fired[j].timer.startedAt + fired[j].timer.interval
  {
    RunKeepsTimers(locks, events, states, n);
    var fired := states[n].timers.fired;
    assert FiredApart(fired[j], fired[k]) && FiredWell(states[n].timers, fired[j]);
  }

  // ---------- what scheduling and opening do ----------

  // A timer is accepted if and only if one of the ten slots is free, its action is not 0 and a repeating one has an
  // interval. It takes the first free slot and leaves the others alone; a refused one changes nothing.
  lemma ScheduleRule(ts: Timers, t: Timer<nat>)
    requires |ts.slots| == |ts.ids|
    ensures Accepted(ts, t) <==>
            && (exists i :: 0 <= i < |ts.slots| && !ts.slots[i].active)
            && t.action != 0 && (t.repeating ==> t.interval != 0)
    ensures !Accepted(ts, t) ==> Schedule(ts, t) == ts
    ensures forall i :: Accepted(ts, t) && 0 <= i < |ts.slots| && !ts.slots[i].active
                        && (forall k :: 0 <= k < i ==> ts.slots[k].active) ==>
              Schedule(ts, t).slots == ts.slots[i := t] && Schedule(ts, t).ids == ts.ids[i := ts.issued]
  {
    var f := FreeSlot(ts.slots);
    if i :| 0 <= i < |ts.slots| && !ts.slots[i].active { assert f <= i; }
    forall i | 0 <= i < |ts.slots| && !ts.slots[i].active && (forall k :: 0 <= k < i ==> ts.slots[k].active)
      ensures i == f
    {
    }
  }

  // Cancelling ends the active timer in that slot and leaves the others alone; otherwise it does nothing.
  lemma CancelRule(ts: Timers, slot: int)
    ensures Cancellable(ts, slot) <==> 0 <= slot < |ts.slots| && ts.slots[slot].active
    ensures if Cancellable(ts, slot)
            then !Cancel(ts, slot).slots[slot].active
                 && Cancel(ts, slot) == ts.(slots := ts.slots[slot := Cancel(ts, slot).slots[slot]])
            else Cancel(ts, slot) == ts
  {
  }

  // An opening energises exactly the locks of its logical door that have a pin, and asks for one deactivation of that
  // door 500 ms later; for a door without a lock it does nothing.
  lemma OpeningRule(s: State, locks: seq<Lock>, door: uint8, now: nat, pin: uint8)
    requires |s.timers.slots| == |s.timers.ids|
    ensures var s' := Opening(s, locks, door, now);
            if Lock(door, pin) in locks && pin != 255 then pin in s'.pulsed && s'.pulsed[pin] == now
            else (pin in s'.pulsed <==> pin in s.pulsed) && (pin in s.pulsed ==> s'.pulsed[pin] == s.pulsed[pin])
    ensures (forall pin: uint8 :: Lock(door, pin) in locks ==> pin == 255) ==> Opening(s, locks, door, now) == s
    ensures Lock(door, pin) in locks && pin != 255 ==>
              Opening(s, locks, door, now).timers ==
              Schedule(s.timers, Timer(true, now, 500, false, LOCK_DEACTIVATE, door))
  {
    if Lock(door, pin) in locks && pin != 255 {
      var i :| 0 <= i < |locks| && locks[i] == Lock(door, pin);
      assert Drives(locks, i, door, pin);
      assert pin in PinsOf(locks, door);
    }
    if PinOf(locks, door, pin) {
      var i :| Drives(locks, i, door, pin);
      assert locks[i] == Lock(door, pin);
    }
    if forall p: uint8 :: Lock(door, p) in locks ==> p == 255 {
      assert PinsOf(locks, door) == {};
    }
  }

  // ---------- what an update does to a timer ----------

  // At an update less than a clock wrap after its start, an active timer fires if and only if its interval has passed.
  // Then it is restarted from this update if it repeats, and ends otherwise; until then it stays as it is.
  ghost predicate ActsOn(s: State, s': State, i: nat, now: nat)
    requires i < |s.timers.slots| == |s.timers.ids| == |s'.timers.slots|
  {
    var t, f := s.timers.slots[i], Firing(s.timers.ids[i], s.timers.slots[i], now);
    if t.active && now >= t.startedAt + t.interval
    then
      && s'.timers.slots[i] == (if t.repeating then t.(startedAt := now) else t.(active := false))
      && f in s'.timers.fired
    else s'.timers.slots[i] == t
  }

  lemma {:induction false} SlotAfterUpdate(s: State, locks: seq<Lock>, n: nat, now: nat, i: nat)
    requires i < |s.timers.slots| == |s.timers.ids| && n <= |s.timers.slots|
    requires s.timers.slots[i].startedAt <= now < s.timers.slots[i].startedAt + 0x1_0000_0000
    ensures UpdateUpTo(s, locks, n, now).timers.ids == s.timers.ids
    ensures if i < n then ActsOn(s, UpdateUpTo(s, locks, n, now), i, now)
            else UpdateUpTo(s, locks, n, now).timers.slots[i] == s.timers.slots[i]
  {
    if n > 0 {
      SlotAfterUpdate(s, locks, n - 1, now, i);
      var t := s.timers.slots[i];
      ExactWithinOneWrap(t.startedAt, t.interval, now);
    }
  }

  // The rule for one update, with the handler's part: an update that fires a deactivation timer releases its door.
  lemma UpdateRule(s: State, locks: seq<Lock>, now: nat, i: nat)
    requires i < |s.timers.slots| == |s.timers.ids|
    requires s.timers.slots[i].startedAt <= now < s.timers.slots[i].startedAt + 0x1_0000_0000
    ensures ActsOn(s, Next(s, locks, Update, now), i, now) && Next(s, locks, Update, now).checked == now
    ensures Next(s, locks, Update, now).timers.ids == s.timers.ids
  {
    SlotAfterUpdate(s, locks, |s.timers.slots|, now, i);
  }

  function LastTime(times: seq<nat>, from: nat): nat {
    if times == [] then from else times[|times| - 1]
  }

  // The times of updates, in order, the first not before the given one, each at most a clock wrap less the interval
  // after the one before.
  ghost predicate UpdateTimes(times: seq<nat>, from: nat, interval: uint32) {
    times != [] ==>
      var before, now := times[..|times| - 1], times[|times| - 1];
      && LastTime(before, from) <= now && now + interval <= LastTime(before, from) + 0x1_0000_0000
      && UpdateTimes(before, from, interval)
  }

  // A repeating timer keeps repeating: after any updates it is active with the same interval and action, was restarted
  // at one of them if at all, and is not overdue after the last.
  lemma {:induction false} RepeatingKeepsFiring(s: State, locks: seq<Lock>, times: seq<nat>, i: nat, from: nat)
    requires i < |s.timers.slots| == |s.timers.ids|
    requires var t := s.timers.slots[i];
             && t.active && t.repeating && t.startedAt <= from < t.startedAt + t.interval
             && UpdateTimes(times, from, t.interval)
    ensures var t, t' := s.timers.slots[i], Updates(s, locks, times).timers.slots[i];
            && t' == t.(startedAt := t'.startedAt) && (t'.startedAt == t.startedAt || t'.startedAt in times)
            && t'.startedAt <= LastTime(times, from) < t'.startedAt + t.interval
  {
    if times != [] {
      var before, now := times[..|times| - 1], times[|times| - 1];
      RepeatingKeepsFiring(s, locks, before, i, from);
      UpdateRule(Updates(s, locks, before), locks, now, i);
    }
  }

  // ---------- no free slot ----------

  ghost function Updates(s: State, locks: seq<Lock>, times: seq<nat>): (r: State)
    requires |s.timers.slots| == |s.timers.ids|
    ensures |r.timers.slots| == |r.timers.ids| == |s.timers.slots|
  {
    if times == [] then s else Next(Updates(s, locks, times[..|times| - 1]), locks, Update, times[|times| - 1])
  }

  // No active timer would release this pin.
  ghost predicate Unreleased(s: State, locks: seq<Lock>, i: int, pin: uint8) {
    0 <= i < |s.timers.slots| && s.timers.slots[i].active && s.timers.slots[i].action == LOCK_DEACTIVATE ==>
      !PinOf(locks, s.timers.slots[i].arg, pin)
  }

  ghost predicate Stuck(s: State, locks: seq<Lock>, pin: uint8) {
    pin in s.pulsed && forall i :: Unreleased(s, locks, i, pin)
  }

  lemma {:induction false} StuckThroughUpdate(s: State, locks: seq<Lock>, n: nat, now: nat, pin: uint8)
    requires n <= |s.timers.slots| == |s.timers.ids| && Stuck(s, locks, pin)
    ensures Stuck(UpdateUpTo(s, locks, n, now), locks, pin)
  {
    if n > 0 {
      StuckThroughUpdate(s, locks, n - 1, now, pin);
      var r, r' := UpdateUpTo(s, locks, n - 1, now), UpdateUpTo(s, locks, n, now);
      assert Unreleased(r, locks, n - 1, pin);
      forall i ensures Unreleased(r', locks, i, pin) { assert Unreleased(r, locks, i, pin); }
    }
  }

  lemma {:induction false} StuckStays(s: State, locks: seq<Lock>, times: seq<nat>, pin: uint8)
    requires |s.timers.slots| == |s.timers.ids| && Stuck(s, locks, pin)
    ensures Stuck(Updates(s, locks, times), locks, pin)
  {
    if times != [] {
      var before, now := times[..|times| - 1], times[|times| - 1];
      StuckStays(s, locks, before, pin);
      var r := Updates(s, locks, before);
      StuckThroughUpdate(r, locks, |r.timers.slots|, now, pin);
      var r', u := Updates(s, locks, times), UpdateUpTo(r, locks, |r.timers.slots|, now);
      forall i ensures Unreleased(r', locks, i, pin) { assert Unreleased(u, locks, i, pin); }
    }
  }

  // Slot i holds a deactivation timer that drives this pin and is due.
  ghost predicate Releases(s: State, locks: seq<Lock>, i: int, pin: uint8, now: nat) {
    && 0 <= i < |s.timers.slots| && Due(s.timers.slots[i], now)
    && s.timers.slots[i].action == LOCK_DEACTIVATE && PinOf(locks, s.timers.slots[i].arg, pin)
  }

  ghost predicate ReleasedBelow(s: State, locks: seq<Lock>, n: nat, pin: uint8, now: nat) {
    exists i :: i < n && Releases(s, locks, i, pin, now)
  }

  // What the first n slots do to a pin; the others are as before.
  lemma {:induction false} UpdateReleasesIff(s: State, locks: seq<Lock>, n: nat, now: nat, pin: uint8)
    requires n <= |s.timers.slots| == |s.timers.ids| && pin in s.pulsed
    ensures pin !in UpdateUpTo(s, locks, n, now).pulsed <==> ReleasedBelow(s, locks, n, pin, now)
    ensures forall i :: n <= i < |s.timers.slots| ==> UpdateUpTo(s, locks, n, now).timers.slots[i] == s.timers.slots[i]
  {
    if n > 0 {
      UpdateReleasesIff(s, locks, n - 1, now, pin);
      assert ReleasedBelow(s, locks, n, pin, now) <==>
             ReleasedBelow(s, locks, n - 1, pin, now) || Releases(s, locks, n - 1, pin, now);
      assert pin in PinsOf(locks, s.timers.slots[n - 1].arg) <==> PinOf(locks, s.timers.slots[n - 1].arg, pin);
    }
  }

  // Exactly when an update after an opening releases the lock: the opening found a free slot and 500 ms show on the
  // clock, or an older deactivation timer that drives the pin is due.
  lemma LockIsReleasedIff(s: State, locks: seq<Lock>, door: uint8, pin: uint8, now: nat, u: nat)
    requires |s.timers.slots| == |s.timers.ids| && PinOf(locks, door, pin)
    ensures pin in Opening(s, locks, door, now).pulsed
    ensures pin !in Next(Opening(s, locks, door, now), locks, Update, u).pulsed <==>
            || (FreeSlot(s.timers.slots) < |s.timers.slots| && Elapsed(Millis(now), 500, Millis(u)))
            || ReleasedBelow(s, locks, |s.timers.slots|, pin, u)
  {
    var s', n, f := Opening(s, locks, door, now), |s.timers.slots|, FreeSlot(s.timers.slots);
    assert pin in PinsOf(locks, door);
    UpdateReleasesIff(s', locks, n, u, pin);
    forall i ensures Releases(s', locks, i, pin, u) <==>
                     Releases(s, locks, i, pin, u) || (i == f < n && Elapsed(Millis(now), 500, Millis(u))) {
    }
    if f < n && Elapsed(Millis(now), 500, Millis(u)) { assert Releases(s', locks, f, pin, u); }
    if ReleasedBelow(s, locks, n, pin, u) {
      var i :| i < n && Releases(s, locks, i, pin, u);
      assert Releases(s', locks, i, pin, u);
    }
  }

  ghost predicate OnAfter(s: State, locks: seq<Lock>, times: seq<nat>, pin: uint8)
    requires |s.timers.slots| == |s.timers.ids|
  {
    pin in Updates(s, locks, times).pulsed
  }

  // Without a free slot the scheduling fails and its result is ignored: the lock then stays energised through every
  // sequence of updates, however late, if and only if no active deactivation timer happens to drive it.
  lemma FullTimersLeaveLockOn(s: State, locks: seq<Lock>, door: uint8, pin: uint8, now: nat)
    requires |s.timers.slots| == |s.timers.ids| && FreeSlot(s.timers.slots) == |s.timers.slots|
    requires PinOf(locks, door, pin)
    ensures (forall times :: OnAfter(Opening(s, locks, door, now), locks, times, pin))
            <==> forall i :: Unreleased(s, locks, i, pin)
  {
    var s' := Opening(s, locks, door, now);
    if forall i :: Unreleased(s, locks, i, pin) {
      assert pin in PinsOf(locks, door);
      forall i ensures Unreleased(s', locks, i, pin) { assert Unreleased(s, locks, i, pin); }
      forall times ensures OnAfter(s', locks, times, pin) { StuckStays(s', locks, times, pin); }
    } else {
      var i :| !Unreleased(s, locks, i, pin);
      var times := ReleasedInTime(s, locks, door, pin, now, i);
      assert !OnAfter(s', locks, times, pin);
    }
  }

  // An active deactivation timer that drives the pin releases it when it is due.
  lemma ReleasedInTime(s: State, locks: seq<Lock>, door: uint8, pin: uint8, now: nat, i: int) returns (times: seq<nat>)
    requires |s.timers.slots| == |s.timers.ids| && PinOf(locks, door, pin) && !Unreleased(s, locks, i, pin)
    ensures !OnAfter(Opening(s, locks, door, now), locks, times, pin)
  {
    var s', t := Opening(s, locks, door, now), s.timers.slots[i];
    var u := t.startedAt + t.interval;
    times := [u];
    ExactWithinOneWrap(t.startedAt, t.interval, u);
    assert Releases(s, locks, i, pin, u);
    assert ReleasedBelow(s, locks, |s.timers.slots|, pin, u);
    LockIsReleasedIff(s, locks, door, pin, now, u);
    assert times[..0] == [] && Updates(s', locks, []) == s';
  }

  // ---------- the objects ----------

  predicate Matches(t: Timer<uint32>, m: Timer<nat>) {
    t == Timer(m.active, Millis(m.startedAt), m.interval, m.repeating, m.action, m.arg)
  }

  class TimerManager {
    const timers: array<Timer<uint32>>
    ghost var model: Timers

    ghost predicate Valid()
      reads this, timers
    {
      && timers.Length == |model.slots| == |model.ids| == MAX_TIMERS
      && forall i :: 0 <= i < MAX_TIMERS ==> Matches(timers[i], model.slots[i])
    }

    constructor ()
      ensures Valid() && fresh(timers) && model == NoTimers()
      ensures |model.slots| == 10 && forall i :: 0 <= i < 10 ==> !model.slots[i].active
    {
      timers := new Timer<uint32>[MAX_TIMERS](_ => Timer(false, 0, 0, false, 0, 0));
      model := NoTimers();
    }

    method FindFreeSlot() returns (slot: int)
      requires Valid()
      ensures slot == if FreeSlot(model.slots) < MAX_TIMERS then FreeSlot(model.slots) else -1
    {
      for i := 0 to MAX_TIMERS
        invariant forall k :: 0 <= k < i ==> model.slots[k].active
      {
        if !timers[i].active {
          return i;
        }
      }
      return -1;
    }

    method ScheduleOnce(delayMs: uint32, action: uint8, arg: uint8, ghost now: nat, currentMillis: uint32)
      returns (slot: int)
      requires Valid() && currentMillis == Millis(now)
      modifies this`model, timers
      ensures Valid() && model == Schedule(old(model), Timer(true, now, delayMs, false, action, arg))
      ensures slot == if Accepted(old(model), Timer(true, now, delayMs, false, action, arg))
                      then FreeSlot(old(model.slots)) else -1
    {
      slot := FindFreeSlot();
      if slot < 0 || action == 0 {
        return -1;
      }
      timers[slot] := Timer(true, currentMillis, delayMs, false, action, arg);
      model := Schedule(model, Timer(true, now, delayMs, false, action, arg));
    }

    method ScheduleRepeat(intervalMs: uint32, action: uint8, arg: uint8, ghost now: nat, currentMillis: uint32)
      returns (slot: int)
      requires Valid() && currentMillis == Millis(now)
      modifies this`model, timers
      ensures Valid() && model == Schedule(old(model), Timer(true, now, intervalMs, true, action, arg))
      ensures slot == if Accepted(old(model), Timer(true, now, intervalMs, true, action, arg))
                      then FreeSlot(old(model.slots)) else -1
    {
      slot := FindFreeSlot();
      if slot < 0 || action == 0 || intervalMs == 0 {
        return -1;
      }
      timers[slot] := Timer(true, currentMillis, intervalMs, true, action, arg);
      model := Schedule(model, Timer(true, now, intervalMs, true, action, arg));
    }

    method CancelTimer(timerId: int) returns (cancelled: bool)
      requires Valid()
      modifies this`model, timers
      ensures Valid() && model == Cancel(old(model), timerId) && cancelled == Cancellable(old(model), timerId)
    {
      if timerId < 0 || timerId >= MAX_TIMERS || !timers[timerId].active {
        return false;
      }
      timers[timerId] := timers[timerId].(active := false);
      model := Cancel(model, timerId);
      return true;
    }

    // One slot of an update: restarts or ends a due timer, and says whether its action is to be handled.
    method FireTimer(i: nat, ghost now: nat, currentMillis: uint32) returns (due: bool)
      requires Valid() && i < MAX_TIMERS && currentMillis == Millis(now)
      modifies this`model, timers
      ensures Valid() && due == Due(old(model.slots[i]), now) && model == Fire(old(model), i, now)
      ensures timers[i].action == old(timers[i].action) && timers[i].arg == old(timers[i].arg)
    {
      var t := timers[i];
      due := t.active && Elapsed(t.startedAt, t.interval, currentMillis);
      if due {
        timers[i] := if t.repeating then t.(startedAt := currentMillis) else t.(active := false);
      }
      model := Fire(model, i, now);
    }

    // The timer update of the main loop, with the handler of due actions: only deactivations touch the locks.
    method Update(hal: GpioLocks, ghost now: nat, currentMillis: uint32)
      requires Valid() && hal.Valid() && currentMillis == Millis(now)
      modifies this`model, timers, hal`high, hal`pulsed
      ensures Valid() && hal.Valid()
      ensures State(model, hal.pulsed, 0) ==
              UpdateUpTo(State(old(model), old(hal.pulsed), 0), hal.locks, MAX_TIMERS, now)
    {
      for i := 0 to MAX_TIMERS
        invariant Valid() && hal.Valid()
        invariant State(model, hal.pulsed, 0) == UpdateUpTo(State(old(model), old(hal.pulsed), 0), hal.locks, i, now)
      {
        var due := FireTimer(i, now, currentMillis);
        if due && timers[i].action == LOCK_DEACTIVATE {
          var door := hal.LockDeactivate(timers[i].arg);
        }
      }
    }
  }

  class GpioLocks {
    const locks: seq<Lock>
    var high: set<uint8>
    ghost var pulsed: map<uint8, nat>

    ghost predicate Valid()
      reads this
    {
      high == pulsed.Keys && |locks| < 256
    }

    constructor (mappings: seq<Lock>)
      requires |mappings| < 256
      ensures Valid() && locks == mappings && pulsed == map[]
    {
      locks := mappings;
      high := {};
      pulsed := map[];
    }

    // Pulses every lock of a logical door and schedules the end of the pulse; whether that found a slot is ignored.
    method OpenDoor(timerManager: TimerManager, door: uint8, ghost now: nat, currentMillis: uint32)
      returns (pulsedDoor: uint8)
      requires Valid() && timerManager.Valid() && currentMillis == Millis(now)
      modifies this`high, this`pulsed, timerManager`model, timerManager.timers
      ensures Valid() && timerManager.Valid()
      ensures State(timerManager.model, pulsed, 0) ==
              Opening(State(old(timerManager.model), old(pulsed), 0), locks, door, now)
      ensures pulsedDoor == if PinsOf(locks, door) == {} then DOOR_UNKNOWN else door
    {
      var lockActivated := ActivateLocks(door, now);
      if lockActivated {
        var slot := timerManager.ScheduleOnce(DOOR_DELAY, LOCK_DEACTIVATE, door, now, currentMillis);
        return door;
      }
      return DOOR_UNKNOWN;
    }

    method ActivateLocks(door: uint8, ghost now: nat) returns (lockActivated: bool)
      requires Valid()
      modifies this`high, this`pulsed
      ensures Valid() && pulsed == Pulse(old(pulsed), PinsOf(locks, door), now)
      ensures lockActivated <==> PinsOf(locks, door) != {}
    {
      lockActivated := false;
      for i := 0 to |locks|
        invariant Valid()
        invariant pulsed == Pulse(old(pulsed), PinsOf(locks[..i], door), now)
        invariant lockActivated <==> PinsOf(locks[..i], door) != {}
      {
        PulseStep(old(pulsed), locks, i, door, now);
        if locks[i].logDoor == door && locks[i].pin != INVALID_PIN {
          high := high + {locks[i].pin};
          pulsed := pulsed[locks[i].pin := now];
          lockActivated := true;
        }
      }
      assert locks[..|locks|] == locks;
    }

    method LockDeactivate(door: uint8) returns (released: uint8)
      requires Valid()
      modifies this`high, this`pulsed
      ensures Valid() && pulsed == old(pulsed) - PinsOf(locks, door)
      ensures released == if PinsOf(locks, door) == {} then DOOR_UNKNOWN else door
    {
      var lockDeactivated := false;
      for i := 0 to |locks|
        invariant Valid() && pulsed == old(pulsed) - PinsOf(locks[..i], door)
        invariant lockDeactivated <==> PinsOf(locks[..i], door) != {}
      {
        PinsGrow(locks, i, door);
        if locks[i].logDoor == door && locks[i].pin != INVALID_PIN {
          high := high - {locks[i].pin};
          pulsed := pulsed - {locks[i].pin};
          lockDeactivated := true;
        }
      }
      assert locks[..|locks|] == locks;
      return if lockDeactivated then door else DOOR_UNKNOWN;
    }
  }

  lemma PulseStep(pulsed: map<uint8, nat>, locks: seq<Lock>, i: nat, door: uint8, now: nat)
    requires i < |locks|
    ensures var drives := locks[i].logDoor == door && locks[i].pin != INVALID_PIN;
            var was, more := PinsOf(locks[..i], door), PinsOf(locks[..i + 1], door);
            && (more != {} <==> was != {} || drives)
            && Pulse(pulsed, more, now) ==
               if drives then Pulse(pulsed, was, now)[locks[i].pin := now] else Pulse(pulsed, was, now)
  {
    PinsGrow(locks, i, door);
    PulseGrows(pulsed, PinsOf(locks[..i], door), locks[i].pin, now);
  }

  lemma PulseGrows(pulsed: map<uint8, nat>, pins: set<uint8>, pin: uint8, now: nat)
    ensures Pulse(pulsed, pins + {pin}, now) == Pulse(pulsed, pins, now)[pin := now]
  {
  }

  lemma PinsGrow(locks: seq<Lock>, i: nat, door: uint8)
    requires i < |locks|
    ensures PinsOf(locks[..i + 1], door) ==
            PinsOf(locks[..i], door)
            + if locks[i].logDoor == door && locks[i].pin != INVALID_PIN then {locks[i].pin} else {}
  {
    var was, more := locks[..i], locks[..i + 1];
    forall pin: uint8 ensures PinOf(more, door, pin) <==> PinOf(was, door, pin) || Drives(more, i, door, pin) {
      assert forall k :: k != i ==> (Drives(more, k, door, pin) <==> Drives(was, k, door, pin));
      assert !Drives(was, i, door, pin);
    }
  }
}
