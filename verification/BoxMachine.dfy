/**
 The access-control state machine (src/state_machine.cpp) as a function on values.

 Time stamps are instants of the unbounded clock; every comparison goes through the low
 32 bits the firmware sees. The class in BoxStateMachine.dfy keeps only those bits.
 */
module BoxMachine {
  import opened Basics
  import opened Timeout
  import CredTypes
  import CredCache

  const PASS_ERR_DELAY_MS := 5000
  const PASS_ERR_MAXMULTIPLY := 7
  const PASS_ENTRY_TIMEOUT_MS: uint32 := 30000
  const SCAN_TIMEOUT_MS: uint32 := 9000
  const PRESENCE_VALIDITY_MS: uint32 := 30000
  const AMBIENT_TIMEOUT_MS: uint32 := 5000
  const DOOR_OPENING_TIMEOUT_MS: uint32 := 1000

  datatype BoxState = Home | Password | Presence | Opening | Open | Closed | External | BadPass | Scan

  datatype UIAction = NoAction | DisableControls | EnableControls

  // The door to open and how it was granted.
  datatype Grant = Grant(door: uint8, verified: bool, scanned: bool)

  // Failed attempts in a row and the running penalty. T is the type of time stamps.
  datatype Penalty<T> = Penalty(count: uint8, active: bool, millis: uint32, at: T)

  datatype Timers<T> = Timers(
    passwordAt: T, passwordMillis: uint32, scanAt: T, presenceAt: T, presenceActive: bool,
    doorOpenAt: T, doorOpenMillis: uint32, ambientAt: T)

  datatype Context<T> = Context(
    state: BoxState, grant: Grant, retryScan: bool, penalty: Penalty<T>, timers: Timers<T>, ui: UIAction, light: bool)

  datatype Event =
    | Key1 | Key2 | Key3 | Enter(pin: string) | Cancel
    | WebOpen(door: uint8)
    | DoorOpened(door: uint8) | DoorClosed(door: uint8)
    | PasswordTimeout | PresenceTimeout | AmbientTimeout | DoorOpenTimeout | ScanTimeout
    | ScannerCode(text: string) | ScannerFailed | ScannerInvalid
    | Tick

  datatype Input = Input(event: Event, env: Env)

  // What the surroundings supply while one event is handled: the clock, the clock again when a lock is
  // pulsed, the wall clock, the logical doors whose contacts read open, and those that have a lock.
  datatype Env = Env(now: nat, lockAt: nat, wall: nat, openDoors: set<uint8>, lockDoors: set<uint8>)

  // verifiedDoor is history: the door of the last successful verification.
  datatype Machine = Machine(ctx: Context<nat>, store: CredCache.Store, keepCred: bool, verifiedDoor: uint8)

  predicate Due(start: nat, length: uint32, now: nat) {
    Elapsed(Millis(start), length, Millis(now))
  }

  function PenaltyMillis(badCount: nat): uint32 {
    PASS_ERR_DELAY_MS * if badCount > PASS_ERR_MAXMULTIPLY then PASS_ERR_MAXMULTIPLY else badCount
  }

  predicate Pending(p: Penalty<nat>, now: nat) {
    p.active && !Due(p.at, p.millis, now)
  }

  const BOOT: Context<nat> := Context(
    BoxState.Home, Grant(0, false, false), false, Penalty(0, false, 0, 0), Timers(0, 0, 0, 0, false, 0, 0, 0),
    EnableControls, false)

  // ---------- transitions, part by part of the context ----------

  function NewGrant(g: Grant, to: BoxState): Grant {
    match to
    case Home => g.(verified := false, scanned := false)
    case Scan => g.(verified := false, scanned := false)
    case Open => g.(verified := false, scanned := false)
    case Closed => g.(door := DOOR_UNKNOWN)
    case _ => g
  }

  function NewPenalty(p: Penalty<nat>, to: BoxState, now: nat): Penalty<nat> {
    match to
    case Password => p.(active := false, millis := 0, at := 0)
    case Scan => p.(active := false, millis := 0)
    case BadPass => if Pending(p, now) then p else Penalty(p.count, true, PenaltyMillis(p.count), now)
    case _ => p
  }

  function StoppedTimers(t: Timers<nat>, from: BoxState): Timers<nat> {
    match from
    case Password => t.(passwordAt := 0, passwordMillis := 0)
    case Scan => t.(scanAt := 0)
    case Opening => t.(doorOpenAt := 0)
    case _ => t
  }

  function StartedTimers(t: Timers<nat>, to: BoxState, env: Env, pulsed: bool): Timers<nat> {
    match to
    case Password => t.(passwordAt := env.now, passwordMillis := PASS_ENTRY_TIMEOUT_MS)
    case Scan => t.(scanAt := env.now)
    case Presence => t.(presenceAt := env.now, presenceActive := true)
    case Opening => t.(doorOpenAt := env.lockAt, doorOpenMillis := if pulsed then DOOR_OPENING_TIMEOUT_MS else 0)
    case Closed => t.(ambientAt := env.now)
    case _ => t
  }

  function NewUI(ui: UIAction, to: BoxState): UIAction {
    match to
    case Home => EnableControls
    case Password => DisableControls
    case Scan => DisableControls
    case Opening => DisableControls
    case _ => ui
  }

  function NewLight(light: bool, from: BoxState, to: BoxState, pulsed: bool): bool {
    if to == BoxState.Home then false
    else if to == BoxState.Opening && pulsed then true
    else light && from != BoxState.Closed
  }

  predicate Consumes(m: Machine, to: BoxState) {
    to == BoxState.Open && m.ctx.grant.verified && !(m.keepCred && m.ctx.grant.scanned)
  }

  predicate Pulsed(m: Machine, env: Env) {
    m.ctx.grant.door != DOOR_UNKNOWN && m.ctx.grant.door in env.lockDoors
  }

  function NewStore(m: Machine, to: BoxState, env: Env): CredCache.Store {
    if Consumes(m, to) then CredCache.UsedCred(m.store, m.ctx.grant.door, env.wall).0 else m.store
  }

  function NewContext(c: Context<nat>, to: BoxState, env: Env, pulsed: bool): Context<nat> {
    Context(to, NewGrant(c.grant, to),
            if to == BoxState.Password then false else c.retryScan,
            NewPenalty(c.penalty, to, env.now),
            StartedTimers(StoppedTimers(c.timers, c.state), to, env, pulsed),
            NewUI(c.ui, to),
            NewLight(c.light, c.state, to, pulsed))
  }

  function Go(m: Machine, to: BoxState, env: Env): Machine {
    if to == m.ctx.state then m
    else m.(ctx := NewContext(m.ctx, to, env, Pulsed(m, env)), store := NewStore(m, to, env))
  }

  // ---------- events ----------

  // This input is a PIN or scan attempt.
  predicate IsAttempt(m: Machine, x: Input) {
    || (m.ctx.state == BoxState.Password && x.event.Enter?)
    || (m.ctx.state == BoxState.Scan && (x.event.ScannerCode? || x.event.ScannerInvalid?)
        && !Due(m.ctx.timers.scanAt, SCAN_TIMEOUT_MS, x.env.now))
  }

  // The credential store after an attempt, and the door it grants.
  function Answer(m: Machine, x: Input): (CredCache.Store, uint8)
    requires IsAttempt(m, x)
  {
    match x.event
    case Enter(pin) => CredCache.VerifyCred(m.store, pin, CredTypes.Password, x.env.wall)
    case ScannerCode(text) => CredCache.VerifyCred(m.store, text, CredTypes.PacketNumber, x.env.wall)
    case _ => (m.store, DOOR_UNKNOWN)
  }

  function Judge(c: Context<nat>, door: uint8, scanned: bool): Context<nat> {
    if door != DOOR_UNKNOWN then
      c.(grant := Grant(door, true, scanned), penalty := c.penalty.(count := 0))
    else
      c.(grant := c.grant.(door := door), retryScan := scanned,
         penalty := c.penalty.(count := if c.penalty.count < 255 then c.penalty.count + 1 else 255))
  }

  // Expiry of the penalty and of the presence code, whatever the state.
  function Expire(c: Context<nat>, now: nat): Context<nat> {
    c.(penalty := c.penalty.(active := Pending(c.penalty, now)),
       timers := c.timers.(presenceActive :=
         c.timers.presenceActive && !Due(c.timers.presenceAt, PRESENCE_VALIDITY_MS, now)))
  }

  // A key in Home leads back to a penalty that is still running.
  predicate Resumes(m: Machine, x: Input) {
    m.ctx.state == BoxState.Home && Pending(m.ctx.penalty, x.env.now)
  }

  // What handling an input changes before the transition...
  function Prepare(m: Machine, x: Input): Machine {
    if IsAttempt(m, x) then
      var (store, door) := Answer(m, x);
      m.(ctx := Judge(m.ctx, door, m.ctx.state == BoxState.Scan), store := store,
         verifiedDoor := if door != DOOR_UNKNOWN then door else m.verifiedDoor)
    else match x.event
      case WebOpen(door) => m.(ctx := m.ctx.(grant := Grant(door, false, false)))
      case Tick => m.(ctx := Expire(m.ctx, x.env.now))
      case Key1 => if Resumes(m, x) then m.(ctx := m.ctx.(retryScan := false)) else m
      case Key3 => if Resumes(m, x) then m.(ctx := m.ctx.(retryScan := true)) else m
      case _ => m
  }

  // ... and the state it leads to.
  function Target(m: Machine, x: Input): BoxState {
    var c := m.ctx;
    if IsAttempt(m, x) then (if Answer(m, x).1 == DOOR_UNKNOWN then BoxState.BadPass else BoxState.Opening)
    else if x.event.WebOpen? then BoxState.Opening
    else if x.event.Tick? then TickTarget(c, x.env)
    else match c.state
      case Home =>
        if x.event.Key1? then (if Resumes(m, x) then BoxState.BadPass else BoxState.Password)
        else if x.event.Key2? then BoxState.Presence
        else if x.event.Key3? then (if Resumes(m, x) then BoxState.BadPass else BoxState.Scan)
        else c.state
      case Password => if x.event.Cancel? || x.event.PasswordTimeout? then BoxState.Home else c.state
      case Presence => if x.event.Cancel? || x.event.PresenceTimeout? then BoxState.Home else c.state
      case BadPass => if x.event.Cancel? then BoxState.Home else c.state
      case Scan =>
        if x.event in {Cancel, ScanTimeout, ScannerFailed} || x.event.ScannerCode? || x.event.ScannerInvalid?
        then BoxState.Home else c.state
      case Opening =>
        if x.event == DoorOpened(c.grant.door) then BoxState.Open
        else if x.event.DoorOpenTimeout? then BoxState.Home else c.state
      case Open => if x.event == DoorClosed(c.grant.door) then BoxState.Closed else c.state
      case Closed => if x.event.AmbientTimeout? then BoxState.Home else c.state
      case External => c.state
  }

  function TickTarget(c: Context<nat>, env: Env): BoxState {
    var t := c.timers;
    match c.state
    case Password => if Due(t.passwordAt, t.passwordMillis, env.now) then BoxState.Home else c.state
    case Scan => if Due(t.scanAt, SCAN_TIMEOUT_MS, env.now) then BoxState.Home else c.state
    case BadPass =>
      if !Due(c.penalty.at, c.penalty.millis, env.now) then c.state
      else if c.retryScan then BoxState.Scan else BoxState.Password
    case Presence => if Due(t.presenceAt, PRESENCE_VALIDITY_MS, env.now) then BoxState.Home else c.state
    case Opening =>
      if c.grant.door in env.openDoors then BoxState.Open
      else if Due(t.doorOpenAt, t.doorOpenMillis, env.now) then BoxState.Home else c.state
    case Closed => if Due(t.ambientAt, AMBIENT_TIMEOUT_MS, env.now) then BoxState.Home else c.state
    case _ => c.state
  }

  function Step(m: Machine, x: Input): Machine {
    Go(Prepare(m, x), Target(m, x), x.env)
  }
}
