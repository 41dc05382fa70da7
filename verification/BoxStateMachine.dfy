/**
 The BoxStateMachine object (src/state_machine.cpp, include/state_machine.h). It keeps
 32-bit time stamps; its ghost model keeps the real instants they stand for. Every handler
 is proved to take the step of BoxMachine.
 */
module BoxStateMachineObject {
  import opened Basics
  import opened Timeout
  import opened BoxMachine
  import opened CredStorageObject
  import CredTypes

  ghost function SeenPenalty(p: Penalty<nat>): Penalty<uint32> {
    Penalty(p.count, p.active, p.millis, Millis(p.at))
  }

  ghost function SeenTimers(t: Timers<nat>): Timers<uint32> {
    Timers(Millis(t.passwordAt), t.passwordMillis, Millis(t.scanAt), Millis(t.presenceAt), t.presenceActive,
           Millis(t.doorOpenAt), t.doorOpenMillis, Millis(t.ambientAt))
  }

  // What is left of a context when only the low 32 bits of its time stamps are kept.
  ghost function Seen(c: Context<nat>): Context<uint32> {
    Context(c.state, c.grant, c.retryScan, SeenPenalty(c.penalty), SeenTimers(c.timers), c.ui, c.light)
  }

  ghost function ExitContext(c: Context<nat>): Context<nat> {
    c.(timers := StoppedTimers(c.timers, c.state), light := c.light && c.state != Closed)
  }

  ghost function EnterContext(c: Context<nat>, to: BoxState, env: Env, pulsed: bool): Context<nat> {
    Context(to, NewGrant(c.grant, to),
            if to == Password then false else c.retryScan, NewPenalty(c.penalty, to, env.now),
            StartedTimers(c.timers, to, env, pulsed), NewUI(c.ui, to),
            if to == Home then false else c.light || (to == Opening && pulsed))
  }

  class BoxStateMachine {
    var context: Context<uint32>
    var scannerTestKeepCred: bool
    const credStorage: CredStorage
    ghost var model: Context<nat>
    ghost var verifiedDoor: uint8

    ghost predicate Valid()
      reads this
    {
      context == Seen(model)
    }

    ghost function Value(): Machine
      reads this, credStorage
    {
      Machine(model, credStorage.State(), scannerTestKeepCred, verifiedDoor)
    }

    constructor (credStorage: CredStorage, keepCred: bool)
      ensures Valid() && model == BOOT && this.credStorage == credStorage && scannerTestKeepCred == keepCred
    {
      this.credStorage := credStorage;
      scannerTestKeepCred, model, verifiedDoor := keepCred, BOOT, 0;
      context := Context(Home, Grant(0, false, false), false, Penalty(0, false, 0, 0),
                         Timers(0, 0, 0, 0, false, 0, 0, 0), EnableControls, false);
    }

    // ---------- exit and entry actions ----------

    method OnExit()
      requires Valid()
      modifies this`context, this`model
      ensures Valid() && model == ExitContext(old(model))
    {
      model := ExitContext(model);
      match context.state
      case Password => context := context.(timers := context.timers.(passwordAt := 0, passwordMillis := 0));
      case Scan => context := context.(timers := context.timers.(scanAt := 0));
      case Opening => context := context.(timers := context.timers.(doorOpenAt := 0));
      case Closed => context := context.(light := false);
      case _ =>
    }

    method OnEnterHome(ghost env: Env)
      requires Valid()
      modifies this`context, this`model
      ensures Valid() && model == EnterContext(old(model), Home, env, false)
    {
      context := context.(state := Home, light := false);
      context := context.(grant := context.grant.(verified := false), ui := EnableControls);
      context := context.(grant := context.grant.(scanned := false));
      model := EnterContext(model, Home, env, false);
    }

    method OnEnterPassword(currentMillis: uint32, ghost env: Env)
      requires Valid() && currentMillis == Millis(env.now)
      modifies this`context, this`model
      ensures Valid() && model == EnterContext(old(model), Password, env, false)
    {
      context := context.(state := Password, ui := DisableControls, retryScan := false);
      context := context.(penalty := context.penalty.(at := 0, millis := 0, active := false));
      context := context.(timers := context.timers.(
        passwordMillis := PASS_ENTRY_TIMEOUT_MS, passwordAt := currentMillis));
      model := EnterContext(model, Password, env, false);
    }

    method OnEnterScan(currentMillis: uint32, ghost env: Env)
      requires Valid() && currentMillis == Millis(env.now)
      modifies this`context, this`model
      ensures Valid() && model == EnterContext(old(model), Scan, env, false)
    {
      context := context.(state := Scan, ui := DisableControls, timers := context.timers.(scanAt := currentMillis));
      context := context.(grant := context.grant.(verified := false, scanned := false));
      context := context.(penalty := context.penalty.(active := false, millis := 0));
      model := EnterContext(model, Scan, env, false);
    }

    method OnEnterPresence(currentMillis: uint32, ghost env: Env)
      requires Valid() && currentMillis == Millis(env.now)
      modifies this`context, this`model
      ensures Valid() && model == EnterContext(old(model), Presence, env, false)
    {
      context := context.(state := Presence);
      context := context.(timers := context.timers.(presenceAt := currentMillis, presenceActive := true));
      model := EnterContext(model, Presence, env, false);
    }

    method OnEnterOpening(env: Env)
      requires Valid()
      modifies this`context, this`model
      ensures Valid() && model == EnterContext(old(model), Opening, env, old(Pulsed(Value(), env)))
    {
      context := context.(state := Opening, ui := DisableControls);
      var currentMillis := Millis(env.lockAt);
      var pulsed := context.grant.door != DOOR_UNKNOWN && context.grant.door in env.lockDoors;
      if pulsed {
        context := context.(timers := context.timers.(
          doorOpenAt := currentMillis, doorOpenMillis := DOOR_OPENING_TIMEOUT_MS));
        context := context.(light := true);
      } else {
        context := context.(timers := context.timers.(doorOpenAt := currentMillis, doorOpenMillis := 0));
      }
      model := EnterContext(model, Opening, env, pulsed);
    }

    method OnEnterOpen(env: Env)
      requires Valid()
      modifies this`context, this`model, credStorage
      ensures Valid() && model == EnterContext(old(model), Open, env, false)
      ensures credStorage.State() == NewStore(old(Value()), Open, env)
    {
      var consumeCred := context.grant.verified;
      if scannerTestKeepCred && context.grant.scanned { consumeCred := false; }
      if consumeCred {
        var _ := credStorage.UsedCred(context.grant.door, env.wall);
      }
      context := context.(state := Open, grant := context.grant.(verified := false));
      context := context.(grant := context.grant.(scanned := false));
      model := EnterContext(model, Open, env, false);
    }

    method OnEnterClosed(currentMillis: uint32, ghost env: Env)
      requires Valid() && currentMillis == Millis(env.now)
      modifies this`context, this`model
      ensures Valid() && model == EnterContext(old(model), Closed, env, false)
    {
      context := context.(state := Closed, timers := context.timers.(ambientAt := currentMillis));
      context := context.(grant := context.grant.(door := DOOR_UNKNOWN));
      model := EnterContext(model, Closed, env, false);
    }

    method OnEnterBadPass(currentMillis: uint32, ghost env: Env)
      requires Valid() && currentMillis == Millis(env.now)
      modifies this`context, this`model
      ensures Valid() && model == EnterContext(old(model), BadPass, env, false)
    {
      context := context.(state := BadPass);
      var p := context.penalty;
      if !p.active || Elapsed(p.at, p.millis, currentMillis) {
        var delayMs;
        if p.count > PASS_ERR_MAXMULTIPLY {
          delayMs := PASS_ERR_DELAY_MS * PASS_ERR_MAXMULTIPLY;
        } else {
          delayMs := PASS_ERR_DELAY_MS * p.count;
        }
        context := context.(penalty := Penalty(p.count, true, delayMs, currentMillis));
      }
      model := EnterContext(model, BadPass, env, false);
    }

    method TransitionTo(newState: BoxState, currentMillis: uint32, env: Env)
      requires Valid() && currentMillis == Millis(env.now)
      modifies this`context, this`model, credStorage
      ensures Valid() && Value() == Go(old(Value()), newState, env)
    {
      if newState == context.state { return; }
      OnExit();
      OnEnter(newState, currentMillis, env);
    }

    method OnEnter(newState: BoxState, currentMillis: uint32, env: Env)
      requires Valid() && currentMillis == Millis(env.now)
      modifies this`context, this`model, credStorage
      ensures Valid() && model == EnterContext(old(model), newState, env, old(Pulsed(Value(), env)))
      ensures credStorage.State() == NewStore(old(Value()), newState, env)
    {
      match newState
      case Home => OnEnterHome(env);
      case Password => OnEnterPassword(currentMillis, env);
      case Scan => OnEnterScan(currentMillis, env);
      case Presence => OnEnterPresence(currentMillis, env);
      case Opening => OnEnterOpening(env);
      case Open => OnEnterOpen(env);
      case Closed => OnEnterClosed(currentMillis, env);
      case External =>
        context, model := context.(state := External), EnterContext(model, External, env, false);
      case BadPass => OnEnterBadPass(currentMillis, env);
    }

    // ---------- event handlers ----------

    // After a verification of the entered credential.
    method Conclude(door: uint8, scanned: bool, currentMillis: uint32, env: Env)
      requires Valid() && currentMillis == Millis(env.now) && scanned == (context.state == Scan)
      modifies this`context, this`model, this`verifiedDoor, credStorage
      ensures Valid()
      ensures var m := old(Value());
              Value() == Go(m.(ctx := Judge(m.ctx, door, scanned),
                               verifiedDoor := if door != DOOR_UNKNOWN then door else m.verifiedDoor),
                            if door == DOOR_UNKNOWN then BadPass else Opening, env)
    {
      context := context.(grant := context.grant.(door := door));
      model := Judge(model, door, scanned);
      if door != DOOR_UNKNOWN {
        verifiedDoor := door;
        context := context.(grant := context.grant.(verified := true, scanned := scanned));
        context := context.(penalty := context.penalty.(count := 0));
        TransitionTo(Opening, currentMillis, env);
      } else {
        context := context.(retryScan := scanned);
        if context.penalty.count < 255 {
          context := context.(penalty := context.penalty.(count := context.penalty.count + 1));
        }
        TransitionTo(BadPass, currentMillis, env);
      }
    }

    // A key in Home that starts a PIN entry or a scan.
    method StartEntry(to: BoxState, currentMillis: uint32, env: Env)
      requires Valid() && currentMillis == Millis(env.now) && context.state == Home && to in {Password, Scan}
      modifies this`context, this`model, credStorage
      ensures Valid()
      ensures Value() == Step(old(Value()), Input(if to == Scan then Key3 else Key1, env))
    {
      var p := context.penalty;
      if p.active && !Elapsed(p.at, p.millis, currentMillis) {
        context, model := context.(retryScan := to == Scan), model.(retryScan := to == Scan);
        TransitionTo(BadPass, currentMillis, env);
      } else {
        TransitionTo(to, currentMillis, env);
      }
    }

    method EnterPin(pin: string, currentMillis: uint32, env: Env)
      requires Valid() && currentMillis == Millis(env.now) && context.state == Password
      modifies this`context, this`model, this`verifiedDoor, credStorage
      ensures Valid() && Value() == Step(old(Value()), Input(Enter(pin), env))
    {
      var door := credStorage.VerifyCred(pin, CredTypes.Password, env.wall);
      Conclude(door, false, currentMillis, env);
    }

    method HandleHomeKey(event: Event, currentMillis: uint32, env: Env)
      requires Valid() && currentMillis == Millis(env.now) && context.state == Home
      requires event.Key1? || event.Key2? || event.Key3? || event.Enter? || event.Cancel?
      modifies this`context, this`model, this`verifiedDoor, credStorage
      ensures Valid() && Value() == Step(old(Value()), Input(event, env))
    {
      if event.Key1? {
        StartEntry(Password, currentMillis, env);
      } else if event.Key2? {
        TransitionTo(Presence, currentMillis, env);
      } else if event.Key3? {
        StartEntry(Scan, currentMillis, env);
      }
    }

    method HandleKeyboardEvent(event: Event, currentMillis: uint32, env: Env)
      requires Valid() && currentMillis == Millis(env.now)
      requires event.Key1? || event.Key2? || event.Key3? || event.Enter? || event.Cancel?
      modifies this`context, this`model, this`verifiedDoor, credStorage
      ensures Valid() && Value() == Step(old(Value()), Input(event, env))
    {
      match context.state
      case Home => HandleHomeKey(event, currentMillis, env);
      case Password =>
        if event.Enter? {
          EnterPin(event.pin, currentMillis, env);
        } else if event.Cancel? {
          TransitionTo(Home, currentMillis, env);
        }
      case BadPass => if event.Cancel? { TransitionTo(Home, currentMillis, env); }
      case Presence => if event.Cancel? { TransitionTo(Home, currentMillis, env); }
      case Scan => if event.Cancel? { TransitionTo(Home, currentMillis, env); }
      case _ =>
    }

    method AcceptScan(event: Event, currentMillis: uint32, env: Env)
      requires Valid() && currentMillis == Millis(env.now) && (event.ScannerCode? || event.ScannerInvalid?)
      requires context.state == Scan && !Elapsed(context.timers.scanAt, SCAN_TIMEOUT_MS, currentMillis)
      modifies this`context, this`model, this`verifiedDoor, credStorage
      ensures Valid() && Value() == Step(old(Value()), Input(event, env))
    {
      var door := DOOR_UNKNOWN;
      if event.ScannerCode? {
        door := credStorage.VerifyCred(event.text, CredTypes.PacketNumber, env.wall);
      }
      Conclude(door, true, currentMillis, env);
    }

    method HandleScannerEvent(event: Event, currentMillis: uint32, env: Env)
      requires Valid() && currentMillis == Millis(env.now)
      requires event.ScannerCode? || event.ScannerFailed? || event.ScannerInvalid?
      modifies this`context, this`model, this`verifiedDoor, credStorage
      ensures Valid() && Value() == Step(old(Value()), Input(event, env))
    {
      if context.state != Scan { return; }
      if Elapsed(context.timers.scanAt, SCAN_TIMEOUT_MS, currentMillis) || event.ScannerFailed? {
        TransitionTo(Home, currentMillis, env);
        return;
      }
      AcceptScan(event, currentMillis, env);
    }

    method HandleWebEvent(event: Event, currentMillis: uint32, env: Env)
      requires Valid() && currentMillis == Millis(env.now) && event.WebOpen?
      modifies this`context, this`model, credStorage
      ensures Valid() && Value() == Step(old(Value()), Input(event, env))
    {
      context := context.(grant := context.grant.(door := event.door));
      context := context.(grant := context.grant.(verified := false, scanned := false));
      model := model.(grant := Grant(event.door, false, false));
      TransitionTo(Opening, currentMillis, env);
    }

    method HandleSensorEvent(event: Event, currentMillis: uint32, env: Env)
      requires Valid() && currentMillis == Millis(env.now) && (event.DoorOpened? || event.DoorClosed?)
      modifies this`context, this`model, credStorage
      ensures Valid() && Value() == Step(old(Value()), Input(event, env))
    {
      match context.state
      case Opening =>
        if event.DoorOpened? && event.door == context.grant.door { TransitionTo(Open, currentMillis, env); }
      case Open =>
        if event.DoorClosed? && event.door == context.grant.door { TransitionTo(Closed, currentMillis, env); }
      case _ =>
    }

    method HandleTimerEvent(event: Event, currentMillis: uint32, env: Env)
      requires Valid() && currentMillis == Millis(env.now)
      requires event in {PasswordTimeout, PresenceTimeout, AmbientTimeout, DoorOpenTimeout, ScanTimeout}
      modifies this`context, this`model, credStorage
      ensures Valid() && Value() == Step(old(Value()), Input(event, env))
    {
      match event
      case PasswordTimeout => if context.state == Password { TransitionTo(Home, currentMillis, env); }
      case ScanTimeout => if context.state == Scan { TransitionTo(Home, currentMillis, env); }
      case PresenceTimeout => if context.state == Presence { TransitionTo(Home, currentMillis, env); }
      case AmbientTimeout => if context.state == Closed { TransitionTo(Home, currentMillis, env); }
      case DoorOpenTimeout => if context.state == Opening { TransitionTo(Home, currentMillis, env); }
      case _ =>
    }

    method ProcessEvent(event: Event, env: Env)
      requires Valid() && !event.Tick?
      modifies this`context, this`model, this`verifiedDoor, credStorage
      ensures Valid() && Value() == Step(old(Value()), Input(event, env))
    {
      var currentMillis := Millis(env.now);
      if event.Key1? || event.Key2? || event.Key3? || event.Enter? || event.Cancel? {
        HandleKeyboardEvent(event, currentMillis, env);
      } else if event.WebOpen? {
        HandleWebEvent(event, currentMillis, env);
      } else if event.DoorOpened? || event.DoorClosed? {
        HandleSensorEvent(event, currentMillis, env);
      } else if event.ScannerCode? || event.ScannerFailed? || event.ScannerInvalid? {
        HandleScannerEvent(event, currentMillis, env);
      } else {
        HandleTimerEvent(event, currentMillis, env);
      }
    }

    // The two flags that expire in every state.
    method ExpireFlags(currentMillis: uint32, ghost env: Env)
      requires Valid() && currentMillis == Millis(env.now)
      modifies this`context, this`model
      ensures Valid() && model == Expire(old(model), env.now)
    {
      var p, t := context.penalty, context.timers;
      if p.active && Elapsed(p.at, p.millis, currentMillis) {
        context := context.(penalty := p.(active := false));
      }
      if t.presenceActive && Elapsed(t.presenceAt, PRESENCE_VALIDITY_MS, currentMillis) {
        context := context.(timers := t.(presenceActive := false));
      }
      model := Expire(model, env.now);
    }

    method TimeTransition(currentMillis: uint32, env: Env)
      requires Valid() && currentMillis == Millis(env.now)
      modifies this`context, this`model, credStorage
      ensures Valid() && Value() == Go(old(Value()), TickTarget(old(model), env), env)
    {
      var p, t := context.penalty, context.timers;
      match context.state
      case Password =>
        if Elapsed(t.passwordAt, t.passwordMillis, currentMillis) { TransitionTo(Home, currentMillis, env); }
      case Scan =>
        if Elapsed(t.scanAt, SCAN_TIMEOUT_MS, currentMillis) { TransitionTo(Home, currentMillis, env); }
      case BadPass =>
        if Elapsed(p.at, p.millis, currentMillis) {
          TransitionTo(if context.retryScan then Scan else Password, currentMillis, env);
        }
      case Presence =>
        if Elapsed(t.presenceAt, PRESENCE_VALIDITY_MS, currentMillis) { TransitionTo(Home, currentMillis, env); }
      case Opening =>
        if context.grant.door in env.openDoors {
          TransitionTo(Open, currentMillis, env);
        } else if Elapsed(t.doorOpenAt, t.doorOpenMillis, currentMillis) {
          TransitionTo(Home, currentMillis, env);
        }
      case Closed =>
        if Elapsed(t.ambientAt, AMBIENT_TIMEOUT_MS, currentMillis) { TransitionTo(Home, currentMillis, env); }
      case _ =>
    }

    method Update(currentMillis: uint32, env: Env)
      requires Valid() && currentMillis == Millis(env.now)
      modifies this`context, this`model, credStorage
      ensures Valid() && Value() == Step(old(Value()), Input(Tick, env))
    {
      ExpireFlags(currentMillis, env);
      TimeTransition(currentMillis, env);
    }
  }
}
