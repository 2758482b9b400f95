/** The controller process: what one command does to the belief, the desired lock and the idle timer,
    as functions, and the objects whose methods carry it out. */
module LockState {
  import opened Prelude

  const NS_PER_MS := 1_000_000
  const NS_PER_MINUTE := 60_000_000_000
  const I64_HALF := 0x8000_0000_0000_0000

  /** How a command sent over a working pipe ends: answered, not executed at all, or executed with
      the reply lost.  On a closed or dead pipe every command fails without effect. */
  datatype Outcome = Answered | NoEffect | ReplyLost

  predicate Succeeds(reachable: bool, o: Outcome) {
    reachable && o.Answered?
  }

  predicate TakesEffect(reachable: bool, o: Outcome) {
    reachable && !o.NoEffect?
  }

  /** A time.AfterFunc timer; it stays in its slot after it has fired. */
  datatype Timer = Timer(deadline: int, fired: bool)

  /** Controller.locked, Manager.locked and the idle timer slot. */
  datatype Belief = Belief(locked: bool, desired: bool, timer: Option<Timer>)

  function AfterLock(b: Belief, ok: bool, deadline: int): Belief {
    if b.locked || !ok then b else Belief(true, true, Some(Timer(deadline, false)))
  }

  function AfterUnlock(b: Belief, ok: bool): Belief {
    if !b.locked || !ok then b else Belief(false, false, None)
  }

  function AfterSync(b: Belief): Belief {
    if b.locked then Belief(false, false, None) else b
  }

  /** One tick of the state-sync poll that nothing interrupts; `status` is the answer, if there is one. */
  function AfterTick(b: Belief, status: Option<bool>): Belief {
    if status == Some(false) then AfterSync(b) else b
  }

  /** How the steps of a restart that depend on the outside world turn out. */
  datatype RestartOutcome = RestartOutcome(cancelled: bool, started: bool, connected: bool, restore: Outcome)

  predicate Completes(out: RestartOutcome) {
    !out.cancelled && out.started && out.connected
  }

  /** The flag of the sentinel after a restart that nothing interrupts. */
  function AfterRestart(sentinelLocked: bool, desired: bool, up: bool, out: RestartOutcome): bool {
    sentinelLocked || (Completes(out) && desired && TakesEffect(up, out.restore))
  }

  // ----- the idle duration -----

  /** Go's signed 64-bit wrap-around. */
  function Wrap64(x: int): int {
    (x + I64_HALF) % (2 * I64_HALF) - I64_HALF
  }

  function IdleDuration(minutes: int): int {
    Wrap64(minutes * NS_PER_MINUTE)
  }

  /** When a timer started at `now` is due. */
  function Deadline(now: int, duration: int): int {
    if duration <= 0 then now else now + duration
  }

  /** The result has 64 bits with sign, and differs from the argument by a multiple of 2 to the 64th. */
  lemma WrapsTo64Bits(x: int)
    ensures -0x8000_0000_0000_0000 <= Wrap64(x) < 0x8000_0000_0000_0000
    ensures (Wrap64(x) - x) % 0x1_0000_0000_0000_0000 == 0
  {
    var m := 2 * I64_HALF;
    var y := x + I64_HALF;
    assert y == m * (y / m) + y % m;
    assert Wrap64(x) - x == m * -(y / m);
  }

  const MAX_EXACT_MINUTES := 153_722_867

  /** Validation only demands one minute.  Among the values it accepts, the duration is the configured
      one exactly up to 153722867 minutes. */
  lemma IdleDurationExactIff(minutes: int)
    requires 1 <= minutes < I64_HALF
    ensures IdleDuration(minutes) == minutes * NS_PER_MINUTE <==> minutes <= MAX_EXACT_MINUTES
    ensures IdleDuration(minutes) == minutes * 60 * 1_000_000_000 <==> minutes <= 153_722_867
  {
  }

  /** One minute more and the timer is due at once. */
  lemma IdleDurationOverflows(now: int)
    ensures IdleDuration(MAX_EXACT_MINUTES + 1) < 0
    ensures Deadline(now, IdleDuration(MAX_EXACT_MINUTES + 1)) == now
  {
  }
}

module Controller {
  import opened Prelude
  import opened LockState

  /** A sentinel process at the far end of a pipe. */
  class Process {
    var alive: bool
    var locked: bool

    constructor ()
      ensures alive && !locked
    {
      alive, locked := true, false;
    }
  }

  class Client {
    const process: Process
    var open: bool

    constructor (process: Process)
      ensures this.process == process && open
    {
      this.process := process;
      open := true;
    }

    predicate Reachable()
      reads this, process
    {
      open && process.alive
    }

    method Lock(o: Outcome) returns (ok: bool)
      modifies process`locked
      ensures ok == Succeeds(Reachable(), o)
      ensures process.locked == (old(process.locked) || TakesEffect(Reachable(), o))
    {
      if open && process.alive && !o.NoEffect? {
        process.locked := true;
      }
      ok := open && process.alive && o.Answered?;
    }

    method Unlock(o: Outcome) returns (ok: bool)
      modifies process`locked
      ensures ok == Succeeds(Reachable(), o)
      ensures process.locked == (old(process.locked) && !TakesEffect(Reachable(), o))
    {
      if open && process.alive && !o.NoEffect? {
        process.locked := false;
      }
      ok := open && process.alive && o.Answered?;
    }

    method Status(o: Outcome) returns (r: Option<bool>)
      ensures r == if Succeeds(Reachable(), o) then Some(process.locked) else None
    {
      if open && process.alive && o.Answered? {
        r := Some(process.locked);
      } else {
        r := None;
      }
    }

    method Close()
      modifies this`open
      ensures !open
    {
      open := false;
    }
  }

  class IdleTimeout {
    const duration: int
    var timer: Option<Timer>

    constructor (minutes: int)
      ensures duration == IdleDuration(minutes) && timer == None
    {
      duration := IdleDuration(minutes);
      timer := None;
    }

    method Start(now: int)
      modifies this`timer
      ensures timer == Some(Timer(Deadline(now, duration), false))
    {
      timer := Some(Timer(Deadline(now, duration), false));
    }

    method Stop()
      modifies this`timer
      ensures timer == None
    {
      if timer.Some? {
        timer := None;
      }
    }
  }

  class Manager {
    var client: Client?
    var locked: bool

    constructor ()
      ensures client == null && !locked
    {
      client, locked := null, false;
    }

    method SetDesiredLock(locked: bool)
      modifies this`locked
      ensures this.locked == locked
    {
      this.locked := locked;
    }

    /** A restart from closing the old client to installing the new one, run without interference.
        `process` is the sentinel that listens once a process has been started: a new one, or the old
        one if it survived.  The belief and the desired lock are never touched; the desired lock is
        sent only if it is set; the controller gets the new client exactly when the manager has one. */
    method Restart(ctrl: LockController, process: Process, out: RestartOutcome)
      requires ctrl.mgr == this
      modifies this`client, client, ctrl`client, process`locked
      ensures old(client) != null ==> !old(client).open
      ensures client != null <==> Completes(out)
      ensures Completes(out) ==> fresh(client) && client.open && client.process == process && ctrl.client == client
      ensures !Completes(out) ==> ctrl.client == old(ctrl.client)
      ensures process.locked == AfterRestart(old(process.locked), locked, process.alive, out)
      ensures ctrl.Belief() == old(ctrl.Belief())
    {
      if client != null {
        client.Close();
        client := null;
      }
      if out.cancelled {
        return;
      }
      if !out.started {
        return;
      }
      if !out.connected {
        return;
      }
      var newClient := new Client(process);
      client := newClient;
      var wasLocked := locked;
      if wasLocked {
        var restored := newClient.Lock(out.restore);
      }
      ctrl.SetClient(newClient);
    }
  }

  class LockController {
    var client: Client
    var locked: bool
    const mgr: Manager?
    const idle: IdleTimeout
    const lockHotkeyToggle: bool

    constructor (mgr: Manager?, client: Client, idleTimeoutMin: int, lockHotkeyToggle: bool)
      requires mgr != null ==> !mgr.locked
      ensures this.mgr == mgr && this.client == client && this.lockHotkeyToggle == lockHotkeyToggle
      ensures fresh(idle) && idle.duration == IdleDuration(idleTimeoutMin)
      ensures Belief() == LockState.Belief(false, false, None)
    {
      this.mgr := mgr;
      this.client := client;
      this.locked := false;
      this.lockHotkeyToggle := lockHotkeyToggle;
      this.idle := new IdleTimeout(idleTimeoutMin);
    }

    /** Without a manager there is no desired lock to keep; the belief stands in for it. */
    function Belief(): LockState.Belief
      reads this, idle, mgr
    {
      LockState.Belief(locked, if mgr == null then locked else mgr.locked, idle.timer)
    }

    method SetClient(client: Client)
      modifies this`client
      ensures this.client == client
    {
      this.client := client;
    }

    method LockCommand(o: Outcome, now: int) returns (ok: bool)
      modifies this`locked, mgr, idle, client.process`locked
      ensures Belief() == AfterLock(old(Belief()), Succeeds(old(client.Reachable()), o), Deadline(now, idle.duration))
      ensures ok <==> old(locked) || Succeeds(old(client.Reachable()), o)
      ensures client.process.locked
              == (old(client.process.locked) || (!old(locked) && TakesEffect(old(client.Reachable()), o)))
      ensures mgr != null ==> mgr.client == old(mgr.client)
    {
      if locked {
        return true;
      }
      ok := client.Lock(o);
      if !ok {
        return;
      }
      locked := true;
      if mgr != null {
        mgr.SetDesiredLock(true);
      }
      idle.Start(now);
    }

    method UnlockCommand(o: Outcome) returns (ok: bool)
      modifies this`locked, mgr, idle, client.process`locked
      ensures Belief() == AfterUnlock(old(Belief()), Succeeds(old(client.Reachable()), o))
      ensures ok <==> !old(locked) || Succeeds(old(client.Reachable()), o)
      ensures client.process.locked
              == (old(client.process.locked) && !(old(locked) && TakesEffect(old(client.Reachable()), o)))
      ensures mgr != null ==> mgr.client == old(mgr.client)
    {
      if !locked {
        return true;
      }
      ok := client.Unlock(o);
      if !ok {
        return;
      }
      locked := false;
      if mgr != null {
        mgr.SetDesiredLock(false);
      }
      idle.Stop();
    }

    method SyncUnlock()
      modifies this`locked, mgr, idle
      ensures Belief() == AfterSync(old(Belief()))
      ensures mgr != null ==> mgr.client == old(mgr.client)
    {
      if !locked {
        return;
      }
      locked := false;
      if mgr != null {
        mgr.SetDesiredLock(false);
      }
      idle.Stop();
    }

    /** One tick of the state-sync poll, run without interference: a belief that the sentinel contradicts
        is dropped, everything else is left alone. */
    method SyncTick(o: Outcome)
      modifies this`locked, mgr, idle
      ensures Belief() == AfterTick(old(Belief()), if old(locked) && Succeeds(client.Reachable(), o)
                                                   then Some(client.process.locked) else None)
      ensures mgr != null ==> mgr.client == old(mgr.client)
    {
      var isLocked := locked;
      if !isLocked {
        return;
      }
      var status := client.Status(o);
      if status.None? {
        return;
      }
      if !status.value {
        SyncUnlock();
      }
    }

    /** The hotkey locks an unlocked keyboard, and unlocks a locked one only in toggle mode. */
    method HandleHotkey(o: Outcome, now: int)
      modifies this`locked, mgr, idle, client.process`locked
      ensures var ok := Succeeds(old(client.Reachable()), o);
              Belief() == if !old(locked) then AfterLock(old(Belief()), ok, Deadline(now, idle.duration))
                          else if lockHotkeyToggle then AfterUnlock(old(Belief()), ok)
                          else old(Belief())
      ensures var effect := TakesEffect(old(client.Reachable()), o);
              client.process.locked == if !old(locked) then old(client.process.locked) || effect
                                       else if lockHotkeyToggle then old(client.process.locked) && !effect
                                       else old(client.process.locked)
    {
      var isLocked := locked;
      if isLocked {
        if lockHotkeyToggle {
          var ok := UnlockCommand(o);
        }
        return;
      }
      var ok := LockCommand(o, now);
    }

    method Stop()
      modifies idle
      ensures Belief() == old(Belief()).(timer := None)
    {
      idle.Stop();
    }
  }
}
