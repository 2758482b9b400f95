/** The whole system as one state machine: the controller's belief, the manager's desired lock and
    restart procedure, the pipe clients, the idle timer, the state-sync poll, and the sentinel with
    its heartbeat.

    A controller method that holds the mutex, its pipe command included, is one step.  A restart and a
    poll take several steps, and everything else may happen between them. */
module LockProtocol {
  import opened Prelude
  import opened LockState
  import HB = Heartbeat

  /** Where the watchdog goroutine is. */
  datatype Watchdog =
    | Watching                      // between ticks
    | PingFailed                    // about to close the client
    | Sleeping                      // client closed and forgotten
    | Launched                      // process started
    | Connected                     // new client stored
    | Restoring(wasLocked: bool)    // desired lock read
    | Installing                    // lock restored if wanted; the controller still has the old client

  /** Where the state-sync poll is. */
  datatype Poll =
    | NoPoll
    | Asking(client: nat)               // belief read as locked, client copied, mutex released
    | Reported(sentinelLocked: bool)    // answer received, not yet acted on

  /** `live` holds the clients on which a command can still reach a sentinel: not closed by us, and
      connected to a process that is still there.  `lockedAt` (nanoseconds) is not in the program: it
      records when the last lock session began. */
  datatype World = World(
    belief: Belief,
    duration: int,
    ctlClient: nat,
    mgrClient: Option<nat>,
    watchdog: Watchdog,
    poll: Poll,
    live: set<nat>,
    nextClient: nat,
    alive: bool,
    hb: HB.State,
    stopped: bool,
    lockedAt: int
  )

  datatype Action =
    | Lock(o: Outcome)            // LockCommand, from tray, hotkey or control pipe
    | Unlock(o: Outcome)          // UnlockCommand, also from the mouse corner
    | IdleFire(o: Outcome)        // the idle timer is due and its callback unlocks
    | PollRead
    | PollStatus(o: Outcome)
    | PollApply
    | Ping(o: Outcome)
    | CloseOld
    | GiveUp                      // cancelled, or Start or Connect failed
    | Launch
    | Connect
    | ReadDesired
    | Restore(o: Outcome)
    | Install
    | Sentinel(step: HB.Action)   // a step of the hook or of the heartbeat timer
    | Crash                       // the sentinel process ends
    | Advance(ms: nat)
    | StopController
    | StopManager(exits: bool)

  predicate Reachable(w: World, id: nat) {
    id in w.live
  }

  function Now(w: World): int {
    w.hb.clock * NS_PER_MS
  }

  /** The sentinel's own steps: everything but the pipe thread and the clock. */
  predicate OwnStep(a: HB.Action) {
    a.HookUnlock? || HB.IsTimer(a)
  }

  predicate Enabled(w: World, a: Action) {
    match a
    case Lock(_) => true
    case Unlock(_) => true
    case IdleFire(_) =>
      w.belief.timer.Some? && !w.belief.timer.value.fired && w.belief.timer.value.deadline <= Now(w)
    case PollRead => w.poll.NoPoll?
    case PollStatus(_) => w.poll.Asking?
    case PollApply => w.poll.Reported?
    case Ping(_) => w.watchdog.Watching? && w.mgrClient.Some?
    case CloseOld => w.watchdog.PingFailed?
    case GiveUp => w.watchdog.Sleeping? || w.watchdog.Launched?
    case Launch => w.watchdog.Sleeping?
    case Connect => w.watchdog.Launched? && w.alive
    case ReadDesired => w.watchdog.Connected?
    case Restore(_) => w.watchdog.Restoring?
    case Install => w.watchdog.Installing? && w.mgrClient.Some?
    case Sentinel(step) => w.alive && OwnStep(step) && HB.Enabled(w.hb, step)
    case Crash => w.alive
    case Advance(ms) => HB.Enabled(w.hb, HB.Advance(ms))
    case StopController => true
    case StopManager(_) => true
  }

  /** A command sent to the sentinel, carried out if it takes effect. */
  function Send(w: World, effective: bool, run: HB.State -> HB.State): World {
    if effective then w.(hb := run(w.hb)) else w
  }

  function LockAt(w: World, o: Outcome): World {
    if w.belief.locked then w
    else
      var up := Reachable(w, w.ctlClient);
      var ok := Succeeds(up, o);
      Send(w, TakesEffect(up, o), HB.Locking).(
        belief := AfterLock(w.belief, ok, Deadline(Now(w), w.duration)),
        lockedAt := if ok then Now(w) else w.lockedAt)
  }

  function UnlockAt(w: World, o: Outcome): World {
    if !w.belief.locked then w
    else
      var up := Reachable(w, w.ctlClient);
      Send(w, TakesEffect(up, o), HB.Unlocking).(belief := AfterUnlock(w.belief, Succeeds(up, o)))
  }

  function Gone(w: World): World {
    w.(alive := false, live := {}, hb := HB.Fresh(w.hb.clock))
  }

  function Apply(w: World, a: Action): World
    requires Enabled(w, a)
  {
    match a
    case Lock(o) => LockAt(w, o)
    case Unlock(o) => UnlockAt(w, o)
    case IdleFire(o) =>
      UnlockAt(w.(belief := w.belief.(timer := Some(w.belief.timer.value.(fired := true)))), o)
    case PollRead => w.(poll := if w.belief.locked then Asking(w.ctlClient) else NoPoll)
    case PollStatus(o) =>
      w.(poll := if Succeeds(Reachable(w, w.poll.client), o) then Reported(w.hb.locked) else NoPoll)
    case PollApply =>
      w.(poll := NoPoll, belief := if w.poll.sentinelLocked then w.belief else AfterSync(w.belief))
    case Ping(o) =>
      var up := Reachable(w, w.mgrClient.value);
      Send(w, TakesEffect(up, o), HB.Pinging).(watchdog := if Succeeds(up, o) then Watching else PingFailed)
    case CloseOld =>
      w.(live := if w.mgrClient.Some? then w.live - {w.mgrClient.value} else w.live,
         mgrClient := None, watchdog := Sleeping)
    case GiveUp => w.(watchdog := Watching)
    case Launch =>  // a process that finds another one running exits at once
      if w.alive then w.(watchdog := Launched)
      else w.(watchdog := Launched, alive := true, hb := HB.Fresh(w.hb.clock))
    case Connect =>
      w.(mgrClient := Some(w.nextClient), live := w.live + {w.nextClient},
         nextClient := w.nextClient + 1, watchdog := Connected)
    case ReadDesired => w.(watchdog := Restoring(w.belief.desired))
    case Restore(o) =>
      var up := w.mgrClient.Some? && Reachable(w, w.mgrClient.value);
      Send(w, w.watchdog.wasLocked && TakesEffect(up, o), HB.Locking).(watchdog := Installing)
    case Install => w.(ctlClient := w.mgrClient.value, watchdog := Watching)
    case Sentinel(step) => w.(hb := HB.Apply(w.hb, step))
    case Crash => Gone(w)
    case Advance(ms) => w.(hb := HB.Apply(w.hb, HB.Advance(ms)))
    case StopController => w.(belief := w.belief.(timer := None), stopped := true)
    case StopManager(exits) =>
      var closed := w.(live := if w.mgrClient.Some? then w.live - {w.mgrClient.value} else w.live);
      if exits then Gone(closed) else closed
  }

  /** The action delivers a LOCK to the sentinel. */
  predicate DeliversLock(w: World, a: Action) {
    match a
    case Lock(o) => !w.belief.locked && TakesEffect(Reachable(w, w.ctlClient), o)
    case Restore(o) =>
      w.watchdog == Restoring(true) && w.mgrClient.Some? && TakesEffect(Reachable(w, w.mgrClient.value), o)
    case _ => false
  }

  /** A lock command that succeeds in locking. */
  predicate LockSucceeds(w: World, a: Action) {
    a.Lock? && !w.belief.locked && Succeeds(Reachable(w, w.ctlClient), a.o)
  }

  /** The controller starts unlocked, connected to a sentinel it has just started. */
  predicate Initial(w: World) {
    && HB.Initial(w.hb) && w.alive
    && w.belief == Belief(false, false, None)
    && w.ctlClient == 0 && w.mgrClient == Some(0) && w.live == {0} && w.nextClient == 1
    && w.watchdog.Watching? && w.poll.NoPoll? && !w.stopped
  }

  // ----- what every step keeps -----

  predicate InWindow(w: World) {
    !w.watchdog.Watching? && !w.watchdog.PingFailed?
  }

  predicate HasNewClient(w: World) {
    w.watchdog.Connected? || w.watchdog.Restoring? || w.watchdog.Installing?
  }

  /** The pipe clients: only the manager's client can be live, and during a restart the controller
      still holds an older one; a poll holds a client of the controller's or an older one. */
  predicate ClientInv(w: World) {
    && w.ctlClient < w.nextClient
    && (w.mgrClient.Some? ==> w.mgrClient.value < w.nextClient)
    && (forall id :: id in w.live ==> w.mgrClient == Some(id))
    && (w.watchdog.Sleeping? || w.watchdog.Launched? ==> w.mgrClient == None)
    && (HasNewClient(w) ==> w.mgrClient.Some? && w.ctlClient < w.mgrClient.value)
    && (w.poll.Asking? ==> w.poll.client <= w.ctlClient)
    && (!InWindow(w) ==> w.mgrClient == None || w.mgrClient == Some(w.ctlClient))
  }

  predicate Quiescent(hb: HB.State) {
    HB.Inv(hb) && hb.pipe.PipeIdle? && hb.settled <= hb.lastPing
  }

  predicate SentinelInv(w: World) {
    && Quiescent(w.hb)
    && (!w.alive ==> !w.hb.locked && w.hb.timer.TimerIdle? && w.live == {})
  }

  predicate TimerInv(w: World) {
    !w.stopped ==>
      && (w.belief.timer.Some? <==> w.belief.locked)
      && (w.belief.locked ==> w.belief.timer.value.deadline == Deadline(w.lockedAt, w.duration))
  }

  predicate Inv(w: World) {
    ClientInv(w) && SentinelInv(w) && w.belief.locked == w.belief.desired && TimerInv(w)
  }

  lemma ClientStep(w: World, a: Action)
    requires ClientInv(w) && Enabled(w, a)
    ensures ClientInv(Apply(w, a))
  {
  }

  lemma CommandsKeepQuiescence(hb: HB.State)
    requires Quiescent(hb)
    ensures Quiescent(HB.Locking(hb)) && Quiescent(HB.Unlocking(hb)) && Quiescent(HB.Pinging(hb))
    ensures Quiescent(HB.Fresh(hb.clock))
  {
  }

  lemma SentinelStep(w: World, a: Action)
    requires SentinelInv(w) && Enabled(w, a)
    ensures SentinelInv(Apply(w, a))
    ensures w.hb.clock <= Apply(w, a).hb.clock
  {
    CommandsKeepQuiescence(w.hb);
    match a {
      case Sentinel(step) => OwnStepKeeps(w.hb, step);
      case Advance(ms) => HB.InvStep(w.hb, HB.Advance(ms));
      case _ =>
    }
  }

  lemma OwnStepKeeps(hb: HB.State, step: HB.Action)
    requires HB.Inv(hb) && OwnStep(step) && HB.Enabled(hb, step)
    ensures var after := HB.Apply(hb, step);
            && HB.Inv(after) && after.pipe == hb.pipe && after.clock == hb.clock
            && after.settled == hb.settled && after.lastPing == hb.lastPing
  {
  }

  lemma BeliefStep(w: World, a: Action)
    requires Enabled(w, a) && w.belief.locked == w.belief.desired && TimerInv(w)
    ensures var v := Apply(w, a); v.belief.locked == v.belief.desired && TimerInv(v)
  {
  }

  lemma InvStep(w: World, a: Action)
    requires Inv(w) && Enabled(w, a)
    ensures Inv(Apply(w, a)) && w.hb.clock <= Apply(w, a).hb.clock
  {
    ClientStep(w, a);
    SentinelStep(w, a);
    BeliefStep(w, a);
  }

  /** Only a lock command of an unlocked belief and the restore of a desired lock lock the sentinel. */
  lemma OnlyLocksLock(w: World, a: Action)
    requires Enabled(w, a)
    ensures DeliversLock(w, a) ==> Apply(w, a).hb.locked
    ensures Apply(w, a).hb.locked ==> w.hb.locked || DeliversLock(w, a)
  {
  }

  // ----- which part of the system sees which -----

  /** The commands and the poll change belief and sentinel as the controller's own methods do. */
  lemma CommandsAreTheControllers(w: World, o: Outcome)
    ensures var up, lock, unlock := Reachable(w, w.ctlClient), Apply(w, Lock(o)), Apply(w, Unlock(o));
            && lock.belief == AfterLock(w.belief, Succeeds(up, o), Deadline(Now(w), w.duration))
            && lock.hb == (if !w.belief.locked && TakesEffect(up, o) then HB.Locking(w.hb) else w.hb)
            && unlock.belief == AfterUnlock(w.belief, Succeeds(up, o))
            && unlock.hb == (if w.belief.locked && TakesEffect(up, o) then HB.Unlocking(w.hb) else w.hb)
    ensures w.poll.Reported? ==>
              Apply(w, PollApply).belief == if w.poll.sentinelLocked then w.belief else AfterSync(w.belief)
    ensures Enabled(w, IdleFire(o)) ==>
              var fire, unlock := Apply(w, IdleFire(o)), Apply(w, Unlock(o));
              fire.hb == unlock.hb && fire.belief.locked == unlock.belief.locked
  {
  }

  /** What the watchdog, the sentinel and the world do; the belief is not asked. */
  predicate BelowController(a: Action) {
    || a.Ping? || a.CloseOld? || a.GiveUp? || a.Launch? || a.Connect? || a.Restore? || a.Install?
    || a.Sentinel? || a.Crash? || a.Advance? || a.StopManager?
  }

  /** What the controller does, its reading of the desired lock by the watchdog apart. */
  predicate ByController(a: Action) {
    || a.Lock? || a.Unlock? || a.IdleFire? || a.PollRead? || a.PollStatus? || a.PollApply? || a.StopController?
  }

  /** Watchdog and sentinel work the same whether the controller believes the keyboard locked or not,
      whatever its timer and its poll are doing, and leave all of these alone. */
  lemma BelowIsBlind(w: World, a: Action, belief: Belief, poll: Poll)
    requires BelowController(a)
    ensures Enabled(w.(belief := belief, poll := poll), a) <==> Enabled(w, a)
    ensures Enabled(w, a) ==>
              Apply(w.(belief := belief, poll := poll), a) == Apply(w, a).(belief := belief, poll := poll)
  {
  }

  /** And the controller works the same wherever the watchdog is: all that reaches it is the client it
      holds, and whether a command can still get through. */
  lemma ControllerIsBlind(w: World, a: Action, watchdog: Watchdog, mgrClient: Option<nat>, alive: bool)
    requires ByController(a)
    ensures var v := w.(watchdog := watchdog, mgrClient := mgrClient, alive := alive);
            && (Enabled(v, a) <==> Enabled(w, a))
            && (Enabled(w, a) ==>
                  Apply(v, a) == Apply(w, a).(watchdog := watchdog, mgrClient := mgrClient, alive := alive))
  {
  }

  /** A stopped controller has no idle timer left to fire and has touched no lock; a stopped manager has no
      client left, and has locked nothing and changed no belief. */
  lemma WhatStopsLeave(w: World, exits: bool)
    requires Inv(w)
    ensures var v := Apply(w, StopController);
            && v.stopped && (forall o :: !Enabled(v, IdleFire(o)))
            && v.belief.locked == w.belief.locked && v.belief.desired == w.belief.desired
            && v.hb == w.hb && v.live == w.live
    ensures var v := Apply(w, StopManager(exits));
            && v.live == {} && v.belief == w.belief && (v.hb.locked ==> w.hb.locked)
            && v.alive == (w.alive && !exits)
  {
  }

  // ----- runs -----

  /** A run: the world before each action, and after the last one. */
  datatype Run = Run(at: seq<World>, does: seq<Action>)

  ghost predicate Step(w: World, a: Action, v: World) {
    Enabled(w, a) && v == Apply(w, a)
  }

  ghost predicate IsRun(r: Run) {
    && |r.at| == |r.does| + 1
    && Initial(r.at[0])
    && forall i :: 0 <= i < |r.does| ==> Step(r.at[i], r.does[i], r.at[i + 1])
  }

  function Last(r: Run): World
    requires r.at != []
  {
    r.at[|r.at| - 1]
  }

  /** One action more at the end of a run. */
  lemma Extend(r: Run, a: Action) returns (longer: Run)
    requires IsRun(r) && Enabled(Last(r), a)
    ensures IsRun(longer) && Last(longer) == Apply(Last(r), a)
    ensures longer.does == r.does + [a] && longer.at == r.at + [Last(longer)]
  {
    longer := Run(r.at + [Apply(Last(r), a)], r.does + [a]);
  }

  lemma InitialInv(w: World)
    requires Initial(w)
    ensures Inv(w)
  {
  }

  lemma {:induction false} InvAt(r: Run, n: nat)
    requires IsRun(r) && n < |r.at|
    ensures Inv(r.at[n])
  {
    if n == 0 {
      InitialInv(r.at[0]);
    } else {
      InvAt(r, n - 1);
      assert Step(r.at[n - 1], r.does[n - 1], r.at[n]);
      InvStep(r.at[n - 1], r.does[n - 1]);
    }
  }

  /** One step of a run, with the invariants known before and after it. */
  lemma StepAt(r: Run, n: nat)
    requires IsRun(r) && n < |r.does|
    ensures Inv(r.at[n]) && Step(r.at[n], r.does[n], r.at[n + 1]) && Inv(r.at[n + 1])
  {
    InvAt(r, n);
    InvAt(r, n + 1);
  }
}
