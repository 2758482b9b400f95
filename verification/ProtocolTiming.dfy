/** Timed properties of the whole system: fail-open, regular pings, the dead watchdog and the dead
    controller. */
module ProtocolTiming {
  import opened Prelude
  import opened LockState
  import opened LockProtocol
  import HB = Heartbeat

  const FAIL_OPEN_MS := 65000

  /** The sentinel's ticks are punctual while it runs. */
  predicate Timely(w: World, a: Action) {
    a.Advance? && w.alive ==> HB.Punctual(w.hb, HB.Advance(a.ms))
  }

  ghost predicate TimelyRun(r: Run) {
    IsRun(r) && forall n :: 0 <= n < |r.does| ==> Timely(r.at[n], r.does[n])
  }

  predicate TimedInv(w: World) {
    w.alive ==> HB.TimedInv(w.hb)
  }

  lemma TimedStep(w: World, a: Action)
    requires Inv(w) && TimedInv(w) && Enabled(w, a) && Timely(w, a)
    ensures TimedInv(Apply(w, a))
  {
    match a {
      case Sentinel(step) => HB.TimedStep(w.hb, step);
      case Advance(ms) => if w.alive { HB.TimedStep(w.hb, HB.Advance(ms)); }
      case _ =>
    }
  }

  lemma {:induction false} TimedAt(r: Run, n: nat)
    requires TimelyRun(r) && n < |r.at|
    ensures TimedInv(r.at[n])
  {
    if n > 0 {
      TimedAt(r, n - 1);
      assert Timely(r.at[n - 1], r.does[n - 1]);
      TimedNext(r, n - 1);
    } else {
      InvAt(r, 0);
    }
  }

  lemma TimedNext(r: Run, n: nat)
    requires IsRun(r) && n < |r.does| && TimedInv(r.at[n]) && Timely(r.at[n], r.does[n])
    ensures TimedInv(r.at[n + 1])
  {
    StepAt(r, n);
    TimedStep(r.at[n], r.does[n]);
  }

  /** Fail-open in the whole system: at every point a locked keyboard is within 65000 ms of the last
      stamp it received. */
  lemma SystemFailsOpen(r: Run, n: nat)
    requires TimelyRun(r) && n < |r.at|
    ensures r.at[n].hb.locked ==> r.at[n].hb.clock <= r.at[n].hb.lastPing + FAIL_OPEN_MS
  {
    TimedAt(r, n);
    InvAt(r, n);
  }

  // ----- a sentinel that is pinged in time -----

  /** The action delivers a LOCK or a PING to the sentinel. */
  predicate Stamps(w: World, a: Action) {
    || DeliversLock(w, a)
    || (a.Ping? && w.mgrClient.Some? && TakesEffect(Reachable(w, w.mgrClient.value), a.o))
  }

  /** The last stamp is at most 60000 ms old, or there is none yet. */
  predicate Pinged(w: World) {
    w.hb.lastPing == 0 || w.hb.clock <= w.hb.lastPing + HB.PING_TIMEOUT
  }

  ghost predicate PingedUntil(r: Run, n: nat)
    requires n < |r.at|
  {
    forall i :: 0 <= i <= n ==> Pinged(r.at[i])
  }

  /** No timer callback is about to unlock, and the stamp it has loaded is fresh. */
  predicate StampFresh(w: World) {
    && !w.hb.timer.Expired?
    && (w.hb.timer.GotStamp? ==> w.hb.clock <= w.hb.timer.stamp + HB.PING_TIMEOUT)
  }

  lemma StampStaysFresh(w: World, a: Action)
    requires Inv(w) && StampFresh(w) && Pinged(w) && Enabled(w, a) && Timely(w, a)
    ensures StampFresh(Apply(w, a))
  {
    if a.Sentinel? && a.step.TimerReadClock? {
      HB.StampAgeDoesNotWrap(w.hb);
    }
  }

  lemma {:induction false} StampIsFreshAt(r: Run, n: nat)
    requires TimelyRun(r) && n < |r.at| && PingedUntil(r, n)
    ensures StampFresh(r.at[n])
  {
    if n > 0 {
      StampIsFreshAt(r, n - 1);
      StepAt(r, n - 1);
      assert Timely(r.at[n - 1], r.does[n - 1]) && Pinged(r.at[n - 1]);
      StampStaysFresh(r.at[n - 1], r.does[n - 1]);
    }
  }

  lemma FreshStampIsKept(r: Run, n: nat)
    requires TimelyRun(r) && n < |r.does| && PingedUntil(r, n)
    ensures r.does[n] != Sentinel(HB.TimerStore)
  {
    StampIsFreshAt(r, n);
    StepAt(r, n);
  }

  /** The watchdog pings every 5 s, and a command takes at most 5 s. */
  const PING_GAP_MS := 10000

  /** A LOCK or PING has taken effect in the d milliseconds before i. */
  ghost predicate StampedWithin(r: Run, i: nat, d: nat)
    requires IsRun(r) && i < |r.at|
  {
    exists k :: 0 <= k < i && Stamps(r.at[k], r.does[k]) && r.at[i].hb.clock <= r.at[k].hb.clock + d
  }

  /** Some LOCK or PING took effect at clock t, and what the sentinel has is that stamp, a later one, or,
      as a new process, none. */
  predicate StampedSince(w: World, t: nat) {
    t <= w.hb.clock && (w.hb.lastPing == 0 || t <= w.hb.lastPing)
  }

  lemma StampStep(w: World, a: Action, t: nat)
    requires Inv(w) && Enabled(w, a)
    requires StampedSince(w, t) || (Stamps(w, a) && t == w.hb.clock)
    ensures StampedSince(Apply(w, a), t)
  {
    InvStep(w, a);
  }

  lemma StampNext(r: Run, i: nat, t: nat)
    requires IsRun(r) && i < |r.does|
    requires StampedSince(r.at[i], t) || (Stamps(r.at[i], r.does[i]) && t == r.at[i].hb.clock)
    ensures StampedSince(r.at[i + 1], t)
  {
    StepAt(r, i);
    StampStep(r.at[i], r.does[i], t);
  }

  lemma {:induction false} StampSurvives(r: Run, k: nat, i: nat, t: nat)
    requires IsRun(r) && k <= i < |r.at| && StampedSince(r.at[k], t)
    ensures StampedSince(r.at[i], t)
    decreases i
  {
    if k < i {
      StampSurvives(r, k, i - 1, t);
      StampNext(r, i - 1, t);
    }
  }

  /** A stamp lasts until a later one replaces it or the process ends. */
  lemma StampLasts(r: Run, k: nat, i: nat)
    requires IsRun(r) && k < i < |r.at| && Stamps(r.at[k], r.does[k])
    ensures StampedSince(r.at[i], r.at[k].hb.clock)
  {
    StampNext(r, k, r.at[k].hb.clock);
    StampSurvives(r, k + 1, i, r.at[k].hb.clock);
  }

  /** As long as LOCKs and PINGs take effect at most 10 s apart, on a process that has received one, the
      heartbeat does not unlock, whatever crashes, restarts and commands the run contains. */
  lemma PingedSentinelIsNotUnlocked(r: Run, n: nat)
    requires TimelyRun(r) && n < |r.does|
    requires forall i: nat :: i <= n && r.at[i].hb.lastPing != 0 ==> StampedWithin(r, i, PING_GAP_MS)
    ensures PingedUntil(r, n) && r.does[n] != Sentinel(HB.TimerStore)
  {
    forall i: nat | i <= n && r.at[i].hb.lastPing != 0
      ensures Pinged(r.at[i])
    {
      assert StampedWithin(r, i, PING_GAP_MS);
      var k :| 0 <= k < i && Stamps(r.at[k], r.does[k]) && r.at[i].hb.clock <= r.at[k].hb.clock + PING_GAP_MS;
      StampLasts(r, k, i);
    }
    FreshStampIsKept(r, n);
  }

  // ----- nobody stamps any more -----

  lemma SilentStep(w: World, a: Action)
    requires Inv(w) && Enabled(w, a) && !Stamps(w, a)
    ensures Apply(w, a).hb.locked ==> w.hb.locked && Apply(w, a).hb.lastPing == w.hb.lastPing
  {
  }

  ghost predicate Silent(r: Run, m: nat, n: nat)
    requires IsRun(r) && m <= n < |r.at|
  {
    forall k :: m <= k < n ==> !Stamps(r.at[k], r.does[k])
  }

  lemma {:induction false} SilenceKeepsStamp(r: Run, m: nat, n: nat)
    requires IsRun(r) && m <= n < |r.at| && Silent(r, m, n)
    ensures r.at[n].hb.locked ==> r.at[m].hb.locked && r.at[n].hb.lastPing == r.at[m].hb.lastPing
    decreases n
  {
    if m < n {
      SilenceKeepsStamp(r, m, n - 1);
      StepAt(r, n - 1);
      SilentStep(r.at[n - 1], r.does[n - 1]);
    }
  }

  /** With no LOCK and no PING delivered after m, the keyboard is free for good 65000 ms later. */
  lemma SilenceUnlocks(r: Run, m: nat, n: nat)
    requires TimelyRun(r) && m <= n < |r.at| && Silent(r, m, n)
    requires r.at[n].hb.clock > r.at[m].hb.clock + FAIL_OPEN_MS
    ensures !r.at[n].hb.locked
  {
    SilenceKeepsStamp(r, m, n);
    SystemFailsOpen(r, n);
    InvAt(r, m);
  }

  // ----- the dead watchdog -----

  /** The watchdog has given up a restart: it has no client any more. */
  predicate WatchdogDead(w: World) {
    w.watchdog.Watching? && w.mgrClient == None
  }

  /** Every way out of a restart but installing a client ends with a dead watchdog, and nothing else
      kills it. */
  lemma WatchdogDiesByGivingUp(w: World, a: Action)
    requires Inv(w) && Enabled(w, a) && !WatchdogDead(w)
    ensures WatchdogDead(Apply(w, a)) <==> a.GiveUp?
  {
  }

  lemma DeadStep(w: World, a: Action)
    requires Inv(w) && WatchdogDead(w) && Enabled(w, a)
    ensures WatchdogDead(Apply(w, a)) && !Stamps(w, a)
  {
  }

  lemma {:induction false} DeadForever(r: Run, m: nat, n: nat)
    requires IsRun(r) && m <= n < |r.at| && WatchdogDead(r.at[m])
    ensures WatchdogDead(r.at[n]) && Silent(r, m, n)
    decreases n
  {
    if m < n {
      DeadForever(r, m, n - 1);
      StepAt(r, n - 1);
      DeadStep(r.at[n - 1], r.does[n - 1]);
    }
  }

  /** A restart that fails in Start or Connect is never repeated: for the rest of the run the manager
      has no client, no LOCK and no PING reaches any sentinel, and a sentinel that survived locked is
      unlocked for good within 65000 ms. */
  lemma DeadWatchdogIsSafe(r: Run, m: nat, n: nat)
    requires TimelyRun(r) && m <= n < |r.at| && WatchdogDead(r.at[m])
    ensures WatchdogDead(r.at[n]) && r.at[n].live == {} && Silent(r, m, n)
    ensures r.at[n].hb.clock > r.at[m].hb.clock + FAIL_OPEN_MS ==> !r.at[n].hb.locked
  {
    DeadForever(r, m, n);
    InvAt(r, n);
    if r.at[n].hb.clock > r.at[m].hb.clock + FAIL_OPEN_MS {
      SilenceUnlocks(r, m, n);
    }
  }

  /** The controller process is gone: only the sentinel and the clock still move. */
  predicate WithoutController(a: Action) {
    a.Sentinel? || a.Crash? || a.Advance?
  }

  /** If the controller dies at m, the keyboard is free for good 65000 ms later. */
  lemma ControllerDeathUnlocks(r: Run, m: nat, n: nat)
    requires TimelyRun(r) && m <= n < |r.at|
    requires forall k :: m <= k < n ==> WithoutController(r.does[k])
    requires r.at[n].hb.clock > r.at[m].hb.clock + FAIL_OPEN_MS
    ensures !r.at[n].hb.locked
  {
    SilenceUnlocks(r, m, n);
  }
}
