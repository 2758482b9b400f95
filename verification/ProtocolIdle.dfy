/** The idle timer: what a lock session is, when one outlives the configured minutes, and what that
    means for the keyboard. */
module ProtocolIdle {
  import opened Prelude
  import opened LockState
  import opened LockProtocol
  import opened ProtocolSafety
  import opened ProtocolTiming
  import HB = Heartbeat

  // ----- sessions -----

  /** Until the controller is stopped, the timer slot is filled exactly while the belief is locked,
      and its deadline counts from the lock command that began the session, however many restarts
      have restored the lock since. */
  lemma IdleTimerFollowsBelief(r: Run, n: nat)
    requires IsRun(r) && n < |r.at| && !r.at[n].stopped
    ensures var w := r.at[n];
            && (w.belief.timer.Some? <==> w.belief.locked)
            && (w.belief.locked ==> w.belief.timer.value.deadline == Deadline(w.lockedAt, w.duration))
  {
    InvAt(r, n);
  }

  /** One lock session: believed locked at every point from k to n. */
  ghost predicate SameSession(r: Run, k: nat, n: nat)
    requires n < |r.at|
  {
    forall i :: k <= i <= n ==> r.at[i].belief.locked
  }

  lemma SessionGoesOn(w: World, a: Action)
    requires Enabled(w, a) && Apply(w, a).belief.locked
    ensures if w.belief.locked then Apply(w, a).lockedAt == w.lockedAt
            else LockSucceeds(w, a) && Apply(w, a).lockedAt == Now(w)
  {
  }

  /** Every point of a lock session goes back to one successful lock command, whose time is the start of
      the session: no restart, restore or further lock command moves it. */
  lemma {:induction false} SessionBegan(r: Run, n: nat) returns (k: nat)
    requires IsRun(r) && n < |r.at| && r.at[n].belief.locked
    ensures k < n && LockSucceeds(r.at[k], r.does[k]) && SameSession(r, k + 1, n)
    ensures r.at[n].lockedAt == Now(r.at[k])
  {
    assert Step(r.at[n - 1], r.does[n - 1], r.at[n]);
    SessionGoesOn(r.at[n - 1], r.does[n - 1]);
    if r.at[n - 1].belief.locked {
      k := SessionBegan(r, n - 1);
    } else {
      k := n - 1;
    }
  }

  /** The idle timer fires on time: the clock never passes the deadline of a timer that has not fired. */
  predicate FiresOnTime(w: World, a: Action) {
    a.Advance? && w.belief.timer.Some? && !w.belief.timer.value.fired
    ==> Now(w) + a.ms * NS_PER_MS <= w.belief.timer.value.deadline
  }

  ghost predicate OnTimeRun(r: Run) {
    IsRun(r) && forall n :: 0 <= n < |r.does| ==> FiresOnTime(r.at[n], r.does[n])
  }

  /** A session that the idle timer has not tried to end is within its deadline. */
  predicate SessionInv(w: World) {
    w.belief.locked && !w.stopped ==>
      && w.belief.timer.Some?
      && (w.belief.timer.value.fired || Now(w) <= w.belief.timer.value.deadline)
  }

  lemma SessionStep(w: World, a: Action)
    requires Inv(w) && SessionInv(w) && Enabled(w, a) && FiresOnTime(w, a)
    ensures SessionInv(Apply(w, a)) && Apply(w, a).duration == w.duration
  {
  }

  lemma SessionNext(r: Run, n: nat)
    requires OnTimeRun(r) && n < |r.does| && SessionInv(r.at[n])
    ensures SessionInv(r.at[n + 1]) && r.at[n + 1].duration == r.at[n].duration
  {
    StepAt(r, n);
    SessionStep(r.at[n], r.does[n]);
  }

  lemma {:induction false} SessionAt(r: Run, n: nat)
    requires OnTimeRun(r) && n < |r.at|
    ensures SessionInv(r.at[n]) && r.at[n].duration == r.at[0].duration
  {
    if n > 0 {
      SessionAt(r, n - 1);
      SessionNext(r, n - 1);
    }
  }

  /** The idle timer fires and its unlock command fails. */
  predicate IdleUnlockFails(w: World, a: Action) {
    a.IdleFire? && w.belief.locked && !Succeeds(Reachable(w, w.ctlClient), a.o)
  }

  /** The timer of the session in progress has fired. */
  predicate FiredInVain(w: World) {
    w.belief.locked && w.belief.timer.Some? && w.belief.timer.value.fired
  }

  lemma FiredStep(w: World, a: Action)
    requires Enabled(w, a) && FiredInVain(Apply(w, a))
    ensures w.belief.locked && (FiredInVain(w) || IdleUnlockFails(w, a))
    ensures Apply(w, a).lockedAt == w.lockedAt
  {
  }

  lemma {:induction false} WhichFireFailed(r: Run, n: nat) returns (k: nat)
    requires IsRun(r) && n < |r.at| && FiredInVain(r.at[n])
    ensures k < n && IdleUnlockFails(r.at[k], r.does[k])
    ensures SameSession(r, k, n) && r.at[k].lockedAt == r.at[n].lockedAt
  {
    assert Step(r.at[n - 1], r.does[n - 1], r.at[n]);
    FiredStep(r.at[n - 1], r.does[n - 1]);
    if IdleUnlockFails(r.at[n - 1], r.does[n - 1]) {
      k := n - 1;
    } else {
      k := WhichFireFailed(r, n - 1);
    }
  }

  /** Within a session its recorded start does not move, and a controller that is stopped stays so. */
  lemma {:induction false} SessionKeeps(r: Run, k: nat, n: nat)
    requires IsRun(r) && k <= n < |r.at| && SameSession(r, k, n)
    ensures r.at[k].lockedAt == r.at[n].lockedAt && (r.at[k].stopped ==> r.at[n].stopped)
    decreases n
  {
    if k < n {
      assert Step(r.at[n - 1], r.does[n - 1], r.at[n]);
      SessionGoesOn(r.at[n - 1], r.does[n - 1]);
      SessionKeeps(r, k, n - 1);
    }
  }

  /** The idle unlock of the session in progress at n was tried at k, in vain, and time has passed since. */
  ghost predicate TriedInVain(r: Run, k: nat, n: nat)
    requires IsRun(r) && n < |r.at|
  {
    && k < n && IdleUnlockFails(r.at[k], r.does[k]) && SameSession(r, k, n)
    && Now(r.at[k]) < Now(r.at[n])
  }

  /** The deadline of a session in progress, in terms of the configured minutes. */
  lemma DeadlineAt(r: Run, n: nat, minutes: int)
    requires OnTimeRun(r) && n < |r.at| && !r.at[n].stopped && r.at[n].belief.locked
    requires 1 <= minutes <= MAX_EXACT_MINUTES && r.at[0].duration == IdleDuration(minutes)
    ensures SessionInv(r.at[n]) && r.at[n].belief.timer.Some?
    ensures r.at[n].belief.timer.value.deadline == r.at[n].lockedAt + minutes * NS_PER_MINUTE
  {
    SessionAt(r, n);
    IdleDurationExactIff(minutes);
    IdleTimerFollowsBelief(r, n);
  }

  /** If the idle timer only fires on time, a session that has outlived the configured minutes, counted
      from its lock command and not from any later restart, is one whose idle unlock was tried within the
      session and failed. */
  lemma OverdueMeansUnlockFailed(r: Run, n: nat, minutes: int) returns (k: nat)
    requires OnTimeRun(r) && n < |r.at| && !r.at[n].stopped && r.at[n].belief.locked
    requires 1 <= minutes <= MAX_EXACT_MINUTES && r.at[0].duration == IdleDuration(minutes)
    requires Now(r.at[n]) > r.at[n].lockedAt + minutes * NS_PER_MINUTE
    ensures TriedInVain(r, k, n) && r.at[k].lockedAt == r.at[n].lockedAt
  {
    DeadlineAt(r, n, minutes);
    k := WhichFireFailed(r, n);
    SessionKeeps(r, k, n);
    DeadlineAt(r, k, minutes);
    assert Step(r.at[k], r.does[k], r.at[k + 1]);
  }

  lemma FailureMeansOverdue(r: Run, k: nat, n: nat, minutes: int)
    requires OnTimeRun(r) && n < |r.at| && !r.at[n].stopped
    requires 1 <= minutes <= MAX_EXACT_MINUTES && r.at[0].duration == IdleDuration(minutes)
    requires TriedInVain(r, k, n)
    ensures Now(r.at[n]) > r.at[n].lockedAt + minutes * NS_PER_MINUTE
  {
    SessionKeeps(r, k, n);
    DeadlineAt(r, k, minutes);
    assert Step(r.at[k], r.does[k], r.at[k + 1]);
  }

  /** The exact condition: with on-time firing, a session has outlived the configured minutes if and only
      if its idle unlock was tried and failed, and time has passed since. */
  lemma OverdueIff(r: Run, n: nat, minutes: int)
    requires OnTimeRun(r) && n < |r.at| && !r.at[n].stopped && r.at[n].belief.locked
    requires 1 <= minutes <= MAX_EXACT_MINUTES && r.at[0].duration == IdleDuration(minutes)
    ensures Now(r.at[n]) > r.at[n].lockedAt + minutes * NS_PER_MINUTE <==> exists k: nat :: TriedInVain(r, k, n)
  {
    if Now(r.at[n]) > r.at[n].lockedAt + minutes * NS_PER_MINUTE {
      var k := OverdueMeansUnlockFailed(r, n, minutes);
    } else if k: nat :| TriedInVain(r, k, n) {
      FailureMeansOverdue(r, k, n, minutes);
    }
  }

  /** So no session outlives the configured minutes if no idle unlock fails. */
  lemma NoSessionOutlivesIdleTimeout(r: Run, n: nat, minutes: int)
    requires OnTimeRun(r) && n < |r.at| && !r.at[n].stopped && r.at[n].belief.locked
    requires forall k :: 0 <= k < n ==> !IdleUnlockFails(r.at[k], r.does[k])
    requires 1 <= minutes <= MAX_EXACT_MINUTES && r.at[0].duration == IdleDuration(minutes)
    ensures Now(r.at[n]) <= r.at[n].lockedAt + minutes * NS_PER_MINUTE
  {
    OverdueIff(r, n, minutes);
  }

  /** And neither is the keyboard locked any longer, in a trusted run: not by a restart, and not by a LOCK
      that the controller does not know of. */
  lemma KeyboardIsFreeInTime(r: Run, n: nat, minutes: int)
    requires TrustedRun(r) && OnTimeRun(r) && n < |r.at| && !r.at[n].stopped
    requires forall k :: 0 <= k < n ==> !IdleUnlockFails(r.at[k], r.does[k])
    requires 1 <= minutes <= MAX_EXACT_MINUTES && r.at[0].duration == IdleDuration(minutes)
    ensures r.at[n].hb.locked ==> Now(r.at[n]) <= r.at[n].lockedAt + minutes * NS_PER_MINUTE
  {
    SystemSafety(r, n);
    if r.at[n].hb.locked {
      NoSessionOutlivesIdleTimeout(r, n, minutes);
    }
  }

  // ----- routine operation -----

  /** What goes on while nothing goes wrong: time, answered pings and polls, timer callbacks. */
  predicate Routine(a: Action) {
    || a.Advance? || a == Ping(Answered)
    || a.PollRead? || a == PollStatus(Answered) || a.PollApply?
    || (a.Sentinel? && HB.IsTimer(a.step))
  }

  /** From w, one action and then routine, well timed: the idle timer fires on time and the sentinel's
      ticks are punctual. */
  ghost predicate RoutineAfter(w: World, first: Action, r: Run) {
    && OnTimeRun(r) && TimelyRun(r) && r.at[0] == w
    && r.does != [] && r.does[0] == first
    && forall k :: 1 <= k < |r.does| ==> Routine(r.does[k])
  }

  lemma BeginsWith(w: World, first: Action) returns (r: Run)
    requires Initial(w) && Enabled(w, first) && !first.Advance?
    ensures RoutineAfter(w, first, r) && Last(r) == Apply(w, first)
  {
    r := Extend(Run([w], []), first);
  }

  lemma OneMore(w: World, first: Action, r: Run, a: Action) returns (longer: Run)
    requires RoutineAfter(w, first, r) && Routine(a)
    requires Enabled(Last(r), a) && FiresOnTime(Last(r), a) && Timely(Last(r), a)
    ensures RoutineAfter(w, first, longer) && Last(longer) == Apply(Last(r), a)
  {
    longer := Extend(r, a);
  }

  /** A locked sentinel on the client of both sides, just pinged and just ticked, with no poll under way. */
  predicate Served(v: World) {
    && v.alive && v.watchdog.Watching? && v.mgrClient == Some(v.ctlClient) && v.live == {v.ctlClient}
    && v.poll.NoPoll? && !v.stopped
    && v.hb.locked && v.hb.pipe.PipeIdle? && v.hb.timer.TimerIdle?
    && 0 < v.hb.clock == v.hb.lastPing == v.hb.lastTick
  }

  function Later(v: World, ms: nat): World {
    var now := v.hb.clock + ms;
    v.(hb := v.hb.(clock := now, lastPing := now, lastTick := now))
  }

  /** The clock reaches that far and no idle deadline lies in between. */
  predicate TimeLeft(v: World, ms: nat) {
    && v.hb.clock + ms < HB.U64
    && (v.belief.timer.Some? ==> Now(v) + ms * NS_PER_MS <= v.belief.timer.value.deadline)
  }

  /** Up to one tick interval of routine: a ping, a poll, a timer callback. */
  lemma Round(w: World, first: Action, r: Run, ms: nat) returns (longer: Run)
    requires RoutineAfter(w, first, r) && Served(Last(r)) && ms <= HB.TICK_INTERVAL && TimeLeft(Last(r), ms)
    ensures RoutineAfter(w, first, longer) && Last(longer) == Later(Last(r), ms)
  {
    longer := OneMore(w, first, r, Advance(ms));
    longer := OneMore(w, first, longer, Ping(Answered));
    longer := Poll(w, first, longer);
    longer := Callback(w, first, longer);
  }

  lemma Poll(w: World, first: Action, r: Run) returns (longer: Run)
    requires RoutineAfter(w, first, r)
    requires var v := Last(r); v.poll.NoPoll? && v.hb.locked && v.live == {v.ctlClient}
    ensures RoutineAfter(w, first, longer) && Last(longer) == Last(r)
  {
    longer := OneMore(w, first, r, PollRead);
    if Last(r).belief.locked {
      longer := OneMore(w, first, longer, PollStatus(Answered));
      longer := OneMore(w, first, longer, PollApply);
    }
  }

  lemma Callback(w: World, first: Action, r: Run) returns (longer: Run)
    requires RoutineAfter(w, first, r)
    requires var v := Last(r);
             v.alive && v.hb.locked && v.hb.timer.TimerIdle? && 0 < v.hb.clock == v.hb.lastPing
    ensures RoutineAfter(w, first, longer)
    ensures Last(longer) == Last(r).(hb := Last(r).hb.(lastTick := Last(r).hb.clock))
  {
    longer := OneMore(w, first, r, Sentinel(HB.TimerLoadLocked));
    longer := OneMore(w, first, longer, Sentinel(HB.TimerLoadStamp));
    longer := OneMore(w, first, longer, Sentinel(HB.TimerReadClock));
  }

  lemma {:induction false} Rounds(w: World, first: Action, r: Run, ms: nat) returns (longer: Run)
    requires RoutineAfter(w, first, r) && Served(Last(r)) && TimeLeft(Last(r), ms)
    ensures RoutineAfter(w, first, longer) && Last(longer) == Later(Last(r), ms)
    decreases ms
  {
    if ms <= HB.TICK_INTERVAL {
      longer := Round(w, first, r, ms);
    } else {
      longer := Round(w, first, r, HB.TICK_INTERVAL);
      longer := Rounds(w, first, longer, ms - HB.TICK_INTERVAL);
    }
  }

  // ----- how the keyboard stays locked -----

  /** One lost reply can lock the keyboard for as long as one likes: after a LOCK that takes effect but
      whose reply is lost, every ping is answered, every tick is punctual, belief and idle timer are clear,
      so no poll asks, no idle unlock comes, and the unlock command reports success and sends nothing. */
  lemma LostReplyLocksForAnyTime(w: World, ms: nat) returns (r: Run)
    requires Initial(w) && w.hb.clock + ms < HB.U64
    ensures RoutineAfter(w, Lock(ReplyLost), r)
    ensures var v := Last(r);
            && v.hb.locked && v.hb.clock == w.hb.clock + ms
            && v.belief == Belief(false, false, None)
            && forall o :: UnlockReportsSuccess(v, o) && Apply(v, Unlock(o)) == v
  {
    r := BeginsWith(w, Lock(ReplyLost));
    r := Rounds(w, Lock(ReplyLost), r, ms);
  }

  /** One action more at the end of a well-timed run. */
  lemma ExtendTimed(r: Run, a: Action) returns (longer: Run)
    requires OnTimeRun(r) && TimelyRun(r)
    requires Enabled(Last(r), a) && FiresOnTime(Last(r), a) && Timely(Last(r), a)
    ensures OnTimeRun(longer) && TimelyRun(longer) && Last(longer) == Apply(Last(r), a)
    ensures longer.does == r.does + [a] && longer.at == r.at + [Last(longer)]
  {
    longer := Extend(r, a);
  }

  /** The session that began at w is in progress and 1 ms from its deadline. */
  predicate AlmostDue(w: World, v: World) {
    && v.belief.locked && v.belief.desired && !v.stopped && v.lockedAt == Now(w)
    && v.belief.timer.Some? && !v.belief.timer.value.fired
    && v.belief.timer.value.deadline == Now(v) + NS_PER_MS
  }

  /** A lock session that is all routine up to 1 ms before its deadline. */
  lemma RoutineToDeadline(w: World, minutes: int) returns (r: Run)
    requires Initial(w) && 1 <= minutes <= MAX_EXACT_MINUTES && w.duration == IdleDuration(minutes)
    requires w.hb.clock + minutes * 60000 < HB.U64
    ensures RoutineAfter(w, Lock(Answered), r)
    ensures var v := Last(r); Served(v) && AlmostDue(w, v) && v.hb.clock + 1 == w.hb.clock + minutes * 60000
  {
    IdleDurationExactIff(minutes);
    r := BeginsWith(w, Lock(Answered));
    r := Rounds(w, Lock(Answered), r, minutes * 60000 - 1);
  }

  /** The sentinel crashes, a ping fails, and the restart closes the old client. */
  lemma CrashAndClose(w: World, r: Run) returns (longer: Run)
    requires OnTimeRun(r) && TimelyRun(r) && Served(Last(r)) && AlmostDue(w, Last(r))
    ensures OnTimeRun(longer) && TimelyRun(longer)
    ensures longer.does == r.does + [Crash, Ping(Answered), CloseOld] && r.at <= longer.at
    ensures longer.at[|r.at| + 1].hb.clock == Last(r).hb.clock
    ensures var v := Last(longer);
            && AlmostDue(w, v) && v.hb.clock == Last(r).hb.clock
            && v.watchdog.Sleeping? && !v.alive && v.live == {}
  {
    longer := ExtendTimed(r, Crash);
    longer := ExtendTimed(longer, Ping(Answered));
    longer := ExtendTimed(longer, CloseOld);
  }

  /** The session that began at w goes on after its idle unlock, in a restart that still sleeps. */
  predicate Overslept(w: World, v: World) {
    && v.belief.locked && v.belief.desired && !v.stopped && v.lockedAt == Now(w)
    && v.watchdog.Sleeping? && !v.alive
    && v.belief.timer.Some? && v.belief.timer.value.fired
  }

  /** The deadline passes while the restart sleeps for two seconds, and the idle unlock fails. */
  lemma SleepPastDeadline(w: World, r: Run) returns (longer: Run)
    requires OnTimeRun(r) && TimelyRun(r) && AlmostDue(w, Last(r))
    requires var v := Last(r); v.watchdog.Sleeping? && !v.alive && v.live == {} && v.hb.clock + 2000 < HB.U64
    ensures OnTimeRun(longer) && TimelyRun(longer)
    ensures longer.does == r.does + [Advance(1), IdleFire(Answered), Advance(1999)] && r.at <= longer.at
    ensures Overslept(w, Last(longer)) && Last(longer).hb.clock == Last(r).hb.clock + 2000
  {
    longer := ExtendTimed(r, Advance(1));
    longer := ExtendTimed(longer, IdleFire(Answered));
    longer := ExtendTimed(longer, Advance(1999));
  }

  /** The restart locks the new sentinel. */
  lemma RestoreOverdue(w: World, r: Run) returns (longer: Run)
    requires OnTimeRun(r) && TimelyRun(r) && Overslept(w, Last(r))
    ensures OnTimeRun(longer) && TimelyRun(longer)
    ensures longer.does == r.does + [Launch, Connect, ReadDesired, Restore(Answered)] && r.at <= longer.at
    ensures var v := Last(longer);
            && v.hb.locked && v.belief.locked && v.belief.desired && !v.stopped
            && v.lockedAt == Now(w) && v.hb.clock == Last(r).hb.clock
  {
    longer := ExtendTimed(r, Launch);
    longer := ExtendTimed(longer, Connect);
    longer := ExtendTimed(longer, ReadDesired);
    longer := ExtendTimed(longer, Restore(Answered));
  }

  /** A session can outlive the configured minutes, whatever they are: all is routine until 1 ms before
      the deadline, when the sentinel crashes and a ping fails; the restart takes its two seconds, in which
      the idle unlock fails for want of a sentinel, and then locks the keyboard again. */
  lemma SessionOutlivesIdleTimeout(w: World, minutes: int) returns (r: Run, c: nat)
    requires Initial(w) && 1 <= minutes <= MAX_EXACT_MINUTES && w.duration == IdleDuration(minutes)
    requires w.hb.clock + minutes * 60000 + 2000 < HB.U64
    ensures OnTimeRun(r) && TimelyRun(r) && r.at[0] == w
    ensures 3 <= c < |r.does| && r.does[0] == Lock(Answered)
    ensures forall k :: 1 <= k < c - 2 ==> Routine(r.does[k])
    ensures r.does[c - 2] == Crash && r.does[c - 1] == Ping(Answered) && r.does[c] == CloseOld
    ensures r.at[c].hb.clock + 1 == w.hb.clock + minutes * 60000
    ensures var v := Last(r);
            && v.hb.locked && v.belief.locked && v.belief.desired && !v.stopped
            && v.hb.clock == r.at[c].hb.clock + 2000
            && Now(v) == v.lockedAt + minutes * NS_PER_MINUTE + 1999 * NS_PER_MS
  {
    var routine := RoutineToDeadline(w, minutes);
    c := |routine.does| + 2;
    var closed := CrashAndClose(w, routine);
    var overslept := SleepPastDeadline(w, closed);
    r := RestoreOverdue(w, overslept);
  }
}
