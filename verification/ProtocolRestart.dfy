/** Restarts and reconciliation: what the restart window freezes, what a restart restores, and how a
    sentinel that has unlocked itself is followed by everything else. */
module ProtocolRestart {
  import opened Prelude
  import opened LockState
  import opened LockProtocol
  import opened ProtocolSafety

  // ----- the restart window -----

  predicate SameLock(u: World, v: World) {
    u.belief.locked == v.belief.locked && u.belief.desired == v.belief.desired
  }

  /** A restart closed the old client at m and has not installed a new one before n. */
  ghost predicate Window(r: Run, m: nat, n: nat)
    requires IsRun(r)
  {
    m < n < |r.at| && r.does[m].CloseOld? && forall k :: m < k < n ==> !r.does[k].Install?
  }

  /** The controller holds a client older than the manager's, so no command of it reaches anything. */
  predicate Cut(w: World) {
    w.mgrClient.Some? ==> w.ctlClient < w.mgrClient.value
  }

  lemma CutStep(w: World, a: Action)
    requires Inv(w) && Enabled(w, a) && (a.CloseOld? || (Cut(w) && !a.Install?))
    ensures var v := Apply(w, a);
            && Cut(v) && v.ctlClient == w.ctlClient
            && (v.belief.locked <==> w.belief.locked && !DropsBelief(w, a))
            && (v.poll.Reported? ==> v.poll == w.poll && !a.PollApply?)
            && (w.poll.Reported? && !a.PollApply? ==> v.poll == w.poll)
  {
  }

  lemma {:induction false} WindowIsCut(r: Run, m: nat, n: nat)
    requires IsRun(r) && Window(r, m, n)
    ensures Cut(r.at[n]) && r.at[n].ctlClient == r.at[m].ctlClient
    ensures r.at[n].poll.Reported? ==> r.at[n].poll == r.at[m].poll && NoApplyBetween(r, m, n)
    ensures r.at[m].poll.Reported? && NoApplyBetween(r, m, n) ==> r.at[n].poll == r.at[m].poll
    decreases n
  {
    StepAt(r, n - 1);
    if m < n - 1 {
      WindowIsCut(r, m, n - 1);
    }
    CutStep(r.at[n - 1], r.does[n - 1]);
  }

  /** The window began with an "unlocked" answer to a locked belief, and the poll has acted on it. */
  ghost predicate LateAnswerApplied(r: Run, m: nat, n: nat)
    requires IsRun(r) && m < n < |r.at|
  {
    r.at[m].poll == Reported(false) && r.at[m].belief.locked && !NoApplyBetween(r, m, n)
  }

  lemma LateAnswerStep(r: Run, m: nat, n: nat)
    requires IsRun(r) && Window(r, m, n + 1) && m < n
    requires r.at[n].belief.locked <==> r.at[m].belief.locked && !LateAnswerApplied(r, m, n)
    ensures r.at[n + 1].belief.locked <==> r.at[m].belief.locked && !LateAnswerApplied(r, m, n + 1)
  {
    StepAt(r, n);
    WindowIsCut(r, m, n);
    CutStep(r.at[n], r.does[n]);
    assert NoApplyBetween(r, m, n + 1) <==> NoApplyBetween(r, m, n) && !r.does[n].PollApply?;
  }

  lemma {:induction false} WindowBelief(r: Run, m: nat, n: nat)
    requires IsRun(r) && Window(r, m, n)
    ensures r.at[n].belief.locked <==> r.at[m].belief.locked && !LateAnswerApplied(r, m, n)
    decreases n
  {
    if m < n - 1 {
      WindowBelief(r, m, n - 1);
      LateAnswerStep(r, m, n - 1);
    } else {
      StepAt(r, m);
      CutStep(r.at[m], r.does[m]);
    }
  }

  /** The restart window: from closing the old client until a new one is installed, belief and desired
      lock stay as they were exactly unless a poll acts on an "unlocked" answer that it already had when
      the window began; then both are cleared.  No lock, unlock, idle timeout or later poll gets
      through. */
  lemma WindowFreezesBelief(r: Run, m: nat, n: nat)
    requires IsRun(r) && Window(r, m, n)
    ensures SameLock(r.at[m], r.at[n]) <==> !LateAnswerApplied(r, m, n)
    ensures LateAnswerApplied(r, m, n) ==> !r.at[n].belief.locked && !r.at[n].belief.desired
    ensures r.at[n].ctlClient == r.at[m].ctlClient && !Reachable(r.at[n], r.at[n].ctlClient)
  {
    WindowIsCut(r, m, n);
    WindowBelief(r, m, n);
    InvAt(r, m);
    InvAt(r, n);
  }

  lemma CutCommandsFail(w: World, o: Outcome)
    requires Inv(w) && Cut(w)
    ensures Apply(w, Lock(o)) == w && Apply(w, Unlock(o)) == w
    ensures w.poll.Asking? ==> Apply(w, PollStatus(o)) == w.(poll := NoPoll)
  {
  }

  /** Inside the window every controller command fails, and fails without effect. */
  lemma WindowCommandsFail(r: Run, m: nat, n: nat, o: Outcome)
    requires IsRun(r) && Window(r, m, n)
    ensures var w := r.at[n];
            && Apply(w, Lock(o)) == w && Apply(w, Unlock(o)) == w
            && (w.poll.Asking? ==> Apply(w, PollStatus(o)) == w.(poll := NoPoll))
  {
    WindowIsCut(r, m, n);
    InvAt(r, n);
    CutCommandsFail(r.at[n], o);
  }

  /** The belief can be cleared inside the window: the user unlocks by the combo, a poll is told so, and
      it acts on the answer only after a failed ping has begun a restart. */
  lemma LateAnswerClearsBelief(w: World) returns (r: Run, m: nat)
    requires Initial(w)
    ensures IsRun(r) && r.at[0] == w && Window(r, m, |r.does|)
    ensures r.at[m].belief.locked && !Last(r).belief.locked
  {
    r := PendingAnswer(w);
    r := Extend(r, Ping(NoEffect));
    m := |r.does|;
    r := Extend(r, CloseOld);
    ghost var before := r;
    r := Extend(r, PollApply);
    assert r.at[m] == before.at[m];
  }

  // ----- what a restart restores -----

  /** The belief has not moved, an answered restore left the sentinel as desired, and no restore locks
      it against the desired lock. */
  predicate Restored(u: World, v: World, o: Outcome) {
    && SameLock(u, v)
    && (u.mgrClient.Some? && Succeeds(Reachable(u, u.mgrClient.value), o) ==> v.hb.locked == v.belief.desired)
    && (v.hb.locked ==> v.belief.desired)
  }

  lemma RestoreStep(u: World, o: Outcome)
    requires Inv(u) && SafeInv(u) && Enabled(u, Restore(o))
    ensures Restored(u, Apply(u, Restore(o)), o)
  {
  }

  /** When the lock is restored in a trusted run, the value read is still the desired lock, and an
      answered restore leaves the sentinel exactly as desired. */
  lemma RestoreIsCurrent(r: Run, n: nat)
    requires TrustedRun(r) && n < |r.does| && r.does[n].Restore?
    ensures r.at[n].watchdog == Restoring(r.at[n].belief.desired)
    ensures Restored(r.at[n], r.at[n + 1], r.does[n].o)
  {
    SafeInvAt(r, n);
    StepAt(r, n);
    RestoreStep(r.at[n], r.does[n].o);
  }

  // ----- what undisturbed procedures achieve -----

  /** Carrying out some actions one after the other, each enabled where it comes. */
  ghost predicate Leads(w: World, run: seq<Action>, v: World)
    decreases run
  {
    if run == [] then v == w else Enabled(w, run[0]) && Leads(Apply(w, run[0]), run[1..], v)
  }

  lemma {:induction false} LeadsOn(w: World, first: seq<Action>, c: World, second: seq<Action>, v: World)
    requires Leads(w, first, c) && Leads(c, second, v)
    ensures Leads(w, first + second, v)
    decreases first
  {
    if first == [] {
      assert first + second == second;
    } else {
      LeadsOn(Apply(w, first[0]), first[1..], c, second, v);
      assert (first + second)[1..] == first[1..] + second;
    }
  }

  const RECONNECT: seq<Action> := [CloseOld, Launch, Connect]

  function HandOver(o: Outcome): seq<Action> {
    [ReadDesired, Restore(o), Install]
  }

  /** The steps of a restart, for each way it can turn out. */
  function RestartSteps(out: RestartOutcome): seq<Action> {
    if out.cancelled || !out.started then [CloseOld, GiveUp]
    else if !out.connected then [CloseOld, Launch, GiveUp]
    else RECONNECT + HandOver(out.restore)
  }

  /** A restart has a new client on a running process, and nothing else has moved. */
  predicate Reconnected(w: World, c: World) {
    && c.watchdog.Connected? && c.alive && c.live == {w.nextClient} && c.mgrClient == Some(w.nextClient)
    && w.nextClient != w.ctlClient
    && c.belief == w.belief && c.lockedAt == w.lockedAt && c.hb.locked == w.hb.locked
  }

  lemma RestartBegins(w: World) returns (c: World)
    requires Inv(w) && w.watchdog.PingFailed?
    ensures Leads(w, RECONNECT, c) && Reconnected(w, c)
  {
    var closed := Apply(w, CloseOld);
    var launched := Apply(closed, Launch);
    c := Apply(launched, Connect);
    assert Leads(c, [], c);
    assert Leads(launched, [Connect], c);
    assert Leads(closed, [Launch, Connect], c);
  }

  /** What a restart leaves: the watchdog is back; controller and manager are on the same new, working
      client exactly if every step has succeeded, and the manager has none otherwise; belief and timer
      have not moved; the flag is that of the restart function. */
  predicate Restarted(w: World, v: World, out: RestartOutcome) {
    && v.watchdog.Watching? && v.belief == w.belief && v.lockedAt == w.lockedAt
    && v.hb.locked == AfterRestart(w.hb.locked, w.belief.desired, true, out)
    && (if Completes(out) then
          v.alive && v.mgrClient == Some(v.ctlClient) && v.live == {v.ctlClient} && v.ctlClient != w.ctlClient
        else v.mgrClient == None && v.live == {} && v.ctlClient == w.ctlClient)
  }

  lemma RestartEnds(w: World, c: World, out: RestartOutcome) returns (v: World)
    requires Reconnected(w, c) && Completes(out)
    ensures Leads(c, HandOver(out.restore), v) && Restarted(w, v, out)
  {
    var read := Apply(c, ReadDesired);
    var restored := Apply(read, Restore(out.restore));
    v := Apply(restored, Install);
    assert Leads(v, [], v);
    assert Leads(restored, [Install], v);
    assert Leads(read, [Restore(out.restore), Install], v);
  }

  lemma RestartGivenUp(w: World, out: RestartOutcome) returns (v: World)
    requires Inv(w) && w.watchdog.PingFailed? && !Completes(out)
    ensures Leads(w, RestartSteps(out), v) && Restarted(w, v, out)
  {
    var closed := Apply(w, CloseOld);
    if out.cancelled || !out.started {
      v := Apply(closed, GiveUp);
      assert Leads(v, [], v);
      assert Leads(closed, [GiveUp], v);
    } else {
      var launched := Apply(closed, Launch);
      v := Apply(launched, GiveUp);
      assert Leads(v, [], v);
      assert Leads(launched, [GiveUp], v);
      assert Leads(closed, [Launch, GiveUp], v);
    }
  }

  /** However a restart turns out, carried out without interference after a failed ping, its steps are all
      enabled and leave what Manager.Restart promises.  If nothing goes wrong it recovers. */
  lemma UninterruptedRestart(w: World, out: RestartOutcome) returns (v: World)
    requires Inv(w) && w.watchdog.PingFailed?
    ensures Leads(w, RestartSteps(out), v) && Restarted(w, v, out)
    ensures Completes(out) && out.restore.Answered? ==> v.hb.locked == (w.belief.desired || w.hb.locked)
  {
    if Completes(out) {
      var c := RestartBegins(w);
      v := RestartEnds(w, c, out);
      LeadsOn(w, RECONNECT, c, HandOver(out.restore), v);
    } else {
      v := RestartGivenUp(w, out);
    }
  }

  // ----- from a failed ping to a working client -----

  /** A restart is due exactly after a ping that was not answered on a live client, until it begins: every
      such ping makes it due, and nothing else does. */
  lemma RestartIsDueIff(w: World, a: Action)
    requires Inv(w) && Enabled(w, a)
    ensures Apply(w, a).watchdog.PingFailed? <==>
            || (a.Ping? && !(w.mgrClient.value in w.live && a.o == Answered))
            || (w.watchdog.PingFailed? && !a.CloseOld?)
  {
  }

  lemma OnlyLaunchRevives(w: World, a: Action)
    requires Enabled(w, a) && !w.alive && !a.Launch?
    ensures !Apply(w, a).alive
  {
  }

  lemma {:induction false} StaysDead(r: Run, m: nat, n: nat)
    requires IsRun(r) && m <= n < |r.at| && !r.at[m].alive
    requires forall k :: m <= k < n ==> !r.does[k].Launch?
    ensures !r.at[n].alive
    decreases n
  {
    if m < n {
      StaysDead(r, m, n - 1);
      assert Step(r.at[n - 1], r.does[n - 1], r.at[n]);
      OnlyLaunchRevives(r.at[n - 1], r.does[n - 1]);
    }
  }

  /** A crash is noticed and repaired, locked or not: the first ping after it begins a restart, however
      the ping itself turns out; and if nothing goes wrong, that restart leaves a new process and a live
      client on both sides, locked exactly if that is desired. */
  lemma CrashIsRepaired(r: Run, m: nat, n: nat, out: RestartOutcome) returns (v: World)
    requires IsRun(r) && m < n < |r.does| && r.does[m].Crash? && r.does[n].Ping?
    requires forall k :: m < k < n ==> !r.does[k].Launch?
    requires Completes(out) && out.restore.Answered?
    ensures r.at[n + 1].watchdog.PingFailed?
    ensures Leads(r.at[n + 1], RestartSteps(out), v)
    ensures v.watchdog.Watching? && v.alive && v.mgrClient == Some(v.ctlClient) && v.live == {v.ctlClient}
    ensures v.belief == r.at[n + 1].belief && v.hb.locked == v.belief.desired
  {
    StepAt(r, m);
    StaysDead(r, m + 1, n);
    StepAt(r, n);
    RestartIsDueIff(r.at[n], r.does[n]);
    v := UninterruptedRestart(r.at[n + 1], out);
  }

  // ----- reconciliation -----

  /** A tick of the state-sync poll from reading the belief to its end. */
  function PollTick(w: World, o: Outcome): World
    requires w.poll.NoPoll?
  {
    var a := Apply(w, PollRead);
    if a.poll.NoPoll? then a
    else
      var b := Apply(a, PollStatus(o));
      if b.poll.NoPoll? then b else Apply(b, PollApply)
  }

  /** Without interference it changes the belief, and only the belief, as SyncTick promises. */
  lemma UninterruptedPoll(w: World, o: Outcome)
    requires w.poll.NoPoll?
    ensures PollTick(w, o)
            == w.(belief := AfterTick(w.belief, if w.belief.locked && Succeeds(Reachable(w, w.ctlClient), o)
                                                then Some(w.hb.locked) else None))
  {
  }

  /** Whenever a poll first acts on an answer, what it does depends only on whether the sentinel was
      locked when it answered: nothing, or clearing belief, desired lock and idle timer together. */
  lemma PollReconciles(r: Run, p: nat, q: nat)
    requires IsRun(r) && AnsweredThenApplied(r, p, q)
    ensures var idle := r.at[q].(poll := NoPoll);
            r.at[q + 1] == if r.at[p].hb.locked || !idle.belief.locked then idle
                           else idle.(belief := Belief(false, false, None))
  {
    AnswerIsKept(r, p, q);
    StepAt(r, q);
  }

  lemma OnlyCommandsSetBelief(w: World, a: Action)
    requires Enabled(w, a) && !w.belief.locked
    ensures Apply(w, a).belief.locked <==> LockSucceeds(w, a)
  {
  }

  ghost predicate NoLockSucceeds(r: Run, m: nat, n: nat)
    requires IsRun(r) && n < |r.at|
  {
    forall k :: m <= k < n ==> !LockSucceeds(r.at[k], r.does[k])
  }

  lemma BeliefNext(r: Run, n: nat)
    requires IsRun(r) && n < |r.does| && !r.at[n].belief.locked
    ensures r.at[n + 1].belief.locked <==> LockSucceeds(r.at[n], r.does[n])
  {
    assert Step(r.at[n], r.does[n], r.at[n + 1]);
    OnlyCommandsSetBelief(r.at[n], r.does[n]);
  }

  lemma {:induction false} BeliefStaysClear(r: Run, m: nat, n: nat)
    requires IsRun(r) && m <= n < |r.at| && !r.at[m].belief.locked && NoLockSucceeds(r, m, n)
    ensures !r.at[n].belief.locked
    decreases n
  {
    if m < n {
      BeliefStaysClear(r, m, n - 1);
      BeliefNext(r, n - 1);
    }
  }

  /** Sentinel, belief and desired lock are unlocked, and the idle timer is disarmed. */
  predicate AllClear(w: World) {
    && !w.hb.locked && !w.belief.locked && !w.belief.desired
    && (!w.stopped ==> w.belief.timer == None)
  }

  /** Once the belief is clear, nothing locks the sentinel again until a lock command succeeds: not a
      lock command that fails, not a restart, however many there are, and not the idle timer. */
  lemma NoRelockWithoutCommand(r: Run, m: nat, n: nat)
    requires TrustedRun(r) && m <= n < |r.at| && !r.at[m].belief.locked && NoLockSucceeds(r, m, n)
    ensures AllClear(r.at[n])
  {
    BeliefStaysClear(r, m, n);
    SafeInvAt(r, n);
    InvAt(r, n);
  }

  /** From the moment an "unlocked" poll answer is acted on, however late, until the next lock command
      that succeeds, everything is clear. */
  lemma ReconciledUntilNextLock(r: Run, q: nat, n: nat)
    requires TrustedRun(r) && q < n < |r.at|
    requires r.does[q].PollApply? && r.at[q].poll == Reported(false) && NoLockSucceeds(r, q + 1, n)
    ensures AllClear(r.at[n])
  {
    assert Step(r.at[q], r.does[q], r.at[q + 1]);
    NoRelockWithoutCommand(r, q + 1, n);
  }

  ghost predicate NoLockDelivered(r: Run, m: nat, n: nat)
    requires IsRun(r) && n < |r.at|
  {
    forall k :: m <= k < n ==> !DeliversLock(r.at[k], r.does[k])
  }

  lemma StaysUnlocked(r: Run, m: nat, p: nat)
    requires IsRun(r) && m <= p < |r.at| && !r.at[m].hb.locked && NoLockDelivered(r, m, p)
    ensures !r.at[p].hb.locked
  {
    if r.at[p].hb.locked {
      var k := LockIsDelivered(r, m, p);
      assert false;
    }
  }

  /** Reconciliation, from the sentinel's own unlock to the next lock: in a trusted run, if the sentinel
      is unlocked at m, by hook, heartbeat or crash, and no LOCK is delivered until a poll is answered at
      p, then from the point q where the poll acts on that answer, however late and whatever crashes,
      restarts and failing commands come in between and after, everything is clear until a lock command
      succeeds. */
  lemma SelfUnlockIsReconciled(r: Run, m: nat, p: nat, q: nat, n: nat)
    requires TrustedRun(r) && m <= p < q < n < |r.at|
    requires !r.at[m].hb.locked && NoLockDelivered(r, m, p)
    requires AnsweredThenApplied(r, p, q) && NoLockSucceeds(r, q + 1, n)
    ensures AllClear(r.at[n])
  {
    StaysUnlocked(r, m, p);
    AnswerIsKept(r, p, q);
    ReconciledUntilNextLock(r, q, n);
  }
}
