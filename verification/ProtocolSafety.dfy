/** Safety of whole runs: when the controller's belief covers the sentinel's lock, exactly, and what
    must have happened when it does not. */
module ProtocolSafety {
  import opened Prelude
  import opened LockState
  import opened LockProtocol
  import HB = Heartbeat

  /** A locked sentinel is known to be locked, so that UNLOCK can be sent. */
  predicate Safe(w: World) {
    w.hb.locked ==> w.belief.locked
  }

  /** The three ways to lose track of a locked sentinel: a LOCK that takes effect with its reply
      lost; an "unlocked" poll answer acted on after the sentinel was locked again; and a restored
      lock that such a stale answer has overtaken. */
  predicate Hazard(w: World, a: Action) {
    match a
    case Lock(o) => !w.belief.locked && Reachable(w, w.ctlClient) && o.ReplyLost?
    case PollApply => w.poll == Reported(false) && w.hb.locked
    case Restore(o) =>
      && w.watchdog == Restoring(true) && !w.belief.locked
      && w.mgrClient.Some? && Reachable(w, w.mgrClient.value) && !o.NoEffect?
    case _ => false
  }

  ghost predicate SafeThroughout(r: Run) {
    forall n :: 0 <= n < |r.at| ==> Safe(r.at[n])
  }

  ghost predicate HazardFree(r: Run)
    requires IsRun(r)
  {
    forall n :: 0 <= n < |r.does| ==> !Hazard(r.at[n], r.does[n])
  }

  lemma SafeStepIff(w: World, a: Action)
    requires Enabled(w, a) && Safe(w)
    ensures Safe(Apply(w, a)) <==> !Hazard(w, a)
  {
  }

  lemma SafeNextIff(r: Run, n: nat)
    requires IsRun(r) && n < |r.does| && Safe(r.at[n])
    ensures Safe(r.at[n + 1]) <==> !Hazard(r.at[n], r.does[n])
  {
    assert Step(r.at[n], r.does[n], r.at[n + 1]);
    SafeStepIff(r.at[n], r.does[n]);
  }

  lemma {:induction false} NoHazardIsSafe(r: Run, n: nat)
    requires IsRun(r) && n < |r.at| && HazardFree(r)
    ensures Safe(r.at[n])
  {
    if n > 0 {
      NoHazardIsSafe(r, n - 1);
      SafeNextIff(r, n - 1);
    }
  }

  /** Exactly the runs without one of the three hazards are safe throughout. */
  lemma SafeThroughoutIffNoHazard(r: Run)
    requires IsRun(r)
    ensures SafeThroughout(r) <==> HazardFree(r)
  {
    if SafeThroughout(r) {
      forall n | 0 <= n < |r.does|
        ensures !Hazard(r.at[n], r.does[n])
      {
        SafeNextIff(r, n);
      }
    } else if HazardFree(r) {
      forall n | 0 <= n < |r.at|
        ensures Safe(r.at[n])
      {
        NoHazardIsSafe(r, n);
      }
    }
  }

  // ----- hypotheses under which there is no hazard -----

  /** A LOCK that reports an error had no effect; while an "unlocked" poll answer is pending, no lock
      command runs and no restart reads or restores the desired lock. */
  predicate Trusted(w: World, a: Action) {
    && (a.Lock? ==> !a.o.ReplyLost?)
    && (w.poll == Reported(false) ==> !a.Lock? && !a.ReadDesired? && !a.Restore?)
  }

  ghost predicate TrustedRun(r: Run) {
    IsRun(r) && forall n :: 0 <= n < |r.does| ==> Trusted(r.at[n], r.does[n])
  }

  /** A pending "unlocked" answer is still true and no restart has read the desired lock since; a
      desired lock that was read is still the desired lock. */
  predicate SafeInv(w: World) {
    && Safe(w)
    && (w.poll == Reported(false) ==> !w.hb.locked && !w.watchdog.Restoring?)
    && (w.watchdog.Restoring? ==> w.watchdog.wasLocked == w.belief.desired)
  }

  lemma SafeInvStep(w: World, a: Action)
    requires Inv(w) && SafeInv(w) && Enabled(w, a) && Trusted(w, a)
    ensures SafeInv(Apply(w, a)) && !Hazard(w, a)
  {
  }

  lemma {:induction false} SafeInvAt(r: Run, n: nat)
    requires TrustedRun(r) && n < |r.at|
    ensures SafeInv(r.at[n])
  {
    if n > 0 {
      SafeInvAt(r, n - 1);
      StepAt(r, n - 1);
      assert Trusted(r.at[n - 1], r.does[n - 1]);
      SafeInvStep(r.at[n - 1], r.does[n - 1]);
    }
  }

  /** System-wide safety: in every trusted run, at every point, a locked sentinel is believed locked,
      and the belief and the desired lock agree. */
  lemma SystemSafety(r: Run, n: nat)
    requires TrustedRun(r) && n < |r.at|
    ensures var w := r.at[n];
            && (w.hb.locked ==> w.belief.locked)
            && w.belief.locked == w.belief.desired
  {
    SafeInvAt(r, n);
    InvAt(r, n);
  }

  /** What UnlockCommand returns. */
  predicate UnlockReportsSuccess(w: World, o: Outcome) {
    !w.belief.locked || Succeeds(Reachable(w, w.ctlClient), o)
  }

  lemma UnlockStep(w: World, o: Outcome)
    requires Inv(w) && Safe(w) && UnlockReportsSuccess(w, o)
    ensures var v := Apply(w, Unlock(o));
            !v.hb.locked && !v.belief.locked && !v.belief.desired
  {
  }

  /** In a trusted run an unlock command that reports success, its early return included, leaves the
      sentinel unlocked. */
  lemma UnlockIsHonest(r: Run, n: nat)
    requires TrustedRun(r) && n < |r.does|
    requires r.does[n].Unlock? && UnlockReportsSuccess(r.at[n], r.does[n].o)
    ensures var v := r.at[n + 1];
            !v.hb.locked && !v.belief.locked && !v.belief.desired
  {
    SafeInvAt(r, n);
    StepAt(r, n);
    UnlockStep(r.at[n], r.does[n].o);
  }

  // ----- the hypotheses are needed -----

  /** A lost LOCK reply: the sentinel is locked, the belief is not, and the unlock command reports
      success without unlocking anything. */
  lemma LostReplyStrandsTheLock(w: World)
    requires Initial(w)
    ensures var v := Apply(w, Lock(ReplyLost));
            && v.hb.locked && !v.belief.locked
            && UnlockReportsSuccess(v, Answered) && Apply(v, Unlock(Answered)).hb.locked
  {
  }

  /** A poll has been told "unlocked" by a sentinel that its user unlocked, and has yet to act on it. */
  predicate AnswerPending(w: World) {
    && w.poll == Reported(false) && w.belief.locked && !w.hb.locked && !w.stopped
    && w.watchdog.Watching? && w.mgrClient == Some(w.ctlClient) && w.live == {w.ctlClient}
  }

  lemma PendingAnswer(w: World) returns (r: Run)
    requires Initial(w)
    ensures IsRun(r) && r.at[0] == w && |r.does| == 4
    ensures AnswerPending(Last(r))
  {
    r := Extend(Run([w], []), Lock(Answered));
    r := Extend(r, Sentinel(HB.HookUnlock));
    r := Extend(r, PollRead);
    r := Extend(r, PollStatus(Answered));
  }

  /** A poll answer that is overtaken: lock, unlock by the combo, poll; before the poll acts the user
      unlocks and locks again; then the stale answer clears the belief of a locked sentinel. */
  lemma StalePollLosesTheLock(w: World) returns (r: Run)
    requires Initial(w)
    ensures IsRun(r) && r.at[0] == w
    ensures var v := Last(r); v.hb.locked && !v.belief.locked
  {
    r := PendingAnswer(w);
    r := Extend(r, Unlock(Answered));
    r := Extend(r, Lock(Answered));
    r := Extend(r, PollApply);
  }

  // ----- the hazards in terms of what happened before -----

  /** The poll's status request is answered at p. */
  ghost predicate PollAnswered(r: Run, p: nat)
    requires IsRun(r)
  {
    && p < |r.does| && r.does[p].PollStatus? && r.at[p].poll.Asking?
    && Succeeds(Reachable(r.at[p], r.at[p].poll.client), r.does[p].o)
  }

  /** It is answered at p, and the answer is first acted on at q. */
  ghost predicate AnsweredThenApplied(r: Run, p: nat, q: nat)
    requires IsRun(r)
  {
    PollAnswered(r, p) && p < q < |r.does| && r.does[q].PollApply? && NoApplyBetween(r, p, q)
  }

  ghost predicate NoApplyBetween(r: Run, p: nat, q: nat)
    requires IsRun(r) && q < |r.at|
  {
    forall k :: p < k < q ==> !r.does[k].PollApply?
  }

  lemma AnswerStep(w: World, a: Action)
    requires Enabled(w, a)
    ensures w.poll.Reported? && !a.PollApply? ==> Apply(w, a).poll == w.poll
    ensures a.PollStatus? && Succeeds(Reachable(w, w.poll.client), a.o)
            ==> Apply(w, a).poll == Reported(w.hb.locked)
    ensures Apply(w, a).poll.Reported? && Apply(w, a).poll != w.poll
            ==> a.PollStatus? && Succeeds(Reachable(w, w.poll.client), a.o)
  {
  }

  /** An answer is what the sentinel's flag was, and is kept until it is acted on. */
  lemma {:induction false} AnswerIsKept(r: Run, p: nat, q: nat)
    requires IsRun(r) && p < q < |r.at| && PollAnswered(r, p) && NoApplyBetween(r, p, q)
    ensures r.at[q].poll == Reported(r.at[p].hb.locked)
    decreases q
  {
    assert Step(r.at[q - 1], r.does[q - 1], r.at[q]);
    AnswerStep(r.at[q - 1], r.does[q - 1]);
    if p + 1 < q {
      AnswerIsKept(r, p, q - 1);
    }
  }

  lemma {:induction false} AnswerSource(r: Run, q: nat) returns (p: nat)
    requires IsRun(r) && q < |r.at| && r.at[q].poll.Reported?
    ensures p < q && PollAnswered(r, p) && NoApplyBetween(r, p, q)
  {
    assert Step(r.at[q - 1], r.does[q - 1], r.at[q]);
    AnswerStep(r.at[q - 1], r.does[q - 1]);
    if r.at[q - 1].poll == r.at[q].poll {
      p := AnswerSource(r, q - 1);
    } else {
      p := q - 1;
    }
  }

  /** A LOCK was delivered at k and the sentinel has been locked ever since, up to q. */
  ghost predicate LockedSince(r: Run, k: nat, q: nat)
    requires IsRun(r)
  {
    k < q < |r.at| && DeliversLock(r.at[k], r.does[k]) && forall i :: k < i <= q ==> r.at[i].hb.locked
  }

  lemma {:induction false} LockIsDelivered(r: Run, p: nat, q: nat) returns (k: nat)
    requires IsRun(r) && p <= q < |r.at| && !r.at[p].hb.locked && r.at[q].hb.locked
    ensures p <= k && LockedSince(r, k, q)
    decreases q
  {
    assert Step(r.at[q - 1], r.does[q - 1], r.at[q]);
    OnlyLocksLock(r.at[q - 1], r.does[q - 1]);
    if r.at[q - 1].hb.locked {
      k := LockIsDelivered(r, p, q - 1);
    } else {
      k := q - 1;
    }
  }

  /** A poll acts at q on an answer of a sentinel that was unlocked then; a LOCK has been delivered since
      and nothing has undone it. */
  ghost predicate OvertakenAnswer(r: Run, q: nat)
    requires IsRun(r)
  {
    exists p: nat, k: nat ::
      p < k && AnsweredThenApplied(r, p, q) && !r.at[p].hb.locked && LockedSince(r, k, q)
  }

  /** Acting on a poll answer loses track of the lock exactly if a LOCK has overtaken the answer. */
  lemma StalePollIff(r: Run, q: nat)
    requires IsRun(r) && q < |r.does| && r.does[q].PollApply?
    ensures Hazard(r.at[q], r.does[q]) <==> OvertakenAnswer(r, q)
  {
    assert Step(r.at[q], r.does[q], r.at[q + 1]);
    if Hazard(r.at[q], r.does[q]) {
      var p := AnswerSource(r, q);
      AnswerIsKept(r, p, q);
      var k := LockIsDelivered(r, p, q);
      assert p < k && AnsweredThenApplied(r, p, q) && !r.at[p].hb.locked && LockedSince(r, k, q);
    } else if p: nat, k: nat :|
        p < k && AnsweredThenApplied(r, p, q) && !r.at[p].hb.locked && LockedSince(r, k, q) {
      AnswerIsKept(r, p, q);
      assert false;
    }
  }

  /** The poll acts on an "unlocked" answer while the belief is locked. */
  predicate DropsBelief(w: World, a: Action) {
    a.PollApply? && w.poll == Reported(false) && w.belief.locked
  }

  /** A restart reads the desired lock at j and sends or skips the LOCK at q. */
  ghost predicate ReadThenRestored(r: Run, j: nat, q: nat)
    requires IsRun(r)
  {
    && j < q < |r.does| && r.does[j].ReadDesired? && r.does[q].Restore?
    && NoRestoreBetween(r, j, q)
  }

  ghost predicate NoRestoreBetween(r: Run, j: nat, q: nat)
    requires IsRun(r) && q < |r.at|
  {
    forall i :: j < i < q ==> !r.does[i].Restore?
  }

  ghost predicate DroppedBetween(r: Run, j: nat, q: nat)
    requires IsRun(r) && q < |r.at|
  {
    exists i :: j < i < q && DropsBelief(r.at[i], r.does[i])
  }

  lemma RestoringStep(w: World, a: Action)
    requires Inv(w) && Enabled(w, a) && w.watchdog.Restoring? && !a.Restore?
    ensures Apply(w, a).watchdog == w.watchdog
    ensures Apply(w, a).belief.locked <==> w.belief.locked && !DropsBelief(w, a)
  {
  }

  /** Between reading the desired lock and restoring it, only a poll can change the belief. */
  lemma {:induction false} DesiredIsKept(r: Run, j: nat, q: nat)
    requires IsRun(r) && j < q < |r.at| && r.does[j].ReadDesired? && NoRestoreBetween(r, j, q)
    ensures r.at[q].watchdog == Restoring(r.at[j].belief.desired)
    ensures r.at[q].belief.locked <==> r.at[j].belief.locked && !DroppedBetween(r, j, q)
    decreases q
  {
    StepAt(r, q - 1);
    if j + 1 < q {
      DesiredIsKept(r, j, q - 1);
      RestoringStep(r.at[q - 1], r.does[q - 1]);
      assert DroppedBetween(r, j, q) <==>
             DroppedBetween(r, j, q - 1) || DropsBelief(r.at[q - 1], r.does[q - 1]);
    }
  }

  lemma RestoringBegins(w: World, a: Action)
    requires Enabled(w, a) && Apply(w, a).watchdog.Restoring?
    ensures a.ReadDesired? || (w.watchdog.Restoring? && !a.Restore?)
  {
  }

  lemma {:induction false} DesiredSource(r: Run, q: nat) returns (j: nat)
    requires IsRun(r) && q < |r.at| && r.at[q].watchdog.Restoring?
    ensures j < q && r.does[j].ReadDesired? && NoRestoreBetween(r, j, q)
  {
    assert Step(r.at[q - 1], r.does[q - 1], r.at[q]);
    RestoringBegins(r.at[q - 1], r.does[q - 1]);
    if r.does[q - 1].ReadDesired? {
      j := q - 1;
    } else {
      j := DesiredSource(r, q - 1);
    }
  }

  /** A LOCK is restored at q because the desired lock was set when it was read, but a poll has dropped
      it since. */
  ghost predicate OvertakenRestore(r: Run, q: nat)
    requires IsRun(r) && q < |r.does|
  {
    && DeliversLock(r.at[q], r.does[q])
    && exists j: nat :: ReadThenRestored(r, j, q) && r.at[j].belief.desired && DroppedBetween(r, j, q)
  }

  /** Restoring the lock loses track of it exactly if a poll has overtaken the restart. */
  lemma StaleRestoreIff(r: Run, q: nat)
    requires IsRun(r) && q < |r.does| && r.does[q].Restore?
    ensures Hazard(r.at[q], r.does[q]) <==> OvertakenRestore(r, q)
  {
    assert Step(r.at[q], r.does[q], r.at[q + 1]);
    var j := DesiredSource(r, q);
    DesiredIsKept(r, j, q);
    InvAt(r, j);
    if Hazard(r.at[q], r.does[q]) {
      assert ReadThenRestored(r, j, q) && r.at[j].belief.desired && DroppedBetween(r, j, q);
    } else if i: nat :| ReadThenRestored(r, i, q) && r.at[i].belief.desired && DroppedBetween(r, i, q) {
      DesiredIsKept(r, i, q);
    }
  }

  /** What loses track of the lock, in terms of the run so far: a delivered LOCK whose reply is lost, an
      overtaken poll answer, an overtaken restore. */
  ghost predicate LosesTrack(r: Run, q: nat)
    requires IsRun(r) && q < |r.does|
  {
    match r.does[q]
    case Lock(o) => DeliversLock(r.at[q], r.does[q]) && o.ReplyLost?
    case PollApply => OvertakenAnswer(r, q)
    case Restore(_) => OvertakenRestore(r, q)
    case _ => false
  }

  lemma LosesTrackIff(r: Run, q: nat)
    requires IsRun(r) && q < |r.does|
    ensures Hazard(r.at[q], r.does[q]) <==> LosesTrack(r, q)
  {
    if r.does[q].PollApply? {
      StalePollIff(r, q);
    } else if r.does[q].Restore? {
      StaleRestoreIff(r, q);
    }
  }

  /** Exactly the runs in which no LOCK reply is lost, no poll answer is overtaken by a LOCK and no
      restore by a poll are safe throughout. */
  lemma SafeThroughoutIff(r: Run)
    requires IsRun(r)
    ensures SafeThroughout(r) <==> forall q :: 0 <= q < |r.does| ==> !LosesTrack(r, q)
  {
    SafeThroughoutIffNoHazard(r);
    forall q | 0 <= q < |r.does|
      ensures Hazard(r.at[q], r.does[q]) <==> LosesTrack(r, q)
    {
      LosesTrackIff(r, q);
    }
  }
}
