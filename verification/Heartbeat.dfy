/** The sentinel's lock flag and heartbeat stamp, shared by two threads.

    The pipe thread runs LOCK, UNLOCK and PING; the main thread runs the hook callback and the
    heartbeat timer callback.  Every load and store of the two shared atomics and every clock read
    is a step of its own, and the steps of the two threads interleave freely.  The atomics are
    sequentially consistent. */
module Heartbeat {

  const TICK_INTERVAL := 5000
  const PING_TIMEOUT := 60000
  const U64 := 0x1_0000_0000_0000_0000

  /** Subtraction of two unsigned 64-bit tick counts, wrap-around included. */
  function Sub64(a: int, b: int): int {
    (a - b) % U64
  }

  lemma NoWrap(a: int, b: int)
    requires 0 <= b <= a < U64
    ensures Sub64(a, b) == a - b
  {
  }

  function Max(a: int, b: int): int {
    if a < b then b else a
  }

  // ----- the machine -----

  /** Where the pipe thread is inside a command. */
  datatype PipePc =
    | PipeIdle
    | FlagStored               // LOCK stored the flag, not yet the stamp
    | LockStamp(now: nat)      // LOCK read the clock, not yet stored it
    | PingStamp(now: nat)      // PING read the clock, not yet stored it

  /** Where the main thread is inside the timer callback. */
  datatype TimerPc =
    | TimerIdle
    | SawLocked                        // loaded the flag, it was set
    | GotStamp(stamp: nat)             // loaded a nonzero stamp
    | Expired(stamp: nat, now: nat)    // the comparison said "too old"

  /** `lastTick` and `settled` are not in the program.  They record the clock at the start of the
      last timer callback and at the end of the last LOCK. */
  datatype State = State(
    clock: nat,
    locked: bool,
    lastPing: nat,
    pipe: PipePc,
    timer: TimerPc,
    lastTick: nat,
    settled: nat
  )

  datatype Action =
    | LockStore
    | LockReadClock
    | LockStoreStamp
    | PingReadClock
    | PingStoreStamp
    | UnlockStore
    | HookUnlock
    | TimerLoadLocked
    | TimerLoadStamp
    | TimerReadClock
    | TimerStore
    | Advance(ms: nat)

  predicate IsTimer(a: Action) {
    a.TimerLoadLocked? || a.TimerLoadStamp? || a.TimerReadClock? || a.TimerStore?
  }

  predicate IsPipe(a: Action) {
    || a.LockStore? || a.LockReadClock? || a.LockStoreStamp?
    || a.PingReadClock? || a.PingStoreStamp? || a.UnlockStore?
  }

  predicate Enabled(s: State, a: Action) {
    match a
    case LockStore => s.pipe.PipeIdle?
    case LockReadClock => s.pipe.FlagStored?
    case LockStoreStamp => s.pipe.LockStamp?
    case PingReadClock => s.pipe.PipeIdle?
    case PingStoreStamp => s.pipe.PingStamp?
    case UnlockStore => s.pipe.PipeIdle?
    case HookUnlock => true
    case TimerLoadLocked => s.timer.TimerIdle?
    case TimerLoadStamp => s.timer.SawLocked?
    case TimerReadClock => s.timer.GotStamp?
    case TimerStore => s.timer.Expired?
    case Advance(ms) => s.clock + ms < U64
  }

  function Apply(s: State, a: Action): State
    requires Enabled(s, a)
  {
    match a
    case LockStore => s.(locked := true, pipe := FlagStored)
    case LockReadClock => s.(pipe := LockStamp(s.clock))
    case LockStoreStamp => s.(lastPing := s.pipe.now, pipe := PipeIdle, settled := s.clock)
    case PingReadClock => s.(pipe := PingStamp(s.clock))
    case PingStoreStamp => s.(lastPing := s.pipe.now, pipe := PipeIdle)
    case UnlockStore => s.(locked := false)
    case HookUnlock => s.(locked := false)
    case TimerLoadLocked => s.(timer := if s.locked then SawLocked else TimerIdle, lastTick := s.clock)
    case TimerLoadStamp => s.(timer := if s.lastPing == 0 then TimerIdle else GotStamp(s.lastPing))
    case TimerReadClock =>
      s.(timer := if Sub64(s.clock, s.timer.stamp) > PING_TIMEOUT then Expired(s.timer.stamp, s.clock)
                  else TimerIdle)
    case TimerStore => s.(locked := false, timer := TimerIdle)
    case Advance(ms) => s.(clock := s.clock + ms)
  }

  /** A process that has just been started at the given time. */
  function Fresh(clock: nat): State {
    State(clock, false, 0, PipeIdle, TimerIdle, clock, 0)
  }

  predicate Initial(s: State) {
    0 < s.clock < U64 && s == Fresh(s.clock)
  }

  // ----- runs -----

  /** A run: the state before each action, and after the last one. */
  datatype Run = Run(at: seq<State>, does: seq<Action>)

  ghost predicate Step(s: State, a: Action, t: State) {
    Enabled(s, a) && t == Apply(s, a)
  }

  ghost predicate IsRun(r: Run) {
    && |r.at| == |r.does| + 1
    && forall i :: 0 <= i < |r.does| ==> Step(r.at[i], r.does[i], r.at[i + 1])
  }

  ghost predicate StartsFresh(r: Run) {
    IsRun(r) && Initial(r.at[0])
  }

  function Last(r: Run): State
    requires r.at != []
  {
    r.at[|r.at| - 1]
  }

  // ----- facts that hold in every interleaving -----

  predicate InLockWindow(s: State) {
    s.pipe.FlagStored? || s.pipe.LockStamp?
  }

  predicate Inv(s: State) {
    && 0 < s.clock < U64
    && s.lastPing <= s.clock && s.lastTick <= s.clock && s.settled <= s.clock
    && (s.locked ==> s.lastPing != 0 || InLockWindow(s))
    && (s.pipe.LockStamp? || s.pipe.PingStamp? ==> 0 < s.pipe.now && s.lastPing <= s.pipe.now <= s.clock)
    && (s.timer.GotStamp? ==> 0 < s.timer.stamp <= s.lastPing)
    && (s.timer.Expired? ==> 0 < s.timer.stamp <= s.lastPing
                             && s.timer.stamp + PING_TIMEOUT < s.timer.now <= s.clock)
  }

  lemma StampAgeDoesNotWrap(s: State)
    requires Inv(s) && s.timer.GotStamp?
    ensures Sub64(s.clock, s.timer.stamp) == s.clock - s.timer.stamp
  {
  }

  lemma InvStep(s: State, a: Action)
    requires Inv(s) && Enabled(s, a)
    ensures Inv(Apply(s, a))
    ensures s.lastPing <= Apply(s, a).lastPing && s.clock <= Apply(s, a).clock
  {
  }

  lemma {:induction false} InvAt(r: Run, n: nat)
    requires IsRun(r) && Inv(r.at[0]) && n < |r.at|
    ensures Inv(r.at[n])
  {
    if n > 0 {
      InvAt(r, n - 1);
      assert Step(r.at[n - 1], r.does[n - 1], r.at[n]);
      InvStep(r.at[n - 1], r.does[n - 1]);
    }
  }

  /** No unsigned wrap-around, whatever the interleaving: whenever the timer is about to read the
      clock, the stamp it loaded is in the past, even if a PING or LOCK lands in between; a set flag
      always has a nonzero stamp unless LOCK is between its two stores. */
  lemma NoWrapAround(r: Run, n: nat)
    requires StartsFresh(r) && n < |r.at|
    ensures var s := r.at[n];
            && s.lastPing <= s.clock < 0x1_0000_0000_0000_0000
            && (s.timer.GotStamp? ==> s.timer.stamp <= s.clock
                                      && Sub64(s.clock, s.timer.stamp) == s.clock - s.timer.stamp)
            && (s.locked && !InLockWindow(s) ==> s.lastPing != 0)
  {
    InvAt(r, n);
    if r.at[n].timer.GotStamp? {
      StampAgeDoesNotWrap(r.at[n]);
    }
  }

  /** The stamp never goes back between any two points of a run, and neither does the clock. */
  lemma {:induction false} StampNeverDecreases(r: Run, i: nat, j: nat)
    requires StartsFresh(r) && i <= j < |r.at|
    ensures r.at[i].lastPing <= r.at[j].lastPing && r.at[i].clock <= r.at[j].clock
    decreases j
  {
    if i < j {
      StampNeverDecreases(r, i, j - 1);
      InvAt(r, j - 1);
      assert Step(r.at[j - 1], r.does[j - 1], r.at[j]);
      InvStep(r.at[j - 1], r.does[j - 1]);
    }
  }

  /** No step of the timer callback lies strictly between positions i and j. */
  ghost predicate NoTimerBetween(r: Run, i: int, j: int)
    requires IsRun(r) && 0 <= i && j <= |r.does|
  {
    forall k :: i < k < j ==> !IsTimer(r.does[k])
  }

  /** Positions i < j of a run at which one timer callback loaded its stamp and read the clock. */
  ghost predicate LoadThenRead(r: Run, i: nat, j: nat)
    requires IsRun(r)
  {
    && i < j < |r.does|
    && r.does[i].TimerLoadStamp? && r.does[j].TimerReadClock?
    && NoTimerBetween(r, i, j)
  }

  lemma {:induction false} StampWasLoaded(r: Run, n: nat) returns (i: nat)
    requires StartsFresh(r) && n < |r.at| && r.at[n].timer.GotStamp?
    ensures i < n && r.does[i].TimerLoadStamp? && NoTimerBetween(r, i, n)
    ensures r.at[i].lastPing == r.at[n].timer.stamp
  {
    assert Step(r.at[n - 1], r.does[n - 1], r.at[n]);
    if r.does[n - 1].TimerLoadStamp? {
      i := n - 1;
    } else {
      i := StampWasLoaded(r, n - 1);
    }
  }

  lemma {:induction false} ExpiryWasRead(r: Run, n: nat) returns (i: nat, j: nat)
    requires StartsFresh(r) && n < |r.at| && r.at[n].timer.Expired?
    ensures LoadThenRead(r, i, j) && j < n && NoTimerBetween(r, j, n)
    ensures 0 < r.at[i].lastPing && r.at[i].lastPing + PING_TIMEOUT < r.at[j].clock
  {
    assert Step(r.at[n - 1], r.does[n - 1], r.at[n]);
    if r.does[n - 1].TimerReadClock? {
      j := n - 1;
      i := StampWasLoaded(r, j);
      InvAt(r, j);
      StampAgeDoesNotWrap(r.at[j]);
    } else {
      i, j := ExpiryWasRead(r, n - 1);
    }
  }

  /** Every heartbeat unlock is justified: the callback that stores at position n loaded, at i, a
      stamp more than 60000 ms older than the clock it read at j, and i < j < n belong to that one
      callback.  This covers ticks that land inside LOCK with a stale or zero stamp. */
  lemma TimerUnlockIsJustified(r: Run, n: nat) returns (i: nat, j: nat)
    requires StartsFresh(r) && n < |r.does| && r.does[n].TimerStore?
    ensures LoadThenRead(r, i, j) && j < n && NoTimerBetween(r, j, n)
    ensures 0 < r.at[i].lastPing
    ensures r.at[j].clock - r.at[i].lastPing > PING_TIMEOUT
  {
    assert Step(r.at[n], r.does[n], r.at[n + 1]);
    i, j := ExpiryWasRead(r, n);
  }

  /** No false heartbeat unlock: a run in which no callback meets a stamp that old never sees the
      heartbeat clear the flag. */
  lemma NoFalseHeartbeatUnlock(r: Run)
    requires StartsFresh(r)
    requires forall i: nat, j: nat :: LoadThenRead(r, i, j) ==> r.at[j].clock - r.at[i].lastPing <= PING_TIMEOUT
    ensures forall n :: 0 <= n < |r.does| ==> !r.does[n].TimerStore?
  {
    forall n: nat | n < |r.does|
      ensures !r.does[n].TimerStore?
    {
      if r.does[n].TimerStore? {
        var i, j := TimerUnlockIsJustified(r, n);
        assert false;
      }
    }
  }

  /** Any of the three unlocking stores holds until the next LOCK begins. */
  lemma {:induction false} OnlyLockSetsTheFlag(r: Run, m: nat, n: nat)
    requires IsRun(r) && m < n < |r.at|
    requires r.does[m].UnlockStore? || r.does[m].HookUnlock? || r.does[m].TimerStore?
    requires forall k :: m < k < n ==> !r.does[k].LockStore?
    ensures !r.at[n].locked
    decreases n
  {
    assert Step(r.at[n - 1], r.does[n - 1], r.at[n]);
    if m < n - 1 {
      OnlyLockSetsTheFlag(r, m, n - 1);
    }
  }

  // ----- what the threads share -----

  /** The two threads share the flag, the stamp and the clock, and nothing else: the pipe thread works the
      same wherever the timer callback is, and the other way round. */
  lemma ThreadsShareNothingElse(s: State, a: Action, pipe: PipePc, settled: nat, timer: TimerPc, lastTick: nat)
    ensures IsPipe(a) || a.HookUnlock? ==>
              && (Enabled(s.(timer := timer, lastTick := lastTick), a) <==> Enabled(s, a))
              && (Enabled(s, a) ==>
                    Apply(s.(timer := timer, lastTick := lastTick), a)
                    == Apply(s, a).(timer := timer, lastTick := lastTick))
    ensures IsTimer(a) || a.HookUnlock? ==>
              && (Enabled(s.(pipe := pipe, settled := settled), a) <==> Enabled(s, a))
              && (Enabled(s, a) ==>
                    Apply(s.(pipe := pipe, settled := settled), a) == Apply(s, a).(pipe := pipe, settled := settled))
  {
  }

  // ----- each thread does one thing after the other -----

  ghost predicate NoPipeBetween(r: Run, i: int, j: int)
    requires IsRun(r) && 0 <= i && j <= |r.does|
  {
    forall k :: i < k < j ==> !IsPipe(r.does[k])
  }

  lemma {:induction false} PipeWaits(r: Run, i: nat, j: nat)
    requires IsRun(r) && i < j <= |r.does| && NoPipeBetween(r, i, j)
    ensures r.at[j].pipe == r.at[i + 1].pipe
    decreases j
  {
    if i + 1 < j {
      PipeWaits(r, i, j - 1);
      assert Step(r.at[j - 1], r.does[j - 1], r.at[j]);
    }
  }

  /** The pipe thread finishes a command before it begins the next: of two steps of it that follow each
      other, however many steps of the main thread come between them, LOCK's clock read follows exactly its
      flag store, its stamp store exactly that, and PING's stamp store exactly PING's clock read. */
  lemma PipeThreadIsSequential(r: Run, i: nat, j: nat)
    requires IsRun(r) && i < j < |r.does| && IsPipe(r.does[i]) && IsPipe(r.does[j]) && NoPipeBetween(r, i, j)
    ensures r.does[i].LockStore? <==> r.does[j].LockReadClock?
    ensures r.does[i].LockReadClock? <==> r.does[j].LockStoreStamp?
    ensures r.does[i].PingReadClock? <==> r.does[j].PingStoreStamp?
  {
    PipeWaits(r, i, j);
    assert Step(r.at[i], r.does[i], r.at[i + 1]);
    assert Step(r.at[j], r.does[j], r.at[j + 1]);
  }

  lemma {:induction false} TimerWaits(r: Run, i: nat, j: nat)
    requires IsRun(r) && i < j <= |r.does| && NoTimerBetween(r, i, j)
    ensures r.at[j].timer == r.at[i + 1].timer
    decreases j
  {
    if i + 1 < j {
      TimerWaits(r, i, j - 1);
      assert Step(r.at[j - 1], r.does[j - 1], r.at[j]);
    }
  }

  /** And a timer callback goes on exactly as far as what it has read makes it: past the flag if that is
      set, past the stamp if there is one, and to the unlocking store if the stamp is too old. */
  lemma TimerThreadIsSequential(r: Run, i: nat, j: nat)
    requires StartsFresh(r) && i < j < |r.does| && IsTimer(r.does[i]) && IsTimer(r.does[j]) && NoTimerBetween(r, i, j)
    ensures r.does[j].TimerLoadStamp? <==> r.does[i].TimerLoadLocked? && r.at[i].locked
    ensures r.does[j].TimerReadClock? <==> r.does[i].TimerLoadStamp? && r.at[i].lastPing != 0
    ensures r.does[j].TimerStore? <==>
            r.does[i].TimerReadClock? && r.at[i].timer.GotStamp? && r.at[i].clock - r.at[i].timer.stamp > 60000
  {
    TimerWaits(r, i, j);
    InvAt(r, i);
    assert Step(r.at[i], r.does[i], r.at[i + 1]);
    assert Step(r.at[j], r.does[j], r.at[j + 1]);
    if r.at[i].timer.GotStamp? {
      StampAgeDoesNotWrap(r.at[i]);
    }
  }

  // ----- the fail-open bound -----

  /** The timing hypothesis: timer callbacks start at most 5000 ms apart and take no clock time. */
  predicate Punctual(s: State, a: Action) {
    a.Advance? ==> s.timer.TimerIdle? && s.clock + a.ms <= s.lastTick + TICK_INTERVAL
  }

  /** A LOCK that stores its stamp now has read it at most d milliseconds ago. */
  predicate StallAtMost(s: State, a: Action, d: nat) {
    a.LockStoreStamp? && s.pipe.LockStamp? ==> s.clock <= s.pipe.now + d
  }

  ghost predicate PunctualRun(r: Run)
    requires IsRun(r)
  {
    forall i :: 0 <= i < |r.does| ==> Punctual(r.at[i], r.does[i])
  }

  ghost predicate StallsAtMost(r: Run, d: nat)
    requires IsRun(r)
  {
    forall i :: 0 <= i < |r.does| ==> StallAtMost(r.at[i], r.does[i], d)
  }

  /** The latest clock at which the flag may still be set. */
  function Limit(s: State): int {
    Max(s.lastPing + PING_TIMEOUT, s.settled) + TICK_INTERVAL
  }

  predicate TimedInv(s: State) {
    && Inv(s)
    && s.clock <= s.lastTick + TICK_INTERVAL
    && (!s.timer.TimerIdle? ==> s.clock == s.lastTick)
    && (s.locked && !InLockWindow(s) ==> s.clock <= Limit(s))
    && (s.locked && !InLockWindow(s) && s.timer.TimerIdle? ==> s.lastTick + TICK_INTERVAL <= Limit(s))
  }

  lemma TimedStep(s: State, a: Action)
    requires TimedInv(s) && Enabled(s, a) && Punctual(s, a)
    ensures TimedInv(Apply(s, a))
  {
    InvStep(s, a);
    if s.timer.GotStamp? {
      StampAgeDoesNotWrap(s);
    }
  }

  lemma {:induction false} TimedAt(r: Run, n: nat)
    requires StartsFresh(r) && PunctualRun(r) && n < |r.at|
    ensures TimedInv(r.at[n])
  {
    if n > 0 {
      TimedAt(r, n - 1);
      assert Step(r.at[n - 1], r.does[n - 1], r.at[n]);
      assert Punctual(r.at[n - 1], r.does[n - 1]);
      TimedStep(r.at[n - 1], r.does[n - 1]);
    }
  }

  /** Fail-open: with punctual ticks, in every interleaving, a flag that is set outside LOCK's
      window is at most 65000 ms past its stamp, or 5000 ms past the end of the LOCK that set it. */
  lemma FailOpen(r: Run, n: nat)
    requires StartsFresh(r) && PunctualRun(r) && n < |r.at|
    ensures var s := r.at[n];
            s.locked && !InLockWindow(s)
            ==> s.clock <= s.lastPing + PING_TIMEOUT + TICK_INTERVAL
                || s.clock <= s.settled + TICK_INTERVAL
  {
    TimedAt(r, n);
  }

  lemma SettledStep(s: State, a: Action, d: nat)
    requires Inv(s) && Enabled(s, a) && StallAtMost(s, a, d) && s.settled <= s.lastPing + d
    ensures Apply(s, a).settled <= Apply(s, a).lastPing + d
  {
  }

  lemma {:induction false} SettledWithin(r: Run, d: nat, n: nat)
    requires StartsFresh(r) && StallsAtMost(r, d) && n < |r.at|
    ensures r.at[n].settled <= r.at[n].lastPing + d
  {
    if n > 0 {
      SettledWithin(r, d, n - 1);
      InvAt(r, n - 1);
      assert Step(r.at[n - 1], r.does[n - 1], r.at[n]);
      assert StallAtMost(r.at[n - 1], r.does[n - 1], d);
      SettledStep(r.at[n - 1], r.does[n - 1], d);
    }
  }

  /** At every point of the run a flag that is set outside LOCK's window has a stamp at most b
      milliseconds old. */
  ghost predicate FreesWithin(r: Run, b: int) {
    forall n :: 0 <= n < |r.at| ==>
      (r.at[n].locked && !InLockWindow(r.at[n]) ==> r.at[n].clock <= r.at[n].lastPing + b)
  }

  lemma StallsBoundLock(r: Run, d: nat)
    requires StartsFresh(r) && PunctualRun(r) && StallsAtMost(r, d)
    ensures FreesWithin(r, Max(PING_TIMEOUT, d) + TICK_INTERVAL)
  {
    forall n: nat | n < |r.at|
      ensures r.at[n].locked && !InLockWindow(r.at[n])
              ==> r.at[n].clock <= r.at[n].lastPing + Max(PING_TIMEOUT, d) + TICK_INTERVAL
    {
      TimedAt(r, n);
      SettledWithin(r, d, n);
    }
  }

  /** An action of a sentinel that receives no LOCK and no PING. */
  predicate Quiet(a: Action) {
    !a.LockStore? && !a.LockReadClock? && !a.LockStoreStamp? && !a.PingReadClock? && !a.PingStoreStamp?
  }

  lemma {:induction false} QuietKeepsStamp(r: Run, m: nat, n: nat)
    requires IsRun(r) && m <= n < |r.at| && r.at[m].pipe.PipeIdle?
    requires forall k :: m <= k < n ==> Quiet(r.does[k])
    ensures var s, t := r.at[m], r.at[n];
            && t.lastPing == s.lastPing && t.settled == s.settled && t.pipe.PipeIdle?
            && (t.locked ==> s.locked)
    decreases n
  {
    if m < n {
      QuietKeepsStamp(r, m, n - 1);
      assert Step(r.at[n - 1], r.does[n - 1], r.at[n]);
      assert Quiet(r.does[n - 1]);
    }
  }

  /** After the last LOCK or PING, at position m, the keyboard is free once 65000 ms have passed,
      at every later point n: it never locks again by itself. */
  lemma QuietSentinelUnlocks(r: Run, m: nat, n: nat)
    requires StartsFresh(r) && PunctualRun(r)
    requires m <= n < |r.at| && r.at[m].pipe.PipeIdle?
    requires forall k :: m <= k < n ==> Quiet(r.does[k])
    requires r.at[n].clock > r.at[m].clock + PING_TIMEOUT + TICK_INTERVAL
    ensures !r.at[n].locked
  {
    QuietKeepsStamp(r, m, n);
    InvAt(r, m);
    TimedAt(r, n);
  }

  // ----- whole commands and whole callbacks, uninterrupted -----

  function Locking(s: State): State {
    s.(locked := true, lastPing := s.clock, settled := s.clock)
  }

  function Pinging(s: State): State {
    s.(lastPing := s.clock)
  }

  function Unlocking(s: State): State {
    s.(locked := false)
  }

  /** A command that nothing interrupts is its steps, one after the other. */
  lemma CommandsAreSteps(s: State)
    requires s.pipe.PipeIdle?
    ensures Apply(Apply(Apply(s, LockStore), LockReadClock), LockStoreStamp) == Locking(s)
    ensures Apply(Apply(s, PingReadClock), PingStoreStamp) == Pinging(s)
    ensures Apply(s, UnlockStore) == Unlocking(s)
  {
  }

  /** A timer callback from its first load to its return. */
  function Callback(s: State): State
    requires s.timer.TimerIdle?
  {
    var a := Apply(s, TimerLoadLocked);
    if a.timer.TimerIdle? then a
    else
      var b := Apply(a, TimerLoadStamp);
      if b.timer.TimerIdle? then b
      else
        var c := Apply(b, TimerReadClock);
        if c.timer.TimerIdle? then c else Apply(c, TimerStore)
  }

  // ----- where the bound is tight, and where a simpler one fails -----

  /** A run with one action more. */
  function Then(r: Run, a: Action): Run
    requires r.at != [] && Enabled(Last(r), a)
  {
    Run(r.at + [Apply(Last(r), a)], r.does + [a])
  }

  /** A run that starts at clock 1, keeps its ticks punctual and its LOCK stalls within d. */
  ghost predicate Sample(r: Run, d: nat) {
    IsRun(r) && PunctualRun(r) && StallsAtMost(r, d) && r.at[0] == Fresh(1)
  }

  lemma ThenIsSample(r: Run, a: Action, d: nat)
    requires Sample(r, d) && Enabled(Last(r), a) && Punctual(Last(r), a) && StallAtMost(Last(r), a, d)
    ensures Sample(Then(r, a), d) && Last(Then(r, a)) == Apply(Last(r), a)
  {
  }

  /** The keyboard stays locked for ms more, because the stamp is zero or not too old by then. */
  predicate StaysLocked(t: State, ms: nat) {
    && t.locked && t.timer.TimerIdle? && t.lastTick == t.clock && t.lastPing <= t.clock
    && (t.lastPing == 0 || t.clock + ms <= t.lastPing + PING_TIMEOUT)
    && t.clock + ms < U64
  }

  function Later(t: State, ms: nat): State {
    t.(clock := t.clock + ms, lastTick := t.clock + ms)
  }

  /** Waits with a timer callback at the end of every tick interval. */
  lemma {:induction false} Wait(r: Run, ms: nat, d: nat) returns (longer: Run)
    requires Sample(r, d) && StaysLocked(Last(r), ms)
    ensures Sample(longer, d) && Last(longer) == Later(Last(r), ms)
    decreases ms
  {
    if ms == 0 {
      longer := r;
    } else if ms <= TICK_INTERVAL {
      longer := Tick(r, ms, d);
    } else {
      longer := Tick(r, TICK_INTERVAL, d);
      longer := Wait(longer, ms - TICK_INTERVAL, d);
    }
  }

  lemma Tick(r: Run, ms: nat, d: nat) returns (longer: Run)
    requires Sample(r, d) && ms <= TICK_INTERVAL && StaysLocked(Last(r), ms)
    ensures Sample(longer, d) && Last(longer) == Later(Last(r), ms)
  {
    ThenIsSample(r, Advance(ms), d);
    longer := Then(r, Advance(ms));
    ThenIsSample(longer, TimerLoadLocked, d);
    longer := Then(longer, TimerLoadLocked);
    ThenIsSample(longer, TimerLoadStamp, d);
    longer := Then(longer, TimerLoadStamp);
    if Last(r).lastPing != 0 {
      ThenIsSample(longer, TimerReadClock, d);
      longer := Then(longer, TimerReadClock);
    }
  }

  /** A LOCK that stalls d milliseconds between reading the clock and storing it, w more with a fresh
      stamp, and one more tick interval up to its callback. */
  lemma LockFor(d: nat, w: nat) returns (r: Run)
    requires d == 0 || w == 0
    requires w <= PING_TIMEOUT && 1 + d + w + TICK_INTERVAL < U64
    ensures StartsFresh(r) && PunctualRun(r) && StallsAtMost(r, d)
    ensures Last(r).locked && Last(r).pipe.PipeIdle?
    ensures Last(r).clock == Last(r).lastPing + d + w + TICK_INTERVAL
  {
    r := Run([Fresh(1)], []);
    ThenIsSample(r, LockStore, d);
    r := Then(r, LockStore);
    ThenIsSample(r, LockReadClock, d);
    r := Then(r, LockReadClock);
    r := Wait(r, d, d);
    ThenIsSample(r, LockStoreStamp, d);
    r := Then(r, LockStoreStamp);
    if w > 0 {
      r := Wait(r, w, d);
    }
    ThenIsSample(r, Advance(TICK_INTERVAL), d);
    r := Then(r, Advance(TICK_INTERVAL));
  }

  /** The bound of 65000 ms is reached, so "60 seconds" is not exact: a punctual run without any stall
      whose keyboard is still locked 65000 ms after the only stamp. */
  lemma BoundIsTight() returns (r: Run)
    ensures StartsFresh(r) && PunctualRun(r) && StallsAtMost(r, 0)
    ensures Last(r).locked && Last(r).pipe.PipeIdle? && Last(r).clock == Last(r).lastPing + 65000
  {
    r := LockFor(0, PING_TIMEOUT);
  }

  /** One stall of 60001 ms between reading the clock and storing it leaves the flag set 65001 ms after
      the stamp. */
  lemma StalledLockExceeds65Seconds() returns (r: Run)
    ensures StartsFresh(r) && PunctualRun(r) && StallsAtMost(r, 60001)
    ensures Last(r).locked && Last(r).pipe.PipeIdle? && Last(r).clock == Last(r).lastPing + 65001
  {
    r := LockFor(60001, 0);
  }

  /** The exact fail-open bound, as far as the 64-bit clock reaches: b milliseconds after the stamp is a
      bound for every punctual run whose LOCKs stall at most d iff it allows for the timeout or the
      stall, whichever is longer, and one tick interval. */
  lemma FailOpenExactly(d: nat, b: int)
    requires 1 + d + TICK_INTERVAL < U64
    ensures (forall r :: StartsFresh(r) && PunctualRun(r) && StallsAtMost(r, d) ==> FreesWithin(r, b))
            <==> Max(PING_TIMEOUT, d) + TICK_INTERVAL <= b
  {
    if Max(PING_TIMEOUT, d) + TICK_INTERVAL <= b {
      forall r | StartsFresh(r) && PunctualRun(r) && StallsAtMost(r, d)
        ensures FreesWithin(r, b)
      {
        StallsBoundLock(r, d);
      }
    } else {
      var r := SlowestRelease(d);
      assert !FreesWithin(r, b);
    }
  }

  lemma SlowestRelease(d: nat) returns (r: Run)
    requires 1 + d + TICK_INTERVAL < U64
    ensures StartsFresh(r) && PunctualRun(r) && StallsAtMost(r, d)
    ensures Last(r).locked && !InLockWindow(Last(r))
    ensures Last(r).clock == Last(r).lastPing + Max(PING_TIMEOUT, d) + TICK_INTERVAL
  {
    if d <= PING_TIMEOUT {
      r := BoundIsTight();
      assert forall i :: 0 <= i < |r.does| ==> StallAtMost(r.at[i], r.does[i], 0);
    } else {
      r := LockFor(d, 0);
    }
  }

  /** The keyboard is free 65000 ms after the stamp in every punctual run exactly if no LOCK stalls
      longer than the 60000 ms timeout between reading the clock and storing it. */
  lemma FailOpenWithin65Seconds(d: nat)
    ensures (forall r :: StartsFresh(r) && PunctualRun(r) && StallsAtMost(r, d) ==> FreesWithin(r, 65000))
            <==> d <= 60000
  {
    if d <= 60000 {
      FailOpenExactly(d, 65000);
    } else {
      var r := StalledLockExceeds65Seconds();
      assert forall i :: 0 <= i < |r.does| ==> StallAtMost(r.at[i], r.does[i], 60001);
      assert StallsAtMost(r, d) && !FreesWithin(r, 65000);
    }
  }
}
