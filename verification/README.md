# kbdlock: a verified model

kbdlock blocks the keyboard with two processes. A small C++ sentinel holds the keyboard hook, decides
which keys to swallow, and unlocks itself when it stops hearing from its controller. A Go controller
sends it LOCK, UNLOCK, PING and STATUS over a named pipe, restarts it when it stops answering, and
unlocks it on a hotkey, a mouse corner or an idle timeout. The promise of the project is that the
keyboard can never remain permanently locked. This project models the parts that carry the promise and
proves what the code supports.

| file | what it models |
|---|---|
| `Heartbeat.dfy` | the lock flag and the ping stamp, shared by the pipe thread and the timer; every load, store and clock read is a step |
| `KeyHistory.dfy` | what "pressed", "held for five seconds" and "may unlock" mean over the events since the last clear |
| `KeyHook.dfy` | the hook callback: bitmap, combo slots and ESC clock, updated in place |
| `HookRuns.dfy` | whole runs of the hook, and the combo table while two threads share it |
| `ComboWire.dfy` | the text of SET_COMBO: printer, `strtol`, parser, round trip |
| `PipeServer.dfy` | the sentinel's command handling, read loop and timer callback |
| `KeyNames.dfy` | key names, the hotkey split, configuration checks |
| `EndToEndCombo.dfy` | from configured names to an unlock |
| `Controller.dfy` | belief, desired lock and idle timer under one command; controller, manager, client and timer objects |
| `LockProtocol.dfy` | controller, manager, watchdog, poll, pipe clients and sentinel as one state machine |
| `ProtocolSafety.dfy` | when a locked sentinel is known to be locked, exactly, and what has happened when it is not |
| `ProtocolRestart.dfy` | the restart window, what a restart restores, and reconciliation after a self-unlock |
| `ProtocolTiming.dfy` | its timed properties: fail-open, regular pings, dead watchdog, dead controller |
| `ProtocolIdle.dfy` | lock sessions and the idle deadline, and the two ways in which the keyboard stays locked |
| `Extraction.dfy` | crash-consistent extraction of the sentinel executable |
| `MouseCorner.dfy` | the mouse-corner counter |
| `Prelude.dfy` | shared datatypes |

## How the parts fit

`LockProtocol` contains a whole `Heartbeat` state, so hook and timer steps of the sentinel interleave
with every controller step, and the timed results of `ProtocolTiming` rest on those of `Heartbeat`.
The methods of `Controller` are proved equal to the functions `AfterLock`, `AfterUnlock` and
`AfterSync` that the protocol uses (`CommandsAreTheControllers`); the methods of `KeyHook` and
`PipeServer` are proved equal to `Delivered` and `Respond`, about which the runs and the end-to-end
results speak.

## Hypotheses

- Sequential consistency of the sentinel's atomics, and a clock that is positive and does not go back.
- A controller method that holds the controller's mutex is one step, its pipe command included
  (`internal/controller/controller.go:76-148`). Restart and poll are several steps each.
- The controller starts against a fresh, unlocked sentinel (`Initial`). A second sentinel exits when one
  exists already (`sentinel/main.cpp:35-38`), so a controller that starts while a locked one survives
  is outside the model.
- `Trusted`, used by system safety: a LOCK that reports an error had no effect, and while an "unlocked"
  poll answer is pending no lock command runs and no restart reads or restores the desired lock. Both
  are needed: `LostReplyStrandsTheLock` and `StalePollLosesTheLock` show what goes wrong without them,
  and `SafeThroughoutIff` says exactly which runs are safe.
- `Punctual` and `Timely`: timer callbacks start at most 5000 ms apart and take no clock time.
  `StallsAtMost`: how long a LOCK may stall between reading the clock and storing it. The bound of
  65000 ms holds for stalls of up to 60000 ms and fails beyond (`FailOpenWithin65Seconds`,
  `StalledLockExceeds65Seconds`); `FailOpenExactly` has the exact bound for every stall. In
  `LockProtocol` a LOCK does not stall, since a command is one step there.
- `OnTimeRun`: the idle timer fires on time. Whether the unlock of its callback succeeds is not assumed:
  `OverdueIff` says that a session runs over exactly if that unlock fails, and
  `SessionOutlivesIdleTimeout` shows a run in which one does.
- Distinct embedded binaries have distinct SHA-256 hashes; renames are atomic.

## Where the code and its documentation differ

- The repository's README.md:44 says the sentinel unlocks 60 seconds after the controller dies. The timer only looks
  every 5 seconds, so the code gives up to 65; `BoundIsTight` reaches that bound.
- The repository's README.md:115 offers `esc_hold` as a switch. It never reaches the sentinel
  (`sentinel/hook.cpp:95`), so the model has no such switch.
- Only the first eight keys of an unlock combo are enforced (`sentinel/pipe.cpp:25`);
  `ComboIsEnforcedIff` says when that matters.
- The repository's README.md:3 promises that the keyboard can never remain permanently locked. A LOCK that
  takes effect but whose reply is lost leaves belief and idle timer clear, and pings keep being answered;
  the keyboard then stays locked for any length of time until somebody unlocks it at the keyboard, locks
  again, or ends a process (`LostReplyLocksForAnyTime`). Without such a reply, an overtaken poll answer or
  a failed idle unlock it is free in time (`KeyboardIsFreeInTime`).
- The repository's README.md:113 promises an unlock after the configured minutes. The idle timer fires
  once and its callback does not retry (`internal/safety/idletimeout.go:25-33`), so a deadline that falls
  into the two seconds of a restart is lost: `SessionOutlivesIdleTimeout`, `OverdueIff`.
- A configuration may name more keys than one SET_COMBO message holds; validation sets no upper limit.
  `ConfiguredComboIsInstalled` says when such a combo is installed and when it breaks the connection.
- An idle timeout above 153722867 minutes passes validation and overflows its duration
  (`internal/safety/idletimeout.go:19`); `IdleDurationExactIff` gives the exact range.

## Model

| member | source | states |
|---|---|---|
| Heartbeat.NoWrapAround | sentinel/main.cpp:17-27 | in every interleaving of the two threads the stamp the timer loaded is not later than the clock it is about to read, so the unsigned difference is the true age; a set flag has a nonzero stamp except inside LOCK's two stores |
| Heartbeat.StampNeverDecreases | sentinel/pipe.cpp:42-51 | between any two points of any run neither the ping stamp nor the clock goes back |
| Heartbeat.TimerUnlockIsJustified | sentinel/main.cpp:18-26 | every heartbeat unlock belongs to one callback that loaded, earlier in the run, a nonzero stamp more than 60000 ms older than the clock it then read |
| Heartbeat.NoFalseHeartbeatUnlock | sentinel/main.cpp:18-26 | a run in which no callback meets a stamp that old has no heartbeat unlock at all, ticks inside LOCK included |
| Heartbeat.OnlyLockSetsTheFlag | sentinel/pipe.cpp:42-48 | an unlock by UNLOCK, hook or timer holds at every later point until a LOCK begins |
| Heartbeat.ThreadsShareNothingElse | sentinel/pipe.cpp:41-51 | pipe thread and timer share flag, stamp and clock and nothing else: each works the same wherever the other one is |
| Heartbeat.PipeThreadIsSequential | sentinel/pipe.cpp:41-51 | whatever the main thread does in between, the pipe thread takes the steps of one command after the other and of no other command in between |
| Heartbeat.TimerThreadIsSequential | sentinel/main.cpp:17-27 | a timer callback goes past the flag iff it was set, past the stamp iff there was one, and to the unlocking store iff the age it computed is above 60000 ms |
| Heartbeat.FailOpen | sentinel/main.cpp:7-27 | with punctual ticks, a flag set outside LOCK's window is within 65000 ms of its stamp or 5000 ms of the end of its LOCK, in every interleaving |
| Heartbeat.FailOpenExactly | sentinel/pipe.cpp:42-44 | the least bound for any stall d: timeout or stall, whichever is longer, plus one tick interval; nothing smaller holds of all punctual runs |
| Heartbeat.FailOpenWithin65Seconds | sentinel/main.cpp:7-27 | every punctual run whose LOCKs stall at most d between reading the clock and storing it is free 65000 ms after the stamp iff d is at most 60000 ms |
| Heartbeat.QuietSentinelUnlocks | sentinel/main.cpp:17-27 | after the last LOCK or PING the keyboard is unlocked once 65000 ms have passed, and at every later point |
| Heartbeat.BoundIsTight | sentinel/main.cpp:7-9 | a punctual run without any stall that is still locked exactly 65000 ms after its only stamp |
| Heartbeat.StalledLockExceeds65Seconds | sentinel/pipe.cpp:43-44 | one stall of 60001 ms between reading the clock and storing it leaves the flag set 65001 ms past the stamp |
| Heartbeat.CommandsAreSteps | sentinel/pipe.cpp:42-51 | LOCK, PING and UNLOCK without interference, step by step, have the effect the whole-system model gives them |
| KeyHistory.PressedAfter | sentinel/hook.cpp:76-78 | how one more event changes "went down and has not come up since" |
| KeyHistory.EscSinceMeaning | sentinel/hook.cpp:80-87 | the ESC clock is nonzero exactly while ESC is down, and is then the clock of the press that began the hold |
| KeyHistory.EscSinceAfter | sentinel/hook.cpp:80-87 | auto-repeat never moves the ESC clock; only a release clears it |
| KeyHistory.EscHeldMeaning | sentinel/hook.cpp:39-43 | the elapsed-time test holds exactly when ESC has been held without release for at least 5000 ms |
| KeyHistory.HoldExists | sentinel/hook.cpp:80-87 | whenever ESC is down there is a first press of the current hold |
| KeyHook.LowLevelHook.LowLevelKeyboardProc | sentinel/hook.cpp:62-102 | an event is swallowed iff the keyboard is locked and no unlock condition holds of the events since the last clear; an unlock clears flag, bitmap, ESC clock and history; other hook codes and key codes of 256 and above touch nothing; in message numbers, 0x100 and 0x104 set the bit of their key, 0x101 and 0x105 clear it, no other bit moves, and of ESC they start and stop the clock; bitmap and ESC clock keep saying what the history says |
| KeyHook.LowLevelHook.IsUnlockComboPressed | sentinel/hook.cpp:30-36 | true iff at least two combo keys are installed and each is pressed in the history |
| KeyHook.LowLevelHook.EmergencyMeaning | sentinel/hook.cpp:22-27 | the four bitmap reads hold iff all four emergency keys are pressed in the history |
| KeyHook.LowLevelHook.HeldMeaning | sentinel/hook.cpp:39-43 | the unsigned elapsed-time test agrees with the five-second hold in the history |
| KeyHook.LowLevelHook.ClearKeyState | sentinel/hook.cpp:46-51 | forgets every key and the ESC hold, and nothing else |
| KeyHook.LowLevelHook.DoUnlock | sentinel/hook.cpp:53-56 | clears the flag and the key state, and nothing else |
| KeyHook.LowLevelHook.UninstallHook | sentinel/hook.cpp:113-119 | the key state is forgotten, flag and combo stay |
| KeyHook.LowLevelHook.SetUnlockCombo | sentinel/hook.cpp:121-129 | succeeds iff given 2 to 8 codes in range, then installs exactly those; a failure never changes the count but does overwrite exactly the slots before the first bad code |
| HookRuns.BlockedIff | sentinel/hook.cpp:62-102 | over every run of key events, flag stores and combo changes, an event is blocked iff its code is below 256, the flag is set and no unlock condition holds of the tracked key events since the last hook-side unlock; if one holds, it unlocks |
| HookRuns.LockedIff | sentinel/hook.cpp:53-98 | in every run the keyboard is locked iff some store set the flag and since then nobody has stored to it and no event has unlocked |
| HookRuns.UnlocksIff | sentinel/hook.cpp:22-102 | read off the inputs of any run whose clock does not go back, in key codes and milliseconds: an event with a code below 256 unlocks a locked keyboard iff, since the last hook-side unlock, 0x11, 0x10, 0x12 and 0x7B or the whole combo are held, or an unreleased press of 0x1B is 5000 ms old; otherwise it is blocked |
| HookRuns.UnlockIsJustified | sentinel/hook.cpp:53-98 | every hook-side unlock is justified by key-downs after the previous one, with no key-up of that key in between |
| HookRuns.HoldingUnlocks | sentinel/hook.cpp:94-98 | whatever the clocks, holding the emergency keys or the whole combo through an event with a code below 256 unlocks a locked keyboard |
| HookRuns.PressedIsHeld | sentinel/hook.cpp:68-78 | pressed in the window of tracked key events iff some key-down input in it has no later key-up |
| ComboTable.TornTableStaysInBounds | sentinel/hook.cpp:121-129 | after any number of the single writes of any series of SetUnlockCombo calls, failing ones included, the count is 0 or 2..8 and all slots are in 0..255, so the hook's indexing stays in bounds |
| ComboTable.TornTableEnforces | sentinel/hook.cpp:121-129 | what the hook enforces between any two of those writes: the whole new combo once its last write is done, and until then a combo as long as the old one, its first keys new and the rest old |
| ComboTable.WritesInstall | sentinel/hook.cpp:121-129 | the writes carried to the end are what SetUnlockCombo promises |
| ComboWire.Strtol | sentinel/pipe.cpp:30-31 | section 7.22.1.4 of ISO C11 for base 10 and a 32-bit long: never moves back and never past the NUL |
| ComboWire.StrtolReadsDecimal | sentinel/pipe.cpp:31 | strtol inverts %d for every number that fits a long |
| ComboWire.StrtolReadsNumber | sentinel/pipe.cpp:31 | wherever there is a number, strtol returns its value brought into the 32-bit range and the end of its digits |
| ComboWire.AcceptedIff | sentinel/pipe.cpp:26-33 | a code is accepted iff there is a number there, of at most 255 and not negative but for -0, and it is that number; the text ends iff only blanks are left; anything else is malformed |
| ComboWire.ParseIsInRange | sentinel/pipe.cpp:25-35 | at most eight codes are read, all in 0..255 |
| ComboWire.FormatSetCombo | internal/ipc/client.go:133-138 | the loop and join build the SET_COMBO text of the codes |
| ComboWire.PrintThenParse | internal/ipc/client.go:133-138 | round trip: parsing the blank-joined decimals of any codes in 0..255 gives back the first eight |
| ComboWire.MessageFits | sentinel/pipe.cpp:107-113 | up to 125 codes and the newline always fit the 511 bytes of one read, from 251 on they never do |
| ComboWire.MessageLength | internal/ipc/client.go:133-140 | the exact length of the message: ten, the digits of every code, and one for each code |
| PipeServer.NextNumber | sentinel/pipe.cpp:26-34 | one round of the parsing loop, for every NUL-terminated text: it never reads past the NUL, and an accepted number strictly advances |
| PipeServer.ReadCodes | sentinel/pipe.cpp:20-35 | the loop terminates on every NUL-terminated text and fills the buffer with exactly the parsed codes |
| PipeServer.Sentinel.HandleSetCombo | sentinel/pipe.cpp:20-38 | all or nothing: accepted texts install their codes, rejected ones leave every slot untouched |
| PipeServer.Sentinel.ProcessCommand | sentinel/pipe.cpp:41-65 | state and reply for every command line |
| PipeServer.Sentinel.HandleMessage | sentinel/pipe.cpp:113-121 | stripping line ends in place and cutting at the first NUL yields the command that is run |
| PipeServer.Sentinel.ServeOne | sentinel/pipe.cpp:106-128 | one round of the read loop for any message: a message longer than one read, or an empty one, is not executed; any other is answered; the loop ends after the former and after QUIT, and only then |
| PipeServer.Sentinel.HeartbeatTimerProc | sentinel/main.cpp:17-27 | an uninterrupted callback clears the flag iff the stamp is nonzero and more than 60000 ms old |
| PipeServer.StepsMakeCommands | sentinel/pipe.cpp:42-51 | the interleaved machine's steps, without interference, agree with the answers given command by command |
| PipeServer.RespondKeepsCombo | sentinel/pipe.cpp:55-63 | an ERROR reply leaves the whole state unchanged; the installed combo always has 0 or 2..8 codes in range |
| KeyNames.TablesAgreeOnModifiers | internal/config/vkcodes.go:9-52 | for every name, the hotkey flag table and the code table agree on which modifier it is |
| KeyNames.FunctionKeyCodes | internal/config/vkcodes.go:15-18 | the twelve function keys, F and a number, have the codes from 0x70 on |
| KeyNames.KnownNames | internal/config/vkcodes.go:9-32 | only the 54 names of the table have codes |
| KeyNames.ComboToVKCodes | internal/config/vkcodes.go:35-45 | all codes in order, or the first unknown name |
| KeyNames.SplitHotkeyCombo | internal/config/vkcodes.go:57-75 | the loop computes the split of the normalised names |
| KeyNames.SplitSucceedsIff | internal/config/vkcodes.go:48-75 | success iff exactly one name is not a modifier and it has a code; the mask is below 8, and its bits 1, 2 and 4 are set iff an Alt, a Ctrl, a Shift is named, told by their key codes |
| KeyNames.SplitIsOrderIndependent | internal/config/vkcodes.go:57-75 | same result or same error for any order and any repetition of modifiers |
| KeyNames.PermutationSplitsTheSame | internal/config/vkcodes.go:57-75 | every permutation of the names splits the same |
| KeyNames.Validate | internal/config/config.go:112-133 | accepts exactly the acceptable configurations; of any other it reports the first failing check: too few keys, the first unknown combo name, an idle timeout below one minute, or what is wrong with the hotkey |
| EndToEndCombo.StatusRoundTrip | internal/ipc/client.go:117-130 | a decoded STATUS reply is the flag, and asking changes nothing |
| EndToEndCombo.CommandsOnTheWire | internal/ipc/client.go:81-130 | the text of LOCK, UNLOCK, PING, STATUS and QUIT, served by the sentinel, moves flag and stamp exactly as the whole-system model lets that command move them (QUIT and STATUS not at all), and the reply decodes as success, for STATUS as the flag |
| EndToEndCombo.OtherTextsAreErrors | sentinel/pipe.cpp:61-63 | every text that is none of the six commands is answered ERROR and changes nothing |
| EndToEndCombo.OnlyQuitEnds | sentinel/pipe.cpp:126-127 | among the texts that fit one read, exactly QUIT ends the connection |
| EndToEndCombo.LineEndsAreStripped | sentinel/pipe.cpp:115-118 | any number of trailing newlines and carriage returns, in any order, is stripped before the command is read |
| EndToEndCombo.ConfiguredComboIsInstalled | internal/ipc/client.go:133-147 | for every accepted combo: if its digits and keys together are at most 501 the message is answered OK and exactly its first eight codes are installed, otherwise the connection breaks and nothing changes |
| EndToEndCombo.ServedIff | sentinel/pipe.cpp:110-111 | exactly the messages of 1 to 511 bytes are read and answered; any other ends the connection and changes nothing |
| EndToEndCombo.CountDoesNotDecide | internal/config/config.go:112-120 | of two accepted combos of 126 keys one is installed and one breaks the connection |
| EndToEndCombo.ShortComboIsInstalled | internal/ipc/client.go:133-147 | every accepted combo of at most 125 keys is installed |
| EndToEndCombo.AllNamedKeysUnlock | sentinel/hook.cpp:30-36 | holding all configured keys through an event with a code below 256 of a locked keyboard unlocks at that event, however many keys are configured |
| EndToEndCombo.ConfiguredComboUnlocks | internal/ipc/client.go:133-147 | the whole way from the names of an accepted configuration over the served SET_COMBO to an event of a locked keyboard: holding all named keys unlocks; with neither emergency keys nor ESC held, holding the first eight is exactly what does |
| EndToEndCombo.ComboIsEnforcedIff | sentinel/pipe.cpp:25-35 | a combo unlock implies all configured keys are down exactly when no key beyond the eighth adds a code |
| EndToEndCombo.NinthKeyIsNotEnforced | sentinel/pipe.cpp:25-35 | with nine different keys the first eight alone unlock |
| LockState.IdleDurationExactIff | internal/safety/idletimeout.go:17-22 | among the minute values validation accepts, the duration is the configured one iff at most 153722867 |
| LockState.IdleDurationOverflows | internal/safety/idletimeout.go:17-22 | one minute more gives a negative duration and a timer that is due at once |
| Controller.LockController.LockCommand | internal/controller/controller.go:76-98 | belief, desired lock, idle timer, sentinel and result for every outcome of the pipe command; a failed LOCK leaves the belief alone |
| Controller.LockController.UnlockCommand | internal/controller/controller.go:106-128 | the same for unlocking; an unlocked belief returns at once without a command |
| Controller.LockController.SyncUnlock | internal/controller/controller.go:132-148 | drops belief, desired lock and timer together, or nothing |
| Controller.LockController.SyncTick | internal/controller/controller.go:166-183 | an uninterrupted poll drops exactly a belief that an answering sentinel contradicts |
| Controller.LockController.HandleHotkey | internal/controller/controller.go:205-218 | locks when unlocked, unlocks only in toggle mode, otherwise sends nothing: belief, desired lock, idle timer and the sentinel in every case |
| Controller.LockController.Stop | internal/controller/controller.go:242-259 | disarms the idle timer and leaves belief and desired lock |
| Controller.Manager.Restart | internal/sentinel/manager.go:163-204 | the old client ends closed; manager and controller get the same new client iff every step succeeds, and otherwise the manager has none; the lock is restored iff desired; belief and desired lock never move |
| LockProtocol.InvAt | internal/sentinel/manager.go:163-204 | in every run: only the manager's client can reach a sentinel, during a restart the controller holds an older one, belief equals desired lock, the idle timer follows the belief, and a dead sentinel blocks nothing |
| LockProtocol.CommandsAreTheControllers | internal/controller/controller.go:76-148 | lock, unlock, idle timeout and poll change belief and sentinel in the system exactly as the controller methods do |
| LockProtocol.BelowIsBlind | internal/sentinel/manager.go:138-204 | watchdog, sentinel and clock work the same whatever the controller believes and whatever its timer and poll are doing, and leave all of these alone |
| LockProtocol.ControllerIsBlind | internal/controller/controller.go:76-183 | the controller works the same wherever the watchdog is; only its own client and whether that still works reach it |
| LockProtocol.WhatStopsLeave | internal/sentinel/manager.go:93-113 | a stopped controller has no idle timer left to fire and touches no lock; a stopped manager has no client left, locks nothing and changes no belief |
| ProtocolSafety.SafeThroughoutIffNoHazard | internal/controller/controller.go:76-187 | a run keeps "sentinel locked implies believed locked" throughout iff none of its steps is a lost LOCK reply, an "unlocked" answer applied to a locked sentinel, or a LOCK restored under a clear belief |
| ProtocolSafety.SafeThroughoutIff | internal/controller/controller.go:76-187 | the same in terms of what happened before: iff no delivered LOCK loses its reply, no poll answer is overtaken by a LOCK that is still in force, and no restore by a poll that has dropped the lock |
| ProtocolSafety.StalePollIff | internal/controller/controller.go:166-183 | acting on an answer loses the lock iff the sentinel was unlocked when it answered and has been locked by a delivered LOCK since, up to now |
| ProtocolSafety.StaleRestoreIff | internal/sentinel/manager.go:190-199 | restoring loses the lock iff the LOCK is delivered, the desired lock was set when it was read, and a poll dropped it between reading and restoring |
| ProtocolSafety.SystemSafety | internal/controller/controller.go:76-148 | in every trusted run of commands, hotkey, idle timer, polls, self-unlocks, crashes and restarts, a locked sentinel is believed locked and belief equals desired lock |
| ProtocolSafety.UnlockIsHonest | internal/controller/controller.go:106-117 | an unlock command that reports success, early return included, leaves sentinel, belief and desired lock unlocked |
| ProtocolSafety.LostReplyStrandsTheLock | internal/controller/controller.go:84-87 | a lost LOCK reply leaves a locked sentinel that the unlock command reports as unlocked |
| ProtocolSafety.StalePollLosesTheLock | internal/controller/controller.go:167-183 | a run in which a stale poll answer clears the belief of a locked sentinel |
| ProtocolRestart.WindowFreezesBelief | internal/sentinel/manager.go:163-204 | from closing the old client to installing the new one, belief and desired lock stay as they were iff no poll acts on an "unlocked" answer that it already held for a locked belief when the window began; then both are cleared; the controller has no working client throughout |
| ProtocolRestart.WindowCommandsFail | internal/controller/controller.go:76-128 | at every point of that window every lock and unlock command has no effect at all and every poll goes unanswered |
| ProtocolRestart.LateAnswerClearsBelief | internal/controller/controller.go:166-183 | a run in which the belief is cleared inside the window |
| ProtocolRestart.RestoreIsCurrent | internal/sentinel/manager.go:190-199 | in a trusted run the lock value read is still the desired one when it is restored, and an answered restore leaves the sentinel as desired |
| ProtocolRestart.UninterruptedRestart | internal/sentinel/manager.go:163-204 | however a restart turns out, its steps after a failed ping are all enabled without interference and leave what Manager.Restart promises: the watchdog back, both sides on one new working client iff every step succeeds and the manager without one otherwise, belief and timer as they were, the lock restored iff desired |
| ProtocolRestart.RestartIsDueIff | internal/sentinel/manager.go:155-158 | a restart is due exactly after a ping that was not answered on a live client, until it begins |
| ProtocolRestart.CrashIsRepaired | internal/sentinel/manager.go:138-204 | locked or not, the first ping after a crash begins a restart, and if nothing goes wrong that leaves a new process and a live client on both sides, locked iff that is desired |
| ProtocolRestart.UninterruptedPoll | internal/controller/controller.go:166-183 | without interference the steps of a poll change the belief, and only the belief, as SyncTick promises |
| ProtocolRestart.PollReconciles | internal/controller/controller.go:166-183 | whenever a poll first acts on an answer, however late, it does nothing if the sentinel was locked when it answered, and otherwise clears belief, desired lock and idle timer together |
| ProtocolRestart.NoRelockWithoutCommand | internal/sentinel/manager.go:190-199 | in a trusted run, with the belief clear, everything stays clear until a lock command succeeds, whatever restarts and failing lock commands come |
| ProtocolRestart.ReconciledUntilNextLock | internal/controller/controller.go:132-183 | in a trusted run, from the moment an "unlocked" answer is acted on until the next lock command that succeeds: sentinel, belief and desired lock unlocked, idle timer disarmed |
| ProtocolRestart.SelfUnlockIsReconciled | internal/controller/controller.go:132-183 | the whole of it: the sentinel is unlocked at m, no LOCK is delivered until a poll is answered at p and acts at q; from q on everything is clear until a lock command succeeds, whatever crashes and restarts come in between |
| ProtocolTiming.PingedSentinelIsNotUnlocked | internal/sentinel/manager.go:138-161 | as long as LOCKs and PINGs take effect at most 10 s apart (an interval of 5 s and a command of at most 5 s), no heartbeat unlock happens, whatever crashes, restarts and commands the run contains |
| ProtocolTiming.SystemFailsOpen | sentinel/main.cpp:17-27 | at every point of every run a locked keyboard is within 65000 ms of the last stamp it received |
| ProtocolTiming.SilenceUnlocks | sentinel/main.cpp:17-27 | once no LOCK or PING is delivered any more the keyboard is free 65000 ms later, for good |
| ProtocolTiming.WatchdogDiesByGivingUp | internal/sentinel/manager.go:163-188 | the watchdog loses its client for good exactly by a restart that is cancelled or fails in Start or Connect |
| ProtocolTiming.DeadWatchdogIsSafe | internal/sentinel/manager.go:147-188 | from then on the manager has no client, nothing stamps or locks any sentinel, and a survivor is unlocked for good within 65000 ms |
| ProtocolTiming.ControllerDeathUnlocks | sentinel/main.cpp:17-27 | if the controller dies the keyboard is free 65000 ms later, for good |
| ProtocolIdle.IdleTimerFollowsBelief | internal/controller/controller.go:89-145 | until the controller stops, the timer slot is filled iff the belief is locked, with the deadline of the session's lock command, across any number of restarts |
| ProtocolIdle.SessionBegan | internal/controller/controller.go:76-98 | every point of a lock session goes back to one successful lock command, whose time is the session start; no restart, restore or further lock command moves it |
| ProtocolIdle.OverdueIff | internal/safety/idletimeout.go:17-33 | with on-time firing only, a session is past the configured minutes iff its idle unlock was tried within the session and failed, and time has passed since |
| ProtocolIdle.OverdueMeansUnlockFailed | internal/safety/idletimeout.go:17-33 | one half of it, with the attempt: a session past the configured minutes, counted from its lock command, is one whose idle unlock was tried within that session and failed |
| ProtocolIdle.NoSessionOutlivesIdleTimeout | internal/safety/idletimeout.go:17-33 | so no lock session outlives the configured minutes in a run without a failed idle unlock |
| ProtocolIdle.KeyboardIsFreeInTime | internal/safety/idletimeout.go:17-33 | in a trusted run without a failed idle unlock the keyboard itself, and not only the belief, is free the configured minutes after the lock command |
| ProtocolIdle.LostReplyLocksForAnyTime | internal/controller/controller.go:84-128 | for every length of time, a run in which one lost LOCK reply leaves the keyboard locked that long under routine operation, with belief and idle timer clear and an unlock command that reports success and does nothing |
| ProtocolIdle.SessionOutlivesIdleTimeout | internal/sentinel/manager.go:163-204 | for every minute value, a run that is all routine (answered pings and polls, punctual ticks) until 1 ms before the deadline, in which the sentinel then crashes, the restart takes its two seconds, the idle unlock fails meanwhile, and the restart locks the keyboard of the overdue session again |
| Extraction.FileSystem.ExtractSentinel | internal/sentinel/extract.go:31-91 | the operations on the changing directory, under any failure or crash at any of them, have the outcome and leave the files that the specification function gives; nothing is done after a crash, and the process has died iff its last operation was one |
| Extraction.FileSystem.CleanStale | internal/sentinel/extract.go:94-108 | the cleanup loop: a failing removal is ignored, a crash ends it |
| Extraction.CleaningKeeps | internal/sentinel/extract.go:94-108 | cleanup never touches the executable or its sidecar |
| Extraction.CleaningRemoves | internal/sentinel/extract.go:99-103 | under any faults, exactly the listed names in .old or .tmp whose removal is reached and goes well are gone, every other file is as it was, and cleaning dies iff a removal does |
| Extraction.FineCleaningRemoves | internal/sentinel/extract.go:99-103 | if all goes well a file stays iff it is not both listed and named in .old or .tmp |
| Extraction.ExtractKeepsConsistent | internal/sentinel/extract.go:48-90 | whatever fails and wherever it dies, the executable is never torn and a complete sidecar hash is never newer than it; success means it is the embedded binary |
| Extraction.SuccessIsExact | internal/sentinel/extract.go:48-90 | over every series of launches with non-decreasing versions, a launch that reports success left exactly its own binary |
| Extraction.SuccessIsExactIff | internal/sentinel/extract.go:48-90 | the exact condition on a series of versions: success means the right executable under every failure and crash of every launch iff the last version was not launched before with another one in between |
| Extraction.FaultFreeLaunchRecovers | internal/sentinel/extract.go:45-90 | from any files at all a launch without faults succeeds, and the next finds the binary up to date, leaves it alone, and has cleared the leftovers away if its listing is complete |
| Extraction.UpgradeKeepsOld | internal/sentinel/extract.go:65-82 | an upgrade that can rename the old executable keeps it under its old name, and leaves no temporary file |
| Extraction.OldIsOutOfTheWay | internal/sentinel/extract.go:65-72 | before the new executable is written the old one is out of the way unless it can be neither renamed nor removed |
| Extraction.UnneededOperations | internal/sentinel/extract.go:65-82 | no operation is attempted that is not needed: without an executable no moving aside, after renaming no removing, after placing no cleaning up |
| Extraction.TornSidecarIsNotTrusted | internal/sentinel/extract.go:52-86 | a torn sidecar is an error, and the next launch extracts again |
| Extraction.SuccessIsRightIff | internal/sentinel/extract.go:52-60 | from arbitrary files, success is right under every fault pattern iff the sidecar does not name the wanted version beside a different executable |
| Extraction.RollbackCanMislead | internal/sentinel/extract.go:52-60 | an interrupted rollback makes a later launch report success with the wrong executable |
| MouseCorner.RunIsMaximal | internal/safety/mousecorner.go:47-55 | the run length used below is that of the maximal run ending there |
| MouseCorner.RunsAreRuns | internal/safety/mousecorner.go:47-55 | the listed runs are positive, together cover exactly the at-corner polls, and end with the one in progress |
| MouseCorner.FiringsAreOwed | internal/safety/mousecorner.go:47-55 | the number of firings is the sum over all maximal runs of their length divided by 20 |
| MouseCorner.Run | internal/safety/mousecorner.go:36-58 | over every poll stream the callback fires at a poll iff the maximal run ending there is a positive multiple of 20 long |

## Left out

- SystemSafety: holds for trusted runs only, because the code releases its mutex between a poll's answer and acting on it and cannot tell a lost reply from a refused LOCK; the exact condition is SafeThroughoutIff.
- NoSessionOutlivesIdleTimeout: for runs without a failed idle unlock, because the code does not retry one; OverdueIff and SessionOutlivesIdleTimeout cover the others.
- ConfiguredComboIsInstalled: only what the sentinel does with a message that is too long; that the client then fails, and what its caller does, is not modelled.
- SuccessIsExact: versions do not decrease, because an interrupted rollback breaks it (RollbackCanMislead); SuccessIsExactIff has the exact condition.
- LowLevelKeyboardProc: the flag is not stored to by the pipe thread while one callback runs; such interleavings are covered, for the flag, by the hook step of Heartbeat that may come at any time.
- Restart: carried out without interference; every interleaving of its steps is in LockProtocol.
- SyncTick: carried out without interference; in LockProtocol anything may happen between reading the belief, the answer and acting on it.
- HeartbeatTimerProc: carried out without interference; in Heartbeat every load, clock read and store of it is a step of its own.
- HandleHotkey: its two critical sections run without interference; in LockProtocol a lock or unlock command may come at any time.
- Letters' key codes are computed from their character instead of being listed.
- Re-sending the combo after a restart (main.go:234): between restoring the lock and that command a new sentinel has no combo. Its other unlock conditions are the bitmap indices as written; which codes Windows reports for a modifier key is not modelled.
- Upper-casing and trimming of key names are a parameter; JSON reading and saving of the configuration are not modelled.
- QUIT posts its message to the pipe thread's own queue (sentinel/pipe.cpp:60), so in LockProtocol a stopped manager may or may not end the process.
- A command that times out and is executed later: an outcome takes effect at once or not at all, and ReplyLost is one that takes effect at once.
- A pipe reply that arrives after its command has timed out and is read as the answer to the next one.
- Idle callbacks that had started before their timer was stopped; they act like an unlock command, so no minimum session length is claimed.
- Weak memory reordering, Win32 calls, the tray, notifications, logging, the command line, the control pipe's framing and the instance guard.
- Saturation of timers whose deadline exceeds the runtime's clock range.
