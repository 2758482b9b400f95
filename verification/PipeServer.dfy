/** The sentinel process as its two threads see it: the pipe thread's command handling and the main
    thread's heartbeat callback, over one hook object. */
module PipeServer {
  import opened Prelude
  import opened KeyHistory
  import opened KeyHook
  import opened ComboWire
  import Heartbeat

  const READ_LIMIT := 511  // sizeof(buf) - 1

  datatype Server = Server(locked: bool, lastPing: nat, combo: seq<int>)

  /** The reply to one command line and the state it leaves.  QUIT only posts a message. */
  function Respond(s: Server, cmd: seq<char>, now: nat): (Server, string)
    requires CString(cmd)
  {
    var text := cmd[..|cmd| - 1];
    if text == "LOCK" then (s.(locked := true, lastPing := now), "OK\n")
    else if text == "UNLOCK" then (s.(locked := false), "OK\n")
    else if text == "PING" then (s.(lastPing := now), "PONG\n")
    else if text == "STATUS" then (s, if s.locked then "LOCKED\n" else "UNLOCKED\n")
    else if SET_COMBO <= text then
      match Requested(cmd[|SET_COMBO|..])
      case Some(codes) => (s.(combo := codes), "OK\n")
      case None => (s, "ERROR\n")
    else if text == "QUIT" then (s, "OK\n")
    else (s, "ERROR\n")
  }

  /** What the sentinel says "ERROR" to changes nothing, and whatever it is sent, the installed combo
      is empty or has 2 to 8 codes in range. */
  lemma RespondKeepsCombo(s: Server, cmd: seq<char>, now: nat)
    requires CString(cmd)
    requires ValidCount(|s.combo|) && forall code :: code in s.combo ==> ValidCode(code)
    ensures var (t, reply) := Respond(s, cmd, now);
            && (reply == "ERROR\n" ==> t == s)
            && ValidCount(|t.combo|) && forall code :: code in t.combo ==> ValidCode(code)
  {
  }

  predicate IsLineEnd(c: char) {
    c == '\n' || c == '\r'
  }

  /** The message without its trailing newlines and carriage returns. */
  function StripEnd(msg: seq<char>): seq<char> {
    if msg != [] && IsLineEnd(msg[|msg| - 1]) then StripEnd(msg[..|msg| - 1]) else msg
  }

  /** The C string that starts a buffer. */
  function CutAtNul(s: seq<char>): (cmd: seq<char>)
    requires NUL in s
    ensures CString(cmd)
  {
    if s[0] == NUL then [NUL] else [s[0]] + CutAtNul(s[1..])
  }

  /** The command the sentinel sees in a message. */
  function CommandIn(msg: seq<char>): (cmd: seq<char>)
    ensures CString(cmd)
  {
    CutAtNul(StripEnd(msg) + [NUL])
  }

  lemma {:induction false} CutIgnoresTail(a: seq<char>, b: seq<char>)
    requires NUL in a
    ensures CutAtNul(a + b) == CutAtNul(a)
  {
    if a[0] != NUL {
      assert (a + b)[1..] == a[1..] + b;
      CutIgnoresTail(a[1..], b);
    }
  }

  lemma {:induction false} CutOfPlain(text: string)
    requires NUL !in text
    ensures CutAtNul(text + [NUL]) == text + [NUL]
  {
    if text != [] {
      assert (text + [NUL])[1..] == text[1..] + [NUL];
      CutOfPlain(text[1..]);
    }
  }

  /** One message from the pipe.  A message longer than one read makes the read fail; that, like an empty
      one, ends the connection without an answer. */
  function Serve(s: Server, msg: seq<char>, now: nat): (Server, Option<string>) {
    if 0 < |msg| <= READ_LIMIT then
      var (t, reply) := Respond(s, CommandIn(msg), now);
      (t, Some(reply))
    else (s, None)
  }

  /** The read loop ends after this message: there was nothing to execute, or it was QUIT. */
  predicate EndsConnection(msg: seq<char>) {
    !(0 < |msg| <= READ_LIMIT) || CommandIn(msg) == "QUIT" + [NUL]
  }

  /** ReadFile on a pipe in message mode: as much of the message as the caller asked for is copied, and
      the call fails if that is not all of it. */
  method ReadFile(msg: seq<char>, buf: array<char>) returns (ok: bool, bytesRead: nat)
    requires READ_LIMIT < buf.Length
    modifies buf
    ensures ok <==> |msg| <= READ_LIMIT
    ensures bytesRead <= READ_LIMIT && bytesRead <= |msg| && buf[..bytesRead] == msg[..bytesRead]
    ensures ok ==> bytesRead == |msg|
  {
    bytesRead := 0;
    while bytesRead < |msg| && bytesRead < READ_LIMIT
      invariant bytesRead <= |msg| && bytesRead <= READ_LIMIT
      invariant buf[..bytesRead] == msg[..bytesRead]
    {
      buf[bytesRead] := msg[bytesRead];
      bytesRead := bytesRead + 1;
    }
    ok := bytesRead == |msg|;
  }

  /** One round of the parsing loop: skip blanks, then read a number and check its range. */
  method NextNumber(args: seq<char>, start: nat) returns (f: Found)
    requires CString(args) && start < |args|
    ensures f.Number? ==> start < f.end < |args| && 0 <= f.val < KEY_COUNT
    ensures f == NextFound(args, start)
  {
    var p := start;
    while args[p] == ' '
      invariant start <= p < |args| && SkipBlanks(args, p) == SkipBlanks(args, start)
      decreases |args| - p
    {
      p := p + 1;
    }
    if args[p] == NUL {
      return TextEnds;
    }
    var (val, end) := Strtol(args, p);
    if end == p || val < 0 || val > 255 {
      return Malformed;
    }
    return Number(val, end);
  }

  /** The parsing loop of HandleSetCombo: fills `codes` from the front and stops at the first bad
      number. */
  method ReadCodes(args: seq<char>, codes: array<int>) returns (ok: bool, count: nat)
    requires CString(args) && codes.Length == MAX_COMBO_KEYS
    modifies codes
    ensures count <= MAX_COMBO_KEYS
    ensures Parse(args, 0, MAX_COMBO_KEYS) == if ok then Some(codes[..count]) else None
  {
    count := 0;
    var p := 0;
    ghost var whole := Parse(args, 0, codes.Length);
    ghost var read: seq<int> := [];
    PrependNothing(whole);
    while args[p] != NUL && count < codes.Length
      invariant 0 <= p < |args| && count <= codes.Length
      invariant codes[..count] == read
      invariant whole == Prepend(read, Parse(args, p, codes.Length - count))
      decreases |args| - p
    {
      var found := NextNumber(args, p);
      if found.TextEnds? {
        AppendNothing(read);
        return true, count;
      }
      if found.Malformed? {
        return false, count;
      }
      PrependTwice(read, [found.val], Parse(args, found.end, codes.Length - count - 1));
      read := read + [found.val];
      p := found.end;
      codes[count] := found.val;
      count := count + 1;
      assert codes[..count] == read;
    }
    ParseStops(args, p, codes.Length - count);
    AppendNothing(read);
    return true, count;
  }

  lemma PrependNothing(r: Option<seq<int>>)
    ensures Prepend([], r) == r
  {
    if r.Some? {
      assert [] + r.value == r.value;
    }
  }

  lemma AppendNothing(a: seq<int>)
    ensures Prepend(a, Some([])) == Some(a)
  {
    assert a + [] == a;
  }

  lemma PrependTwice(a: seq<int>, b: seq<int>, r: Option<seq<int>>)
    ensures Prepend(a, Prepend(b, r)) == Prepend(a + b, r)
  {
    if r.Some? {
      assert a + (b + r.value) == (a + b) + r.value;
    }
  }

  class Sentinel {
    const hook: LowLevelHook
    var lastPingTime: nat

    ghost predicate Valid()
      reads this, hook, hook.keysDown, hook.comboKeys
    {
      hook.Valid()
    }

    ghost function State(): Server
      requires Valid()
      reads this, hook, hook.keysDown, hook.comboKeys
    {
      Server(hook.locked, lastPingTime, hook.Abs().combo)
    }

    constructor ()
      ensures Valid() && fresh(hook) && fresh(hook.keysDown) && fresh(hook.comboKeys)
      ensures State() == Server(false, 0, []) && hook.since == []
    {
      hook := new LowLevelHook();
      lastPingTime := 0;
    }

    /** All or nothing: the whole combo is installed, or not a single slot is touched. */
    method HandleSetCombo(args: seq<char>) returns (ok: bool)
      requires Valid() && CString(args)
      modifies hook`comboCount, hook.comboKeys
      ensures Valid()
      ensures ok <==> Requested(args).Some?
      ensures ok ==> hook.Abs() == old(hook.Abs()).(combo := Requested(args).value)
      ensures !ok ==> hook.Abs() == old(hook.Abs()) && hook.comboKeys[..] == old(hook.comboKeys[..])
    {
      var codes := new int[MAX_COMBO_KEYS];
      var read, count := ReadCodes(args, codes);
      if !read {
        return false;
      }
      ParseIsInRange(args, 0, MAX_COMBO_KEYS);
      ok := hook.SetUnlockCombo(codes[..count]);
      assert !ok ==> forall i :: 0 <= i < MAX_COMBO_KEYS ==> !Written(codes[..count], i);
    }

    method ProcessCommand(cmd: seq<char>, now: nat) returns (response: string)
      requires Valid() && CString(cmd)
      modifies this`lastPingTime, hook`locked, hook`comboCount, hook.comboKeys
      ensures Valid() && hook.since == old(hook.since)
      ensures (State(), response) == Respond(old(State()), cmd, now)
    {
      var text := cmd[..|cmd| - 1];
      if text == "LOCK" {
        hook.locked := true;
        lastPingTime := now;
        response := "OK\n";
      } else if text == "UNLOCK" {
        hook.locked := false;
        response := "OK\n";
      } else if text == "PING" {
        lastPingTime := now;
        response := "PONG\n";
      } else if text == "STATUS" {
        response := if hook.locked then "LOCKED\n" else "UNLOCKED\n";
      } else if SET_COMBO <= text {
        var ok := HandleSetCombo(cmd[|SET_COMBO|..]);
        response := if ok then "OK\n" else "ERROR\n";
      } else if text == "QUIT" {
        response := "OK\n";
      } else {
        response := "ERROR\n";
      }
    }

    /** One message of the read loop: terminate the buffer, strip line ends in place, run the command. */
    method HandleMessage(buf: array<char>, bytesRead: nat, now: nat) returns (response: string)
      requires Valid() && 0 < bytesRead <= READ_LIMIT < buf.Length
      modifies buf, this`lastPingTime, hook`locked, hook`comboCount, hook.comboKeys
      ensures Valid() && hook.since == old(hook.since)
      ensures (State(), response) == Respond(old(State()), CommandIn(old(buf[..bytesRead])), now)
      ensures NUL in buf[..] && CutAtNul(buf[..]) == CommandIn(old(buf[..bytesRead]))
    {
      ghost var msg := buf[..bytesRead];
      var n := bytesRead;
      buf[n] := NUL;
      while n > 0 && IsLineEnd(buf[n - 1])
        invariant 0 <= n <= bytesRead
        invariant buf[..n] == msg[..n] && buf[n] == NUL
        invariant StripEnd(msg[..n]) == StripEnd(msg)
        invariant Valid() && State() == old(State()) && hook.since == old(hook.since)
      {
        assert msg[..n][..n - 1] == msg[..n - 1];
        n := n - 1;
        buf[n] := NUL;
      }
      assert StripEnd(msg) == buf[..n];
      assert buf[..] == (buf[..n] + [NUL]) + buf[n + 1..];
      CutIgnoresTail(buf[..n] + [NUL], buf[n + 1..]);
      response := ProcessCommand(CutAtNul(buf[..]), now);
    }

    /** One round of the read loop, for any message a client may send: the answer, if any, and whether
        the loop goes on. */
    method ServeOne(msg: seq<char>, buf: array<char>, now: nat) returns (response: Option<string>, goesOn: bool)
      requires Valid() && READ_LIMIT < buf.Length
      modifies buf, this`lastPingTime, hook`locked, hook`comboCount, hook.comboKeys
      ensures Valid() && hook.since == old(hook.since)
      ensures (State(), response) == Serve(old(State()), msg, now)
      ensures goesOn <==> !EndsConnection(msg)
    {
      var ok, bytesRead := ReadFile(msg, buf);
      if !ok || bytesRead == 0 {
        return None, false;
      }
      assert buf[..bytesRead] == msg;
      var text := HandleMessage(buf, bytesRead, now);
      response, goesOn := Some(text), CutAtNul(buf[..]) != "QUIT" + [NUL];
    }

    /** The heartbeat callback, run without interruption. */
    method HeartbeatTimerProc(now: nat)
      requires Valid()
      modifies hook`locked
      ensures Valid()
      ensures State() == old(State()).(locked := old(hook.locked)
                && (lastPingTime == 0 || Heartbeat.Sub64(now, lastPingTime) <= Heartbeat.PING_TIMEOUT))
      ensures hook.since == old(hook.since)
    {
      if !hook.locked {
        return;
      }
      var lastPing := lastPingTime;
      if lastPing == 0 {
        return;
      }
      if Heartbeat.Sub64(now, lastPing) > Heartbeat.PING_TIMEOUT {
        hook.locked := false;
      }
    }
  }

  // ----- the same commands in the interleaved machine -----

  /** A quiescent point of the interleaved machine shows the same flag and stamp. */
  predicate Agrees(hb: Heartbeat.State, s: Server) {
    hb.pipe.PipeIdle? && hb.locked == s.locked && hb.lastPing == s.lastPing
  }

  /** LOCK, UNLOCK and PING run step by step in the interleaved machine, without interference, leave
      the flag and stamp that answering them as a whole leaves; so does a timer callback. */
  lemma StepsMakeCommands(hb: Heartbeat.State, s: Server)
    requires Agrees(hb, s)
    ensures Agrees(Heartbeat.Locking(hb), Respond(s, "LOCK" + [NUL], hb.clock).0)
    ensures Agrees(Heartbeat.Unlocking(hb), Respond(s, "UNLOCK" + [NUL], hb.clock).0)
    ensures Agrees(Heartbeat.Pinging(hb), Respond(s, "PING" + [NUL], hb.clock).0)
    ensures hb.timer.TimerIdle? ==>
              Agrees(Heartbeat.Callback(hb), s.(locked := s.locked
                && (s.lastPing == 0 || Heartbeat.Sub64(hb.clock, s.lastPing) <= Heartbeat.PING_TIMEOUT)))
  {
  }
}
