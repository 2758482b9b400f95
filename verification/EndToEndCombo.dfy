/** The unlock combo end to end: configured names, codes, SET_COMBO text, the sentinel's parser, the
    installed combo, and what it takes to unlock. */
module EndToEndCombo {
  import opened Prelude
  import opened KeyHistory
  import opened KeyHook
  import opened ComboWire
  import opened PipeServer
  import Heartbeat
  import HookRuns
  import KeyNames

  /** The message the controller writes: the command and a newline. */
  function Framed(cmd: string): string {
    cmd + "\n"
  }

  lemma PlainCommand(text: string)
    requires text != "" && !IsLineEnd(text[|text| - 1]) && NUL !in text
    ensures CommandIn(Framed(text)) == text + [NUL]
  {
    assert Framed(text)[..|text|] == text;
    assert StripEnd(text) == text;
    CutOfPlain(text);
  }

  // ----- replies -----

  /** The reply line without its newline. */
  function LineOf(reply: string): string {
    if reply != "" && reply[|reply| - 1] == '\n' then reply[..|reply| - 1] else reply
  }

  predicate SaysOk(reply: string) {
    LineOf(reply) == "OK"
  }

  predicate SaysPong(reply: string) {
    LineOf(reply) == "PONG"
  }

  function SaysStatus(reply: string): Option<bool> {
    if LineOf(reply) == "LOCKED" then Some(true)
    else if LineOf(reply) == "UNLOCKED" then Some(false)
    else None
  }

  lemma Understood(text: string)
    requires text != "" && !IsLineEnd(text[|text| - 1]) && NUL !in text
    ensures CommandIn(Framed(text)) == text + [NUL] && (text + [NUL])[..|text| + 1 - 1] == text
  {
    PlainCommand(text);
  }

  /** Line ends of any kind and number are stripped. */
  lemma {:induction false} LineEndsAreStripped(text: string, ends: string)
    requires text != "" && !IsLineEnd(text[|text| - 1]) && NUL !in text
    requires forall i :: 0 <= i < |ends| ==> ends[i] == '\n' || ends[i] == '\r'
    ensures CommandIn(text + ends) == text + [NUL]
    decreases ends
  {
    if ends == [] {
      assert text + ends == text && StripEnd(text) == text;
      CutOfPlain(text);
    } else {
      var n := |ends| - 1;
      assert (text + ends)[..|text + ends| - 1] == text + ends[..n];
      LineEndsAreStripped(text, ends[..n]);
    }
  }

  /** The client takes a reply for a state only if it is one of the two the sentinel sends. */
  lemma StatusIsDecodedIff(reply: string, locked: bool)
    ensures SaysStatus(reply) == Some(locked) <==> LineOf(reply) == if locked then "LOCKED" else "UNLOCKED"
  {
    assert "LOCKED"[0] != "UNLOCKED"[0];
  }

  lemma LockRoundTrip(s: Server, now: nat)
    ensures var (t, reply) := Respond(s, CommandIn(Framed("LOCK")), now);
            SaysOk(reply) && t == s.(locked := true, lastPing := now)
  {
    Understood("LOCK");
  }

  lemma UnlockRoundTrip(s: Server, now: nat)
    ensures var (t, reply) := Respond(s, CommandIn(Framed("UNLOCK")), now);
            SaysOk(reply) && t == s.(locked := false)
  {
    Understood("UNLOCK");
  }

  lemma PingRoundTrip(s: Server, now: nat)
    ensures var (t, reply) := Respond(s, CommandIn(Framed("PING")), now);
            SaysPong(reply) && !SaysOk(reply) && t == s.(lastPing := now)
  {
    Understood("PING");
  }

  lemma StatusReplies()
    ensures SaysStatus("LOCKED\n") == Some(true) && SaysStatus("UNLOCKED\n") == Some(false)
  {
  }

  lemma StatusRoundTrip(s: Server, now: nat)
    ensures var (t, reply) := Respond(s, CommandIn(Framed("STATUS")), now);
            SaysStatus(reply) == Some(s.locked) && t == s
  {
    Understood("STATUS");
    StatusReplies();
    assert "STATUS"[0] != "LOCK"[0] && "STATUS"[0] != "UNLOCK"[0] && "STATUS"[0] != "PING"[0];
  }

  lemma QuitRoundTrip(s: Server, now: nat)
    ensures var (t, reply) := Respond(s, CommandIn(Framed("QUIT")), now);
            SaysOk(reply) && t == s
    ensures EndsConnection(Framed("QUIT"))
  {
    Understood("QUIT");
    assert "QUIT"[0] == 'Q' && "LOCK"[0] == 'L' && "UNLOCK"[0] == 'U' && "PING"[0] == 'P' && "STATUS"[0] == 'S';
  }

  /** Any text that is none of the six commands is answered ERROR and changes nothing. */
  lemma OtherTextsAreErrors(s: Server, text: string, now: nat)
    requires text != "" && !IsLineEnd(text[|text| - 1]) && NUL !in text
    requires text !in {"LOCK", "UNLOCK", "PING", "STATUS", "QUIT"} && !("SET_COMBO " <= text)
    ensures Respond(s, CommandIn(Framed(text)), now) == (s, "ERROR\n")
  {
    Understood(text);
  }

  /** Every message but QUIT that fits one read leaves the connection open. */
  lemma OnlyQuitEnds(text: string)
    requires text != "" && !IsLineEnd(text[|text| - 1]) && NUL !in text && |text| < 511
    ensures EndsConnection(Framed(text)) <==> text == "QUIT"
  {
    Understood(text);
    Understood("QUIT");
  }

  /** A command from the client's text to its decoded reply: what becomes of flag and stamp, and whether
      the client takes the reply for success. */
  ghost predicate Executes(s: Server, command: string, hb: Heartbeat.State, says: string -> bool) {
    var (t, reply) := Serve(s, Framed(command), hb.clock);
    && Agrees(hb, t) && t.combo == s.combo
    && reply.Some? && says(reply.value)
  }

  /** The commands on the wire: when the machine of the two threads is at rest, sending the text
      of a command moves flag and stamp exactly as the whole-system model lets that command move them, and
      the reply decodes as success; a decoded STATUS is the flag, and moves nothing; neither does QUIT. */
  lemma CommandsOnTheWire(hb: Heartbeat.State, s: Server)
    requires Agrees(hb, s)
    ensures Executes(s, "LOCK", Heartbeat.Locking(hb), SaysOk)
    ensures Executes(s, "UNLOCK", Heartbeat.Unlocking(hb), SaysOk)
    ensures Executes(s, "PING", Heartbeat.Pinging(hb), SaysPong)
    ensures Executes(s, "STATUS", hb, reply => SaysStatus(reply) == Some(hb.locked))
    ensures Executes(s, "QUIT", hb, SaysOk)
  {
    QuitRoundTrip(s, hb.clock);
    LockRoundTrip(s, hb.clock);
    UnlockRoundTrip(s, hb.clock);
    PingRoundTrip(s, hb.clock);
    StatusRoundTrip(s, hb.clock);
  }

  // ----- SET_COMBO -----

  lemma {:induction false} JoinEndsInDigit(codes: seq<nat>)
    requires codes != []
    ensures var text := Join(Decimals(codes)); text != "" && IsDigit(text[|text| - 1])
    ensures var rest := JoinRest(Decimals(codes)); rest != "" && IsDigit(rest[|rest| - 1])
  {
    assert Decimals(codes)[1..] == Decimals(codes[1..]);
    if |codes| > 1 {
      JoinEndsInDigit(codes[1..]);
    }
  }

  lemma SetComboEnds(codes: seq<nat>)
    requires codes != []
    ensures var text := SetComboText(codes); text != "" && !IsLineEnd(text[|text| - 1])
  {
    JoinEndsInDigit(codes);
    var text, join := SetComboText(codes), Join(Decimals(codes));
    assert text[|text| - 1] == join[|join| - 1];
  }

  lemma SetComboHasNoNul(codes: seq<nat>)
    ensures NUL !in SetComboText(codes)
  {
    NoNul(codes);
    forall i | 0 <= i < |SetComboText(codes)|
      ensures SetComboText(codes)[i] != NUL
    {
      if i >= |SET_COMBO| {
        assert Printable(Join(Decimals(codes))[i - |SET_COMBO|]);
      }
    }
  }

  lemma SetComboIsPlain(codes: seq<nat>)
    requires codes != []
    ensures CommandIn(Framed(SetComboText(codes))) == SetComboText(codes) + [NUL]
  {
    SetComboEnds(codes);
    SetComboHasNoNul(codes);
    PlainCommand(SetComboText(codes));
  }

  lemma SetComboAnswer(s: Server, args: string, now: nat)
    requires CString(args + [NUL])
    ensures CString(SET_COMBO + args + [NUL])
    ensures Respond(s, SET_COMBO + args + [NUL], now)
            == match Requested(args + [NUL])
               case Some(codes) => (s.(combo := codes), "OK\n")
               case None => (s, "ERROR\n")
  {
    var cmd := SET_COMBO + args + [NUL];
    assert cmd[|SET_COMBO|..] == args + [NUL];
    assert cmd[..|cmd| - 1] == SET_COMBO + args;
    assert cmd[..|cmd| - 1][0] == 'S' && cmd[..|cmd| - 1][1] == 'E';
  }

  lemma ComboIsAnswered(codes: seq<nat>, s: Server, now: nat)
    requires AllValid(codes) && |codes| >= 2
    ensures var (t, reply) := Respond(s, CommandIn(Framed(SetComboText(codes))), now);
            SaysOk(reply) && t == s.(combo := Take(codes, MAX_COMBO_KEYS))
  {
    SetComboIsPlain(codes);
    PrintThenParse(codes);
    SetComboAnswer(s, Join(Decimals(codes)), now);
  }

  /** Which messages one read takes in: those of 1 to 511 bytes.  Any other ends the connection and
      changes nothing. */
  lemma ServedIff(s: Server, msg: string, now: nat)
    ensures 1 <= |msg| <= 511 ==>
              var (t, reply) := Respond(s, CommandIn(msg), now);
              Serve(s, msg, now) == (t, Some(reply))
    ensures |msg| == 0 || |msg| > 511 ==> Serve(s, msg, now) == (s, None) && EndsConnection(msg)
    ensures 1 <= |msg| <= 511 ==> (EndsConnection(msg) <==> CommandIn(msg) == "QUIT" + [NUL])
  {
  }

  /** An accepted unlock combo is answered OK and installed, exactly its first eight codes of it, if and
      only if its digits, its blanks and the eleven other characters fit one read of 511 bytes.
      Otherwise the connection breaks and the sentinel stays as it was. */
  lemma ConfiguredComboIsInstalled(normalize: string -> string, cfg: KeyNames.Config, codes: seq<nat>,
                                   s: Server, now: nat)
    requires KeyNames.Acceptable(normalize, cfg) && KeyNames.AreCodes(normalize, cfg.unlockCombo, codes)
    ensures var (t, reply) := Serve(s, Framed(SetComboText(codes)), now);
            if TotalDigits(codes) + |codes| <= 501 then
              reply.Some? && SaysOk(reply.value) && t == s.(combo := Take(codes, MAX_COMBO_KEYS))
            else reply.None? && t == s
  {
    assert AllValid(codes);
    MessageLength(codes);
    ServedIff(s, Framed(SetComboText(codes)), now);
    if TotalDigits(codes) + |codes| <= 501 {
      ComboIsAnswered(codes, s, now);
    }
  }

  /** A configuration of that many times the same key. */
  function Repeating(name: string, n: nat): KeyNames.Config {
    KeyNames.Config(seq(n, _ => name), 30, false, true, [], false, true)
  }

  lemma RepeatingIsAcceptable(name: string, n: nat, vk: nat) returns (codes: seq<nat>)
    requires n >= 2 && KeyNames.VkCode(name) == Some(vk)
    ensures KeyNames.Acceptable(k => k, Repeating(name, n))
    ensures KeyNames.AreCodes(k => k, Repeating(name, n).unlockCombo, codes)
    ensures |codes| == n && TotalDigits(codes) == DigitCount(vk) * n
  {
    codes := seq(n, _ => vk);
    SameDigits(codes, DigitCount(vk));
    assert KeyNames.AreCodes(k => k, Repeating(name, n).unlockCombo, codes);
  }

  /** The number of keys does not decide: of two accepted combos of 126 keys, the letter A is installed
      and the key F1 breaks the connection.  Up to 125 keys every combo is installed. */
  lemma CountDoesNotDecide(s: Server, now: nat) returns (letters: seq<nat>, functionKeys: seq<nat>)
    ensures KeyNames.Acceptable(k => k, Repeating("A", 126)) && KeyNames.Acceptable(k => k, Repeating("F1", 126))
    ensures KeyNames.AreCodes(k => k, Repeating("A", 126).unlockCombo, letters)
    ensures KeyNames.AreCodes(k => k, Repeating("F1", 126).unlockCombo, functionKeys)
    ensures Serve(s, Framed(SetComboText(letters)), now).1.Some?
    ensures Serve(s, Framed(SetComboText(functionKeys)), now).1.None?
  {
    letters := RepeatingIsAcceptable("A", 126, 0x41);
    ConfiguredComboIsInstalled(k => k, Repeating("A", 126), letters, s, now);
    functionKeys := RepeatingIsAcceptable("F1", 126, 0x70);
    ConfiguredComboIsInstalled(k => k, Repeating("F1", 126), functionKeys, s, now);
  }

  /** Every accepted combo of at most 125 keys is installed. */
  lemma ShortComboIsInstalled(normalize: string -> string, cfg: KeyNames.Config, codes: seq<nat>,
                              s: Server, now: nat)
    requires KeyNames.Acceptable(normalize, cfg) && KeyNames.AreCodes(normalize, cfg.unlockCombo, codes)
    requires |cfg.unlockCombo| <= 125
    ensures var (t, reply) := Serve(s, Framed(SetComboText(codes)), now);
            reply.Some? && SaysOk(reply.value) && t == s.(combo := Take(codes, MAX_COMBO_KEYS))
  {
    AtMostThreeDigits(codes);
    ConfiguredComboIsInstalled(normalize, cfg, codes, s, now);
  }

  // ----- what the installed combo enforces -----

  /** With the installed combo, holding every configured key through an event of a locked keyboard
      unlocks at that event, however many keys are configured. */
  lemma AllNamedKeysUnlock(codes: seq<nat>, s: Hook, ins: seq<HookRuns.Input>, n: nat, c: nat)
    requires |codes| >= 2 && s.since == []
    requires c <= n < |ins| && HookRuns.IsTracked(ins[n]) && HookRuns.ClearedAt(s, ins, c, n)
    requires HookRuns.Before(s, ins, n).locked
    requires HookRuns.Before(s, ins, n).combo == Take(codes, MAX_COMBO_KEYS)
    requires forall i :: 0 <= i < |codes| ==> HookRuns.HeldIn(ins, c, n, codes[i])
    ensures HookRuns.UnlocksAt(s, ins, n) && !HookRuns.Before(s, ins, n + 1).locked
  {
    var combo := HookRuns.Before(s, ins, n).combo;
    forall k | k in combo
      ensures HookRuns.HeldIn(ins, c, n, k)
    {
      var i :| 0 <= i < |combo| && combo[i] == k;
      assert codes[i] == k;
    }
    HookRuns.HoldingUnlocks(s, ins, n, c);
  }

  lemma {:induction false} InstalledComboStays(s: Hook, ins: seq<HookRuns.Input>, i: nat, n: nat, combo: seq<int>)
    requires i < n <= |ins| && ins[i] == HookRuns.Install(combo)
    requires forall k :: i < k < n ==> !ins[k].Install?
    ensures HookRuns.Before(s, ins, n).combo == combo
    decreases n
  {
    HookRuns.BeforeNext(s, ins, n - 1);
    if i < n - 1 {
      InstalledComboStays(s, ins, i, n - 1, combo);
    }
  }

  /** Key i of the configuration went down since c and has not come up by n. */
  ghost predicate NamedKeyHeld(normalize: string -> string, names: seq<string>, i: nat,
                               ins: seq<HookRuns.Input>, c: nat, n: nat)
    requires i < |names| && n < |ins|
  {
    var vk := KeyNames.VkCode(normalize(names[i]));
    vk.Some? && HookRuns.HeldIn(ins, c, n, vk.value)
  }

  /** The whole way: the names of an accepted configuration become the text of SET_COMBO; the sentinel
      serves it; the hook gets the combo that this leaves at input i, and no other one before event n of a
      locked keyboard.  Then holding all the named keys through that event unlocks, however many there
      are; and if neither emergency keys nor ESC are held, it unlocks exactly if the first eight are. */
  lemma ConfiguredComboUnlocks(normalize: string -> string, cfg: KeyNames.Config, codes: seq<nat>,
                               server: Server, now: nat, s: Hook, ins: seq<HookRuns.Input>,
                               i: nat, n: nat, c: nat)
    requires KeyNames.Acceptable(normalize, cfg) && KeyNames.AreCodes(normalize, cfg.unlockCombo, codes)
    requires TotalDigits(codes) + |codes| <= 501
    requires s.since == [] && i < n < |ins| && HookRuns.IsTracked(ins[n])
    requires ins[i] == HookRuns.Install(Serve(server, Framed(SetComboText(codes)), now).0.combo)
    requires forall k :: i < k < n ==> !ins[k].Install?
    requires c <= n && HookRuns.ClearedAt(s, ins, c, n) && HookRuns.Before(s, ins, n).locked
    ensures (forall k: nat :: k < |cfg.unlockCombo| ==> NamedKeyHeld(normalize, cfg.unlockCombo, k, ins, c, n))
            ==> HookRuns.UnlocksAt(s, ins, n) && !HookRuns.Before(s, ins, n + 1).locked
    ensures Clocked(HookRuns.Keys(ins)) && !HookRuns.AllHeld(ins, c, n, EMERGENCY)
            && !HookRuns.EscHeldIn(ins, c, n, ins[n].e.check)
            ==> (HookRuns.UnlocksAt(s, ins, n) <==>
                 forall k: nat :: k < Min(MAX_COMBO_KEYS, |codes|)
                                  ==> NamedKeyHeld(normalize, cfg.unlockCombo, k, ins, c, n))
  {
    ConfiguredComboIsInstalled(normalize, cfg, codes, server, now);
    var combo := Take(codes, MAX_COMBO_KEYS);
    InstalledComboStays(s, ins, i, n, combo);
    HeldNamesAreHeldCodes(normalize, cfg, codes, ins, c, n);
    if forall k: nat :: k < |cfg.unlockCombo| ==> NamedKeyHeld(normalize, cfg.unlockCombo, k, ins, c, n) {
      AllNamedKeysUnlock(codes, s, ins, n, c);
    }
    if Clocked(HookRuns.Keys(ins)) {
      HookRuns.UnlocksIff(s, ins, n, c);
    }
  }

  lemma HeldNamesAreHeldCodes(normalize: string -> string, cfg: KeyNames.Config, codes: seq<nat>,
                              ins: seq<HookRuns.Input>, c: nat, n: nat)
    requires KeyNames.AreCodes(normalize, cfg.unlockCombo, codes) && n < |ins|
    ensures forall k: nat :: k < |codes| ==>
              (NamedKeyHeld(normalize, cfg.unlockCombo, k, ins, c, n) <==> HookRuns.HeldIn(ins, c, n, codes[k]))
    ensures HookRuns.AllHeld(ins, c, n, Take(codes, MAX_COMBO_KEYS)) <==>
            forall k: nat :: k < Min(MAX_COMBO_KEYS, |codes|)
                             ==> NamedKeyHeld(normalize, cfg.unlockCombo, k, ins, c, n)
  {
    var combo := Take(codes, MAX_COMBO_KEYS);
    forall k: nat | k < |codes|
      ensures NamedKeyHeld(normalize, cfg.unlockCombo, k, ins, c, n) <==> HookRuns.HeldIn(ins, c, n, codes[k])
    {
    }
    forall k: nat | k < |combo| && HookRuns.AllHeld(ins, c, n, combo)
      ensures HookRuns.HeldIn(ins, c, n, codes[k])
    {
      assert combo[k] in combo;
    }
  }

  /** A history in which exactly the given keys went down. */
  function PressEach(keys: seq<nat>): seq<KeyEvent> {
    if keys == [] then []
    else
      var n := |keys| - 1;
      PressEach(keys[..n]) + [KeyEvent(keys[n], Down, 1, 1)]
  }

  lemma {:induction false} PressEachPresses(keys: seq<nat>, k: int)
    ensures Pressed(PressEach(keys), k) <==> k in keys
    ensures Clocked(PressEach(keys))
    ensures forall e :: e in PressEach(keys) ==> e.stamp == 1 && e.check == 1
  {
    if keys != [] {
      var n := |keys| - 1;
      PressEachPresses(keys[..n], k);
      PressedAfter(PressEach(keys[..n]), KeyEvent(keys[n], Down, 1, 1), k);
      assert keys == keys[..n] + [keys[n]];
    }
  }

  /** A combo-triggered unlock implies that every configured key is down exactly when no key beyond
      the eighth adds a new code.  In particular it does for up to eight keys. */
  lemma ComboIsEnforcedIff(codes: seq<nat>)
    requires |codes| >= 2
    ensures (forall h :: Clocked(h) && ComboPressed(h, Take(codes, MAX_COMBO_KEYS)) ==> AllPressed(h, codes))
            <==> forall i :: 0 <= i < |codes| ==> codes[i] in Take(codes, MAX_COMBO_KEYS)
    ensures |codes| <= MAX_COMBO_KEYS ==>
              forall i :: 0 <= i < |codes| ==> codes[i] in Take(codes, MAX_COMBO_KEYS)
  {
    var combo := Take(codes, MAX_COMBO_KEYS);
    var h := PressEach(combo);
    forall k: int
      ensures Pressed(h, k) <==> k in combo
      ensures Clocked(h)
    {
      PressEachPresses(combo, k);
    }
    assert ComboPressed(h, combo);
    if i :| 0 <= i < |codes| && codes[i] !in combo {
      assert !Pressed(h, codes[i]);
      assert !AllPressed(h, codes);
    }
    assert |codes| <= MAX_COMBO_KEYS ==> combo == codes;
  }

  /** Nine different keys: the first eight alone unlock. */
  lemma NinthKeyIsNotEnforced()
    ensures var codes := [0x41, 0x42, 0x43, 0x44, 0x45, 0x46, 0x47, 0x48, 0x49];
            exists h :: ComboPressed(h, Take(codes, MAX_COMBO_KEYS)) && !Pressed(h, 0x49)
  {
    var codes: seq<nat> := [0x41, 0x42, 0x43, 0x44, 0x45, 0x46, 0x47, 0x48, 0x49];
    var combo := Take(codes, MAX_COMBO_KEYS);
    assert combo == [0x41, 0x42, 0x43, 0x44, 0x45, 0x46, 0x47, 0x48];
    forall k: int
      ensures Pressed(PressEach(combo), k) <==> k in combo
    {
      PressEachPresses(combo, k);
    }
    assert ComboPressed(PressEach(combo), combo) && !Pressed(PressEach(combo), 0x49);
  }
}
