/** The low-level keyboard hook of the sentinel: a bitmap of pressed keys, the installed unlock combo
    and the clock of the current ESC hold, all updated in place by the callback. */
module KeyHook {
  import opened Heartbeat
  import opened KeyHistory

  const HC_ACTION := 0
  const WM_KEYDOWN := 0x100
  const WM_KEYUP := 0x101
  const WM_SYSKEYDOWN := 0x104
  const WM_SYSKEYUP := 0x105

  /** What the callback returns: hand the event on, or swallow it. */
  datatype Verdict = PassOn | Block

  function MotionOf(wParam: int): Motion {
    if wParam == WM_KEYDOWN || wParam == WM_SYSKEYDOWN then Down
    else if wParam == WM_KEYUP || wParam == WM_SYSKEYUP then Up
    else Other
  }

  /** What a message makes of its key's bit, in message numbers. */
  predicate BitAfter(wParam: int, before: bool) {
    if wParam == 0x100 || wParam == 0x104 then true
    else if wParam == 0x101 || wParam == 0x105 then false
    else before
  }

  /** What a message about ESC makes of the ESC clock, in message numbers. */
  function EscClockAfter(wParam: int, before: nat, clock: nat): nat {
    if wParam == 0x101 || wParam == 0x105 then 0
    else if (wParam == 0x100 || wParam == 0x104) && before == 0 then clock
    else before
  }

  /** The hook without its bitmap and ESC clock: the flag, the combo, and the events since the last
      clear. */
  datatype Hook = Hook(locked: bool, combo: seq<int>, since: seq<KeyEvent>)

  /** The event has one of the 256 codes of the bitmap; the callback ignores any other. */
  predicate Tracked(e: KeyEvent) {
    e.vk < KEY_COUNT
  }

  ghost predicate UnlocksOn(s: Hook, e: KeyEvent) {
    Tracked(e) && s.locked && UnlockCondition(s.since + [e], s.combo, e.check)
  }

  ghost predicate BlocksOn(s: Hook, e: KeyEvent) {
    Tracked(e) && s.locked && !UnlockCondition(s.since + [e], s.combo, e.check)
  }

  ghost function Delivered(s: Hook, e: KeyEvent): Hook {
    if !Tracked(e) then s
    else if UnlocksOn(s, e) then s.(locked := false, since := [])
    else s.(since := s.since + [e])
  }

  predicate ValidCode(code: int) {
    0 <= code < KEY_COUNT
  }

  predicate ValidCount(count: int) {
    count == 0 || 2 <= count <= MAX_COMBO_KEYS
  }

  /** SetUnlockCombo reaches and passes the check of its i-th code. */
  predicate Written(codes: seq<int>, i: int) {
    && 2 <= |codes| <= MAX_COMBO_KEYS
    && 0 <= i < |codes|
    && forall j :: 0 <= j <= i ==> ValidCode(codes[j])
  }

  class LowLevelHook {
    const keysDown: array<bool>
    const comboKeys: array<int>
    var comboCount: int
    var escDownSince: nat
    var locked: bool
    ghost var since: seq<KeyEvent>  // the key events since the last clear

    /** The mutable state says exactly what the history says. */
    ghost predicate Valid()
      reads this, keysDown, comboKeys
    {
      && keysDown.Length == KEY_COUNT && comboKeys.Length == MAX_COMBO_KEYS
      && ValidCount(comboCount)
      && (forall i :: 0 <= i < MAX_COMBO_KEYS ==> ValidCode(comboKeys[i]))
      && Clocked(since)
      && (forall k :: 0 <= k < KEY_COUNT ==> (keysDown[k] <==> Pressed(since, k)))
      && escDownSince == EscSince(since)
    }

    ghost function Abs(): Hook
      requires Valid()
      reads this, keysDown, comboKeys
    {
      Hook(locked, comboKeys[..comboCount], since)
    }

    constructor ()
      ensures Valid() && Abs() == Hook(false, [], [])
      ensures fresh(keysDown) && fresh(comboKeys)
    {
      keysDown := new bool[KEY_COUNT](i => false);
      comboKeys := new int[MAX_COMBO_KEYS](i => 0);
      comboCount, escDownSince, locked, since := 0, 0, false, [];
      new;
      forall k ensures !Pressed([], k) && EscSince([]) == 0 {
        NothingPressed(k);
      }
    }

    predicate IsEmergencyComboPressed()
      requires keysDown.Length == KEY_COUNT
      reads this, keysDown
    {
      keysDown[VK_CONTROL] && keysDown[VK_SHIFT] && keysDown[VK_MENU] && keysDown[VK_F12]
    }

    method IsUnlockComboPressed() returns (pressed: bool)
      requires Valid()
      ensures pressed <==> ComboPressed(since, comboKeys[..comboCount])
    {
      if comboCount < 2 {
        return false;
      }
      var i := 0;
      while i < comboCount
        invariant 0 <= i <= comboCount
        invariant forall j :: 0 <= j < i ==> Pressed(since, comboKeys[j])
      {
        if !keysDown[comboKeys[i]] {
          assert comboKeys[..comboCount][i] == comboKeys[i];
          return false;
        }
        i := i + 1;
      }
      return true;
    }

    predicate IsEscHeldLongEnough(now: nat)
      requires keysDown.Length == KEY_COUNT
      reads this, keysDown
    {
      if !keysDown[VK_ESCAPE] || escDownSince == 0 then false
      else Sub64(now, escDownSince) >= ESC_HOLD_MS
    }

    method ClearKeyState()
      requires Valid()
      modifies this`escDownSince, this`since, keysDown
      ensures Valid() && Abs() == old(Abs()).(since := [])
      ensures escDownSince == 0 && forall k :: 0 <= k < KEY_COUNT ==> !keysDown[k]
    {
      var i := 0;
      while i < KEY_COUNT
        invariant 0 <= i <= KEY_COUNT
        invariant forall k :: 0 <= k < i ==> !keysDown[k]
      {
        keysDown[i] := false;
        i := i + 1;
      }
      escDownSince := 0;
      since := [];
      forall k ensures !Pressed([], k) && EscSince([]) == 0 {
        NothingPressed(k);
      }
    }

    method DoUnlock()
      requires Valid()
      modifies this`locked, this`escDownSince, this`since, keysDown
      ensures Valid() && Abs() == old(Abs()).(locked := false, since := [])
      ensures escDownSince == 0 && forall k :: 0 <= k < KEY_COUNT ==> !keysDown[k]
    {
      locked := false;
      ClearKeyState();
    }

    /** The part of the callback that updates the bitmap. */
    method TrackKey(vk: nat, wParam: int, ghost e: KeyEvent)
      requires Valid() && vk < KEY_COUNT && e.vk == vk && e.motion == MotionOf(wParam)
      modifies keysDown
      ensures forall k :: 0 <= k < KEY_COUNT ==> (keysDown[k] <==> Pressed(since + [e], k))
      ensures keysDown[vk] == BitAfter(wParam, old(keysDown[vk]))
      ensures forall k :: 0 <= k < KEY_COUNT && k != vk ==> keysDown[k] == old(keysDown[k])
    {
      var motion := MotionOf(wParam);
      if motion == Down { keysDown[vk] := true; }
      if motion == Up { keysDown[vk] := false; }
      forall k | 0 <= k < KEY_COUNT
        ensures keysDown[k] <==> Pressed(since + [e], k)
      {
        PressedAfter(since, e, k);
      }
    }

    /** The part of the callback that tracks how long ESC has been held. */
    method TrackEsc(vk: nat, wParam: int, stampClock: nat, ghost e: KeyEvent)
      requires escDownSince == EscSince(since) && Clocked(since + [e])
      requires e.vk == vk && e.motion == MotionOf(wParam) && e.stamp == stampClock
      modifies this`escDownSince
      ensures escDownSince == EscSince(since + [e])
      ensures escDownSince == if vk == 0x1B then EscClockAfter(wParam, old(escDownSince), stampClock)
                              else old(escDownSince)
    {
      var motion := MotionOf(wParam);
      if vk == VK_ESCAPE {
        if motion == Down && escDownSince == 0 {
          escDownSince := stampClock;
        } else if motion == Up {
          escDownSince := 0;
        }
      }
      EscSinceAfter(since, e);
    }

    /** The part of the callback that decides. */
    method Decide(checkClock: nat) returns (verdict: Verdict)
      requires Valid() && since != [] && since[|since| - 1].check == checkClock < U64
      modifies this`locked, this`escDownSince, this`since, keysDown
      ensures Valid()
      ensures var met := UnlockCondition(old(since), old(Abs()).combo, checkClock);
              && (verdict == Block <==> old(locked) && !met)
              && Abs() == (if old(locked) && met then old(Abs()).(locked := false, since := []) else old(Abs()))
      ensures if locked == old(locked) then keysDown[..] == old(keysDown[..]) && escDownSince == old(escDownSince)
              else escDownSince == 0 && forall k :: 0 <= k < KEY_COUNT ==> !keysDown[k]
    {
      if !locked {
        return PassOn;
      }
      var combo := IsUnlockComboPressed();
      HeldMeaning(checkClock);
      EmergencyMeaning();
      if IsEmergencyComboPressed() || combo || IsEscHeldLongEnough(checkClock) {
        DoUnlock();
        return PassOn;
      }
      return Block;
    }

    /** Every event is swallowed exactly when the keyboard is locked and no unlock condition holds of
        the events since the last clear; an unlock clears the history; codes of 256 and above and
        other hook codes touch nothing.  In message numbers: unless the event unlocks, 0x100 and 0x104 set
        the bit of its key, 0x101 and 0x105 clear it, and no other bit moves; of ESC, they start and stop
        the clock. */
    method LowLevelKeyboardProc(nCode: int, wParam: int, vk: nat, stampClock: nat, checkClock: nat)
      returns (verdict: Verdict)
      requires Valid() && checkClock < U64
      requires Clocked(since + [KeyEvent(vk, MotionOf(wParam), stampClock, checkClock)])
      modifies this`locked, this`escDownSince, this`since, keysDown
      ensures Valid()
      ensures var e := KeyEvent(vk, MotionOf(wParam), stampClock, checkClock);
              if nCode == HC_ACTION then
                Abs() == Delivered(old(Abs()), e) && (verdict == Block <==> BlocksOn(old(Abs()), e))
              else Abs() == old(Abs()) && verdict == PassOn
      ensures nCode == 0 && vk < 256 && locked == old(locked) ==>
                && keysDown[vk] == BitAfter(wParam, old(keysDown[vk]))
                && (forall k :: 0 <= k < 256 && k != vk ==> keysDown[k] == old(keysDown[k]))
                && escDownSince == if vk == 0x1B then EscClockAfter(wParam, old(escDownSince), stampClock)
                                   else old(escDownSince)
      ensures nCode == 0 && vk < 256 && locked != old(locked) ==>
                !locked && escDownSince == 0 && forall k :: 0 <= k < 256 ==> !keysDown[k]
      ensures nCode != 0 || vk >= 256 ==>
                keysDown[..] == old(keysDown[..]) && escDownSince == old(escDownSince) && locked == old(locked)
    {
      if nCode != HC_ACTION {
        return PassOn;
      }
      if vk >= KEY_COUNT {
        return PassOn;
      }
      ghost var e := KeyEvent(vk, MotionOf(wParam), stampClock, checkClock);
      TrackKey(vk, wParam, e);
      TrackEsc(vk, wParam, stampClock, e);
      since := since + [e];
      verdict := Decide(checkClock);
    }

    lemma EmergencyMeaning()
      requires Valid()
      ensures IsEmergencyComboPressed() <==> AllPressed(since, EMERGENCY)
    {
    }

    lemma HeldMeaning(now: nat)
      requires Valid() && since != [] && since[|since| - 1].check == now < U64
      ensures IsEscHeldLongEnough(now) <==> EscHeld(since, now)
    {
      EscSinceMeaning(since);
      EscHeldMeaning(since, now);
      HoldIsPast(since);
      NoWrap(now, EscSince(since));
    }

    /** Succeeds exactly on 2 to 8 codes that are all in range.  A failing call never changes the
        count, but it does overwrite the slots before the first bad code. */
    method SetUnlockCombo(vkCodes: seq<int>) returns (ok: bool)
      requires Valid()
      modifies this`comboCount, comboKeys
      ensures Valid()
      ensures ok <==> 2 <= |vkCodes| <= MAX_COMBO_KEYS && forall code :: code in vkCodes ==> ValidCode(code)
      ensures ok ==> Abs() == old(Abs()).(combo := vkCodes)
      ensures !ok ==> comboCount == old(comboCount)
      ensures forall i :: 0 <= i < MAX_COMBO_KEYS ==>
                comboKeys[i] == if Written(vkCodes, i) then vkCodes[i] else old(comboKeys[i])
    {
      var count := |vkCodes|;
      if count < 2 || count > MAX_COMBO_KEYS {
        return false;
      }
      var i := 0;
      while i < count
        invariant 0 <= i <= count
        invariant forall j :: 0 <= j < i ==> ValidCode(vkCodes[j])
        invariant forall j :: 0 <= j < MAX_COMBO_KEYS ==>
                    comboKeys[j] == if j < i then vkCodes[j] else old(comboKeys[j])
        invariant comboCount == old(comboCount)
      {
        if vkCodes[i] < 0 || vkCodes[i] > 255 {
          assert vkCodes[i] in vkCodes && !ValidCode(vkCodes[i]);
          return false;
        }
        comboKeys[i] := vkCodes[i];
        i := i + 1;
      }
      comboCount := count;
      assert comboKeys[..count] == vkCodes;
      return true;
    }

    method UninstallHook()
      requires Valid()
      modifies this`escDownSince, this`since, keysDown
      ensures Valid() && Abs() == old(Abs()).(since := [])
    {
      ClearKeyState();
    }
  }
}
