/** Whole runs of the hook: key events interleaved with stores to the lock flag and combo changes
    made by the pipe thread. */
module HookRuns {
  import opened KeyHistory
  import opened KeyHook

  datatype Input =
    | Key(e: KeyEvent)            // one callback
    | StoreFlag(locked: bool)     // LOCK, UNLOCK or the heartbeat
    | Install(codes: seq<int>)    // an accepted SET_COMBO

  ghost function Step(s: Hook, i: Input): Hook {
    match i
    case Key(e) => Delivered(s, e)
    case StoreFlag(b) => s.(locked := b)
    case Install(codes) => s.(combo := codes)
  }

  ghost function Run(s: Hook, ins: seq<Input>): Hook {
    if ins == [] then s else Step(Run(s, ins[..|ins| - 1]), ins[|ins| - 1])
  }

  ghost function Before(s: Hook, ins: seq<Input>, n: nat): Hook
    requires n <= |ins|
  {
    Run(s, ins[..n])
  }

  lemma BeforeNext(s: Hook, ins: seq<Input>, n: nat)
    requires n < |ins|
    ensures Before(s, ins, n + 1) == Step(Before(s, ins, n), ins[n])
  {
    assert ins[..n + 1][..n] == ins[..n];
  }

  predicate IsTracked(i: Input) {
    i.Key? && Tracked(i.e)
  }

  predicate IsKey(i: Input, k: int, m: Motion) {
    IsTracked(i) && Is(i.e, k, m)
  }

  ghost predicate UnlocksAt(s: Hook, ins: seq<Input>, n: nat)
    requires n < |ins|
  {
    ins[n].Key? && UnlocksOn(Before(s, ins, n), ins[n].e)
  }

  /** The n-th input is a swallowed event: what the callback's verdict says of it. */
  ghost predicate BlockedAt(s: Hook, ins: seq<Input>, n: nat)
    requires n < |ins|
  {
    ins[n].Key? && BlocksOn(Before(s, ins, n), ins[n].e)
  }

  /** The flag was set at i, and until n nobody has stored to it and no event has unlocked. */
  ghost predicate SetAt(s: Hook, ins: seq<Input>, i: nat, n: nat)
    requires n <= |ins|
  {
    i < n && ins[i] == StoreFlag(true) && forall k :: i < k < n ==> !ins[k].StoreFlag? && !UnlocksAt(s, ins, k)
  }

  /** The keyboard is locked exactly since a store that set the flag: only a store that clears it or an
      unlocking event ends that, and no key event or combo change locks. */
  lemma {:induction false} LockedIff(s: Hook, ins: seq<Input>, n: nat)
    requires !s.locked && n <= |ins|
    ensures Before(s, ins, n).locked <==> exists i: nat :: SetAt(s, ins, i, n)
    decreases n
  {
    if n > 0 {
      var m := n - 1;
      LockedIff(s, ins, m);
      BeforeNext(s, ins, m);
      if ins[m] == StoreFlag(true) {
        assert SetAt(s, ins, m, n);
      } else if i: nat :| SetAt(s, ins, i, m) {
        assert !ins[m].StoreFlag? && !UnlocksAt(s, ins, m) ==> SetAt(s, ins, i, n);
      }
      if i: nat :| SetAt(s, ins, i, n) {
        assert i < m ==> SetAt(s, ins, i, m);
      }
    }
  }

  /** The key events among some inputs, without those the callback ignores. */
  function Keys(ins: seq<Input>): seq<KeyEvent> {
    if ins == [] then []
    else
      var n := |ins| - 1;
      Keys(ins[..n]) + if IsTracked(ins[n]) then [ins[n].e] else []
  }

  /** c is the position just after the last hook-side unlock before n. */
  ghost predicate ClearedAt(s: Hook, ins: seq<Input>, c: nat, n: nat)
    requires c <= n <= |ins|
  {
    && (c == 0 || UnlocksAt(s, ins, c - 1))
    && forall i :: c <= i < n ==> !UnlocksAt(s, ins, i)
  }

  lemma {:induction false} SinceIsWindow(s: Hook, ins: seq<Input>, n: nat) returns (c: nat)
    requires n <= |ins| && s.since == []
    ensures c <= n && ClearedAt(s, ins, c, n)
    ensures Before(s, ins, n).since == Keys(ins[c..n])
    decreases n
  {
    if n == 0 {
      c := 0;
    } else {
      BeforeNext(s, ins, n - 1);
      if UnlocksAt(s, ins, n - 1) {
        c := n;
      } else {
        c := SinceIsWindow(s, ins, n - 1);
        assert ins[c..n][..n - 1 - c] == ins[c..n - 1];
      }
    }
  }

  /** The n-th event is blocked iff its code is below 256, the flag is set and no unlock condition
      holds of the key events from the last hook-side unlock up to and including it; if one holds, the
      event unlocks. */
  lemma BlockedIff(s: Hook, ins: seq<Input>, n: nat) returns (c: nat)
    requires s.since == [] && n < |ins| && ins[n].Key?
    ensures c <= n && ClearedAt(s, ins, c, n)
    ensures var t := Before(s, ins, n);
            var met := UnlockCondition(Keys(ins[c..n + 1]), t.combo, ins[n].e.check);
            && (BlockedAt(s, ins, n) <==> ins[n].e.vk < KEY_COUNT && t.locked && !met)
            && (UnlocksAt(s, ins, n) <==> ins[n].e.vk < KEY_COUNT && t.locked && met)
  {
    c := SinceIsWindow(s, ins, n);
    assert ins[c..n + 1][..n - c] == ins[c..n];
    assert IsTracked(ins[n]) ==> Keys(ins[c..n + 1]) == Before(s, ins, n).since + [ins[n].e];
  }

  /** A key that went down at some input in [c, n] and did not come up after it. */
  ghost predicate HeldIn(ins: seq<Input>, c: nat, n: nat, k: int)
    requires n < |ins|
  {
    exists j :: c <= j <= n && HeldFrom(ins, j, n, k)
  }

  ghost predicate HeldFrom(ins: seq<Input>, j: int, n: nat, k: int)
    requires 0 <= j <= n < |ins|
  {
    IsKey(ins[j], k, Down) && forall i :: j < i <= n ==> !IsKey(ins[i], k, Up)
  }

  lemma HeldStep(ins: seq<Input>, c: nat, n: nat, k: int)
    requires c <= n < |ins|
    ensures HeldIn(ins, c, n, k) <==>
            if IsKey(ins[n], k, Down) then true
            else if IsKey(ins[n], k, Up) then false
            else c < n && HeldIn(ins, c, n - 1, k)
  {
    if IsKey(ins[n], k, Down) {
      assert HeldFrom(ins, n, n, k);
    } else if HeldIn(ins, c, n, k) {
      var j :| c <= j <= n && HeldFrom(ins, j, n, k);
      assert HeldFrom(ins, j, n - 1, k);
    } else if c < n && HeldIn(ins, c, n - 1, k) {
      var j :| c <= j <= n - 1 && HeldFrom(ins, j, n - 1, k);
      assert HeldFrom(ins, j, n, k) || IsKey(ins[n], k, Up);
    }
  }

  lemma {:induction false} PressedIsHeld(ins: seq<Input>, c: nat, n: nat, k: int)
    requires c <= n < |ins|
    ensures Pressed(Keys(ins[c..n + 1]), k) <==> HeldIn(ins, c, n, k)
    decreases n
  {
    var w := ins[c..n + 1];
    assert w[..n - c] == ins[c..n] && w[n - c] == ins[n];
    if IsTracked(ins[n]) {
      PressedAfter(Keys(ins[c..n]), ins[n].e, k);
    }
    HeldStep(ins, c, n, k);
    if c < n {
      PressedIsHeld(ins, c, n - 1, k);
      assert !IsTracked(ins[n]) ==> Keys(w) == Keys(ins[c..n]);
    } else {
      assert Keys(ins[c..n]) == [] && !Pressed([], k);
    }
  }

  ghost predicate AllHeld(ins: seq<Input>, c: nat, n: nat, keys: seq<int>)
    requires n < |ins|
  {
    forall k :: k in keys ==> HeldIn(ins, c, n, k)
  }

  lemma AllPressedIsAllHeld(ins: seq<Input>, c: nat, n: nat, keys: seq<int>)
    requires c <= n < |ins|
    ensures AllPressed(Keys(ins[c..n + 1]), keys) <==> AllHeld(ins, c, n, keys)
  {
    forall k | k in keys
      ensures Pressed(Keys(ins[c..n + 1]), k) <==> HeldIn(ins, c, n, k)
    {
      PressedIsHeld(ins, c, n, k);
    }
  }

  /** Some ESC press in the window is at least five seconds old and has not been released. */
  ghost predicate EscHeldIn(ins: seq<Input>, c: nat, n: nat, now: int)
    requires n < |ins|
  {
    exists j :: c <= j <= n && HeldFrom(ins, j, n, 0x1B) && now - ins[j].e.stamp >= 5000
  }

  lemma {:induction false} KeyIsInput(ins: seq<Input>, c: nat, n: nat, b: nat) returns (j: nat)
    requires c <= n < |ins| && b < |Keys(ins[c..n + 1])|
    requires PressedSince(Keys(ins[c..n + 1]), VK_ESCAPE, b)
    ensures c <= j <= n && HeldFrom(ins, j, n, VK_ESCAPE) && ins[j].e == Keys(ins[c..n + 1])[b]
    decreases n
  {
    var w := ins[c..n + 1];
    assert w[..n - c] == ins[c..n] && w[n - c] == ins[n];
    if IsTracked(ins[n]) && b == |Keys(w)| - 1 {
      j := n;
    } else {
      assert n != c;
      var h := Keys(ins[c..n]);
      assert forall i :: 0 <= i < |h| ==> Keys(w)[i] == h[i];
      assert IsTracked(ins[n]) ==> Keys(w)[|h|] == ins[n].e;
      j := KeyIsInput(ins, c, n - 1, b);
    }
  }

  lemma {:induction false} InputIsKey(ins: seq<Input>, c: nat, n: nat, j: nat) returns (b: nat)
    requires c <= j <= n < |ins| && HeldFrom(ins, j, n, VK_ESCAPE)
    ensures b < |Keys(ins[c..n + 1])| && Keys(ins[c..n + 1])[b] == ins[j].e
    ensures PressedSince(Keys(ins[c..n + 1]), VK_ESCAPE, b)
    decreases n
  {
    var w := ins[c..n + 1];
    assert w[..n - c] == ins[c..n] && w[n - c] == ins[n];
    var h := Keys(ins[c..n]);
    if j == n {
      b := |h|;
    } else {
      b := InputIsKey(ins, c, n - 1, j);
      assert forall i :: 0 <= i < |h| ==> Keys(w)[i] == h[i];
      assert IsTracked(ins[n]) ==> Keys(w)[|h|] == ins[n].e;
    }
  }

  /** A hold is at least as old as any unreleased press of it. */
  lemma OldPressIsHeld(h: seq<KeyEvent>, b: nat, now: int)
    requires Clocked(h) && b < |h| && PressedSince(h, VK_ESCAPE, b) && now - h[b].stamp >= ESC_HOLD_MS
    ensures EscHeld(h, now)
  {
    HoldExists(h, b);
    var first :| HoldBegins(h, first);
    assert Is(h[b], VK_ESCAPE, Down);
  }

  lemma {:induction false} KeysOfParts(a: seq<Input>, b: seq<Input>)
    ensures Keys(a + b) == Keys(a) + Keys(b)
  {
    if b == [] {
      assert a + b == a;
    } else {
      var n := |b| - 1;
      assert (a + b)[..|a| + n] == a + b[..n];
      KeysOfParts(a, b[..n]);
    }
  }

  lemma MiddleIsClocked(a: seq<KeyEvent>, h: seq<KeyEvent>, z: seq<KeyEvent>)
    requires Clocked(a + (h + z))
    ensures Clocked(h)
  {
    assert forall i :: 0 <= i < |h| ==> h[i] == (a + (h + z))[|a| + i];
  }

  lemma PartIsClocked(a: seq<Input>, w: seq<Input>, z: seq<Input>)
    requires Clocked(Keys(a + (w + z)))
    ensures Clocked(Keys(w))
  {
    KeysOfParts(a, w + z);
    KeysOfParts(w, z);
    MiddleIsClocked(Keys(a), Keys(w), Keys(z));
  }

  lemma Pieces(ins: seq<Input>, c: nat, n: nat) returns (a: seq<Input>, z: seq<Input>)
    requires c <= n <= |ins|
    ensures ins == a + (ins[c..n] + z)
  {
    a, z := ins[..c], ins[n..];
  }

  lemma WindowIsClocked(ins: seq<Input>, c: nat, n: nat)
    requires c <= n <= |ins| && Clocked(Keys(ins))
    ensures Clocked(Keys(ins[c..n]))
  {
    var a, z := Pieces(ins, c, n);
    PartIsClocked(a, ins[c..n], z);
  }

  lemma EscHeldWasPressed(ins: seq<Input>, c: nat, n: nat, now: int)
    requires c <= n < |ins| && EscHeld(Keys(ins[c..n + 1]), now)
    ensures EscHeldIn(ins, c, n, now)
  {
    var h := Keys(ins[c..n + 1]);
    var b :| HoldBegins(h, b) && now - h[b].stamp >= ESC_HOLD_MS;
    var j := KeyIsInput(ins, c, n, b);
  }

  lemma EscPressIsHeld(ins: seq<Input>, c: nat, n: nat, now: int)
    requires c <= n < |ins| && Clocked(Keys(ins)) && EscHeldIn(ins, c, n, now)
    ensures EscHeld(Keys(ins[c..n + 1]), now)
  {
    var j :| c <= j <= n && HeldFrom(ins, j, n, VK_ESCAPE) && now - ins[j].e.stamp >= ESC_HOLD_MS;
    var b := InputIsKey(ins, c, n, j);
    WindowIsClocked(ins, c, n + 1);
    OldPressIsHeld(Keys(ins[c..n + 1]), b, now);
  }

  lemma EscHeldIsHeldIn(ins: seq<Input>, c: nat, n: nat, now: int)
    requires c <= n < |ins|
    ensures EscHeld(Keys(ins[c..n + 1]), now) ==> EscHeldIn(ins, c, n, now)
    ensures Clocked(Keys(ins)) && EscHeldIn(ins, c, n, now) ==> EscHeld(Keys(ins[c..n + 1]), now)
  {
    if EscHeld(Keys(ins[c..n + 1]), now) {
      EscHeldWasPressed(ins, c, n, now);
    } else if Clocked(Keys(ins)) && EscHeldIn(ins, c, n, now) {
      EscPressIsHeld(ins, c, n, now);
    }
  }

  /** Read off the inputs, in key codes and milliseconds: Ctrl, Shift, Alt and F12 are all held through the
      n-th input since c, or the whole combo is, or ESC has been for five seconds. */
  ghost predicate Unlocking(ins: seq<Input>, c: nat, n: nat, combo: seq<int>)
    requires n < |ins| && ins[n].Key?
  {
    || AllHeld(ins, c, n, [0x11, 0x10, 0x12, 0x7B])
    || (|combo| >= 2 && AllHeld(ins, c, n, combo))
    || EscHeldIn(ins, c, n, ins[n].e.check)
  }

  lemma ConditionIsHolding(ins: seq<Input>, c: nat, n: nat, combo: seq<int>)
    requires c <= n < |ins| && ins[n].Key?
    ensures UnlockCondition(Keys(ins[c..n + 1]), combo, ins[n].e.check) ==> Unlocking(ins, c, n, combo)
    ensures Unlocking(ins, c, n, combo) && Clocked(Keys(ins))
            ==> UnlockCondition(Keys(ins[c..n + 1]), combo, ins[n].e.check)
    ensures AllHeld(ins, c, n, EMERGENCY) || (|combo| >= 2 && AllHeld(ins, c, n, combo))
            ==> UnlockCondition(Keys(ins[c..n + 1]), combo, ins[n].e.check)
  {
    AllPressedIsAllHeld(ins, c, n, EMERGENCY);
    AllPressedIsAllHeld(ins, c, n, combo);
    EscHeldIsHeldIn(ins, c, n, ins[n].e.check);
  }

  /** Every hook-side unlock is justified by key-downs that all happened after the previous hook-side
      unlock, with no key-up of that key in between. */
  lemma UnlockIsJustified(s: Hook, ins: seq<Input>, n: nat) returns (c: nat)
    requires s.since == [] && n < |ins| && UnlocksAt(s, ins, n)
    ensures c <= n && ClearedAt(s, ins, c, n) && Unlocking(ins, c, n, Before(s, ins, n).combo)
  {
    c := BlockedIff(s, ins, n);
    ConditionIsHolding(ins, c, n, Before(s, ins, n).combo);
  }

  /** Over every run whose clock does not go back, an event with a code below 256 that reaches a locked
      keyboard unlocks it exactly when, since the last hook-side unlock, the emergency keys, the combo
      or ESC have been held as required; otherwise it is blocked. */
  lemma UnlocksIff(s: Hook, ins: seq<Input>, n: nat, c: nat)
    requires s.since == [] && n < |ins| && ins[n].Key? && Clocked(Keys(ins))
    requires c <= n && ClearedAt(s, ins, c, n)
    ensures var t := Before(s, ins, n);
            var met := Unlocking(ins, c, n, t.combo);
            && (UnlocksAt(s, ins, n) <==> ins[n].e.vk < KEY_COUNT && t.locked && met)
            && (BlockedAt(s, ins, n) <==> ins[n].e.vk < KEY_COUNT && t.locked && !met)
  {
    var d := BlockedIff(s, ins, n);
    ClearPointIsUnique(s, ins, n, c, d);
    ConditionIsHolding(ins, c, n, Before(s, ins, n).combo);
  }

  /** Whatever the clocks, holding the emergency keys, or every key of the combo, through an event of a
      locked keyboard unlocks at that event. */
  lemma HoldingUnlocks(s: Hook, ins: seq<Input>, n: nat, c: nat)
    requires s.since == [] && n < |ins| && IsTracked(ins[n])
    requires c <= n && ClearedAt(s, ins, c, n)
    requires Before(s, ins, n).locked
    requires var combo := Before(s, ins, n).combo;
             AllHeld(ins, c, n, EMERGENCY) || (|combo| >= 2 && AllHeld(ins, c, n, combo))
    ensures UnlocksAt(s, ins, n) && !BlockedAt(s, ins, n)
    ensures !Before(s, ins, n + 1).locked && Before(s, ins, n + 1).since == []
  {
    var d := BlockedIff(s, ins, n);
    ClearPointIsUnique(s, ins, n, c, d);
    ConditionIsHolding(ins, c, n, Before(s, ins, n).combo);
    BeforeNext(s, ins, n);
  }

  lemma ClearPointIsUnique(s: Hook, ins: seq<Input>, n: nat, c: nat, d: nat)
    requires n <= |ins| && c <= n && d <= n && ClearedAt(s, ins, c, n) && ClearedAt(s, ins, d, n)
    ensures c == d
  {
  }
}

/** The combo table as the two threads share it: the pipe thread's SetUnlockCombo writes one slot at a
    time and the count last, and the hook may read between any two of those writes. */
module ComboTable {
  import opened KeyHistory
  import opened KeyHook

  datatype Write = WriteSlot(i: nat, code: int) | WriteCount(n: int)

  datatype Table = Table(slots: seq<int>, count: int)

  /** Any slot below the count the hook reads indexes the 256-entry bitmap in bounds. */
  predicate InBounds(t: Table) {
    && |t.slots| == MAX_COMBO_KEYS
    && ValidCount(t.count)
    && forall i :: 0 <= i < MAX_COMBO_KEYS ==> ValidCode(t.slots[i])
  }

  /** What the hook enforces when it reads the table: the slots below the count. */
  function Enforced(t: Table): seq<int>
    requires t.count <= |t.slots|
  {
    if t.count < 0 then [] else t.slots[..t.count]
  }

  /** The writes SetUnlockCombo makes from its i-th code on. */
  function WritesFrom(codes: seq<int>, i: nat): seq<Write>
    requires i <= |codes|
    decreases |codes| - i
  {
    if i == |codes| then [WriteCount(|codes|)]
    else if !ValidCode(codes[i]) then []
    else [WriteSlot(i, codes[i])] + WritesFrom(codes, i + 1)
  }

  function Writes(codes: seq<int>): seq<Write> {
    if |codes| < 2 || |codes| > MAX_COMBO_KEYS then [] else WritesFrom(codes, 0)
  }

  /** The writes of the first c calls. */
  function WritesOf(calls: seq<seq<int>>, c: nat): seq<Write>
    requires c <= |calls|
  {
    if c == 0 then [] else WritesOf(calls, c - 1) + Writes(calls[c - 1])
  }

  function Put(t: Table, w: Write): Table {
    match w
    case WriteSlot(i, code) => if i < |t.slots| then t.(slots := t.slots[i := code]) else t
    case WriteCount(n) => t.(count := n)
  }

  /** The table after the first n of some writes. */
  function After(t: Table, ws: seq<Write>, n: nat): Table
    requires n <= |ws|
  {
    if n == 0 then t else Put(After(t, ws, n - 1), ws[n - 1])
  }

  function AfterAll(t: Table, ws: seq<Write>): Table {
    After(t, ws, |ws|)
  }

  lemma {:induction false} AfterFront(t: Table, a: seq<Write>, b: seq<Write>, n: nat)
    requires n <= |a|
    ensures After(t, a + b, n) == After(t, a, n)
  {
    if n > 0 {
      AfterFront(t, a, b, n - 1);
    }
  }

  lemma {:induction false} AfterBack(t: Table, a: seq<Write>, b: seq<Write>, n: nat)
    requires n <= |b|
    ensures After(t, a + b, |a| + n) == After(AfterAll(t, a), b, n)
    decreases n
  {
    if n == 0 {
      AfterFront(t, a, b, |a|);
    } else {
      AfterBack(t, a, b, n - 1);
      assert (a + b)[|a| + n - 1] == b[n - 1];
    }
  }

  lemma AfterBoth(t: Table, a: seq<Write>, b: seq<Write>)
    ensures AfterAll(t, a + b) == AfterAll(AfterAll(t, a), b)
  {
    AfterBack(t, a, b, |b|);
  }

  /** The writes of a call, one by one. */
  lemma {:induction false} WriteAt(codes: seq<int>, i: nat, j: nat)
    requires i <= |codes| && j < |WritesFrom(codes, i)|
    ensures i + j <= |codes|
    ensures WritesFrom(codes, i)[j] == if i + j < |codes| then WriteSlot(i + j, codes[i + j]) else WriteCount(|codes|)
    decreases |codes| - i
  {
    if j > 0 {
      WriteAt(codes, i + 1, j - 1);
    }
  }

  /** They get past slot j exactly if every code up to the j-th is in range. */
  lemma {:induction false} WritesFromReach(codes: seq<int>, i: nat, j: nat)
    requires i <= j <= |codes|
    ensures |WritesFrom(codes, i)| > j - i <==> forall m :: i <= m <= j && m < |codes| ==> ValidCode(codes[m])
    decreases j - i
  {
    if i < j && ValidCode(codes[i]) {
      WritesFromReach(codes, i + 1, j);
    }
  }

  lemma WritesReach(codes: seq<int>, j: nat)
    requires j < |codes|
    ensures |Writes(codes)| > j <==> Written(codes, j)
    ensures |Writes(codes)| > |codes| <==> Written(codes, |codes| - 1)
  {
    if 2 <= |codes| <= MAX_COMBO_KEYS {
      WritesFromReach(codes, 0, j);
      WritesFromReach(codes, 0, |codes|);
    }
  }

  /** The table u that j single writes of a call make of t: the new codes up to the j-th, then the old
      slots; the old count until the last write. */
  predicate Torn(t: Table, codes: seq<int>, j: nat, u: Table) {
    && |t.slots| == MAX_COMBO_KEYS && |u.slots| == MAX_COMBO_KEYS
    && u.count == (if j == |codes| + 1 then |codes| else t.count)
    && forall i :: 0 <= i < MAX_COMBO_KEYS ==>
         u.slots[i] == if i < j && i < |codes| then codes[i] else t.slots[i]
  }

  lemma TornOneMore(t: Table, codes: seq<int>, j: nat, u: Table)
    requires Torn(t, codes, j, u) && 2 <= |codes| <= MAX_COMBO_KEYS && j <= |codes|
    ensures Torn(t, codes, j + 1, Put(u, if j < |codes| then WriteSlot(j, codes[j]) else WriteCount(|codes|)))
  {
  }

  lemma {:induction false} TornWrites(t: Table, codes: seq<int>, j: nat)
    requires |t.slots| == MAX_COMBO_KEYS && j <= |Writes(codes)|
    ensures j <= |codes| + 1 && Torn(t, codes, j, After(t, Writes(codes), j))
  {
    if j > 0 {
      TornWrites(t, codes, j - 1);
      WriteAt(codes, 0, j - 1);
      TornOneMore(t, codes, j - 1, After(t, Writes(codes), j - 1));
    }
  }

  lemma WritesAreValid(codes: seq<int>, j: nat)
    requires j <= |Writes(codes)|
    ensures forall i :: 0 <= i < j && i < |codes| ==> ValidCode(codes[i])
    ensures j == |codes| + 1 ==> ValidCount(|codes|)
  {
    forall i | 0 <= i < j && i < |codes|
      ensures ValidCode(codes[i])
    {
      WritesReach(codes, i);
      assert Written(codes, i);
    }
  }

  lemma TornIsInBounds(t: Table, codes: seq<int>, j: nat)
    requires InBounds(t) && j <= |Writes(codes)|
    ensures InBounds(After(t, Writes(codes), j))
  {
    TornWrites(t, codes, j);
    WritesAreValid(codes, j);
  }

  /** Carried out to the end, the writes are what SetUnlockCombo promises: slot by slot, and the count
      only if every code passed. */
  lemma WritesInstall(t: Table, codes: seq<int>)
    requires InBounds(t)
    ensures var u := AfterAll(t, Writes(codes));
            && InBounds(u)
            && (u.count == if |codes| > 0 && Written(codes, |codes| - 1) then |codes| else t.count)
            && forall i :: 0 <= i < MAX_COMBO_KEYS ==>
                 u.slots[i] == if Written(codes, i) then codes[i] else t.slots[i]
  {
    var ws := Writes(codes);
    TornWrites(t, codes, |ws|);
    TornIsInBounds(t, codes, |ws|);
    forall i | 0 <= i < |codes|
      ensures i < |ws| <==> Written(codes, i)
      ensures |ws| == |codes| + 1 <==> Written(codes, |codes| - 1)
    {
      WritesReach(codes, i);
    }
  }

  lemma {:induction false} CallsStayInBounds(t: Table, calls: seq<seq<int>>, c: nat) returns (u: Table)
    requires InBounds(t) && c <= |calls|
    ensures u == AfterAll(t, WritesOf(calls, c)) && InBounds(u)
  {
    u := t;
    if c > 0 {
      var last := Writes(calls[c - 1]);
      u := CallsStayInBounds(t, calls, c - 1);
      AfterBoth(t, WritesOf(calls, c - 1), last);
      TornIsInBounds(u, calls[c - 1], |last|);
      u := AfterAll(u, last);
    }
  }

  /** The first j of the new codes, as far as the old combo goes, and then the rest of the old combo. */
  function Mixed(codes: seq<int>, combo: seq<int>, j: nat): seq<int>
    requires j <= |codes|
  {
    if j <= |combo| then codes[..j] + combo[j..] else codes[..|combo|]
  }

  lemma TornEnforces(t: Table, codes: seq<int>, j: nat, u: Table)
    requires InBounds(t) && InBounds(u) && Torn(t, codes, j, u) && j <= |codes| + 1
    ensures Enforced(u) == if j == |codes| + 1 then codes else Mixed(codes, Enforced(t), j)
  {
  }

  /** The n-th single write of a series of m calls is the j-th of call c. */
  lemma {:induction false} WhichCall(t: Table, calls: seq<seq<int>>, m: nat, n: nat) returns (c: nat, j: nat)
    requires 0 < m <= |calls| && n <= |WritesOf(calls, m)|
    ensures c < m && j <= |Writes(calls[c])| && n == |WritesOf(calls, c)| + j
    ensures After(t, WritesOf(calls, m), n) == After(AfterAll(t, WritesOf(calls, c)), Writes(calls[c]), j)
    decreases m
  {
    var front, last := WritesOf(calls, m - 1), Writes(calls[m - 1]);
    if m > 1 && n <= |front| {
      c, j := WhichCall(t, calls, m - 1, n);
      AfterFront(t, front, last, n);
    } else {
      c, j := m - 1, n - |front|;
      AfterBack(t, front, last, j);
    }
  }

  /** After any number n of the single writes of any series of SetUnlockCombo calls, failing ones
      included, the count is 0 or 2..8 and every slot is in 0..255. */
  lemma TornTableStaysInBounds(t: Table, calls: seq<seq<int>>, n: nat)
    requires InBounds(t) && n <= |WritesOf(calls, |calls|)|
    ensures InBounds(After(t, WritesOf(calls, |calls|), n))
  {
    if calls != [] {
      var c, j := WhichCall(t, calls, |calls|, n);
      var before := CallsStayInBounds(t, calls, c);
      TornIsInBounds(before, calls[c], j);
    }
  }

  /** What the hook enforces then: j writes into call c, that call's combo if these are all its writes,
      and otherwise a combo as long as the one before the call, whose first j keys are new. */
  lemma TornTableEnforces(t: Table, calls: seq<seq<int>>, n: nat) returns (c: nat, j: nat)
    requires InBounds(t) && calls != [] && n <= |WritesOf(calls, |calls|)|
    ensures c < |calls| && j <= |calls[c]| + 1 && n == |WritesOf(calls, c)| + j
    ensures InBounds(AfterAll(t, WritesOf(calls, c))) && InBounds(After(t, WritesOf(calls, |calls|), n))
    ensures var before, now := AfterAll(t, WritesOf(calls, c)), After(t, WritesOf(calls, |calls|), n);
            && Torn(before, calls[c], j, now)
            && Enforced(now) == if j == |calls[c]| + 1 then calls[c] else Mixed(calls[c], Enforced(before), j)
  {
    c, j := WhichCall(t, calls, |calls|, n);
    var before := CallsStayInBounds(t, calls, c);
    TornTableStaysInBounds(t, calls, n);
    TornWrites(before, calls[c], j);
    TornEnforces(before, calls[c], j, After(t, WritesOf(calls, |calls|), n));
  }
}
