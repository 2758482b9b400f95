/** What the hook's decision means, stated over the key events seen since the last clear.

    Nothing here mentions the bitmap or the ESC timestamp: these predicates are the reference the
    hook's mutable state is proved against. */
module KeyHistory {

  const KEY_COUNT := 256
  const MAX_COMBO_KEYS := 8
  const ESC_HOLD_MS := 5000

  const VK_SHIFT := 0x10
  const VK_CONTROL := 0x11
  const VK_MENU := 0x12
  const VK_ESCAPE := 0x1B
  const VK_F12 := 0x7B

  const EMERGENCY: seq<nat> := [VK_CONTROL, VK_SHIFT, VK_MENU, VK_F12]

  datatype Motion = Down | Up | Other

  /** One delivered key event.  The callback may read the clock twice: once to stamp an ESC press
      (`stamp`) and once to measure the hold (`check`). */
  datatype KeyEvent = KeyEvent(vk: nat, motion: Motion, stamp: nat, check: nat)

  predicate Is(e: KeyEvent, k: int, m: Motion) {
    e.vk == k && e.motion == m
  }

  /** Key k went down and has not come up since. */
  ghost predicate Pressed(h: seq<KeyEvent>, k: int) {
    exists j :: 0 <= j < |h| && PressedSince(h, k, j)
  }

  ghost predicate PressedSince(h: seq<KeyEvent>, k: int, j: int)
    requires 0 <= j < |h|
  {
    Is(h[j], k, Down) && forall i :: j < i < |h| ==> !Is(h[i], k, Up)
  }

  /** h[j] is the press that began the current hold of ESC: no release follows it, and every earlier
      press was released before it. */
  ghost predicate HoldBegins(h: seq<KeyEvent>, j: int) {
    && 0 <= j < |h|
    && PressedSince(h, VK_ESCAPE, j)
    && forall i :: 0 <= i < j && Is(h[i], VK_ESCAPE, Down) ==> ReleasedBetween(h, i, j)
  }

  ghost predicate ReleasedBetween(h: seq<KeyEvent>, i: int, j: int)
    requires 0 <= i < j < |h|
  {
    exists r :: i < r < j && Is(h[r], VK_ESCAPE, Up)
  }

  /** ESC has been held without release for at least five seconds at clock `now`. */
  ghost predicate EscHeld(h: seq<KeyEvent>, now: int) {
    exists j :: HoldBegins(h, j) && now - h[j].stamp >= ESC_HOLD_MS
  }

  ghost predicate AllPressed(h: seq<KeyEvent>, keys: seq<int>) {
    forall k :: k in keys ==> Pressed(h, k)
  }

  ghost predicate ComboPressed(h: seq<KeyEvent>, combo: seq<int>) {
    |combo| >= 2 && AllPressed(h, combo)
  }

  ghost predicate UnlockCondition(h: seq<KeyEvent>, combo: seq<int>, now: int) {
    AllPressed(h, EMERGENCY) || ComboPressed(h, combo) || EscHeld(h, now)
  }

  /** The clock of the press that began the current ESC hold, 0 if ESC is up. */
  ghost function EscSince(h: seq<KeyEvent>): nat {
    if j :| HoldBegins(h, j) then h[j].stamp else 0
  }

  /** Clocks in a history are positive and do not go back. */
  ghost predicate Clocked(h: seq<KeyEvent>) {
    && (forall i :: 0 <= i < |h| ==> 0 < h[i].stamp <= h[i].check)
    && (forall i, j :: 0 <= i < j < |h| ==> h[i].check <= h[j].stamp)
  }

  // ----- one event more -----

  lemma PressedAfter(h: seq<KeyEvent>, e: KeyEvent, k: int)
    ensures Pressed(h + [e], k) <==>
            if Is(e, k, Down) then true else if Is(e, k, Up) then false else Pressed(h, k)
  {
    var g := h + [e];
    if Is(e, k, Down) {
      assert PressedSince(g, k, |h|);
    } else if Is(e, k, Up) {
      assert Is(g[|h|], k, Up);
    } else if Pressed(h, k) {
      var j :| 0 <= j < |h| && PressedSince(h, k, j);
      assert PressedSince(g, k, j);
    } else if Pressed(g, k) {
      var j :| 0 <= j < |g| && PressedSince(g, k, j);
      assert forall i :: j < i < |h| ==> g[i] == h[i];
      assert PressedSince(h, k, j);
    }
  }

  lemma HoldIsUnique(h: seq<KeyEvent>, i: int, j: int)
    requires HoldBegins(h, i) && HoldBegins(h, j)
    ensures i == j
  {
  }

  /** The press that began a hold is the earliest one with no release after it. */
  lemma {:induction false} HoldExists(h: seq<KeyEvent>, j: int)
    requires 0 <= j < |h| && PressedSince(h, VK_ESCAPE, j)
    ensures exists b :: HoldBegins(h, b)
    decreases j
  {
    if i :| 0 <= i < j && Is(h[i], VK_ESCAPE, Down) && !ReleasedBetween(h, i, j) {
      assert PressedSince(h, VK_ESCAPE, i);
      HoldExists(h, i);
    } else {
      assert HoldBegins(h, j);
    }
  }

  /** The ESC clock is nonzero exactly while ESC is down, and is then the clock of the press that
      began the hold. */
  lemma EscSinceMeaning(h: seq<KeyEvent>)
    requires Clocked(h)
    ensures EscSince(h) != 0 <==> Pressed(h, VK_ESCAPE)
    ensures forall j :: HoldBegins(h, j) ==> EscSince(h) == h[j].stamp
  {
    if Pressed(h, VK_ESCAPE) {
      var j :| 0 <= j < |h| && PressedSince(h, VK_ESCAPE, j);
      HoldExists(h, j);
    }
    forall j | HoldBegins(h, j)
      ensures EscSince(h) == h[j].stamp
    {
      var b :| HoldBegins(h, b) && EscSince(h) == h[b].stamp;
      HoldIsUnique(h, b, j);
    }
  }

  lemma HoldAfter(h: seq<KeyEvent>, e: KeyEvent, j: int)
    requires !Is(e, VK_ESCAPE, Up)
    ensures HoldBegins(h + [e], j) && j < |h| <==> HoldBegins(h, j)
  {
    var g := h + [e];
    if 0 <= j < |h| {
      assert PressedSince(g, VK_ESCAPE, j) <==> PressedSince(h, VK_ESCAPE, j) by {
        assert forall i :: j < i < |h| ==> g[i] == h[i];
      }
      forall i | 0 <= i < j
        ensures ReleasedBetween(g, i, j) <==> ReleasedBetween(h, i, j)
      {
        if ReleasedBetween(h, i, j) {
          var r :| i < r < j && Is(h[r], VK_ESCAPE, Up);
          assert Is(g[r], VK_ESCAPE, Up);
        }
      }
    }
  }

  /** Auto-repeat never moves the ESC clock: a further press leaves it, only a release clears it. */
  lemma EscSinceAfter(h: seq<KeyEvent>, e: KeyEvent)
    requires Clocked(h + [e])
    ensures EscSince(h + [e]) ==
            if Is(e, VK_ESCAPE, Up) then 0
            else if Is(e, VK_ESCAPE, Down) && EscSince(h) == 0 then e.stamp
            else EscSince(h)
  {
    var g := h + [e];
    ClockedPrefix(h, e);
    EscSinceMeaning(h);
    EscSinceMeaning(g);
    PressedAfter(h, e, VK_ESCAPE);
    if !Is(e, VK_ESCAPE, Up) && Pressed(g, VK_ESCAPE) {
      if Pressed(h, VK_ESCAPE) {
        var b :| HoldBegins(h, b);
        HoldAfter(h, e, b);
        assert g[b] == h[b];
      } else {
        var j :| 0 <= j < |g| && PressedSince(g, VK_ESCAPE, j);
        HoldExists(g, j);
        var b :| HoldBegins(g, b);
        HoldAfter(h, e, b);
      }
    }
  }

  lemma ClockedPrefix(h: seq<KeyEvent>, e: KeyEvent)
    requires Clocked(h + [e])
    ensures Clocked(h)
  {
    var g := h + [e];
    assert forall i :: 0 <= i < |h| ==> g[i] == h[i];
  }

  /** The elapsed-time test on the ESC clock is exactly the five-second hold, auto-repeats or not. */
  lemma EscHeldMeaning(h: seq<KeyEvent>, now: int)
    requires Clocked(h)
    ensures EscHeld(h, now) <==> EscSince(h) != 0 && now - EscSince(h) >= ESC_HOLD_MS
  {
  }

  /** The current hold began before the latest clock read. */
  lemma HoldIsPast(h: seq<KeyEvent>)
    requires Clocked(h) && h != []
    ensures EscSince(h) <= h[|h| - 1].check
  {
  }

  lemma NothingPressed(k: int)
    ensures !Pressed([], k) && EscSince([]) == 0
  {
  }
}
