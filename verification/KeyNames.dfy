/** Key names in the configuration: the code table, the unlock combo, the hotkey and validation.

    The name normaliser (upper-casing and trimming, library functions of the source) is a parameter
    everywhere, so every result holds for any normaliser. */
module KeyNames {
  import opened Prelude
  import opened KeyHistory
  import ComboWire

  // ----- tables -----

  function FunctionKey(name: string): Option<nat> {
    if name == "F1" then Some(0x70) else if name == "F2" then Some(0x71)
    else if name == "F3" then Some(0x72) else if name == "F4" then Some(0x73)
    else if name == "F5" then Some(0x74) else if name == "F6" then Some(0x75)
    else if name == "F7" then Some(0x76) else if name == "F8" then Some(0x77)
    else if name == "F9" then Some(0x78) else if name == "F10" then Some(0x79)
    else if name == "F11" then Some(0x7A) else if name == "F12" then Some(0x7B)
    else None
  }

  function ModifierCode(name: string): Option<nat> {
    if name == "CTRL" || name == "LCTRL" then Some(0xA2)
    else if name == "RCTRL" then Some(0xA3)
    else if name == "ALT" || name == "LALT" then Some(0xA4)
    else if name == "RALT" then Some(0xA5)
    else if name == "SHIFT" || name == "LSHIFT" then Some(0xA0)
    else if name == "RSHIFT" then Some(0xA1)
    else None
  }

  function SpecialKey(name: string): Option<nat> {
    if name == "ESC" || name == "ESCAPE" then Some(0x1B)
    else if name == "TAB" then Some(0x09)
    else if name == "SPACE" then Some(0x20)
    else if name == "ENTER" then Some(0x0D)
    else if name == "DELETE" then Some(0x2E)
    else if name == "BACKSPACE" then Some(0x08)
    else None
  }

  /** The virtual-key code of an upper-case key name.  Letters are their own codes. */
  function VkCode(name: string): (r: Option<nat>)
    ensures r.Some? ==> r.value < KEY_COUNT
  {
    if |name| == 1 && 'A' <= name[0] <= 'Z' then Some(name[0] as nat)
    else if FunctionKey(name).Some? then FunctionKey(name)
    else if ModifierCode(name).Some? then ModifierCode(name)
    else SpecialKey(name)
  }

  /** Letters are their own codes. */
  lemma LetterCodes(c: char)
    requires 'A' <= c <= 'Z'
    ensures VkCode([c]) == Some(c as nat)
  {
  }

  /** The function keys count up from 0x70. */
  lemma FunctionKeyCodes(n: nat)
    requires 1 <= n <= 12
    ensures VkCode("F" + ComboWire.Decimal(n)) == Some(0x6F + n)
  {
    var name := "F" + ComboWire.Decimal(n);
    if n < 10 {
      assert |name| == 2 && name[0] == 'F' && name[1] == ('0' as int + n) as char;
    } else if n == 10 {
      assert name == "F10";
    } else if n == 11 {
      assert name == "F11";
    } else {
      assert name == "F12";
    }
  }

  /** Five keys have their ASCII codes. */
  lemma AsciiCodes()
    ensures VkCode("BACKSPACE") == Some(8) && VkCode("TAB") == Some('\t' as nat) && VkCode("ENTER") == Some('\r' as nat)
  {
  }

  lemma MoreAsciiCodes()
    ensures VkCode("ESC") == Some(27) && VkCode("ESCAPE") == Some(27) && VkCode("SPACE") == Some(' ' as nat)
    ensures VkCode("DELETE") == Some(0x2E)
  {
  }

  /** The modifiers come in left and right pairs; the plain name is the left one. */
  lemma ShiftCodes()
    ensures VkCode("SHIFT") == Some(0xA0) && VkCode("LSHIFT") == Some(0xA0) && VkCode("RSHIFT") == Some(0xA1)
  {
  }

  lemma CtrlCodes()
    ensures VkCode("CTRL") == Some(0xA2) && VkCode("LCTRL") == Some(0xA2) && VkCode("RCTRL") == Some(0xA3)
  {
  }

  lemma AltCodes()
    ensures VkCode("ALT") == Some(0xA4) && VkCode("LALT") == Some(0xA4) && VkCode("RALT") == Some(0xA5)
  {
  }

  /** And there are no other names. */
  lemma KnownNames(name: string)
    requires VkCode(name).Some?
    ensures || (|name| == 1 && 'A' <= name[0] <= 'Z')
            || name in {"F1", "F2", "F3", "F4", "F5", "F6", "F7", "F8", "F9", "F10", "F11", "F12"}
            || name in {"CTRL", "LCTRL", "RCTRL", "ALT", "LALT", "RALT", "SHIFT", "LSHIFT", "RSHIFT"}
            || name in {"ESC", "ESCAPE", "TAB", "SPACE", "ENTER", "DELETE", "BACKSPACE"}
  {
  }

  const MOD_ALT: bv32 := 1
  const MOD_CONTROL: bv32 := 2
  const MOD_SHIFT: bv32 := 4

  /** The RegisterHotKey flag of a modifier name. */
  function ModifierFlag(name: string): Option<bv32> {
    if name == "CTRL" || name == "LCTRL" || name == "RCTRL" then Some(MOD_CONTROL)
    else if name == "ALT" || name == "LALT" || name == "RALT" then Some(MOD_ALT)
    else if name == "SHIFT" || name == "LSHIFT" || name == "RSHIFT" then Some(MOD_SHIFT)
    else None
  }

  predicate IsModifier(name: string) {
    ModifierFlag(name).Some?
  }

  /** The two tables agree on modifiers: a name has a hotkey flag exactly when its code is one of the
      six modifier codes, and then flag and code name the same modifier. */
  lemma TablesAgreeOnModifiers(name: string)
    ensures ModifierFlag(name) == Some(MOD_SHIFT) <==> VkCode(name) == Some(0xA0) || VkCode(name) == Some(0xA1)
    ensures ModifierFlag(name) == Some(MOD_CONTROL) <==> VkCode(name) == Some(0xA2) || VkCode(name) == Some(0xA3)
    ensures ModifierFlag(name) == Some(MOD_ALT) <==> VkCode(name) == Some(0xA4) || VkCode(name) == Some(0xA5)
    ensures IsModifier(name) <==> VkCode(name).Some? && 0xA0 <= VkCode(name).value <= 0xA5
  {
  }

  // ----- the unlock combo -----

  datatype KeyError =
    | UnknownKey(name: string)
    | NonModifierCount(count: nat)
    | TooFewKeys
    | IdleTooShort

  /** The names all have codes, and these are they. */
  ghost predicate AreCodes(normalize: string -> string, names: seq<string>, codes: seq<nat>) {
    && |codes| == |names|
    && forall i :: 0 <= i < |names| ==> VkCode(normalize(names[i])) == Some(codes[i])
  }

  /** Name i is the first one without a code. */
  ghost predicate FirstUnknown(normalize: string -> string, names: seq<string>, i: nat) {
    && i < |names| && VkCode(normalize(names[i])).None?
    && forall j :: 0 <= j < i ==> VkCode(normalize(names[j])).Some?
  }

  method ComboToVKCodes(normalize: string -> string, names: seq<string>) returns (r: Result<seq<nat>, KeyError>)
    ensures r.Ok? ==> AreCodes(normalize, names, r.value)
    ensures r.Err? ==> exists i: nat :: FirstUnknown(normalize, names, i) && r.error == UnknownKey(names[i])
  {
    var codes: seq<nat> := [];
    for i := 0 to |names|
      invariant AreCodes(normalize, names[..i], codes)
    {
      var vk := VkCode(normalize(names[i]));
      if vk.None? {
        assert forall j :: 0 <= j < i ==> names[..i][j] == names[j];
        assert FirstUnknown(normalize, names, i);
        return Err(UnknownKey(names[i]));
      }
      codes := codes + [vk.value];
    }
    assert names[..|names|] == names;
    return Ok(codes);
  }

  lemma UnknownHasNoCodes(normalize: string -> string, names: seq<string>)
    requires exists i: nat :: FirstUnknown(normalize, names, i)
    ensures !exists codes :: AreCodes(normalize, names, codes)
  {
  }

  // ----- the hotkey -----

  function Normalized(normalize: string -> string, names: seq<string>): seq<string> {
    seq(|names|, i requires 0 <= i < |names| => normalize(names[i]))
  }

  function Modifiers(names: seq<string>): bv32 {
    if names == [] then 0
    else
      var n := |names| - 1;
      match ModifierFlag(names[n])
      case Some(flag) => Modifiers(names[..n]) | flag
      case None => Modifiers(names[..n])
  }

  /** The names that p does not hold of. */
  function Without(names: seq<string>, p: string -> bool): seq<string> {
    if names == [] then []
    else
      var n := |names| - 1;
      Without(names[..n], p) + if p(names[n]) then [] else [names[n]]
  }

  function NonModifiers(names: seq<string>): seq<string> {
    Without(names, IsModifier)
  }

  /** What SplitHotkeyCombo returns for normalised names. */
  function Split(names: seq<string>): Result<(bv32, nat), KeyError> {
    var keys := NonModifiers(names);
    if |keys| != 1 then Err(NonModifierCount(|keys|))
    else
      match VkCode(keys[0])
      case None => Err(UnknownKey(keys[0]))
      case Some(vk) => Ok((Modifiers(names), vk))
  }

  lemma OneMoreName(names: seq<string>, i: nat)
    requires i < |names|
    ensures var flag := ModifierFlag(names[i]);
            && Modifiers(names[..i + 1]) == (if flag.Some? then Modifiers(names[..i]) | flag.value
                                             else Modifiers(names[..i]))
            && NonModifiers(names[..i + 1]) == NonModifiers(names[..i]) + (if flag.Some? then [] else [names[i]])
  {
    assert names[..i + 1][..i] == names[..i];
  }

  method SplitHotkeyCombo(normalize: string -> string, names: seq<string>) returns (r: Result<(bv32, nat), KeyError>)
    ensures r == Split(Normalized(normalize, names))
  {
    ghost var all := Normalized(normalize, names);
    var modifiers: bv32 := 0;
    var nonMod: seq<string> := [];
    for i := 0 to |names|
      invariant modifiers == Modifiers(all[..i]) && nonMod == NonModifiers(all[..i])
    {
      OneMoreName(all, i);
      var upper := normalize(names[i]);
      var flag := ModifierFlag(upper);
      if flag.Some? {
        modifiers := modifiers | flag.value;
      } else {
        nonMod := nonMod + [upper];
      }
    }
    assert all[..|names|] == all;
    if |nonMod| != 1 {
      return Err(NonModifierCount(|nonMod|));
    }
    var code := VkCode(nonMod[0]);
    if code.None? {
      return Err(UnknownKey(nonMod[0]));
    }
    return Ok((modifiers, code.value));
  }

  // ----- what the split means -----

  predicate Names(names: seq<string>, flag: bv32) {
    exists name :: name in names && ModifierFlag(name) == Some(flag)
  }

  /** The mask with exactly the flags of the modifiers named. */
  function MaskOf(names: seq<string>): bv32 {
    (if Names(names, MOD_ALT) then MOD_ALT else 0)
    | (if Names(names, MOD_CONTROL) then MOD_CONTROL else 0)
    | (if Names(names, MOD_SHIFT) then MOD_SHIFT else 0)
  }

  lemma NamesSnoc(names: seq<string>, flag: bv32)
    requires names != []
    ensures var n := |names| - 1;
            Names(names, flag) <==> Names(names[..n], flag) || ModifierFlag(names[n]) == Some(flag)
  {
  }

  /** The accumulated flags depend only on which modifiers are named. */
  lemma {:induction false} ModifiersAreMask(names: seq<string>)
    ensures Modifiers(names) == MaskOf(names)
  {
    if names != [] {
      ModifiersAreMask(names[..|names| - 1]);
      NamesSnoc(names, MOD_ALT);
      NamesSnoc(names, MOD_CONTROL);
      NamesSnoc(names, MOD_SHIFT);
    }
  }

  function CountOf(names: seq<string>, name: string): nat {
    if names == [] then 0
    else
      var n := |names| - 1;
      CountOf(names[..n], name) + if names[n] == name then 1 else 0
  }

  lemma {:induction false} CountIsMultiplicity(names: seq<string>, name: string)
    ensures CountOf(names, name) == multiset(names)[name]
  {
    if names != [] {
      var n := |names| - 1;
      CountIsMultiplicity(names[..n], name);
      assert names == names[..n] + [names[n]];
    }
  }

  lemma {:induction false} WithoutCounted(names: seq<string>, p: string -> bool, name: string)
    ensures CountOf(Without(names, p), name) == if p(name) then 0 else CountOf(names, name)
  {
    if names != [] {
      var n := |names| - 1;
      var front := Without(names[..n], p);
      WithoutCounted(names[..n], p, name);
      if p(names[n]) {
        assert Without(names, p) == front;
      } else {
        assert (front + [names[n]])[..|front|] == front;
      }
    }
  }

  /** Two name lists that name the same modifiers, in any order and number, and the same other keys,
      in any order. */
  ghost predicate SameHotkey(a: seq<string>, b: seq<string>) {
    && (forall name :: IsModifier(name) ==> (name in a <==> name in b))
    && (forall name :: !IsModifier(name) ==> multiset(a)[name] == multiset(b)[name])
  }

  lemma SameNonModifiers(a: seq<string>, b: seq<string>)
    requires SameHotkey(a, b)
    ensures multiset(NonModifiers(a)) == multiset(NonModifiers(b))
  {
    forall name
      ensures multiset(NonModifiers(a))[name] == multiset(NonModifiers(b))[name]
    {
      CountIsMultiplicity(a, name);
      CountIsMultiplicity(b, name);
      CountIsMultiplicity(NonModifiers(a), name);
      CountIsMultiplicity(NonModifiers(b), name);
      WithoutCounted(a, IsModifier, name);
      WithoutCounted(b, IsModifier, name);
    }
  }

  lemma SingletonsAgree(x: seq<string>, y: seq<string>)
    requires multiset(x) == multiset(y)
    ensures |x| == |y| && (|x| == 1 ==> x == y)
  {
    assert |multiset(x)| == |x| && |multiset(y)| == |y|;
    if |x| == 1 {
      assert y[0] in multiset(x);
    }
  }

  /** Order and repetition do not matter, to the result or to the error. */
  lemma SplitIsOrderIndependent(a: seq<string>, b: seq<string>)
    requires SameHotkey(a, b)
    ensures Split(a) == Split(b)
  {
    SameNonModifiers(a, b);
    SingletonsAgree(NonModifiers(a), NonModifiers(b));
    ModifiersAreMask(a);
    ModifiersAreMask(b);
    SameMask(a, b);
  }

  lemma SameMask(a: seq<string>, b: seq<string>)
    requires SameHotkey(a, b)
    ensures MaskOf(a) == MaskOf(b)
  {
  }

  /** Every permutation of the names splits the same. */
  lemma PermutationSplitsTheSame(a: seq<string>, b: seq<string>)
    requires multiset(a) == multiset(b)
    ensures Split(a) == Split(b)
  {
    forall name
      ensures name in a <==> name in b
    {
      assert name in a <==> name in multiset(a);
      assert name in b <==> name in multiset(b);
    }
    SplitIsOrderIndependent(a, b);
  }

  /** Position i is the one name that is not a modifier. */
  ghost predicate OnlyKey(names: seq<string>, i: nat) {
    i < |names| && !IsModifier(names[i]) && forall j :: 0 <= j < |names| && j != i ==> IsModifier(names[j])
  }

  /** Position i is the one name that p does not hold of. */
  ghost predicate OnlyWithout(names: seq<string>, p: string -> bool, i: nat) {
    i < |names| && !p(names[i]) && forall j :: 0 <= j < |names| && j != i ==> p(names[j])
  }

  predicate AllHold(names: seq<string>, p: string -> bool) {
    forall j :: 0 <= j < |names| ==> p(names[j])
  }

  lemma {:induction false} NoneLeft(names: seq<string>, p: string -> bool)
    ensures Without(names, p) == [] <==> AllHold(names, p)
  {
    if names != [] {
      NoneLeft(names[..|names| - 1], p);
    }
  }

  lemma OnlyOneMore(front: seq<string>, last: string, p: string -> bool, i: nat)
    ensures OnlyWithout(front + [last], p, i) <==>
            if i == |front| then AllHold(front, p) && !p(last) else p(last) && OnlyWithout(front, p, i)
  {
    var names := front + [last];
    assert names[|front|] == last && forall j :: 0 <= j < |front| ==> names[j] == front[j];
  }

  lemma {:induction false} OneLeft(names: seq<string>, p: string -> bool) returns (i: nat)
    requires |Without(names, p)| == 1
    ensures OnlyWithout(names, p, i)
  {
    var n := |names| - 1;
    assert names == names[..n] + [names[n]];
    if p(names[n]) {
      i := OneLeft(names[..n], p);
    } else {
      i := n;
      NoneLeft(names[..n], p);
    }
    OnlyOneMore(names[..n], names[n], p, i);
  }

  lemma {:induction false} OnlyIsLeft(names: seq<string>, p: string -> bool, i: nat)
    requires OnlyWithout(names, p, i)
    ensures Without(names, p) == [names[i]]
  {
    var n := |names| - 1;
    assert names == names[..n] + [names[n]];
    OnlyOneMore(names[..n], names[n], p, i);
    if i == n {
      NoneLeft(names[..n], p);
    } else {
      OnlyIsLeft(names[..n], p, i);
    }
  }

  lemma OneNonModifier(names: seq<string>)
    ensures |NonModifiers(names)| == 1 <==> exists i: nat :: OnlyKey(names, i)
    ensures forall i: nat :: OnlyKey(names, i) ==> NonModifiers(names) == [names[i]]
  {
    if |NonModifiers(names)| == 1 {
      var i := OneLeft(names, IsModifier);
      assert OnlyKey(names, i);
    }
    forall i: nat | OnlyKey(names, i)
      ensures NonModifiers(names) == [names[i]]
    {
      OnlyIsLeft(names, IsModifier, i);
    }
  }

  /** Some name has one of the two codes. */
  predicate NamesCode(names: seq<string>, left: nat, right: nat) {
    exists name :: name in names && (VkCode(name) == Some(left) || VkCode(name) == Some(right))
  }

  lemma FlagIsCode(names: seq<string>, flag: bv32, left: nat, right: nat)
    requires forall name :: ModifierFlag(name) == Some(flag) <==>
                            VkCode(name) == Some(left) || VkCode(name) == Some(right)
    ensures Names(names, flag) <==> NamesCode(names, left, right)
  {
  }

  /** The mask by value, in the numbers RegisterHotKey takes: 1 for Alt, 2 for Ctrl, 4 for Shift. */
  lemma MaskByValue(names: seq<string>)
    ensures var alt, ctrl, shift := NamesCode(names, 0xA4, 0xA5), NamesCode(names, 0xA2, 0xA3),
                                    NamesCode(names, 0xA0, 0xA1);
            MaskOf(names) == (if alt then 1 else 0) | (if ctrl then 2 else 0) | (if shift then 4 else 0)
  {
    forall name
      ensures ModifierFlag(name) == Some(MOD_ALT) <==> VkCode(name) == Some(0xA4) || VkCode(name) == Some(0xA5)
      ensures ModifierFlag(name) == Some(MOD_CONTROL) <==> VkCode(name) == Some(0xA2) || VkCode(name) == Some(0xA3)
      ensures ModifierFlag(name) == Some(MOD_SHIFT) <==> VkCode(name) == Some(0xA0) || VkCode(name) == Some(0xA1)
    {
      TablesAgreeOnModifiers(name);
    }
    FlagIsCode(names, MOD_ALT, 0xA4, 0xA5);
    FlagIsCode(names, MOD_CONTROL, 0xA2, 0xA3);
    FlagIsCode(names, MOD_SHIFT, 0xA0, 0xA1);
  }

  /** Bit by bit. */
  lemma MaskBits(names: seq<string>)
    ensures MaskOf(names) & 1 != 0 <==> NamesCode(names, 0xA4, 0xA5)
    ensures MaskOf(names) & 2 != 0 <==> NamesCode(names, 0xA2, 0xA3)
    ensures MaskOf(names) & 4 != 0 <==> NamesCode(names, 0xA0, 0xA1)
    ensures MaskOf(names) < 8
  {
    MaskByValue(names);
  }

  /** Splitting succeeds exactly when one name is not a modifier and that name has a code; the result
      is then that code and the flags of the modifiers named, bit 1 for Alt, 2 for Ctrl and 4 for Shift. */
  lemma SplitSucceedsIff(names: seq<string>)
    ensures Split(names).Ok? <==> exists i: nat :: OnlyKey(names, i) && VkCode(names[i]).Some?
    ensures forall i: nat :: OnlyKey(names, i) && VkCode(names[i]).Some?
              ==> Split(names) == Ok((MaskOf(names), VkCode(names[i]).value))
    ensures Split(names).Ok? ==>
              var mask := Split(names).value.0;
              && (mask & 1 != 0 <==> NamesCode(names, 0xA4, 0xA5))
              && (mask & 2 != 0 <==> NamesCode(names, 0xA2, 0xA3))
              && (mask & 4 != 0 <==> NamesCode(names, 0xA0, 0xA1))
              && mask < 8
  {
    OneNonModifier(names);
    ModifiersAreMask(names);
    MaskBits(names);
  }

  // ----- validation -----

  datatype Config = Config(
    unlockCombo: seq<string>,
    idleTimeoutMin: int,
    mouseCorner: bool,
    escHold: bool,
    lockHotkey: seq<string>,
    lockHotkeyToggle: bool,
    notifications: bool
  )

  ghost predicate Acceptable(normalize: string -> string, cfg: Config) {
    && |cfg.unlockCombo| >= 2
    && (exists codes :: AreCodes(normalize, cfg.unlockCombo, codes))
    && cfg.idleTimeoutMin >= 1
    && (cfg.lockHotkey == [] || Split(Normalized(normalize, cfg.lockHotkey)).Ok?)
  }

  /** e is what is wrong with the configuration: the first failing check, in the order number of keys,
      unlock combo, idle timeout, hotkey. */
  ghost predicate FirstError(normalize: string -> string, cfg: Config, e: KeyError) {
    if |cfg.unlockCombo| < 2 then e == TooFewKeys
    else if !exists codes :: AreCodes(normalize, cfg.unlockCombo, codes) then
      exists i: nat :: FirstUnknown(normalize, cfg.unlockCombo, i) && e == UnknownKey(cfg.unlockCombo[i])
    else if cfg.idleTimeoutMin < 1 then e == IdleTooShort
    else cfg.lockHotkey != [] && Split(Normalized(normalize, cfg.lockHotkey)) == Err(e)
  }

  /** Accepts exactly the acceptable configurations, and reports the first failing check of any other. */
  method Validate(normalize: string -> string, cfg: Config) returns (r: Result<(), KeyError>)
    ensures r.Ok? <==> Acceptable(normalize, cfg)
    ensures r.Err? ==> FirstError(normalize, cfg, r.error)
  {
    if |cfg.unlockCombo| < 2 {
      return Err(TooFewKeys);
    }
    var codes := ComboToVKCodes(normalize, cfg.unlockCombo);
    if codes.Err? {
      UnknownHasNoCodes(normalize, cfg.unlockCombo);
      return Err(codes.error);
    }
    assert AreCodes(normalize, cfg.unlockCombo, codes.value);
    if cfg.idleTimeoutMin < 1 {
      return Err(IdleTooShort);
    }
    if |cfg.lockHotkey| > 0 {
      var split := SplitHotkeyCombo(normalize, cfg.lockHotkey);
      if split.Err? {
        return Err(split.error);
      }
    }
    return Ok(());
  }
}
