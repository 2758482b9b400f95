/** The text of SET_COMBO: how the controller prints key codes and how the sentinel reads them back. */
module ComboWire {
  import opened Prelude
  import opened KeyHistory
  import opened KeyHook

  const NUL := '\0'
  const LONG_MAX := 0x7FFF_FFFF  // long is 32 bits wide on Windows

  /** A C string: exactly one NUL, at the end.  Reading s[p] is in bounds only up to that NUL. */
  predicate CString(s: seq<char>) {
    && |s| > 0
    && s[|s| - 1] == NUL
    && forall i :: 0 <= i < |s| - 1 ==> s[i] != NUL
  }

  // ----- strtol with base 10, section 7.22.1.4 of ISO C11 -----

  predicate IsSpace(c: char) {
    c == ' ' || '\t' <= c <= '\r'
  }

  predicate IsDigit(c: char) {
    '0' <= c <= '9'
  }

  function SkipSpaces(s: seq<char>, p: nat): (q: nat)
    requires CString(s) && p < |s|
    ensures p <= q < |s| && !IsSpace(s[q])
    decreases |s| - p
  {
    if IsSpace(s[p]) then SkipSpaces(s, p + 1) else p
  }

  function SkipDigits(s: seq<char>, p: nat): (q: nat)
    requires CString(s) && p < |s|
    ensures p <= q < |s| && !IsDigit(s[q])
    decreases |s| - p
  {
    if IsDigit(s[p]) then SkipDigits(s, p + 1) else p
  }

  function Digit(c: char): nat {
    if IsDigit(c) then c as nat - '0' as nat else 0
  }

  /** The decimal value of s[p..q], which holds only digits. */
  function DigitsValue(s: seq<char>, p: nat, q: nat): nat
    requires p <= q <= |s|
  {
    if p == q then 0 else 10 * DigitsValue(s, p, q - 1) + Digit(s[q - 1])
  }

  function Clamp(v: int): int {
    if v > LONG_MAX then LONG_MAX else if v < -LONG_MAX - 1 then -LONG_MAX - 1 else v
  }

  /** The number read at p and the position after it; that position is p when there is no number. */
  function Strtol(s: seq<char>, p: nat): (r: (int, nat))
    requires CString(s) && p < |s|
    ensures p <= r.1 < |s|
  {
    var q := SkipSpaces(s, p);
    var signed := s[q] == '+' || s[q] == '-';
    var d := if signed then q + 1 else q;
    var e := SkipDigits(s, d);
    if e == d then (0, p)
    else
      var magnitude: int := DigitsValue(s, d, e);
      (Clamp(if s[q] == '-' then -magnitude else magnitude), e)
  }

  // ----- the parser's meaning -----

  function SkipBlanks(s: seq<char>, p: nat): (q: nat)
    requires CString(s) && p < |s|
    ensures p <= q < |s| && s[q] != ' '
    decreases |s| - p
  {
    if s[p] == ' ' then SkipBlanks(s, p + 1) else p
  }

  /** What one round of the parsing loop finds. */
  datatype Found = TextEnds | Malformed | Number(val: int, end: nat)

  /** Skip blanks, then read a number and check its range. */
  function NextFound(s: seq<char>, p: nat): (f: Found)
    requires CString(s) && p < |s|
    ensures f.Number? ==> p < f.end < |s| && 0 <= f.val < KEY_COUNT
  {
    var q := SkipBlanks(s, p);
    if s[q] == NUL then TextEnds
    else
      var (val, end) := Strtol(s, q);
      if end == q || val < 0 || val > 255 then Malformed else Number(val, end)
  }

  /** The codes read from position p on, at most k of them; None for a malformed or out-of-range
      number.  What follows the k-th code is ignored. */
  function Parse(s: seq<char>, p: nat, k: nat): Option<seq<int>>
    requires CString(s) && p < |s|
    decreases |s| - p
  {
    if s[p] == NUL || k == 0 then Some([])
    else
      match NextFound(s, p)
      case TextEnds => Some([])
      case Malformed => None
      case Number(val, end) => Prepend([val], Parse(s, end, k - 1))
  }

  function Prepend(front: seq<int>, r: Option<seq<int>>): Option<seq<int>> {
    match r
    case None => None
    case Some(codes) => Some(front + codes)
  }

  lemma {:induction false} ParseIsInRange(s: seq<char>, p: nat, k: nat)
    requires CString(s) && p < |s|
    ensures var r := Parse(s, p, k);
            r.Some? ==> |r.value| <= k && forall code :: code in r.value ==> ValidCode(code)
    decreases |s| - p
  {
    if s[p] != NUL && k > 0 && NextFound(s, p).Number? {
      ParseIsInRange(s, NextFound(s, p).end, k - 1);
    }
  }

  /** The combo a SET_COMBO argument text asks for, if it asks for an acceptable one. */
  function Requested(args: seq<char>): (r: Option<seq<int>>)
    requires CString(args)
    ensures r.Some? ==> 2 <= |r.value| <= MAX_COMBO_KEYS && forall code :: code in r.value ==> ValidCode(code)
  {
    ParseIsInRange(args, 0, MAX_COMBO_KEYS);
    match Parse(args, 0, MAX_COMBO_KEYS)
    case None => None
    case Some(codes) => if |codes| < 2 then None else Some(codes)
  }

  // ----- which texts are numbers -----

  predicate White(c: char) {
    c == ' ' || 9 <= c as int <= 13
  }

  /** At p there is a number whose digits are s[d..e]: white space up to a, at most one sign, and as many
      digits as there are, at least one. */
  predicate NumberAt(s: seq<char>, p: nat, a: nat, d: nat, e: nat) {
    && p <= a <= d <= a + 1 && d < e < |s|
    && (forall i :: p <= i < a ==> White(s[i]))
    && (d == a + 1 ==> s[a] == '+' || s[a] == '-')
    && (forall i :: d <= i < e ==> '0' <= s[i] <= '9')
    && !('0' <= s[e] <= '9')
  }

  lemma {:induction false} BlanksSkipped(s: seq<char>, p: nat)
    requires CString(s) && p < |s|
    ensures forall i :: p <= i < SkipBlanks(s, p) ==> s[i] == ' '
    decreases |s| - p
  {
    if s[p] == ' ' {
      BlanksSkipped(s, p + 1);
    }
  }

  lemma {:induction false} SpacesSkipped(s: seq<char>, p: nat)
    requires CString(s) && p < |s|
    ensures forall i :: p <= i < SkipSpaces(s, p) ==> White(s[i])
    decreases |s| - p
  {
    if IsSpace(s[p]) {
      SpacesSkipped(s, p + 1);
    }
  }

  lemma {:induction false} SpacesStopAt(s: seq<char>, p: nat, a: nat)
    requires CString(s) && p <= a < |s| && !White(s[a])
    requires forall i :: p <= i < a ==> White(s[i])
    ensures SkipSpaces(s, p) == a
    decreases a - p
  {
    if p < a {
      SpacesStopAt(s, p + 1, a);
    }
  }

  lemma {:induction false} DigitsSkipped(s: seq<char>, p: nat)
    requires CString(s) && p < |s|
    ensures forall i :: p <= i < SkipDigits(s, p) ==> '0' <= s[i] <= '9'
    decreases |s| - p
  {
    if IsDigit(s[p]) {
      DigitsSkipped(s, p + 1);
    }
  }

  /** What strtol returns where there is a number: its value, brought into the 32-bit range, and where its
      digits end. */
  lemma StrtolReadsNumber(s: seq<char>, p: nat, a: nat, d: nat, e: nat)
    requires CString(s) && NumberAt(s, p, a, d, e)
    ensures var v: int := DigitsValue(s, d, e);
            Strtol(s, p) == (if s[a] == '-' then (if v > 2147483648 then -2147483648 else -v)
                             else if v > 2147483647 then 2147483647 else v, e)
  {
    SpacesStopAt(s, p, a);
    SkipDigitsStopsAt(s, d, e);
  }

  /** Which digits are read, and with which sign. */
  lemma NumberIsRead(s: seq<char>, p: nat, a: nat, d: nat, e: nat)
    requires CString(s) && NumberAt(s, p, a, d, e)
    ensures var v := DigitsValue(s, d, e);
            NextFound(s, p) == if v <= 255 && (s[a] == '-' ==> v == 0) then Number(v, e) else Malformed
  {
    var b := SkipBlanks(s, p);
    BlanksSkipped(s, p);
    assert !White(s[a]) && b <= a;
    SpacesStopAt(s, b, a);
    SkipDigitsStopsAt(s, d, e);
  }

  lemma NumberWasThere(s: seq<char>, p: nat) returns (a: nat, d: nat)
    requires CString(s) && p < |s| && NextFound(s, p).Number?
    ensures NumberAt(s, p, a, d, NextFound(s, p).end)
  {
    var b := SkipBlanks(s, p);
    BlanksSkipped(s, p);
    SpacesSkipped(s, b);
    a := SkipSpaces(s, b);
    d := if s[a] == '+' || s[a] == '-' then a + 1 else a;
    DigitsSkipped(s, d);
  }

  /** And where there is none, it returns 0 and does not move. */
  lemma StrtolReadsNothing(s: seq<char>, p: nat)
    requires CString(s) && p < |s| && !exists a: nat, d: nat, e: nat :: NumberAt(s, p, a, d, e)
    ensures Strtol(s, p) == (0, p)
  {
    SpacesSkipped(s, p);
    var a := SkipSpaces(s, p);
    var d := if s[a] == '+' || s[a] == '-' then a + 1 else a;
    DigitsSkipped(s, d);
    assert SkipDigits(s, d) > d ==> NumberAt(s, p, a, d, SkipDigits(s, d));
  }

  /** A code is accepted exactly if there is a number of at most 255, not negative but for -0, and it is
      that number; anything else that is not the end of the text is malformed.  A number too long for a
      long is simply too big. */
  lemma AcceptedIff(s: seq<char>, p: nat, v: int, e: nat)
    requires CString(s) && p < |s|
    ensures NextFound(s, p) == Number(v, e) <==>
            exists a: nat, d: nat ::
              NumberAt(s, p, a, d, e) && v == DigitsValue(s, d, e) && v <= 255 && (s[a] == '-' ==> v == 0)
    ensures NextFound(s, p) == TextEnds <==> forall i :: p <= i < |s| - 1 ==> s[i] == ' '
  {
    if NextFound(s, p).Number? {
      var a, d := NumberWasThere(s, p);
      NumberIsRead(s, p, a, d, NextFound(s, p).end);
    }
    if a: nat, d: nat :| NumberAt(s, p, a, d, e) && v == DigitsValue(s, d, e) && v <= 255 && (s[a] == '-' ==> v == 0) {
      NumberIsRead(s, p, a, d, e);
    }
    BlanksSkipped(s, p);
  }

  // ----- the printer -----

  function Decimal(n: nat): (d: string)
    ensures |d| > 0 && forall i :: 0 <= i < |d| ==> IsDigit(d[i])
  {
    if n < 10 then [('0' as int + n) as char] else Decimal(n / 10) + [('0' as int + n % 10) as char]
  }

  function Decimals(codes: seq<nat>): (parts: seq<string>)
    ensures |parts| == |codes|
  {
    if codes == [] then [] else [Decimal(codes[0])] + Decimals(codes[1..])
  }

  /** strings.Join with a one-blank separator. */
  function Join(parts: seq<string>): string {
    if parts == [] then "" else parts[0] + JoinRest(parts[1..])
  }

  function JoinRest(parts: seq<string>): string {
    if parts == [] then "" else " " + parts[0] + JoinRest(parts[1..])
  }

  const SET_COMBO := "SET_COMBO "

  function SetComboText(codes: seq<nat>): string {
    SET_COMBO + Join(Decimals(codes))
  }

  lemma {:induction false} DecimalsAt(codes: seq<nat>, i: nat)
    requires i < |codes|
    ensures Decimals(codes)[i] == Decimal(codes[i])
  {
    if i > 0 {
      DecimalsAt(codes[1..], i - 1);
    }
  }

  /** The controller's SetCombo, up to sending. */
  method FormatSetCombo(vkCodes: seq<nat>) returns (cmd: string)
    ensures cmd == SetComboText(vkCodes)
  {
    var parts := new string[|vkCodes|];
    for i := 0 to |vkCodes|
      invariant forall j :: 0 <= j < i ==> parts[j] == Decimal(vkCodes[j])
    {
      parts[i] := Decimal(vkCodes[i]);
    }
    forall i: nat | i < |vkCodes|
      ensures parts[..][i] == Decimals(vkCodes)[i]
    {
      DecimalsAt(vkCodes, i);
    }
    assert parts[..] == Decimals(vkCodes);
    cmd := SET_COMBO + Join(parts[..]);
  }

  // ----- reading back what was printed -----

  lemma {:induction false} DigitsValueShift(s: seq<char>, p: nat, q: nat, t: seq<char>)
    requires p <= q <= |s| && s[p..q] == t
    ensures DigitsValue(s, p, q) == DigitsValue(t, 0, |t|)
    decreases q
  {
    if p < q {
      var u := t[..|t| - 1];
      assert s[p..q - 1] == u;
      assert t[|t| - 1] == s[q - 1];
      DigitsValueShift(s, p, q - 1, u);
      DigitsValuePrefix(t, |t| - 1);
    }
  }

  lemma {:induction false} DigitsValuePrefix(t: seq<char>, n: nat)
    requires n <= |t|
    ensures DigitsValue(t, 0, n) == DigitsValue(t[..n], 0, n)
    decreases n
  {
    if n > 0 {
      DigitsValuePrefix(t, n - 1);
      DigitsValuePrefix(t[..n], n - 1);
      assert t[..n][..n - 1] == t[..n - 1];
    }
  }

  lemma {:induction false} DecimalValue(n: nat)
    ensures DigitsValue(Decimal(n), 0, |Decimal(n)|) == n
  {
    if n >= 10 {
      DecimalValue(n / 10);
      DigitsValuePrefix(Decimal(n), |Decimal(n)| - 1);
      assert Decimal(n)[..|Decimal(n)| - 1] == Decimal(n / 10);
    }
  }

  lemma {:induction false} SkipDigitsStopsAt(s: seq<char>, p: nat, q: nat)
    requires CString(s) && p <= q < |s| && !IsDigit(s[q])
    requires forall i :: p <= i < q ==> IsDigit(s[i])
    ensures SkipDigits(s, p) == q
    decreases q - p
  {
    if p < q {
      SkipDigitsStopsAt(s, p + 1, q);
    }
  }

  /** strtol inverts %d, for every number that fits a long. */
  lemma StrtolReadsDecimal(s: seq<char>, p: nat, n: nat)
    requires CString(s) && n <= LONG_MAX
    requires var q := p + |Decimal(n)|; q < |s| && s[p..q] == Decimal(n) && !IsDigit(s[q])
    ensures Strtol(s, p) == (n, p + |Decimal(n)|)
  {
    var q := p + |Decimal(n)|;
    assert forall i :: p <= i < q ==> s[i] == Decimal(n)[i - p];
    SkipDigitsStopsAt(s, p, q);
    DigitsValueShift(s, p, q, Decimal(n));
    DecimalValue(n);
  }

  /** The first m elements, or all of them. */
  function Take(codes: seq<nat>, m: nat): seq<nat> {
    codes[..Min(m, |codes|)]
  }

  predicate AllValid(codes: seq<nat>) {
    forall i :: 0 <= i < |codes| ==> codes[i] < KEY_COUNT
  }

  lemma OneNumber(s: seq<char>, p: nat, q: nat, n: nat)
    requires CString(s) && p <= q <= p + 1 && q < |s| && (p < q ==> s[p] == ' ') && n < KEY_COUNT
    requires var e := q + |Decimal(n)|; e < |s| && s[q..e] == Decimal(n) && !IsDigit(s[e])
    ensures s[p] != NUL && NextFound(s, p) == Number(n, q + |Decimal(n)|)
  {
    assert s[q] == Decimal(n)[0];
    assert SkipBlanks(s, p) == q;
    StrtolReadsDecimal(s, q, n);
  }

  /** The joined numbers, then the NUL. */
  function Line(codes: seq<nat>): (line: string)
    requires codes != []
  {
    if |codes| == 1 then Decimal(codes[0]) + [NUL] else Decimal(codes[0]) + (" " + Line(codes[1..]))
  }

  lemma {:induction false} LineIsJoined(codes: seq<nat>)
    requires codes != []
    ensures Join(Decimals(codes)) + [NUL] == Line(codes)
  {
    assert Decimals(codes)[1..] == Decimals(codes[1..]);
    if |codes| > 1 {
      LineIsJoined(codes[1..]);
      JoinedRest(Decimals(codes[1..]));
    }
  }

  lemma JoinedRest(parts: seq<string>)
    requires parts != []
    ensures JoinRest(parts) == " " + Join(parts)
  {
  }

  /** Where a suffix made of two pieces is cut. */
  lemma Cut(s: seq<char>, p: nat, head: seq<char>, rest: seq<char>)
    requires p <= |s| && s[p..] == head + rest && |rest| > 0
    ensures p + |head| < |s| && s[p..p + |head|] == head && s[p + |head|..] == rest
    ensures s[p + |head|] == rest[0]
  {
  }

  lemma CutNumber(s: seq<char>, p: nat, d: seq<char>, rest: seq<char>)
    requires p <= |s| && s[p..] == d + (" " + rest)
    ensures p + |d| < |s| && s[p..p + |d|] == d && s[p + |d|] == ' ' && s[p + |d| + 1..] == rest
  {
    Cut(s, p, d, " " + rest);
    assert s[p + |d| + 1..] == s[p + |d|..][1..];
  }

  /** The line is cut after its first number. */
  lemma CutLine(s: seq<char>, q: nat, codes: seq<nat>) returns (e: nat)
    requires CString(s) && codes != [] && q <= |s| && s[q..] == Line(codes)
    ensures e == q + |Decimal(codes[0])| && e < |s| && s[q..e] == Decimal(codes[0])
    ensures if |codes| == 1 then s[e] == NUL else s[e] == ' ' && s[e + 1..] == Line(codes[1..])
  {
    e := q + |Decimal(codes[0])|;
    if |codes| == 1 {
      Cut(s, q, Decimal(codes[0]), [NUL]);
    } else {
      CutNumber(s, q, Decimal(codes[0]), Line(codes[1..]));
    }
  }

  lemma ParseStops(s: seq<char>, p: nat, k: nat)
    requires CString(s) && p < |s| && (s[p] == NUL || k == 0)
    ensures Parse(s, p, k) == Some([])
  {
  }

  lemma FirstNumber(s: seq<char>, p: nat, q: nat, codes: seq<nat>) returns (e: nat)
    requires CString(s) && codes != [] && codes[0] < KEY_COUNT && q < |s| && s[q..] == Line(codes)
    requires p <= q <= p + 1 && (p < q ==> s[p] == ' ')
    ensures s[p] != NUL && NextFound(s, p) == Number(codes[0], e)
    ensures if |codes| == 1 then s[e] == NUL
            else s[e] == ' ' && e + 1 < |s| && s[e + 1..] == Line(codes[1..])
  {
    e := CutLine(s, q, codes);
    OneNumber(s, p, q, codes[0]);
    if |codes| > 1 {
      LineIsNotEmpty(codes[1..]);
    }
  }

  lemma LineIsNotEmpty(codes: seq<nat>)
    requires codes != []
    ensures Line(codes) != ""
  {
  }

  /** From p on, one round after the other finds exactly these codes, and then the text ends. */
  predicate Reads(s: seq<char>, p: nat, codes: seq<nat>)
    requires CString(s) && p < |s|
    decreases codes
  {
    if codes == [] then s[p] == NUL
    else
      && s[p] != NUL && NextFound(s, p).Number? && NextFound(s, p).val == codes[0]
      && Reads(s, NextFound(s, p).end, codes[1..])
  }

  lemma ReadsOneMore(s: seq<char>, p: nat, codes: seq<nat>, e: nat)
    requires CString(s) && p < |s| && s[p] != NUL && codes != [] && NextFound(s, p) == Number(codes[0], e)
    requires Reads(s, e, codes[1..])
    ensures Reads(s, p, codes)
  {
  }

  /** A line is read from p, at or one blank before its first number. */
  lemma {:induction false} LineIsRead(s: seq<char>, p: nat, q: nat, codes: seq<nat>)
    requires CString(s) && codes != [] && AllValid(codes) && q < |s| && s[q..] == Line(codes)
    requires p <= q <= p + 1 && (p < q ==> s[p] == ' ')
    ensures Reads(s, p, codes)
    decreases |codes|
  {
    var e := FirstNumber(s, p, q, codes);
    if |codes| > 1 {
      LineIsRead(s, e, e + 1, codes[1..]);
    }
    ReadsOneMore(s, p, codes, e);
  }

  lemma TakeOneMore(codes: seq<nat>, k: nat)
    requires codes != [] && 0 < k
    ensures Prepend([codes[0]], Some(Take(codes[1..], k - 1))) == Some(Take(codes, k))
  {
    assert [codes[0] as int] + Take(codes[1..], k - 1) == Take(codes, k);
  }

  lemma {:induction false} ReadIsParsed(s: seq<char>, p: nat, codes: seq<nat>, k: nat)
    requires CString(s) && p < |s| && Reads(s, p, codes)
    ensures Parse(s, p, k) == Some(Take(codes, k))
    decreases |codes|
  {
    if k > 0 && codes != [] {
      ReadIsParsed(s, NextFound(s, p).end, codes[1..], k - 1);
      TakeOneMore(codes, k);
    }
  }

  /** The round trip: parsing the blank-joined decimal text gives back the first eight codes. */
  lemma PrintThenParse(codes: seq<nat>)
    requires AllValid(codes)
    ensures NUL !in Join(Decimals(codes))
    ensures Parse(Join(Decimals(codes)) + [NUL], 0, MAX_COMBO_KEYS) == Some(Take(codes, MAX_COMBO_KEYS))
  {
    NoNul(codes);
    assert forall i :: 0 <= i < |Join(Decimals(codes))| ==> Printable(Join(Decimals(codes))[i]);
    var s := Join(Decimals(codes)) + [NUL];
    if codes == [] {
      ParseStops(s, 0, MAX_COMBO_KEYS);
    } else {
      LineIsJoined(codes);
      assert s[0..] == s;
      LineIsRead(s, 0, 0, codes);
      ReadIsParsed(s, 0, codes, MAX_COMBO_KEYS);
    }
  }

  lemma {:induction false} NoNul(codes: seq<nat>)
    ensures forall i :: 0 <= i < |JoinRest(Decimals(codes))| ==> Printable(JoinRest(Decimals(codes))[i])
    ensures forall i :: 0 <= i < |Join(Decimals(codes))| ==> Printable(Join(Decimals(codes))[i])
  {
    if codes != [] {
      NoNul(codes[1..]);
      assert Decimals(codes)[1..] == Decimals(codes[1..]);
    }
  }

  predicate Printable(c: char) {
    c == ' ' || IsDigit(c)
  }

  // ----- the length of the message -----

  function DigitCount(n: nat): nat {
    if n < 10 then 1 else if n < 100 then 2 else 3
  }

  function TotalDigits(codes: seq<nat>): nat {
    if codes == [] then 0 else DigitCount(codes[0]) + TotalDigits(codes[1..])
  }

  lemma DecimalLength(n: nat)
    requires n < 1000
    ensures |Decimal(n)| == DigitCount(n)
  {
    assert n >= 10 ==> |Decimal(n)| == |Decimal(n / 10)| + 1;
    assert n >= 100 ==> |Decimal(n / 10)| == |Decimal(n / 10 / 10)| + 1;
  }

  lemma {:induction false} JoinRestLength(codes: seq<nat>)
    requires AllValid(codes)
    ensures |JoinRest(Decimals(codes))| == TotalDigits(codes) + |codes|
  {
    if codes != [] {
      DecimalLength(codes[0]);
      JoinRestLength(codes[1..]);
    }
  }

  /** The exact length of the message, its newline included. */
  lemma MessageLength(codes: seq<nat>)
    requires AllValid(codes) && codes != []
    ensures |SetComboText(codes)| + 1 == 10 + TotalDigits(codes) + |codes|
  {
    DecimalLength(codes[0]);
    JoinRestLength(codes[1..]);
    assert Decimals(codes)[1..] == Decimals(codes[1..]);
  }

  lemma {:induction false} AtMostThreeDigits(codes: seq<nat>)
    ensures |codes| <= TotalDigits(codes) <= 3 * |codes|
  {
    if codes != [] {
      AtMostThreeDigits(codes[1..]);
    }
  }

  /** 125 codes, with the trailing newline, always fit the 511 bytes the sentinel reads, and 251 never
      do; in between it depends on their digits. */
  lemma MessageFits(codes: seq<nat>)
    requires AllValid(codes) && codes != []
    ensures |codes| <= 125 ==> |SetComboText(codes)| + 1 <= 511
    ensures |codes| >= 251 ==> |SetComboText(codes)| + 1 > 511
  {
    MessageLength(codes);
    AtMostThreeDigits(codes);
  }

  lemma {:induction false} SameDigits(codes: seq<nat>, d: nat)
    requires forall i :: 0 <= i < |codes| ==> DigitCount(codes[i]) == d
    ensures TotalDigits(codes) == d * |codes|
  {
    if codes != [] {
      SameDigits(codes[1..], d);
    }
  }
}
