/** The escape-sequence pattern of `Formatting` (muddrop.py line 20) and the
    two functions built on it: stripping escape sequences and mapping an
    offset in stripped text back to an offset in the raw line.

    The pattern has two branches. The first is ESC '[' followed by one of
      (a) parameters `(\d+(?:|;))*` and a final byte in "fHpm",
      (b) '=' digits and a final 'h' or 'l',
      (c) digits and a final byte in "ABCDJKknsu".
    The second is the three-byte telnet sequence IAC (WILL | WONT) ECHO.
    At any position at most one branch can match and its extent is fixed, so
    Python's `re.sub` and `re.finditer` amount to the left-to-right scan
    modelled here. */
module Ansi {
  import opened Text

  const Esc: char := '\U{1B}'
  /** Telnet IAC, WILL, WONT and the ECHO option. */
  const Iac: char := '\U{FF}'
  const Will: char := '\U{FB}'
  const Wont: char := '\U{FC}'
  const EchoOption: char := '\U{01}'

  /** True when the line has neither an ESC nor an IAC byte, so no escape
      sequence can start anywhere in it. */
  predicate Plain(s: string) {
    forall i :: 0 <= i < |s| ==> s[i] != Esc && s[i] != Iac
  }

  /** End of the run of digits and ';' that starts at `j`. */
  function ParamEnd(s: string, j: nat): (k: nat)
    requires j <= |s|
    ensures j <= k <= |s|
    decreases |s| - j
  {
    if j < |s| && (IsDigit(s[j]) || s[j] == ';') then ParamEnd(s, j + 1) else j
  }

  /** End of the run of digits that starts at `j`. */
  function DigitEnd(s: string, j: nat): (k: nat)
    requires j <= |s|
    ensures j <= k <= |s|
    ensures AllDigits(s[j..k])
    decreases |s| - j
  {
    if j < |s| && IsDigit(s[j]) then DigitEnd(s, j + 1) else j
  }

  /** A run of digits and ';' is generated by `(\d+(?:|;))*` exactly when it
      is empty or starts with a digit, and never has two ';' in a row. */
  predicate ParamList(w: string) {
    (|w| > 0 ==> IsDigit(w[0])) && NoDoubleSemicolon(w)
  }

  predicate NoDoubleSemicolon(w: string)
    decreases |w|
  {
    |w| < 2 || (!(w[0] == ';' && w[1] == ';') && NoDoubleSemicolon(w[1..]))
  }

  /** Length of the escape sequence starting at `i`, or 0 when none does. */
  function EscapeLength(s: string, i: nat): (n: nat)
    requires i <= |s|
    ensures i + n <= |s|
    ensures n > 0 ==> s[i] == Esc || s[i] == Iac
  {
    if i + 2 < |s| && s[i] == Iac && (s[i + 1] == Will || s[i + 1] == Wont) && s[i + 2] == EchoOption then 3
    else if i + 1 < |s| && s[i] == Esc && s[i + 1] == '[' then
      var k := ParamEnd(s, i + 2);
      if k < |s| && s[k] in "fHpm" && ParamList(s[i + 2..k]) then k + 1 - i
      else if i + 2 < |s| && s[i + 2] == '=' then
        var d := DigitEnd(s, i + 3);
        if d < |s| && s[d] in "hl" then d + 1 - i else 0
      else
        var d := DigitEnd(s, i + 2);
        if d < |s| && s[d] in "ABCDJKknsu" then d + 1 - i else 0
    else 0
  }

  /** The bytes of `s[i..]` that are not part of an escape sequence. */
  function StripFrom(s: string, i: nat): (r: string)
    requires i <= |s|
    ensures |r| <= |s| - i
    decreases |s| - i
  {
    if i == |s| then []
    else
      var n := EscapeLength(s, i);
      if n > 0 then StripFrom(s, i + n) else [s[i]] + StripFrom(s, i + 1)
  }

  /** `fnStripANSI`: the line with every escape sequence removed. */
  function Strip(s: string): (r: string)
    ensures |r| <= |s|
  {
    StripFrom(s, 0)
  }

  /** The scan of `fnGetLineBeginning` from position `i` with the running
      offset `k`: each escape sequence that starts at or before the running
      offset pushes it forward by the sequence's length. */
  function BeginFrom(s: string, i: nat, k: nat): (r: nat)
    requires i <= |s|
    ensures r >= k
    decreases |s| - i
  {
    if i == |s| then k
    else
      var n := EscapeLength(s, i);
      if n > 0 then BeginFrom(s, i + n, if i <= k then k + n else k)
      else BeginFrom(s, i + 1, k)
  }

  /** `fnGetLineBeginning`: the raw offset of stripped offset `k`. */
  function LineBeginning(s: string, k: nat): (r: nat)
    ensures r >= k
  {
    BeginFrom(s, 0, k)
  }

  /** Once the scan has passed the running offset, nothing moves it. */
  lemma {:induction false} BeginFromPast(s: string, i: nat, k: nat)
    requires i <= |s|
    requires k < i
    ensures BeginFrom(s, i, k) == k
    decreases |s| - i
  {
    if i < |s| {
      var n := EscapeLength(s, i);
      if n > 0 {
        BeginFromPast(s, i + n, k);
      } else {
        BeginFromPast(s, i + 1, k);
      }
    }
  }

  /** The scan from `i` maps the `j`-th byte kept from `s[i..]` to its raw
      position. */
  lemma {:induction false} BeginFromFindsKept(s: string, i: nat, j: nat)
    requires i <= |s|
    requires j < |StripFrom(s, i)|
    ensures FindsKept(s, i, j)
    decreases |s| - i
  {
    assert i < |s|;
    if EscapeLength(s, i) > 0 {
      var next := EscapeEnd(s, i, j);
      BeginFromFindsKept(s, next, j);
    } else if j == 0 {
      KeepFirstByte(s, i);
    } else {
      KeepByte(s, i, j);
      BeginFromFindsKept(s, i + 1, j - 1);
      KeepByteFinds(s, i, j);
    }
  }

  /** The scan from `i` finds the `j`-th kept byte of `s[i..]`. */
  predicate FindsKept(s: string, i: nat, j: nat)
    requires i <= |s|
  {
    && j < |StripFrom(s, i)|
    && i <= BeginFrom(s, i, i + j) < |s|
    && s[BeginFrom(s, i, i + j)] == StripFrom(s, i)[j]
  }

  /** An escape sequence at `i` is skipped by both scans. */
  lemma SkipEscape(s: string, i: nat, j: nat)
    requires i < |s| && EscapeLength(s, i) > 0
    ensures StripFrom(s, i) == StripFrom(s, i + EscapeLength(s, i))
    ensures BeginFrom(s, i, i + j) == BeginFrom(s, i + EscapeLength(s, i), i + EscapeLength(s, i) + j)
  {
  }

  /** Where the escape sequence at `i` ends: the `j`-th kept byte from `i`
      is the `j`-th kept byte from there. */
  lemma EscapeEnd(s: string, i: nat, j: nat) returns (next: nat)
    requires i < |s| && EscapeLength(s, i) > 0
    requires j < |StripFrom(s, i)|
    ensures i < next <= |s| && j < |StripFrom(s, next)|
    ensures FindsKept(s, next, j) ==> FindsKept(s, i, j)
  {
    next := i + EscapeLength(s, i);
    SkipEscape(s, i, j);
  }

  /** A byte at `i` that starts no escape sequence is kept. */
  lemma KeepByte(s: string, i: nat, j: nat)
    requires i < |s| && EscapeLength(s, i) == 0
    ensures StripFrom(s, i) == [s[i]] + StripFrom(s, i + 1)
    ensures BeginFrom(s, i, i + j) == BeginFrom(s, i + 1, i + j)
  {
  }

  lemma KeepFirstByte(s: string, i: nat)
    requires i < |s| && EscapeLength(s, i) == 0
    ensures FindsKept(s, i, 0)
  {
    KeepByte(s, i, 0);
    BeginFromPast(s, i + 1, i);
  }

  lemma KeepByteFinds(s: string, i: nat, j: nat)
    requires i < |s| && EscapeLength(s, i) == 0 && j > 0
    requires FindsKept(s, i + 1, j - 1)
    ensures FindsKept(s, i, j)
  {
    KeepByte(s, i, j);
    assert StripFrom(s, i)[j] == StripFrom(s, i + 1)[j - 1];
  }

  /** The offset of a match found in the stripped line, mapped back by
      `fnGetLineBeginning`, lands on the same byte of the raw line. */
  lemma LineBeginningFindsStrippedByte(s: string, k: nat)
    requires k < |Strip(s)|
    ensures LineBeginning(s, k) < |s|
    ensures s[LineBeginning(s, k)] == Strip(s)[k]
  {
    BeginFromFindsKept(s, 0, k);
    assert FindsKept(s, 0, k);
  }

  lemma {:induction false} PlainStripFrom(s: string, i: nat, k: nat)
    requires Plain(s)
    requires i <= |s|
    ensures StripFrom(s, i) == s[i..]
    ensures BeginFrom(s, i, k) == k
    decreases |s| - i
  {
    if i < |s| {
      PlainStripFrom(s, i + 1, k);
    }
  }

  /** On a line without ESC or IAC bytes, stripping changes nothing and the
      offset mapping is the identity. */
  lemma PlainLineUnchanged(s: string, k: nat)
    requires Plain(s)
    ensures Strip(s) == s
    ensures LineBeginning(s, k) == k
  {
    PlainStripFrom(s, 0, k);
  }

  /** Stripping is not idempotent: removing one sequence can join the bytes
      around it into a new one. */
  lemma StripNotIdempotent()
    ensures var s := [Esc, Esc, '[', 'm', '[', 'm'];
            Strip(s) == [Esc, '[', 'm'] && Strip(Strip(s)) == []
  {
    var s := [Esc, Esc, '[', 'm', '[', 'm'];
    assert EscapeLength(s, 0) == 0;
    assert EscapeLength(s, 1) == 3;
    assert EscapeLength(s, 4) == 0;
    assert EscapeLength(s, 5) == 0;
    assert StripFrom(s, 5) == ['m'];
    assert StripFrom(s, 4) == ['[', 'm'];
    assert StripFrom(s, 1) == ['[', 'm'];
    assert StripFrom(s, 0) == [Esc, '[', 'm'];
    var t := [Esc, '[', 'm'];
    assert EscapeLength(t, 0) == 3;
    assert StripFrom(t, 0) == StripFrom(t, 3) == [];
  }
}
