/** Byte-string helpers shared by the relay's text functions. Strings are
    Python 2 byte strings, modelled as `seq<char>` whose characters stand
    for single bytes. */
module Text {

  predicate IsDigit(c: char) {
    '0' <= c <= '9'
  }

  /** Python 2 `str.lower()` on a byte string folds ASCII letters only. */
  function LowerChar(c: char): char {
    if 'A' <= c <= 'Z' then (c as int + 32) as char else c
  }

  function Lower(s: string): (r: string)
    ensures |r| == |s|
    ensures forall i :: 0 <= i < |s| ==> r[i] == LowerChar(s[i])
  {
    seq(|s|, i requires 0 <= i < |s| => LowerChar(s[i]))
  }

  /** Folding twice is folding once. */
  lemma LowerIdempotent(s: string)
    ensures Lower(Lower(s)) == Lower(s)
  {
  }

  predicate AllDigits(s: string) {
    forall i :: 0 <= i < |s| ==> IsDigit(s[i])
  }

  /** Python's `int()` applied to a string of decimal digits. */
  function DigitsValue(s: string): nat
    requires AllDigits(s)
    decreases |s|
  {
    if |s| == 0 then 0
    else DigitsValue(s[..|s| - 1]) * 10 + (s[|s| - 1] as int - '0' as int)
  }

  function DigitChar(d: nat): (c: char)
    requires d < 10
    ensures IsDigit(c)
  {
    ('0' as int + d) as char
  }

  /** Python's `str()` (or `"%s" %`) applied to a non-negative integer. */
  function NatToString(n: nat): (r: string)
    ensures |r| > 0 && AllDigits(r)
    decreases n
  {
    if n < 10 then [DigitChar(n)] else NatToString(n / 10) + [DigitChar(n % 10)]
  }

  /** Reading back the decimal rendering of a number gives the number. */
  lemma {:induction false} DigitsValueOfNatToString(n: nat)
    ensures DigitsValue(NatToString(n)) == n
    decreases n
  {
    if n >= 10 {
      var r := NatToString(n);
      assert r[..|r| - 1] == NatToString(n / 10);
      DigitsValueOfNatToString(n / 10);
    }
  }

  /** Different numbers render differently. */
  lemma NatToStringInjective(a: nat, b: nat)
    requires NatToString(a) == NatToString(b)
    ensures a == b
  {
    DigitsValueOfNatToString(a);
    DigitsValueOfNatToString(b);
  }

  /** Python's `s.replace(pattern, replacement)`: every non-overlapping
      occurrence of `pattern`, scanning left to right, is replaced. */
  function Replace(s: string, pattern: string, replacement: string): string
    requires |pattern| > 0
    decreases |s|
  {
    if |s| < |pattern| then s
    else if s[..|pattern|] == pattern then replacement + Replace(s[|pattern|..], pattern, replacement)
    else [s[0]] + Replace(s[1..], pattern, replacement)
  }

  /** Text that does not contain the pattern's first character has nothing
      to replace. */
  lemma {:induction false} ReplaceWithoutFirstChar(s: string, pattern: string, replacement: string)
    requires |pattern| > 0
    requires pattern[0] !in s
    ensures Replace(s, pattern, replacement) == s
    decreases |s|
  {
    if |s| >= |pattern| {
      assert s[0] != pattern[0];
      assert s[..|pattern|][0] == s[0];
      ReplaceWithoutFirstChar(s[1..], pattern, replacement);
    }
  }

  /** Replacing in exactly the pattern yields exactly the replacement. */
  lemma ReplaceWhole(pattern: string, replacement: string)
    requires |pattern| > 0
    ensures Replace(pattern, pattern, replacement) == replacement
  {
    assert pattern[|pattern|..] == [];
  }
}
