/** `Formatting.fnGetStyle` (muddrop.py lines 75-103): the style codes in
    force at an offset of a raw line, taken from the last SGR sequence
    ("Select Graphic Rendition", section 8.3.117 of ECMA-48) before it.

    The style pattern of line 82 accepts ESC '[' then at most five
    parameters, each a run of digits optionally followed by ';', then 'm'.
    A run of digits is always taken whole (splitting it could only need more
    of the five groups), so the captured parameters are the maximal digit
    runs. A sequence with six or more parameters is not recognised at all. */
module Style {
  import opened Wrappers
  import opened Text
  import opened Ansi

  /** The parameters of one recognised SGR sequence and the index just past
      its final 'm'. */
  datatype Sgr = Sgr(end: nat, params: seq<nat>)

  /** Reads parameters from `j` on, `count` of them read already. */
  function SgrParams(t: string, j: nat, count: nat): (r: Option<Sgr>)
    requires j <= |t|
    requires count <= 5
    ensures r.Some? ==> j < r.value.end <= |t| && t[r.value.end - 1] == 'm'
    ensures r.Some? ==> forall q :: j <= q < r.value.end ==> t[q] != Esc
    ensures r.Some? ==> count + |r.value.params| <= 5
    decreases |t| - j
  {
    if j == |t| then None
    else if t[j] == 'm' then Some(Sgr(j + 1, []))
    else if IsDigit(t[j]) && count < 5 then
      var e := DigitEnd(t, j);
      assert forall q :: j <= q < e ==> t[q] == t[j..e][q - j];
      var v := DigitsValue(t[j..e]);
      if e < |t| && t[e] == ';' then
        match SgrParams(t, e + 1, count + 1)
        case None => None
        case Some(rest) => Some(Sgr(rest.end, [v] + rest.params))
      else if e < |t| && t[e] == 'm' then Some(Sgr(e + 1, [v]))
      else None
    else None
  }

  /** The SGR sequence the style pattern recognises at `p`, if any. */
  function SgrAt(t: string, p: nat): (r: Option<Sgr>)
    requires p <= |t|
    ensures r.Some? ==> p < r.value.end <= |t| && t[p] == Esc && p < r.value.end <= |t| && |r.value.params| <= 5
    ensures r.Some? ==> forall q :: p < q < r.value.end ==> t[q] != Esc
  {
    if p + 1 < |t| && t[p] == Esc && t[p + 1] == '[' then SgrParams(t, p + 2, 0) else None
  }

  /** `re.findall(...)[-1]` on `t[i..]`: scanning left to right, skipping
      past each sequence found, the parameters of the last one; `acc` if
      there is none. */
  function LastSgrFrom(t: string, i: nat, acc: Option<seq<nat>>): Option<seq<nat>>
    requires i <= |t|
    decreases |t| - i
  {
    if i == |t| then acc
    else
      match SgrAt(t, i)
      case Some(m) => LastSgrFrom(t, m.end, Some(m.params))
      case None => LastSgrFrom(t, i + 1, acc)
  }

  predicate HasForeground(codes: seq<nat>) {
    exists c :: c in codes && 30 <= c <= 37
  }

  predicate HasBackground(codes: seq<nat>) {
    exists c :: c in codes && 40 <= c <= 47
  }

  /** Lines 92-102: a style missing a foreground colour gets white (37), one
      missing a background colour gets black (40). */
  function CompleteStyle(codes: seq<nat>): (r: seq<nat>)
    ensures HasForeground(r) && HasBackground(r)
    ensures |codes| <= |r| <= |codes| + 2 && r[..|codes|] == codes
    ensures forall c :: c in r[|codes|..] ==> c == 37 || c == 40
    ensures 37 in r[|codes|..] <==> !HasForeground(codes)
    ensures 40 in r[|codes|..] <==> !HasBackground(codes)
  {
    var fore: seq<nat> := if HasForeground(codes) then [] else [37];
    var back: seq<nat> := if HasBackground(codes) then [] else [40];
    AddedColours(fore, back);
    Completed(codes, fore, back);
    codes + fore + back
  }

  /** A style without colours gets white on black appended, in that order. */
  lemma CompleteColourless(codes: seq<nat>)
    requires !HasForeground(codes) && !HasBackground(codes)
    ensures CompleteStyle(codes) == codes + [37, 40]
  {
  }

  /** What the added codes are. */
  lemma AddedColours(fore: seq<nat>, back: seq<nat>)
    requires fore == [] || fore == [37]
    requires back == [] || back == [40]
    ensures forall c :: c in fore + back ==> c == 37 || c == 40
    ensures 37 in fore + back <==> fore == [37]
    ensures 40 in fore + back <==> back == [40]
  {
    if fore == [37] { assert (fore + back)[0] == 37; }
    if back == [40] { assert (fore + back)[|fore|] == 40; }
  }

  /** The completed style starts with the original codes and has both a
      foreground and a background colour. */
  lemma Completed(codes: seq<nat>, fore: seq<nat>, back: seq<nat>)
    requires fore == (if HasForeground(codes) then [] else [37])
    requires back == (if HasBackground(codes) then [] else [40])
    ensures var r := codes + fore + back;
            && HasForeground(r) && HasBackground(r)
            && r[..|codes|] == codes && r[|codes|..] == fore + back
  {
    var r := codes + fore + back;
    assert r[|codes|..] == fore + back;
    if HasForeground(codes) {
      var c :| c in codes && 30 <= c <= 37;
      assert c in r;
    } else {
      assert r[|codes|] == 37 && r[|codes|] in r;
    }
    if HasBackground(codes) {
      var c :| c in codes && 40 <= c <= 47;
      assert c in r;
    } else {
      assert r[|r| - 1] == 40 && r[|r| - 1] in r;
    }
  }

  /** Python's slice `s[0:offset]`, which clamps an offset past the end. */
  function Before(s: string, offset: nat): (t: string)
    ensures t == s[..if offset < |s| then offset else |s|]
  {
    s[..if offset < |s| then offset else |s|]
  }

  /** `fnGetStyle(s, offset)`: None when no SGR sequence lies wholly before
      `offset`, else the completed parameters of the last one. */
  function StyleAt(s: string, offset: nat): (r: Option<seq<nat>>)
    ensures r.Some? ==> HasForeground(r.value) && HasBackground(r.value)
  {
    match LastSgrFrom(Before(s, offset), 0, None)
    case None => None
    case Some(codes) => Some(CompleteStyle(codes))
  }

  /** `p` is where the last recognised SGR sequence of `t` starts. */
  ghost predicate IsLastSgr(t: string, p: nat) {
    && p < |t|
    && SgrAt(t, p).Some?
    && forall q :: p < q < |t| ==> SgrAt(t, q).None?
  }

  lemma {:induction false} NoSgrKeepsAcc(t: string, i: nat, acc: Option<seq<nat>>)
    requires i <= |t|
    requires forall q :: i <= q < |t| ==> SgrAt(t, q).None?
    ensures LastSgrFrom(t, i, acc) == acc
    decreases |t| - i
  {
    if i < |t| {
      NoSgrKeepsAcc(t, i + 1, acc);
    }
  }

  lemma {:induction false} SomeAccStaysSome(t: string, i: nat, acc: Option<seq<nat>>)
    requires i <= |t|
    requires acc.Some?
    ensures LastSgrFrom(t, i, acc).Some?
    decreases |t| - i
  {
    if i < |t| {
      match SgrAt(t, i)
      case Some(m) => SomeAccStaysSome(t, m.end, Some(m.params));
      case None => SomeAccStaysSome(t, i + 1, acc);
    }
  }

  /** A sequence anywhere in `t[i..]` makes the scan find something. */
  lemma {:induction false} SgrFound(t: string, i: nat, p: nat, acc: Option<seq<nat>>)
    requires i <= p < |t|
    requires SgrAt(t, p).Some?
    ensures LastSgrFrom(t, i, acc).Some?
    decreases |t| - i
  {
    match SgrAt(t, i)
    case Some(m) =>
      if i == p {
        SomeAccStaysSome(t, m.end, Some(m.params));
      } else {
        assert p >= m.end;
        SgrFound(t, m.end, p, Some(m.params));
      }
    case None => SgrFound(t, i + 1, p, acc);
  }

  /** The scan returns the parameters of the last sequence at or after `i`,
      however many came before it. */
  lemma {:induction false} LastSgrIsLast(t: string, i: nat, p: nat, acc: Option<seq<nat>>)
    requires i <= p
    requires IsLastSgr(t, p)
    ensures LastSgrFrom(t, i, acc) == Some(SgrAt(t, p).value.params)
    decreases |t| - i
  {
    match SgrAt(t, i)
    case Some(m) =>
      if i == p {
        NoSgrKeepsAcc(t, m.end, Some(m.params));
      } else {
        assert p >= m.end;
        LastSgrIsLast(t, m.end, p, Some(m.params));
      }
    case None => LastSgrIsLast(t, i + 1, p, acc);
  }

  /** The style at an offset is absent exactly when no SGR sequence lies
      wholly before it, and otherwise is the completed parameters of the
      LAST such sequence; earlier sequences do not contribute. */
  lemma StyleAtIsLastSequence(s: string, offset: nat)
    ensures StyleAt(s, offset).None? <==>
            forall p :: 0 <= p < |Before(s, offset)| ==> SgrAt(Before(s, offset), p).None?
    ensures forall p :: IsLastSgr(Before(s, offset), p) ==>
            StyleAt(s, offset) == Some(CompleteStyle(SgrAt(Before(s, offset), p).value.params))
  {
    var t := Before(s, offset);
    if forall p :: 0 <= p < |t| ==> SgrAt(t, p).None? {
      NoSgrKeepsAcc(t, 0, None);
    } else {
      var p :| 0 <= p < |t| && SgrAt(t, p).Some?;
      SgrFound(t, 0, p, None);
    }
    forall p | IsLastSgr(t, p)
      ensures StyleAt(s, offset) == Some(CompleteStyle(SgrAt(t, p).value.params))
    {
      LastSgrIsLast(t, 0, p, None);
    }
  }

  /** At offset 0 there is never a style: callers fall back to the last
      known one, white on black (37, 40) at the start of a session. */
  lemma NoStyleAtLineStart(s: string)
    ensures StyleAt(s, 0) == None
  {
  }
}
