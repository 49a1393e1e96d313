/** The remaining text helpers of `Formatting`: turning a literal pattern
    into an anchored regular expression (`fnRegexpify`), trimming a trailing
    line break (`fnTrimNewline`) and substituting capture groups into a send
    template (the group part of `fnExpandRE`). */
module Templates {
  import opened Wrappers
  import opened Text

  /** The characters `fnRegexpify` escapes (muddrop.py line 117). Note that
      '{', '}', '~' and the space are not among them. */
  predicate IsMeta(c: char) {
    || c == '[' || c == ']' || c == '-' || c == '=' || c == '_' || c == '+'
    || c == '"' || c == '\'' || c == ';' || c == ':' || c == '/' || c == '?'
    || c == '\\' || c == '.' || c == '>' || c == ',' || c == '<' || c == '!'
    || c == '@' || c == '#' || c == '$' || c == '%' || c == '^' || c == '&'
    || c == '*' || c == '(' || c == ')' || c == '|'
  }

  /** Each metacharacter gets a backslash in front of it. */
  function EscapeLiteral(s: string): (r: string)
    ensures |r| >= |s|
    decreases |s|
  {
    if |s| == 0 then []
    else (if IsMeta(s[0]) then ['\\', s[0]] else [s[0]]) + EscapeLiteral(s[1..])
  }

  /** `fnRegexpify`: the escaped literal anchored at both ends. */
  function Regexpify(s: string): (r: string)
    ensures |r| >= 2 && r[0] == '^' && r[|r| - 1] == '$'
    ensures r[1..|r| - 1] == EscapeLiteral(s)
  {
    "^" + EscapeLiteral(s) + "$"
  }

  /** Drops the backslash in front of every escaped character. */
  function Unescape(r: string): string
    decreases |r|
  {
    if |r| == 0 then []
    else if r[0] == '\\' && |r| >= 2 then [r[1]] + Unescape(r[2..])
    else [r[0]] + Unescape(r[1..])
  }

  /** Every metacharacter of `r` is escaped, and every backslash escapes a
      metacharacter. */
  predicate WellEscaped(r: string)
    decreases |r|
  {
    if |r| == 0 then true
    else if r[0] == '\\' then |r| >= 2 && IsMeta(r[1]) && WellEscaped(r[2..])
    else !IsMeta(r[0]) && WellEscaped(r[1..])
  }

  /** Escaping leaves no metacharacter bare, and unescaping recovers the
      literal exactly. */
  lemma {:induction false} EscapeLiteralRoundTrip(s: string)
    ensures WellEscaped(EscapeLiteral(s))
    ensures Unescape(EscapeLiteral(s)) == s
    decreases |s|
  {
    if |s| > 0 {
      EscapeLiteralRoundTrip(s[1..]);
      var rest := EscapeLiteral(s[1..]);
      if IsMeta(s[0]) {
        assert EscapeLiteral(s) == ['\\', s[0]] + rest;
        assert (['\\', s[0]] + rest)[2..] == rest;
      } else {
        assert EscapeLiteral(s) == [s[0]] + rest;
        assert ([s[0]] + rest)[1..] == rest;
        assert s[0] != '\\';
      }
    }
  }

  /** Conversely, every well-escaped text is the escaping of its unescaped
      form, so escaping is a bijection onto the well-escaped texts. */
  lemma {:induction false} WellEscapedIsEscaped(r: string)
    requires WellEscaped(r)
    ensures EscapeLiteral(Unescape(r)) == r
    decreases |r|
  {
    if |r| > 0 {
      if r[0] == '\\' {
        WellEscapedIsEscaped(r[2..]);
        assert Unescape(r) == [r[1]] + Unescape(r[2..]);
        assert ([r[1]] + Unescape(r[2..]))[1..] == Unescape(r[2..]);
        assert r == [r[0], r[1]] + r[2..];
      } else {
        WellEscapedIsEscaped(r[1..]);
        assert Unescape(r) == [r[0]] + Unescape(r[1..]);
        assert ([r[0]] + Unescape(r[1..]))[1..] == Unescape(r[1..]);
        assert r == [r[0]] + r[1..];
      }
    }
  }

  /** The anchored pattern of a literal matches nothing but the literal:
      stripping the anchors and the escapes gives it back. */
  lemma RegexpifyRoundTrip(s: string)
    ensures WellEscaped(Regexpify(s)[1..|Regexpify(s)| - 1])
    ensures Unescape(Regexpify(s)[1..|Regexpify(s)| - 1]) == s
  {
    EscapeLiteralRoundTrip(s);
  }

  predicate EndsWith(s: string, suffix: string) {
    |suffix| <= |s| && s[|s| - |suffix|..] == suffix
  }

  /** `fnTrimNewline`: drops a final "\r\n" or "\n\r", else a final "\n". */
  function TrimNewline(s: string): (r: string)
    ensures |s| - 2 <= |r| <= |s| && r == s[..|r|]
    ensures r == s <==> !EndsWith(s, "\n") && !EndsWith(s, "\n\r")
  {
    if EndsWith(s, "\r\n") || EndsWith(s, "\n\r") then s[..|s| - 2]
    else if EndsWith(s, "\n") then s[..|s| - 1]
    else s
  }

  /** A line terminated by "\r\n" or "\n\r" loses exactly its terminator;
      one terminated by a lone "\n" loses it unless the text before it ends
      in '\r' (then the '\r' goes too). */
  lemma TrimNewlineRemovesTerminator(x: string)
    ensures TrimNewline(x + "\r\n") == x
    ensures TrimNewline(x + "\n\r") == x
    ensures TrimNewline(x + "\n") == x <==> !EndsWith(x, "\r")
  {
    assert (x + "\r\n")[..|x|] == x;
    assert (x + "\n\r")[..|x|] == x;
    var y := x + "\n";
    assert y[..|x|] == x;
    if EndsWith(x, "\r") {
      assert EndsWith(y, "\r\n") by {
        assert y[|y| - 2..] == [x[|x| - 1], '\n'];
      }
      assert |TrimNewline(y)| == |x| - 1;
    } else {
      assert !EndsWith(y, "\r\n") by {
        if |y| >= 2 {
          assert y[|y| - 2..][0] == x[|x| - 1];
        }
      }
      assert y[|y| - 1] == '\n';
      assert !EndsWith(y, "\n\r");
    }
  }

  /** Text of a capture group: a group that did not take part is "". */
  function GroupText(g: Option<string>): string {
    g.GetOr("")
  }

  /** The template reference `\g<name>` to a group. */
  function GroupRef(name: string): (r: string)
    ensures |r| > 0 && r[0] == '\\'
  {
    "\\g<" + name + ">"
  }

  /** Lines 35-41: `\g<1>`, `\g<2>`, ... replaced in turn, from group `i`
      (0-based) on. */
  function SubstituteNumbered(t: string, groups: seq<Option<string>>, i: nat): string
    decreases |groups| - i
  {
    if i >= |groups| then t
    else SubstituteNumbered(Replace(t, GroupRef(NatToString(i + 1)), GroupText(groups[i])), groups, i + 1)
  }

  /** Lines 42-45: `\g<name>` replaced in turn for each named group. */
  function SubstituteNamed(t: string, named: seq<(string, Option<string>)>): string
    decreases |named|
  {
    if |named| == 0 then t
    else SubstituteNamed(Replace(t, GroupRef(named[0].0), GroupText(named[0].1)), named[1..])
  }

  /** The group part of `fnExpandRE`. */
  function ExpandGroups(t: string, groups: seq<Option<string>>, named: seq<(string, Option<string>)>): string {
    SubstituteNamed(SubstituteNumbered(t, groups, 0), named)
  }

  lemma {:induction false} NumberedLeavesPlain(t: string, groups: seq<Option<string>>, i: nat)
    requires '\\' !in t
    ensures SubstituteNumbered(t, groups, i) == t
    decreases |groups| - i
  {
    if i < |groups| {
      ReplaceWithoutFirstChar(t, GroupRef(NatToString(i + 1)), GroupText(groups[i]));
      NumberedLeavesPlain(t, groups, i + 1);
    }
  }

  lemma {:induction false} NamedLeavesPlain(t: string, named: seq<(string, Option<string>)>)
    requires '\\' !in t
    ensures SubstituteNamed(t, named) == t
    decreases |named|
  {
    if |named| > 0 {
      ReplaceWithoutFirstChar(t, GroupRef(named[0].0), GroupText(named[0].1));
      NamedLeavesPlain(t, named[1..]);
    }
  }

  /** A template without a backslash has no group reference and is left
      as it is. */
  lemma ExpandGroupsLeavesPlain(t: string, groups: seq<Option<string>>, named: seq<(string, Option<string>)>)
    requires '\\' !in t
    ensures ExpandGroups(t, groups, named) == t
  {
    NumberedLeavesPlain(t, groups, 0);
    NamedLeavesPlain(t, named);
  }

  /** A reference to one numbered group is not touched when another group
      is substituted. */
  lemma OtherGroupRefUntouched(a: nat, b: nat, value: string)
    requires a != b
    ensures Replace(GroupRef(NatToString(a)), GroupRef(NatToString(b)), value) == GroupRef(NatToString(a))
  {
    var sa, sb := NatToString(a), NatToString(b);
    var ra, rb := GroupRef(sa), GroupRef(sb);
    if |rb| <= |ra| {
      if |sb| < |sa| {
        assert ra[..|rb|][3 + |sb|] == sa[|sb|] != '>' == rb[3 + |sb|];
      } else {
        if sa == sb {
          NatToStringInjective(a, b);
        }
        var i :| 0 <= i < |sa| && sa[i] != sb[i];
        assert ra[..|rb|][3 + i] == sa[i] != sb[i] == rb[3 + i];
      }
    }
    assert '\\' !in ra[1..];
    ReplaceWithoutFirstChar(ra[1..], rb, value);
  }

  lemma {:induction false} NumberedSingleRef(k: nat, groups: seq<Option<string>>, i: nat)
    requires 1 <= k <= |groups|
    requires i < k
    requires forall j :: 0 <= j < |groups| ==> '\\' !in GroupText(groups[j])
    ensures SubstituteNumbered(GroupRef(NatToString(k)), groups, i) == GroupText(groups[k - 1])
    decreases |groups| - i
  {
    var ref := GroupRef(NatToString(k));
    if i + 1 == k {
      ReplaceWhole(ref, GroupText(groups[i]));
      NumberedLeavesPlain(GroupText(groups[i]), groups, i + 1);
    } else {
      OtherGroupRefUntouched(k, i + 1, GroupText(groups[i]));
      NumberedSingleRef(k, groups, i + 1);
    }
  }

  /** A template that is just `\g<k>` renders as group k's text, and as ""
      when the group did not take part in the match (provided no group text
      itself holds a backslash, which would be substituted again). */
  lemma GroupRefRendersGroup(k: nat, groups: seq<Option<string>>, named: seq<(string, Option<string>)>)
    requires 1 <= k <= |groups|
    requires forall j :: 0 <= j < |groups| ==> '\\' !in GroupText(groups[j])
    ensures ExpandGroups(GroupRef(NatToString(k)), groups, named) == GroupText(groups[k - 1])
    ensures groups[k - 1].None? ==> ExpandGroups(GroupRef(NatToString(k)), groups, named) == ""
  {
    NumberedSingleRef(k, groups, 0);
    NamedLeavesPlain(GroupText(groups[k - 1]), named);
  }
}
