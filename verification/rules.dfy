/** Triggers and aliases (`Plugin.Trigger`, `Plugin.Alias`) and the scan of
    one namespace's rule list that `MUDdrop.fnMatchTriggers` and
    `MUDdrop.fnMatchAliases` perform (muddrop.py lines 199-281).

    Within one namespace the scan visits the rules in list order, skips
    disabled rules and rules that do not match, and fires every rule that
    does; a fired rule whose "keep evaluating" flag is off ends the scan of
    that namespace (the `break` leaves only the inner loop, so the next
    namespace is still scanned). */
module Rules {
  import opened Wrappers
  import opened Text
  import opened Ansi
  import opened Style
  import opened Templates
  import opened Dispatch

  /** A successful `search`: where the whole match starts in the subject,
      the numbered groups (None for a group that took no part) and the named
      groups. */
  datatype Match = Match(start: nat, groups: seq<Option<string>>, named: seq<(string, Option<string>)>)

  /** The Python runtime the model does not open up:
      `search(pattern, ignoreCase, subject)` is
      `re.compile(pattern, flags).search(subject)`;
      `substitute(template, variables)` is the `@variable` pass of
      `fnExpandRE` (lines 27-33);
      `expand(template, m)` is its final `m.expand(...)` (line 47). */
  datatype Engine = Engine(
    search: (string, bool, string) -> Option<Match>,
    substitute: (string, map<string, string>) -> string,
    expand: (string, Match) -> string)

  /** The style constraints of a trigger: each is tested only when its
      `match...` flag is set. Colours are numbered from 8, so the SGR code of
      back colour `c` is `c + 32` and of text colour `c` is `c + 22`. */
  datatype StyleFilter = StyleFilter(
    matchBold: bool, bold: bool,
    matchItalic: bool, italic: bool,
    matchInverse: bool, inverse: bool,
    matchBackColour: bool, backColour: int,
    matchTextColour: bool, textColour: int)

  /** A loaded trigger. `pattern` is the compiled pattern text, already
      anchored and escaped by `Regexpify` when the trigger is not a regular
      expression (lines 660-661). */
  datatype Trigger = Trigger(
    name: string, group: string, pattern: string, ignoreCase: bool,
    enabled: bool, keepAnsi: bool, keepEvaluating: bool, expandVariables: bool,
    sequence: int, filter: StyleFilter, sendTo: int, send: string, script: string)

  /** A loaded alias. */
  datatype Alias = Alias(
    name: string, group: string, pattern: string, ignoreCase: bool,
    enabled: bool, keepEvaluating: bool, expandVariables: bool, echo: bool,
    sequence: int, sendTo: int, send: string, script: string)

  /** Lines 217-231: every requested constraint holds of the style codes. */
  predicate StyleAccepts(f: StyleFilter, style: seq<nat>) {
    && (f.matchBold ==> f.bold == (1 in style))
    && (f.matchItalic ==> f.italic == (3 in style))
    && (f.matchInverse ==> f.inverse == (7 in style))
    && (f.matchBackColour ==> f.backColour + 32 in style)
    && (f.matchTextColour ==> f.textColour + 22 in style)
  }

  /** Lines 212-215: the style at the raw offset of a match found in the
      stripped line, or the last known style when no SGR sequence precedes
      it. */
  function MatchStyle(line: string, start: nat, lastStyle: seq<nat>): seq<nat> {
    StyleAt(line, LineBeginning(line, start)).GetOr(lastStyle)
  }

  /** The match with which trigger `t` fires on `line`, or None when it is
      disabled, its pattern does not match, or a style constraint fails.
      Style is only tested when matching the stripped line. */
  function TriggerMatch(t: Trigger, line: string, lastStyle: seq<nat>, engine: Engine): (r: Option<Match>)
    ensures r.Some? ==> t.enabled
    ensures t.keepAnsi ==> r == (if t.enabled then engine.search(t.pattern, t.ignoreCase, line) else None)
    ensures r.Some? && !t.keepAnsi ==>
              r == engine.search(t.pattern, t.ignoreCase, Strip(line)) &&
              StyleAccepts(t.filter, MatchStyle(line, r.value.start, lastStyle))
    ensures t.enabled && !t.keepAnsi ==>
              (r.Some? <==> engine.search(t.pattern, t.ignoreCase, Strip(line)).Some? &&
                            StyleAccepts(t.filter, MatchStyle(line, engine.search(t.pattern, t.ignoreCase, Strip(line)).value.start, lastStyle)))
  {
    if !t.enabled then None
    else if t.keepAnsi then engine.search(t.pattern, t.ignoreCase, line)
    else
      match engine.search(t.pattern, t.ignoreCase, Strip(line))
      case None => None
      case Some(m) => if StyleAccepts(t.filter, MatchStyle(line, m.start, lastStyle)) then Some(m) else None
  }

  /** Aliases match the line as the client typed it; there is no style test. */
  function AliasMatch(a: Alias, line: string, engine: Engine): (r: Option<Match>)
    ensures r.Some? ==> a.enabled
    ensures a.enabled ==> r == engine.search(a.pattern, a.ignoreCase, line)
  {
    if a.enabled then engine.search(a.pattern, a.ignoreCase, line) else None
  }

  /** `fnExpandRE`: variables, then groups, then `expand`. */
  function Render(template: string, m: Match, variables: map<string, string>, engine: Engine): string {
    engine.expand(ExpandGroups(engine.substitute(template, variables), m.groups, m.named), m)
  }

  /** Lines 236-246: what a fired trigger does. Variables are expanded from
      the namespace's map only when the trigger asks for it. */
  function FireTrigger(namespace: string, variables: map<string, string>, t: Trigger, line: string, m: Match, engine: Engine): (r: seq<Event>)
    ensures t.script != "" ==> |r| > 0 && r[|r| - 1] == CallScript(namespace, t.script, RuleArgs(t.name, line, m.groups))
    ensures var text := Render(t.send, m, if t.expandVariables then variables else map[], engine);
            var call := ScriptCall(namespace, t.script, RuleArgs(t.name, line, m.groups));
            && (t.sendTo == SendToWorld ==> r == SendData(text) + call)
            && (t.sendTo == SendToScript ==> r == [ExecCode(namespace, text)] + call)
            && (t.sendTo != SendToWorld && t.sendTo != SendToScript ==> r == call)
  {
    var text := Render(t.send, m, if t.expandVariables then variables else map[], engine);
    SendTo(namespace, t.sendTo, text) + ScriptCall(namespace, t.script, RuleArgs(t.name, line, m.groups))
  }

  /** Lines 265-278: what a fired alias does. An echoing alias also writes
      the rendered text to the local client. */
  function FireAlias(namespace: string, variables: map<string, string>, a: Alias, line: string, m: Match, engine: Engine): (r: seq<Event>)
    ensures a.script != "" ==> |r| > 0 && r[|r| - 1] == CallScript(namespace, a.script, RuleArgs(a.name, line, m.groups))
    ensures a.sendTo != SendToWorld ==> forall e :: e in r ==> !e.ToClient?
    ensures var text := Render(a.send, m, if a.expandVariables then variables else map[], engine);
            var call := ScriptCall(namespace, a.script, RuleArgs(a.name, line, m.groups));
            && (a.sendTo == SendToWorld ==> r == (if a.echo then [ToClient(text + "\n")] else []) + SendData(text) + call)
            && (a.sendTo == SendToScript ==> r == [ExecCode(namespace, text)] + call)
            && (a.sendTo != SendToWorld && a.sendTo != SendToScript ==> r == call)
  {
    var text := Render(a.send, m, if a.expandVariables then variables else map[], engine);
    var sent :=
      if a.sendTo == SendToWorld then (if a.echo then [ToClient(text + "\n")] else []) + SendData(text)
      else SendTo(namespace, a.sendTo, text);
    sent + ScriptCall(namespace, a.script, RuleArgs(a.name, line, m.groups))
  }

  /** The indices of the rules that fire, scanning from rule `i`. */
  function Selected<R>(rules: seq<R>, accept: R -> Option<Match>, keep: R -> bool, i: nat): (sel: seq<nat>)
    requires i <= |rules|
    ensures forall n :: n in sel ==> i <= n < |rules| && accept(rules[n]).Some?
    ensures forall a, b :: 0 <= a < b < |sel| ==> sel[a] < sel[b]
    decreases |rules| - i
  {
    if i == |rules| then []
    else if accept(rules[i]).None? then Selected(rules, accept, keep, i + 1)
    else
      var rest := if keep(rules[i]) then Selected(rules, accept, keep, i + 1) else [];
      assert forall b :: 0 <= b < |rest| ==> i < rest[b] by {
        forall b | 0 <= b < |rest|
          ensures i < rest[b]
        {
          assert rest[b] in rest;
        }
      }
      [i] + rest
  }

  /** Rule `n` fires when it matches and no earlier matching rule of the
      namespace (from `i` on) stopped the scan. */
  ghost predicate FiresFrom<R>(rules: seq<R>, accept: R -> Option<Match>, keep: R -> bool, i: nat, n: nat) {
    && i <= n < |rules|
    && accept(rules[n]).Some?
    && forall j :: i <= j < n && accept(rules[j]).Some? ==> keep(rules[j])
  }

  lemma {:induction false} SelectedIsFiresFrom<R>(rules: seq<R>, accept: R -> Option<Match>, keep: R -> bool, i: nat)
    requires i <= |rules|
    ensures forall n: nat :: n in Selected(rules, accept, keep, i) <==> FiresFrom(rules, accept, keep, i, n)
    decreases |rules| - i
  {
    if i < |rules| {
      SelectedIsFiresFrom(rules, accept, keep, i + 1);
      forall n: nat
        ensures n in Selected(rules, accept, keep, i) <==> FiresFrom(rules, accept, keep, i, n)
      {
        if n > i && accept(rules[i]).Some? {
          assert FiresFrom(rules, accept, keep, i, n) ==> keep(rules[i]);
        }
      }
    }
  }

  /** The scan fires exactly the matching rules that no earlier matching,
      non-keep-evaluating rule of the same list precedes, in list order. */
  lemma SelectedIsFires<R>(rules: seq<R>, accept: R -> Option<Match>, keep: R -> bool)
    ensures forall n: nat :: n in Selected(rules, accept, keep, 0) <==>
              && n < |rules|
              && accept(rules[n]).Some?
              && forall j :: 0 <= j < n && accept(rules[j]).Some? ==> keep(rules[j])
  {
    SelectedIsFiresFrom(rules, accept, keep, 0);
  }

  /** Nothing fires exactly when no rule from `i` on matches: the scan can
      only stop after a rule has fired. */
  lemma {:induction false} SelectedEmptyIff<R>(rules: seq<R>, accept: R -> Option<Match>, keep: R -> bool, i: nat)
    requires i <= |rules|
    ensures Selected(rules, accept, keep, i) == [] <==> forall j :: i <= j < |rules| ==> accept(rules[j]).None?
    decreases |rules| - i
  {
    if i < |rules| {
      SelectedEmptyIff(rules, accept, keep, i + 1);
    }
  }

  /** A rule that does not match, or whose style test fails, is passed over
      without ending the scan. */
  lemma RejectedRuleIsSkipped<R>(rules: seq<R>, accept: R -> Option<Match>, keep: R -> bool, i: nat)
    requires i < |rules|
    requires accept(rules[i]).None?
    ensures Selected(rules, accept, keep, i) == Selected(rules, accept, keep, i + 1)
  {
  }

  /** A matching rule without "keep evaluating" is the last one to fire. */
  lemma StopRuleEndsScan<R>(rules: seq<R>, accept: R -> Option<Match>, keep: R -> bool, i: nat)
    requires i < |rules|
    requires accept(rules[i]).Some? && !keep(rules[i])
    ensures Selected(rules, accept, keep, i) == [i]
  {
  }

  /** The events of the fired rules, in firing order. */
  function FireAll<R>(rules: seq<R>, sel: seq<nat>, accept: R -> Option<Match>, fire: (R, Match) -> seq<Event>): (r: seq<Event>)
    requires forall n :: n in sel ==> n < |rules| && accept(rules[n]).Some?
    ensures sel == [] ==> r == []
    decreases |sel|
  {
    if |sel| == 0 then []
    else
      assert sel[0] in sel;
      assert forall n :: n in sel[1..] ==> n in sel;
      fire(rules[sel[0]], accept(rules[sel[0]]).value) + FireAll(rules, sel[1..], accept, fire)
  }

  /** ESC[1;31m "You are hit!" ESC[0m: bold red text. */
  const BoldRedLine: string := [Esc, '[', '1', ';', '3', '1', 'm'] + "You are hit!" + [Esc, '[', '0', 'm']

  /** On the bold red line, a match at the start of the stripped line has
      style 1, 31, 40: a trigger asking for bold text in colour 9 (SGR 31)
      accepts it and one asking for text that is not bold rejects it. */
  lemma StyleFilterExample()
    ensures var bold := StyleFilter(true, true, false, false, false, false, false, 0, true, 9);
            var plain := bold.(bold := false);
            && MatchStyle(BoldRedLine, 0, [37, 40]) == [1, 31, 40]
            && StyleAccepts(bold, MatchStyle(BoldRedLine, 0, [37, 40]))
            && !StyleAccepts(plain, MatchStyle(BoldRedLine, 0, [37, 40]))
  {
    BoldRedBeginning();
    BoldRedStyle();
    assert HasForeground([1, 31]) by {
      assert 31 in [1, 31];
    }
    assert CompleteStyle([1, 31]) == [1, 31, 40];
  }

  lemma BoldRedEscape()
    ensures EscapeLength(BoldRedLine, 0) == 7
  {
    var line := BoldRedLine;
    assert ParamEnd(line, 6) == 6;
    assert ParamEnd(line, 5) == 6;
    assert ParamEnd(line, 4) == 6;
    assert ParamEnd(line, 3) == 6;
    assert ParamEnd(line, 2) == 6;
    var w := line[2..6];
    assert w == ['1', ';', '3', '1'];
    assert w[1..] == [';', '3', '1'] && w[1..][1..] == ['3', '1'] && w[1..][1..][1..] == ['1'];
    assert NoDoubleSemicolon(w[1..][1..]);
    assert NoDoubleSemicolon(w[1..]);
    assert ParamList(w);
  }

  lemma BoldRedBeginning()
    ensures LineBeginning(BoldRedLine, 0) == 7
  {
    var line := BoldRedLine;
    BoldRedEscape();
    assert EscapeLength(line, 7) == 0;
    assert BeginFrom(line, 0, 0) == BeginFrom(line, 7, 7);
    assert BeginFrom(line, 7, 7) == BeginFrom(line, 8, 7);
    BeginFromPast(line, 8, 7);
  }

  lemma BoldRedStyle()
    ensures LastSgrFrom(Before(BoldRedLine, 7), 0, None) == Some([1, 31])
  {
    var t := Before(BoldRedLine, 7);
    assert t == [Esc, '[', '1', ';', '3', '1', 'm'];
    assert SgrAt(t, 0) == Some(Sgr(7, [1, 31])) by {
      assert DigitEnd(t, 3) == 3 && DigitEnd(t, 2) == 3;
      assert t[2..3] == ['1'];
      assert DigitsValue(t[2..3]) == 1;
      assert DigitEnd(t, 6) == 6 && DigitEnd(t, 5) == 6 && DigitEnd(t, 4) == 6;
      assert t[4..6] == ['3', '1'] && t[4..6][..1] == ['3'];
      assert DigitsValue(t[4..6]) == 31;
      assert SgrParams(t, 4, 1) == Some(Sgr(7, [31]));
      assert t[2] == '1' && IsDigit(t[2]) && t[3] == ';';
      var one: seq<nat> := [1];
      assert one + [31] == [1, 31];
      assert SgrParams(t, 2, 0) == Some(Sgr(7, [1, 31]));
    }
    assert LastSgrFrom(t, 7, Some([1, 31])) == Some([1, 31]);
  }
}
