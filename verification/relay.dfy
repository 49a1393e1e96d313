/** The relay's dispatch over all namespaces (`MUDdrop`, muddrop.py lines
    163-298): trigger matching on each line from the game server, alias
    matching on each line from the local client, the timer tick, and line
    assembly feeding the trigger pass.

    Namespaces are visited in the order of the plugin dictionary's values,
    given here as a sequence. A rule that fires without "keep evaluating"
    ends the scan of its own namespace only. Script functions are events;
    their effects on the namespaces are not applied during the scan. */
module Relay {
  import opened Wrappers
  import opened Text
  import opened Ansi
  import opened Style
  import opened Rules
  import opened Dispatch
  import opened Timers
  import opened Plugins
  import opened Lines

  // ---------------------------------------------------------------------
  // Triggers (lines 195-249)

  function TriggerAccept(line: string, style: seq<nat>, engine: Engine): Trigger -> Option<Match> {
    t => TriggerMatch(t, line, style, engine)
  }

  function TriggerKeep(): Trigger -> bool {
    (t: Trigger) => t.keepEvaluating
  }

  /** The events of one namespace's triggers on a line, with `style` as the
      fallback for matches that no SGR sequence precedes. */
  function NamespaceTriggers(ns: Namespace, line: string, style: seq<nat>, engine: Engine): seq<Event> {
    var accept := TriggerAccept(line, style, engine);
    FireAll(ns.triggers, Selected(ns.triggers, accept, TriggerKeep(), 0), accept,
            (t: Trigger, m: Match) => FireTrigger(ns.name, ns.variables, t, line, m, engine))
  }

  /** Each namespace's events, one namespace after another. */
  function EachNamespace(events: Namespace -> seq<Event>, nss: seq<Namespace>): seq<Event>
    decreases |nss|
  {
    if nss == [] then [] else events(nss[0]) + EachNamespace(events, nss[1..])
  }

  lemma {:induction false} EachNamespaceAppend(events: Namespace -> seq<Event>, a: seq<Namespace>, b: seq<Namespace>)
    ensures EachNamespace(events, a + b) == EachNamespace(events, a) + EachNamespace(events, b)
    decreases |a|
  {
    if a == [] {
      assert a + b == b;
    } else {
      assert (a + b)[0] == a[0];
      assert (a + b)[1..] == a[1..] + b;
      EachNamespaceAppend(events, a[1..], b);
    }
  }

  /** The namespaces' trigger events, one namespace after another. */
  function TriggerEvents(nss: seq<Namespace>, line: string, style: seq<nat>, engine: Engine): seq<Event> {
    EachNamespace(ns => NamespaceTriggers(ns, line, style, engine), nss)
  }

  /** A stop rule in one namespace does not keep the next namespace's
      triggers from firing: the events of a run of namespaces are the
      events of its parts, in order. */
  lemma TriggerEventsAppend(a: seq<Namespace>, b: seq<Namespace>, line: string, style: seq<nat>, engine: Engine)
    ensures TriggerEvents(a + b, line, style, engine) == TriggerEvents(a, line, style, engine) + TriggerEvents(b, line, style, engine)
  {
    EachNamespaceAppend(ns => NamespaceTriggers(ns, line, style, engine), a, b);
  }

  /** A namespace none of whose triggers accepts the line adds nothing. */
  lemma NamespaceWithoutMatchIsSilent(ns: Namespace, line: string, style: seq<nat>, engine: Engine)
    requires forall j :: 0 <= j < |ns.triggers| ==> TriggerMatch(ns.triggers[j], line, style, engine).None?
    ensures NamespaceTriggers(ns, line, style, engine) == []
  {
    SelectedEmptyIff(ns.triggers, TriggerAccept(line, style, engine), TriggerKeep(), 0);
  }

  /** The style carried from line to line and the events of one trigger
      pass. */
  datatype TriggerPass = TriggerPass(lastStyle: seq<nat>, events: seq<Event>)

  /** Lines 196-198: the carried style becomes the style at the end of the
      line when the line has an SGR sequence. */
  function NextStyle(line: string, lastStyle: seq<nat>): (r: seq<nat>)
    ensures StyleAt(line, |line|).None? ==> r == lastStyle
    ensures StyleAt(line, |line|).Some? ==> r == StyleAt(line, |line|).value
    ensures HasForeground(lastStyle) && HasBackground(lastStyle) ==> HasForeground(r) && HasBackground(r)
    ensures Plain(line) ==> r == lastStyle
  {
    if Plain(line) then
      PlainHasNoStyle(line);
      lastStyle
    else StyleAt(line, |line|).GetOr(lastStyle)
  }

  /** A line without escape bytes has no SGR sequence. */
  lemma PlainHasNoStyle(line: string)
    requires Plain(line)
    ensures StyleAt(line, |line|) == None
  {
    var t := Before(line, |line|);
    assert t == line;
    forall p | 0 <= p < |t|
      ensures SgrAt(t, p).None?
    {
      assert t[p] in line;
    }
    StyleAtIsLastSequence(line, |line|);
  }

  /** `fnMatchTriggers` as written: the carried style is updated to the end
      of this line BEFORE the triggers are tried, so a match that no SGR
      sequence precedes is judged by the style this line ends with. */
  function MatchTriggersAsWritten(nss: seq<Namespace>, line: string, lastStyle: seq<nat>, engine: Engine): (r: TriggerPass)
    ensures r.lastStyle == NextStyle(line, lastStyle)
    ensures r.events == TriggerEvents(nss, line, NextStyle(line, lastStyle), engine)
    ensures Plain(line) ==> r.events == TriggerEvents(nss, line, lastStyle, engine)
  {
    var style := NextStyle(line, lastStyle);
    TriggerPass(style, TriggerEvents(nss, line, style, engine))
  }

  /** `fnMatchTriggers` judging a match that no SGR sequence precedes by the
      style carried from the lines before, and updating the carried style
      afterwards. */
  function MatchTriggers(nss: seq<Namespace>, line: string, lastStyle: seq<nat>, engine: Engine): (r: TriggerPass)
    ensures r.lastStyle == NextStyle(line, lastStyle)
    ensures r.events == TriggerEvents(nss, line, lastStyle, engine)
    ensures Plain(line) ==> r == MatchTriggersAsWritten(nss, line, lastStyle, engine)
  {
    TriggerPass(NextStyle(line, lastStyle), TriggerEvents(nss, line, lastStyle, engine))
  }

  /** The line "hit" ESC[1m: "hit" is shown in the style carried from
      earlier lines (plain white on black); only what follows is bold. */
  const HitLine: string := ['h', 'i', 't', Esc, '[', '1', 'm']

  /** A trigger on "hit" for text that is NOT bold, with a script to call. */
  const NotBoldTrigger: Trigger := Trigger(
    "notbold", "", "hit", false, true, false, true, false, 0,
    StyleFilter(true, false, false, false, false, false, false, 0, false, 0),
    -1, "", "onhit")

  lemma HitLineFacts()
    ensures Strip(HitLine) == "hit"
    ensures LineBeginning(HitLine, 0) == 0
    ensures StyleAt(HitLine, 0) == None
    ensures NextStyle(HitLine, [37, 40]) == [1, 37, 40]
  {
    HitLineStrip();
    HitLineStyle();
  }

  lemma HitLineEscape()
    ensures EscapeLength(HitLine, 3) == 4
    ensures EscapeLength(HitLine, 0) == 0 && EscapeLength(HitLine, 1) == 0 && EscapeLength(HitLine, 2) == 0
  {
    var s := HitLine;
    assert ParamEnd(s, 6) == 6 && ParamEnd(s, 5) == 6;
    assert s[5..6] == ['1'];
    assert ParamList(s[5..6]);
  }

  lemma HitLineStrip()
    ensures Strip(HitLine) == "hit"
    ensures LineBeginning(HitLine, 0) == 0
  {
    var s := HitLine;
    HitLineEscape();
    assert StripFrom(s, 7) == [];
    assert StripFrom(s, 3) == [];
    assert StripFrom(s, 2) == ['t'];
    assert StripFrom(s, 1) == ['i', 't'];
    assert StripFrom(s, 0) == "hit";
    BeginFromPast(s, 1, 0);
  }

  lemma HitLineStyle()
    ensures NextStyle(HitLine, [37, 40]) == [1, 37, 40]
  {
    assert !Plain(HitLine) by { assert HitLine[3] == Esc; }
    HitLineLastSgr();
  }

  lemma HitLineLastSgr()
    ensures StyleAt(HitLine, |HitLine|) == Some([1, 37, 40])
  {
    var s := HitLine;
    var t := Before(s, 7);
    assert t == s;
    HitLineSgr();
    assert IsLastSgr(t, 3);
    StyleAtIsLastSequence(s, 7);
    BoldIsColourless();
  }

  lemma BoldIsColourless()
    ensures CompleteStyle([1]) == [1, 37, 40]
  {
    assert !HasForeground([1]) && !HasBackground([1]);
    CompleteColourless([1]);
  }

  lemma HitLineSgr()
    ensures SgrAt(HitLine, 3) == Some(Sgr(7, [1]))
  {
    var t := HitLine;
    assert DigitEnd(t, 6) == 6 && DigitEnd(t, 5) == 6;
    assert t[5..6] == ['1'];
    assert DigitsValue(t[5..6]) == 1;
    assert SgrParams(t, 5, 0) == Some(Sgr(7, [1]));
  }


  /** As written, the not-bold trigger does not fire on the plain "hit":
      the line's closing bold is taken for the style of its opening text. */
  lemma NotBoldAsWrittenMissesPlainText(engine: Engine)
    requires engine.search("hit", false, "hit") == Some(Match(0, [], []))
    ensures var ns := Namespace("n", [NotBoldTrigger], [], [], map[]);
            MatchTriggersAsWritten([ns], HitLine, [37, 40], engine).events == []
  {
    HitLineFacts();
    var ns := Namespace("n", [NotBoldTrigger], [], [], map[]);
    var style := NextStyle(HitLine, [37, 40]);
    assert MatchStyle(HitLine, 0, style) == [1, 37, 40];
    assert TriggerMatch(NotBoldTrigger, HitLine, style, engine) == None;
    NamespaceWithoutMatchIsSilent(ns, HitLine, style, engine);
    assert [ns][1..] == [];
    assert TriggerEvents([ns], HitLine, style, engine) == NamespaceTriggers(ns, HitLine, style, engine) + TriggerEvents([], HitLine, style, engine);
    assert MatchTriggersAsWritten([ns], HitLine, [37, 40], engine).events == TriggerEvents([ns], HitLine, style, engine);
  }

  /** With the carried style, the same trigger fires on the same line. */
  lemma NotBoldFiresOnPlainText(engine: Engine)
    requires engine.search("hit", false, "hit") == Some(Match(0, [], []))
    ensures var ns := Namespace("n", [NotBoldTrigger], [], [], map[]);
            MatchTriggers([ns], HitLine, [37, 40], engine).events ==
              [CallScript("n", "onhit", RuleArgs("notbold", HitLine, []))]
  {
    var ns := Namespace("n", [NotBoldTrigger], [], [], map[]);
    var fired := [CallScript("n", "onhit", RuleArgs("notbold", HitLine, []))];
    assert NamespaceTriggers(ns, HitLine, [37, 40], engine) == fired by {
      HitLineFacts();
      var m := Match(0, [], []);
      var accept := TriggerAccept(HitLine, [37, 40], engine);
      assert MatchStyle(HitLine, 0, [37, 40]) == [37, 40];
      assert accept(NotBoldTrigger) == Some(m);
      assert Selected(ns.triggers, accept, TriggerKeep(), 1) == [];
      assert Selected(ns.triggers, accept, TriggerKeep(), 0) == [0];
      assert FireTrigger("n", map[], NotBoldTrigger, HitLine, m, engine) == fired;
    }
    assert [ns][1..] == [];
    assert TriggerEvents([ns], HitLine, [37, 40], engine) == NamespaceTriggers(ns, HitLine, [37, 40], engine) + TriggerEvents([], HitLine, [37, 40], engine);
  }

  /** With the carried style, a match that no SGR sequence precedes is
      judged by the style in effect before the line, whatever the line
      ends with. */
  lemma CarriedStyleJudgesLineStart(line: string, lastStyle: seq<nat>, engine: Engine, t: Trigger)
    requires !t.keepAnsi
    requires engine.search(t.pattern, t.ignoreCase, Strip(line)).Some?
    requires StyleAt(line, LineBeginning(line, engine.search(t.pattern, t.ignoreCase, Strip(line)).value.start)).None?
    ensures TriggerAccept(line, lastStyle, engine)(t).Some? <==> t.enabled && StyleAccepts(t.filter, lastStyle)
  {
  }

  /** On a line with an SGR sequence, a match that no SGR sequence precedes
      is judged, as written, by the style the line ends with, and, in the
      corrected pass, by the style carried from the lines before. */
  lemma LineStartJudgedBy(line: string, lastStyle: seq<nat>, engine: Engine, t: Trigger)
    requires !t.keepAnsi
    requires engine.search(t.pattern, t.ignoreCase, Strip(line)).Some?
    requires StyleAt(line, LineBeginning(line, engine.search(t.pattern, t.ignoreCase, Strip(line)).value.start)).None?
    requires StyleAt(line, |line|).Some?
    ensures TriggerAccept(line, NextStyle(line, lastStyle), engine)(t).Some? <==>
              t.enabled && StyleAccepts(t.filter, StyleAt(line, |line|).value)
    ensures TriggerAccept(line, lastStyle, engine)(t).Some? <==> t.enabled && StyleAccepts(t.filter, lastStyle)
  {
    CarriedStyleJudgesLineStart(line, NextStyle(line, lastStyle), engine, t);
    CarriedStyleJudgesLineStart(line, lastStyle, engine, t);
  }

  // ---------------------------------------------------------------------
  // Aliases (lines 251-283)

  function AliasAccept(line: string, engine: Engine): Alias -> Option<Match> {
    a => AliasMatch(a, line, engine)
  }

  function AliasKeep(): Alias -> bool {
    (a: Alias) => a.keepEvaluating
  }

  /** The events of the fired aliases and whether any alias matched. */
  datatype AliasPass = AliasPass(events: seq<Event>, matched: bool)

  function NamespaceAliases(ns: Namespace, line: string, engine: Engine): AliasPass {
    var accept := AliasAccept(line, engine);
    var sel := Selected(ns.aliases, accept, AliasKeep(), 0);
    AliasPass(FireAll(ns.aliases, sel, accept,
                      (a: Alias, m: Match) => FireAlias(ns.name, ns.variables, a, line, m, engine)),
              sel != [])
  }

  /** One namespace's alias pass after another: the events in order, and
      whether any namespace's pass matched. */
  function ScanAll(pass: Namespace -> AliasPass, nss: seq<Namespace>): AliasPass
    decreases |nss|
  {
    if nss == [] then AliasPass([], false)
    else
      var first := pass(nss[0]);
      var rest := ScanAll(pass, nss[1..]);
      AliasPass(first.events + rest.events, first.matched || rest.matched)
  }

  lemma {:induction false} ScanAllMatched(pass: Namespace -> AliasPass, found: Namespace -> bool, nss: seq<Namespace>)
    requires forall ns :: pass(ns).matched == found(ns)
    requires forall ns :: !pass(ns).matched ==> pass(ns).events == []
    ensures ScanAll(pass, nss).matched <==> exists i :: 0 <= i < |nss| && found(nss[i])
    ensures !ScanAll(pass, nss).matched ==> ScanAll(pass, nss).events == []
    decreases |nss|
  {
    if nss != [] {
      ScanAllMatched(pass, found, nss[1..]);
      assert forall i :: 1 <= i < |nss| ==> nss[i] == nss[1..][i - 1];
    }
  }

  function AliasScan(nss: seq<Namespace>, line: string, engine: Engine): AliasPass {
    ScanAll(ns => NamespaceAliases(ns, line, engine), nss)
  }

  /** Some enabled alias of the namespace matches the line. */
  predicate SomeAliasMatches(ns: Namespace, line: string, engine: Engine) {
    exists j :: 0 <= j < |ns.aliases| && AliasMatch(ns.aliases[j], line, engine).Some?
  }

  /** `fnMatchAliases`: the fired aliases' events, then the line itself when
      no alias matched. The line is sent as typed exactly when no enabled
      alias of any namespace matches it; otherwise only what the aliases
      send is sent. */
  function MatchAliases(nss: seq<Namespace>, line: string, engine: Engine): (r: seq<Event>)
    ensures (forall i :: 0 <= i < |nss| ==> !SomeAliasMatches(nss[i], line, engine)) ==> r == SendData(line)
    ensures (exists i :: 0 <= i < |nss| && SomeAliasMatches(nss[i], line, engine)) ==> r == AliasScan(nss, line, engine).events
  {
    AliasScanMatched(nss, line, engine);
    var scan := AliasScan(nss, line, engine);
    scan.events + (if scan.matched then [] else SendData(line))
  }

  /** One namespace: some alias fired exactly when one matches, and when
      none did, nothing happened. */
  lemma NamespaceAliasesMatched(ns: Namespace, line: string, engine: Engine)
    ensures NamespaceAliases(ns, line, engine).matched <==> SomeAliasMatches(ns, line, engine)
    ensures !NamespaceAliases(ns, line, engine).matched ==> NamespaceAliases(ns, line, engine).events == []
  {
    var accept := AliasAccept(line, engine);
    SelectedEmptyIff(ns.aliases, accept, AliasKeep(), 0);
    assert forall j :: 0 <= j < |ns.aliases| ==> accept(ns.aliases[j]) == AliasMatch(ns.aliases[j], line, engine);
  }

  /** Some alias matched exactly when an enabled alias of some namespace
      matches the line; when none did, no alias sent anything. */
  lemma AliasScanMatched(nss: seq<Namespace>, line: string, engine: Engine)
    ensures AliasScan(nss, line, engine).matched <==> exists i :: 0 <= i < |nss| && SomeAliasMatches(nss[i], line, engine)
    ensures !AliasScan(nss, line, engine).matched ==> AliasScan(nss, line, engine).events == []
  {
    forall ns: Namespace
      ensures NamespaceAliases(ns, line, engine).matched == SomeAliasMatches(ns, line, engine)
      ensures !NamespaceAliases(ns, line, engine).matched ==> NamespaceAliases(ns, line, engine).events == []
    {
      NamespaceAliasesMatched(ns, line, engine);
    }
    ScanAllMatched(ns => NamespaceAliases(ns, line, engine), ns => SomeAliasMatches(ns, line, engine), nss);
  }

  // ---------------------------------------------------------------------
  // Timers (lines 163-193)

  /** What the tick leaves scheduled: the next tick a second later, a stop
      of the reactor, or nothing at all because the tick raised. */
  datatype Next = Again | Halt | Lost

  datatype TimerPass = TimerPass(namespaces: seq<Namespace>, events: seq<Event>, active: bool, crashed: bool)

  /** Every namespace's timers ticked in turn, `tickOf` giving one
      namespace's tick; a tick that raises leaves the later namespaces as
      they were. */
  function SweepAll(tickOf: Namespace -> Tick, nss: seq<Namespace>): (r: TimerPass)
    ensures |r.namespaces| == |nss|
    ensures forall i :: 0 <= i < |nss| ==> r.namespaces[i] == nss[i].(timers := r.namespaces[i].timers)
    decreases |nss|
  {
    if nss == [] then TimerPass([], [], false, false)
    else
      var ns := nss[0];
      var tick := tickOf(ns);
      if tick.crashed then
        TimerPass([ns.(timers := tick.timers)] + nss[1..], tick.events, true, true)
      else
        var rest := SweepAll(tickOf, nss[1..]);
        TimerPass([ns.(timers := tick.timers)] + rest.namespaces, tick.events + rest.events,
                  tick.active || rest.active, rest.crashed)
  }

  /** The sweep raises exactly when some namespace's tick does; otherwise
      some timer was active exactly when some namespace's tick was. */
  lemma {:induction false} SweepAllOutcome(tickOf: Namespace -> Tick, stuck: Namespace -> bool, considered: Namespace -> bool, nss: seq<Namespace>)
    requires forall ns :: tickOf(ns).crashed == stuck(ns)
    requires forall ns :: !tickOf(ns).crashed ==> tickOf(ns).active == considered(ns)
    ensures var r := SweepAll(tickOf, nss);
            && (r.crashed <==> exists i :: 0 <= i < |nss| && stuck(nss[i]))
            && (!r.crashed ==> (r.active <==> exists i :: 0 <= i < |nss| && considered(nss[i])))
    decreases |nss|
  {
    if nss != [] {
      SweepAllOutcome(tickOf, stuck, considered, nss[1..]);
      assert forall i :: 1 <= i < |nss| ==> nss[i] == nss[1..][i - 1];
    }
  }

  /** The timer tick over all namespaces (lines 164-188). */
  function SweepNamespaces(nss: seq<Namespace>, now: int, connected: bool): (r: TimerPass)
    ensures |r.namespaces| == |nss|
    ensures forall i :: 0 <= i < |nss| ==> r.namespaces[i] == nss[i].(timers := r.namespaces[i].timers)
  {
    SweepAll((ns: Namespace) => TickTimers(ns.name, ns.timers, now, connected), nss)
  }

  datatype TimerRound = TimerRound(namespaces: seq<Namespace>, events: seq<Event>, next: Next)

  /** `fnHandleTimers`: the tick, then another tick a second later while
      some timer is active or the game server is connected, else a stop. */
  function HandleTimers(nss: seq<Namespace>, now: int, connected: bool): (r: TimerRound)
    ensures |r.namespaces| == |nss|
  {
    var pass := SweepNamespaces(nss, now, connected);
    var next := if pass.crashed then Lost else if pass.active || connected then Again else Halt;
    TimerRound(pass.namespaces, pass.events, next)
  }

  /** Some timer of the namespace is considered, due and without its
      attributes. */
  predicate AnyStuck(ns: Namespace, now: int, connected: bool) {
    exists j :: 0 <= j < |ns.timers| && Stuck(ns.timers[j], now, connected)
  }

  /** Some timer of the namespace is considered in this tick. */
  predicate AnyConsidered(ns: Namespace, connected: bool) {
    exists j :: 0 <= j < |ns.timers| && Considered(ns.timers[j], connected)
  }

  lemma SweepOutcome(nss: seq<Namespace>, now: int, connected: bool)
    ensures var r := SweepNamespaces(nss, now, connected);
            && (r.crashed <==> exists i :: 0 <= i < |nss| && AnyStuck(nss[i], now, connected))
            && (!r.crashed ==> (r.active <==> exists i :: 0 <= i < |nss| && AnyConsidered(nss[i], connected)))
  {
    forall ns: Namespace
      ensures TickTimers(ns.name, ns.timers, now, connected).crashed == AnyStuck(ns, now, connected)
      ensures !TickTimers(ns.name, ns.timers, now, connected).crashed ==>
                TickTimers(ns.name, ns.timers, now, connected).active == AnyConsidered(ns, connected)
    {
      TickOutcome(ns.name, ns.timers, now, connected);
    }
    SweepAllOutcome((ns: Namespace) => TickTimers(ns.name, ns.timers, now, connected),
                    ns => AnyStuck(ns, now, connected), ns => AnyConsidered(ns, connected), nss);
  }

  /** The timer loop goes on exactly when no tick raised and some timer is
      active or the game server is connected; it is lost exactly when some
      considered, due timer lacks its attributes. */
  lemma HandleTimersNext(nss: seq<Namespace>, now: int, connected: bool)
    ensures HandleTimers(nss, now, connected).next == Lost <==>
              exists i, j :: 0 <= i < |nss| && 0 <= j < |nss[i].timers| && Stuck(nss[i].timers[j], now, connected)
    ensures HandleTimers(nss, now, connected).next == Halt <==>
              && !connected
              && forall i, j :: 0 <= i < |nss| && 0 <= j < |nss[i].timers| ==> !Considered(nss[i].timers[j], connected)
  {
    SweepOutcome(nss, now, connected);
    SomeNamespaceIff(nss, now, connected);
  }

  /** A namespace with a stuck (or considered) timer is a namespace and a
      timer of it. */
  lemma SomeNamespaceIff(nss: seq<Namespace>, now: int, connected: bool)
    ensures (exists i :: 0 <= i < |nss| && AnyStuck(nss[i], now, connected)) <==>
            exists i, j :: 0 <= i < |nss| && 0 <= j < |nss[i].timers| && Stuck(nss[i].timers[j], now, connected)
    ensures (exists i :: 0 <= i < |nss| && AnyConsidered(nss[i], connected)) <==>
            exists i, j :: 0 <= i < |nss| && 0 <= j < |nss[i].timers| && Considered(nss[i].timers[j], connected)
  {
  }

  /** As written, a due `DoAfter` timer ends the timer loop for good: no
      tick is ever scheduled again, so no timer of any namespace fires
      afterwards. */
  lemma DoAfterAsWrittenLosesTimerLoop(ns: Namespace, seconds: int, text: string, now: int, later: int, connected: bool)
    requires later > now + seconds
    ensures var withTimer := ns.(timers := CreateTimerAsWritten([], seconds, text, now));
            HandleTimers([withTimer], later, connected).next == Lost
  {
    var withTimer := ns.(timers := CreateTimerAsWritten([], seconds, text, now));
    assert Stuck(withTimer.timers[0], later, connected);
    HandleTimersNext([withTimer], later, connected);
  }

  /** With its attributes filled in, a due `DoAfter` timer sends its text,
      is removed, and the loop goes on. */
  lemma DoAfterKeepsTimerLoop(ns: Namespace, seconds: int, text: string, now: int, later: int)
    requires later > now + seconds
    ensures var withTimer := ns.(timers := CreateTimer([], seconds, text, now));
            HandleTimers([withTimer], later, true) == TimerRound([ns.(timers := [])], SendData(text), Again)
  {
    DoAfterFiresOnce(ns.name, seconds, text, now, later);
    var withTimer := ns.(timers := CreateTimer([], seconds, text, now));
    assert [withTimer][1..] == [];
    var tickOf := (n: Namespace) => TickTimers(n.name, n.timers, later, true);
    assert tickOf(withTimer) == Tick([], SendData(text), true, false);
    assert SweepAll(tickOf, [withTimer][1..]) == TimerPass([], [], false, false);
    assert SweepAll(tickOf, [withTimer]) == TimerPass([ns.(timers := [])], SendData(text), true, false);
  }

  // ---------------------------------------------------------------------
  // Data from the game server (lines 980-995, 285-288)

  /** A run of lines, each passed through `pass` in turn with the style
      the previous line left. */
  function Thread(pass: (string, seq<nat>) -> TriggerPass, lines: seq<string>, lastStyle: seq<nat>): TriggerPass
    decreases |lines|
  {
    if lines == [] then TriggerPass(lastStyle, [])
    else
      var first := pass(lines[0], lastStyle);
      var rest := Thread(pass, lines[1..], first.lastStyle);
      TriggerPass(rest.lastStyle, first.events + rest.events)
  }

  lemma {:induction false} ThreadAppend(pass: (string, seq<nat>) -> TriggerPass, a: seq<string>, b: seq<string>, lastStyle: seq<nat>)
    ensures var pa := Thread(pass, a, lastStyle);
            var pb := Thread(pass, b, pa.lastStyle);
            Thread(pass, a + b, lastStyle) == TriggerPass(pb.lastStyle, pa.events + pb.events)
    decreases |a|
  {
    if a == [] {
      assert a + b == b;
    } else {
      assert (a + b)[0] == a[0];
      assert (a + b)[1..] == a[1..] + b;
      var first := pass(a[0], lastStyle);
      ThreadAppend(pass, a[1..], b, first.lastStyle);
      var pa' := Thread(pass, a[1..], first.lastStyle);
      var pb := Thread(pass, b, pa'.lastStyle);
      assert first.events + pa'.events + pb.events == first.events + (pa'.events + pb.events);
    }
  }

  /** Which trigger pass a line goes through: `fnMatchTriggers` as written,
      or with the style fallback corrected. */
  datatype Version = AsWritten | Corrected

  function LinePass(v: Version, nss: seq<Namespace>, line: string, style: seq<nat>, engine: Engine): (r: TriggerPass)
    ensures r.lastStyle == NextStyle(line, style)
    ensures Plain(line) ==> r == MatchTriggersAsWritten(nss, line, style, engine)
  {
    match v
    case AsWritten => MatchTriggersAsWritten(nss, line, style, engine)
    case Corrected => MatchTriggers(nss, line, style, engine)
  }

  /** `fnProcessData` on every assembled line in turn, carrying the style
      from one line to the next. */
  function ProcessLines(v: Version, nss: seq<Namespace>, lines: seq<string>, lastStyle: seq<nat>, engine: Engine): TriggerPass {
    Thread((line: string, style: seq<nat>) => LinePass(v, nss, line, style, engine), lines, lastStyle)
  }

  /** Processing two runs of lines one after the other is processing them
      together. */
  lemma ProcessLinesAppend(v: Version, nss: seq<Namespace>, a: seq<string>, b: seq<string>, lastStyle: seq<nat>, engine: Engine)
    ensures var pa := ProcessLines(v, nss, a, lastStyle, engine);
            var pb := ProcessLines(v, nss, b, pa.lastStyle, engine);
            ProcessLines(v, nss, a + b, lastStyle, engine) == TriggerPass(pb.lastStyle, pa.events + pb.events)
  {
    ThreadAppend((line: string, style: seq<nat>) => LinePass(v, nss, line, style, engine), a, b, lastStyle);
  }

  /** The relay's state for data from the game server. */
  datatype HostSide = HostSide(buffer: string, lastStyle: seq<nat>)

  /** `rawDataReceived`: the raw chunk is mirrored to the local client, then
      each complete line, its "\r" bytes removed once more, goes through the
      trigger pass; the text after the last "\n" is kept as the new buffer. */
  function ReceiveFromHost(v: Version, st: HostSide, nss: seq<Namespace>, data: string, engine: Engine): (r: (HostSide, seq<Event>))
    ensures |r.1| > 0 && r.1[0] == ToClient(data)
    ensures '\n' !in r.0.buffer
    ensures '\r' !in st.buffer ==> '\r' !in r.0.buffer
    ensures var assembled := Receive(st.buffer, data);
            var pass := ProcessLines(v, nss, DropCREach(assembled.lines), st.lastStyle, engine);
            && Join(assembled.lines) + r.0.buffer == st.buffer + DropCR(data)
            && r.0.lastStyle == pass.lastStyle
            && r.1[1..] == pass.events
    ensures '\r' !in st.buffer ==>
              r.1[1..] == ProcessLines(v, nss, Receive(st.buffer, data).lines, st.lastStyle, engine).events
  {
    var assembled := Receive(st.buffer, data);
    var pass := ProcessLines(v, nss, DropCREach(assembled.lines), st.lastStyle, engine);
    var r := (HostSide(assembled.rest, pass.lastStyle), [ToClient(data)] + pass.events);
    if '\r' !in st.buffer then
      DropCREachNoCR(assembled.lines);
      RestHasNoCR(assembled.lines, assembled.rest, st.buffer, DropCR(data));
      r
    else r
  }

  /** The remainder of text without a carriage return has none. */
  lemma RestHasNoCR(lines: seq<string>, rest: string, x: string, y: string)
    requires Join(lines) + rest == x + y
    requires '\r' !in x && '\r' !in y
    ensures '\r' !in rest
  {
    var n := |Join(lines)|;
    forall k | 0 <= k < |rest|
      ensures rest[k] != '\r'
    {
      assert rest[k] == (x + y)[n + k];
      if n + k < |x| {
        assert (x + y)[n + k] == x[n + k];
      } else {
        assert (x + y)[n + k] == y[n + k - |x|];
      }
    }
  }

  /** Any cut of the buffer followed by the chunk into lines free of "\n",
      each followed by "\n", and a remainder free of "\n" is the one the
      relay makes: those lines reach the triggers, in order, and that
      remainder is buffered. */
  lemma ReceiveFromHostLines(v: Version, st: HostSide, nss: seq<Namespace>, data: string, engine: Engine, lines: seq<string>, rest: string)
    requires Join(lines) + rest == st.buffer + DropCR(data)
    requires '\n' !in rest
    requires forall i :: 0 <= i < |lines| ==> '\n' !in lines[i]
    ensures var pass := ProcessLines(v, nss, DropCREach(lines), st.lastStyle, engine);
            ReceiveFromHost(v, st, nss, data, engine) == (HostSide(rest, pass.lastStyle), [ToClient(data)] + pass.events)
  {
    SplitLinesUnique(st.buffer + DropCR(data), lines, rest);
  }

  /** However the stream is cut into chunks, the same lines reach the
      triggers and the carried style ends the same, for the pass as written
      and for the corrected one alike. */
  lemma ChunkingDoesNotMatter(v: Version, st: HostSide, nss: seq<Namespace>, a: string, b: string, engine: Engine)
    ensures var first := ReceiveFromHost(v, st, nss, a, engine);
            var second := ReceiveFromHost(v, first.0, nss, b, engine);
            var whole := ReceiveFromHost(v, st, nss, a + b, engine);
            && second.0 == whole.0
            && first.1[1..] + second.1[1..] == whole.1[1..]
  {
    ReceiveChunks(st.buffer, a, b);
    var ra := Receive(st.buffer, a);
    var rb := Receive(ra.rest, b);
    DropCREachAppend(ra.lines, rb.lines);
    ProcessLinesAppend(v, nss, DropCREach(ra.lines), DropCREach(rb.lines), st.lastStyle, engine);
  }
}
