/** The namespace operations a plugin script reaches through `Callbacks`
    (muddrop.py lines 436-531): its variables, kept under lower-cased names,
    and the enabled state of its triggers and timers.

    The timer operations read `strName` or `strGroup` of every timer they
    pass. A timer made by `createtimer` has neither, so reaching one raises
    `AttributeError` out of the callback; changes already made to earlier
    timers (and, for `EnableGroup`, to the triggers) stay made. */
module Callbacks {
  import opened Wrappers
  import opened Text
  import opened Rules
  import opened Timers
  import opened Plugins

  /** The MUSHclient return codes the callbacks use. */
  const TriggerNotFound: int := 30005
  const TimerNotFound: int := 30017
  const VariableNotFound: int := 30019

  /** A callback's effect: the namespace afterwards and the value returned,
      or None when the callback raised. */
  datatype Outcome = Outcome(ns: Namespace, code: Option<int>)

  // ---------------------------------------------------------------------
  // Variables (lines 436-473)

  /** `SetVariable`: store `data` under the folded name; returns 0. */
  function SetVariable(ns: Namespace, name: string, data: string): (r: Outcome)
    ensures r.code == Some(0)
    ensures r.ns.(variables := ns.variables) == ns
    ensures Lower(name) in r.ns.variables && r.ns.variables[Lower(name)] == data
    ensures forall k :: k != Lower(name) ==>
              (k in r.ns.variables <==> k in ns.variables) &&
              (k in ns.variables ==> r.ns.variables[k] == ns.variables[k])
    ensures FoldedKeys(ns.variables) ==> FoldedKeys(r.ns.variables)
  {
    LowerIdempotent(name);
    Outcome(ns.(variables := ns.variables[Lower(name) := data]), Some(0))
  }

  /** `GetVariable`: the value stored under the folded name, or None. */
  function GetVariable(ns: Namespace, name: string): (r: Option<string>)
    ensures r.Some? <==> Lower(name) in ns.variables
    ensures r.Some? ==> r.value == ns.variables[Lower(name)]
  {
    if Lower(name) in ns.variables then Some(ns.variables[Lower(name)]) else None
  }

  /** `DeleteVariable`: remove the folded name; 0 when it was there and
      30019 when it was not. */
  function DeleteVariable(ns: Namespace, name: string): (r: Outcome)
    ensures r.code == Some(0) <==> GetVariable(ns, name).Some?
    ensures r.code == Some(0) || r.code == Some(VariableNotFound)
    ensures r.ns.(variables := ns.variables) == ns
    ensures GetVariable(r.ns, name) == None
    ensures forall k :: k != Lower(name) ==>
              (k in r.ns.variables <==> k in ns.variables) &&
              (k in ns.variables ==> r.ns.variables[k] == ns.variables[k])
    ensures FoldedKeys(ns.variables) ==> FoldedKeys(r.ns.variables)
  {
    if Lower(name) in ns.variables then
      Outcome(ns.(variables := ns.variables - {Lower(name)}), Some(0))
    else Outcome(ns, Some(VariableNotFound))
  }

  /** Names differing only in the case of ASCII letters name the same
      variable: what is set under one is read under the other. */
  lemma {:induction false} GetAfterSet(ns: Namespace, name: string, data: string, other: string)
    ensures GetVariable(SetVariable(ns, name, data).ns, other) ==
              if Lower(other) == Lower(name) then Some(data) else GetVariable(ns, other)
  {
  }

  /** Deleting what was just set leaves no variable under that name, and
      every other variable as it was before the set. */
  lemma {:induction false} DeleteUndoesSet(ns: Namespace, name: string, data: string)
    ensures var r := DeleteVariable(SetVariable(ns, name, data).ns, name);
            r.code == Some(0) && r.ns.variables == ns.variables - {Lower(name)}
  {
    var set1 := SetVariable(ns, name, data).ns;
    var r := DeleteVariable(set1, name);
    assert r.ns.variables == set1.variables - {Lower(name)};
    assert forall k :: k in r.ns.variables <==> k in ns.variables - {Lower(name)};
  }

  // ---------------------------------------------------------------------
  // Triggers (lines 474-493)

  /** The first trigger, from `i` on, with the given name. */
  function FirstNamed(ts: seq<Trigger>, name: string, i: nat): (r: Option<nat>)
    requires i <= |ts|
    ensures r.Some? ==> i <= r.value < |ts| && ts[r.value].name == name
    ensures forall j :: i <= j < |ts| && (r.None? || j < r.value) ==> ts[j].name != name
    decreases |ts| - i
  {
    if i == |ts| then None
    else if ts[i].name == name then Some(i)
    else FirstNamed(ts, name, i + 1)
  }

  /** `EnableTrigger`: only the first trigger with exactly this name is
      switched; 0 when there is one, 30005 (and no change) otherwise. */
  function EnableTrigger(ns: Namespace, name: string, enabled: bool): (r: Outcome)
    ensures r.code == Some(0) <==> exists j :: 0 <= j < |ns.triggers| && ns.triggers[j].name == name
    ensures r.code == Some(0) || r.code == Some(TriggerNotFound)
    ensures r.ns.(triggers := ns.triggers) == ns
    ensures |r.ns.triggers| == |ns.triggers|
    ensures forall j :: 0 <= j < |ns.triggers| ==>
              r.ns.triggers[j] ==
                if ns.triggers[j].name == name && forall q :: 0 <= q < j ==> ns.triggers[q].name != name
                then ns.triggers[j].(enabled := enabled)
                else ns.triggers[j]
  {
    match FirstNamed(ns.triggers, name, 0)
    case None => Outcome(ns, Some(TriggerNotFound))
    case Some(k) =>
      var ts := ns.triggers[k := ns.triggers[k].(enabled := enabled)];
      Outcome(ns.(triggers := ts), Some(0))
  }

  /** How many triggers belong to a group. */
  function GroupSize(ts: seq<Trigger>, group: string): nat
    decreases |ts|
  {
    if ts == [] then 0
    else GroupSize(ts[..|ts| - 1], group) + (if ts[|ts| - 1].group == group then 1 else 0)
  }

  /** The count is zero exactly when no trigger is in the group, and never
      more than the number of triggers. */
  lemma {:induction false} GroupSizeBounds(ts: seq<Trigger>, group: string)
    ensures GroupSize(ts, group) <= |ts|
    ensures GroupSize(ts, group) == 0 <==> forall j :: 0 <= j < |ts| ==> ts[j].group != group
    decreases |ts|
  {
    if ts != [] {
      var init := ts[..|ts| - 1];
      GroupSizeBounds(init, group);
      assert forall j :: 0 <= j < |init| ==> init[j] == ts[j];
    }
  }

  /** A trigger of the group switched, any other untouched. */
  function SwitchTrigger(t: Trigger, group: string, enabled: bool): (r: Trigger)
    ensures r.(enabled := t.enabled) == t
    ensures r.enabled == if t.group == group then enabled else t.enabled
  {
    if t.group == group then t.(enabled := enabled) else t
  }

  /** Every trigger of the group switched, the others untouched. */
  function SwitchTriggers(ts: seq<Trigger>, group: string, enabled: bool): (r: seq<Trigger>)
    ensures |r| == |ts|
    ensures forall j :: 0 <= j < |ts| ==> r[j] == SwitchTrigger(ts[j], group, enabled)
  {
    seq(|ts|, j requires 0 <= j < |ts| => SwitchTrigger(ts[j], group, enabled))
  }

  /** `EnableTriggerGroup`: switch every trigger of the group and return how
      many there were. */
  method EnableTriggerGroup(ns: Namespace, group: string, enabled: bool) returns (r: Namespace, count: nat)
    ensures r == ns.(triggers := SwitchTriggers(ns.triggers, group, enabled))
    ensures count == GroupSize(ns.triggers, group)
  {
    var ts := ns.triggers;
    var out: seq<Trigger> := [];
    count := 0;
    var i := 0;
    while i < |ts|
      invariant 0 <= i <= |ts|
      invariant |out| == i
      invariant out == SwitchTriggers(ts[..i], group, enabled)
      invariant count == GroupSize(ts[..i], group)
    {
      TriggerLoopStep(ts, i, group, enabled);
      if ts[i].group == group {
        out := out + [ts[i].(enabled := enabled)];
        count := count + 1;
      } else {
        out := out + [ts[i]];
      }
      i := i + 1;
    }
    assert ts[..|ts|] == ts;
    r := ns.(triggers := out);
  }

  /** One more trigger of the loop: the switched list and the count each
      grow by that trigger's share. */
  lemma TriggerLoopStep(ts: seq<Trigger>, i: nat, group: string, enabled: bool)
    requires i < |ts|
    ensures SwitchTriggers(ts[..i + 1], group, enabled) == SwitchTriggers(ts[..i], group, enabled) + [SwitchTrigger(ts[i], group, enabled)]
    ensures GroupSize(ts[..i + 1], group) == GroupSize(ts[..i], group) + (if ts[i].group == group then 1 else 0)
  {
    assert ts[..i + 1][..i] == ts[..i] && ts[..i + 1][i] == ts[i];
  }

  // ---------------------------------------------------------------------
  // Timers (lines 494-531)

  predicate InGroup(t: Timer, group: string) {
    t.config.Some? && t.config.value.group == group
  }

  predicate HasName(t: Timer, name: string) {
    t.config.Some? && t.config.value.name == name
  }

  /** How far a timer operation gets before it reaches a timer without
      attributes: the index of the first such timer, or the length. */
  function Reach(ts: seq<Timer>): (k: nat)
    ensures k <= |ts|
    ensures forall j :: 0 <= j < k ==> ts[j].config.Some?
    ensures k < |ts| ==> ts[k].config.None?
    decreases |ts|
  {
    if ts == [] || ts[0].config.None? then 0
    else
      var k := 1 + Reach(ts[1..]);
      assert forall j :: 1 <= j < k ==> ts[j] == ts[1..][j - 1];
      k
  }

  /** A timer switched on or off; `restart` is the time a restarted timer's
      interval counts from before its offset is added. */
  function SwitchTimer(t: Timer, enabled: bool, restart: Option<int>): (r: Timer)
    requires t.config.Some?
    ensures r.(enabled := t.enabled, time := t.time) == t && r.enabled == enabled
    ensures restart.None? ==> r.time == t.time
    ensures restart.Some? ==> r.time == restart.value + Seconds(t.config.value.offset)
  {
    match restart
    case None => t.(enabled := enabled)
    case Some(now) => t.(enabled := enabled, time := now + Seconds(t.config.value.offset))
  }

  /** How many timers of the list belong to a group. */
  function TimerGroupSize(ts: seq<Timer>, group: string): nat
    decreases |ts|
  {
    if ts == [] then 0 else (if InGroup(ts[0], group) then 1 else 0) + TimerGroupSize(ts[1..], group)
  }

  /** The timers after a group switch, how many were switched, and whether
      the switch raised. */
  datatype Switch = Switch(timers: seq<Timer>, count: nat, raised: bool)

  /** Timer `j` after a group switch: switched when it belongs to the group
      and comes before the first timer without attributes, else as it was. */
  function Switched(ts: seq<Timer>, j: nat, group: string, enabled: bool, restart: Option<int>): Timer
    requires j < |ts|
  {
    if j < Reach(ts) && InGroup(ts[j], group) then SwitchTimer(ts[j], enabled, restart) else ts[j]
  }

  /** The timer loop of `EnableTimerGroup` and `EnableGroup`. */
  function SwitchTimers(ts: seq<Timer>, group: string, enabled: bool, restart: Option<int>): (r: Switch)
    ensures |r.timers| == |ts|
    ensures r.raised <==> Reach(ts) < |ts|
    ensures forall j :: 0 <= j < |ts| ==> r.timers[j] == Switched(ts, j, group, enabled, restart)
    ensures r.count == TimerGroupSize(ts[..Reach(ts)], group)
    decreases |ts|
  {
    if ts == [] then Switch([], 0, false)
    else if ts[0].config.None? then
      assert ts[..0] == [];
      Switch(ts, 0, true)
    else
      var rest := SwitchTimers(ts[1..], group, enabled, restart);
      var first := if InGroup(ts[0], group) then SwitchTimer(ts[0], enabled, restart) else ts[0];
      GroupSizeStep(ts, group);
      var r := [first] + rest.timers;
      forall j | 1 <= j < |ts|
        ensures r[j] == Switched(ts, j, group, enabled, restart)
      {
        assert r[j] == rest.timers[j - 1];
        SwitchedShift(ts, j, group, enabled, restart);
      }
      Switch(r, rest.count + (if InGroup(ts[0], group) then 1 else 0), rest.raised)
  }

  lemma SwitchedShift(ts: seq<Timer>, j: nat, group: string, enabled: bool, restart: Option<int>)
    requires ts != [] && ts[0].config.Some? && 1 <= j < |ts|
    ensures Switched(ts, j, group, enabled, restart) == Switched(ts[1..], j - 1, group, enabled, restart)
  {
    assert ts[j] == ts[1..][j - 1];
    GroupSizeStep(ts, group);
  }

  /** Counting the group up to the first timer without attributes, one
      timer at a time. */
  lemma GroupSizeStep(ts: seq<Timer>, group: string)
    requires ts != [] && ts[0].config.Some?
    ensures Reach(ts) == 1 + Reach(ts[1..])
    ensures TimerGroupSize(ts[..Reach(ts)], group) ==
              (if InGroup(ts[0], group) then 1 else 0) + TimerGroupSize(ts[1..][..Reach(ts[1..])], group)
  {
    var pre := ts[..Reach(ts)];
    assert pre[0] == ts[0] && pre[1..] == ts[1..][..Reach(ts[1..])];
  }

  /** `EnableTimer`: the first timer with this name is switched and
      restarted from `now` plus its offset (0); 30017 when none has the
      name; a timer without attributes before it raises. */
  function EnableTimer(ns: Namespace, name: string, enabled: bool, now: int): (r: Outcome)
    ensures r.ns.(timers := ns.timers) == ns
    ensures |r.ns.timers| == |ns.timers|
    ensures r.code == Some(TimerNotFound) <==>
              Reach(ns.timers) == |ns.timers| && forall j :: 0 <= j < |ns.timers| ==> !HasName(ns.timers[j], name)
    ensures r.code == Some(0) <==> exists j :: 0 <= j < Reach(ns.timers) && HasName(ns.timers[j], name)
    ensures r.code.None? || r.code == Some(0) || r.code == Some(TimerNotFound)
    ensures forall j :: 0 <= j < |ns.timers| ==>
              r.ns.timers[j] ==
                if SwitchedByName(ns.timers, name, j) then SwitchTimer(ns.timers[j], enabled, Some(now)) else ns.timers[j]
  {
    var ts := ns.timers;
    var k := Reach(ts);
    var firstNamed := FirstTimerNamed(ts[..k], name, 0);
    match firstNamed
    case Some(j) =>
      forall q | 0 <= q < |ts| ensures SwitchedByName(ts, name, q) <==> q == j {
        if q < j { assert ts[..k][q] == ts[q]; }
      }
      Outcome(ns.(timers := ts[j := SwitchTimer(ts[j], enabled, Some(now))]), Some(0))
    case None =>
      assert forall j :: 0 <= j < k ==> ts[..k][j] == ts[j];
      Outcome(ns, if k < |ts| then None else Some(TimerNotFound))
  }

  /** Timer `j` is the first with this name, and comes before the first
      timer without attributes. */
  predicate SwitchedByName(ts: seq<Timer>, name: string, j: nat)
    requires j < |ts|
  {
    j < Reach(ts) && HasName(ts[j], name) && forall q :: 0 <= q < j ==> !HasName(ts[q], name)
  }

  /** The first timer, from `i` on, with the given name. */
  function FirstTimerNamed(ts: seq<Timer>, name: string, i: nat): (r: Option<nat>)
    requires i <= |ts|
    ensures r.Some? ==> i <= r.value < |ts| && HasName(ts[r.value], name)
    ensures forall j :: i <= j < |ts| && (r.None? || j < r.value) ==> !HasName(ts[j], name)
    decreases |ts| - i
  {
    if i == |ts| then None
    else if HasName(ts[i], name) then Some(i)
    else FirstTimerNamed(ts, name, i + 1)
  }

  /** `EnableTimerGroup`: switch and restart every timer of the group and
      return how many there were, unless a timer without attributes is
      reached first. */
  function EnableTimerGroup(ns: Namespace, group: string, enabled: bool, now: int): (r: Outcome)
    ensures r.ns.(timers := ns.timers) == ns
    ensures r.code.None? <==> exists j :: 0 <= j < |ns.timers| && ns.timers[j].config.None?
    ensures r.code.Some? ==> r.code.value == TimerGroupSize(ns.timers, group)
    ensures |r.ns.timers| == |ns.timers|
    ensures forall j :: 0 <= j < |ns.timers| ==> r.ns.timers[j] == Switched(ns.timers, j, group, enabled, Some(now))
  {
    var s := SwitchTimers(ns.timers, group, enabled, Some(now));
    assert ns.timers[..|ns.timers|] == ns.timers;
    Outcome(ns.(timers := s.timers), if s.raised then None else Some(s.count))
  }

  /** `EnableGroup`: switch every trigger and every timer of the group
      (timers are not restarted; aliases are not touched) and return how
      many there were in all. The triggers are switched even when the timer
      loop then raises. */
  function EnableGroup(ns: Namespace, group: string, enabled: bool): (r: Outcome)
    ensures r.ns.aliases == ns.aliases && r.ns.variables == ns.variables && r.ns.name == ns.name
    ensures r.ns.triggers == SwitchTriggers(ns.triggers, group, enabled)
    ensures r.code.None? <==> exists j :: 0 <= j < |ns.timers| && ns.timers[j].config.None?
    ensures r.code.Some? ==> r.code.value == GroupSize(ns.triggers, group) + TimerGroupSize(ns.timers, group)
    ensures |r.ns.timers| == |ns.timers|
    ensures forall j :: 0 <= j < |ns.timers| ==> r.ns.timers[j] == Switched(ns.timers, j, group, enabled, None)
    ensures forall j :: 0 <= j < |ns.timers| ==> r.ns.timers[j].time == ns.timers[j].time
  {
    var s := SwitchTimers(ns.timers, group, enabled, None);
    assert ns.timers[..|ns.timers|] == ns.timers;
    var code := if s.raised then None else Some(GroupSize(ns.triggers, group) + s.count);
    Outcome(ns.(triggers := SwitchTriggers(ns.triggers, group, enabled), timers := s.timers), code)
  }

  /** With every timer carrying its attributes, the timer callbacks never
      raise. */
  lemma TimerCallbacksDoNotRaise(ns: Namespace, name: string, group: string, enabled: bool, now: int)
    requires forall j :: 0 <= j < |ns.timers| ==> ns.timers[j].config.Some?
    ensures EnableTimer(ns, name, enabled, now).code.Some?
    ensures EnableTimerGroup(ns, group, enabled, now).code.Some?
    ensures EnableGroup(ns, group, enabled).code.Some?
  {
  }
}
