/** Timers (`Plugin.Timer`) and the once-a-second tick of one namespace's
    timer list that `MUDdrop.fnHandleTimers` performs (muddrop.py lines
    163-193), with time as whole seconds.

    A timer loaded from the character file carries every attribute the tick
    reads. A timer made by `createtimer` (the `DoAfter` callback) carries
    only the six that `createtimer` sets; the others are modelled as an
    absent `TimerConfig`. Reading a missing attribute raises
    `AttributeError`: the `try` around the "active while closed" test
    swallows it, but the read of `intSendTo` on a due timer does not, and the
    tick stops there (`crashed`). */
module Timers {
  import opened Wrappers
  import opened Dispatch

  /** Hours, minutes and seconds, as the character file gives them. */
  datatype Interval = Interval(hour: int, minute: int, second: int)

  function Seconds(i: Interval): int {
    3600 * i.hour + 60 * i.minute + i.second
  }

  /** The attributes `loadtimers` sets and `createtimer` does not. */
  datatype TimerConfig = TimerConfig(
    name: string, group: string, script: string, sendTo: int,
    activeClosed: bool, offset: Interval)

  /** `time` is the instant the current interval started from. */
  datatype Timer = Timer(
    enabled: bool, interval: Interval, oneShot: bool, time: int,
    send: string, config: Option<TimerConfig>)

  /** Lines 167-173: disabled timers are passed over, and so are timers that
      only run while connected when there is no connection. A timer without
      the attribute is never passed over for that reason. */
  predicate Considered(t: Timer, connected: bool) {
    t.enabled && !(!connected && t.config.Some? && !t.config.value.activeClosed)
  }

  /** Line 176: a timer is due strictly after its interval has elapsed. */
  predicate Due(t: Timer, now: int) {
    now > t.time + Seconds(t.interval)
  }

  /** What a tick did to a timer list: the timers left, the events in order,
      whether some timer was considered (`blnActiveTimers`), and whether the
      tick stopped on a timer without its attributes. */
  datatype Tick = Tick(timers: seq<Timer>, events: seq<Event>, active: bool, crashed: bool)

  /** Lines 177-181: what a due timer sends. With no connection a "world"
      timer sends nothing; a "script" timer's text is run as it stands. */
  function TimerSend(namespace: string, c: TimerConfig, send: string, connected: bool): (r: seq<Event>)
    ensures c.sendTo == SendToWorld ==> r == (if connected then SendData(send) else [])
    ensures c.sendTo == SendToScript ==> r == [ExecCode(namespace, send)]
    ensures c.sendTo != SendToWorld && c.sendTo != SendToScript ==> r == []
    ensures forall e :: e in r ==> e == ToHost(send) || e == ExecCode(namespace, send)
  {
    if c.sendTo == SendToWorld && !connected then [] else SendTo(namespace, c.sendTo, send)
  }

  /** One timer's turn in the tick. */
  function StepTimer(namespace: string, t: Timer, now: int, connected: bool): (r: Tick)
    ensures r.active <==> Considered(t, connected)
    ensures r.crashed <==> Considered(t, connected) && Due(t, now) && t.config.None?
    ensures r.events != [] ==> Considered(t, connected) && Due(t, now)
    ensures !(Considered(t, connected) && Due(t, now)) ==> r.timers == [t]
    ensures Considered(t, connected) && Due(t, now) && !r.crashed ==>
              r.timers == (if t.oneShot then [] else [t.(time := now)])
    ensures Considered(t, connected) && Due(t, now) && t.config.Some? ==>
              r.events == TimerSend(namespace, t.config.value, t.send, connected) +
                          ScriptCall(namespace, t.config.value.script, TimerArgs(t.config.value.name))
  {
    if !Considered(t, connected) then Tick([t], [], false, false)
    else if !Due(t, now) then Tick([t], [], true, false)
    else
      match t.config
      case None => Tick([t], [], true, true)
      case Some(c) =>
        var sent := TimerSend(namespace, c, t.send, connected);
        var kept := if t.oneShot then [] else [t.(time := now)];
        Tick(kept, sent + ScriptCall(namespace, c.script, TimerArgs(c.name)), true, false)
  }

  /** A timer that is considered and due but lacks its attributes. */
  predicate Stuck(t: Timer, now: int, connected: bool) {
    Considered(t, connected) && Due(t, now) && t.config.None?
  }

  /** Each timer of a list takes its step in turn, until a step stops the
      tick: the timers from there on are left as they were. */
  function Sweep(step: Timer -> Tick, ts: seq<Timer>): Tick
    decreases |ts|
  {
    if ts == [] then Tick([], [], false, false)
    else
      var s := step(ts[0]);
      if s.crashed then Tick(ts, [], true, true) else Then(s, Sweep(step, ts[1..]))
  }

  /** Every timer's own step events, one timer after another. */
  function StepEvents(step: Timer -> Tick, ts: seq<Timer>): seq<Event>
    decreases |ts|
  {
    if ts == [] then [] else step(ts[0]).events + StepEvents(step, ts[1..])
  }

  lemma {:induction false} SweepEvents(step: Timer -> Tick, ts: seq<Timer>)
    ensures !Sweep(step, ts).crashed ==> Sweep(step, ts).events == StepEvents(step, ts)
    decreases |ts|
  {
    if ts != [] {
      SweepEvents(step, ts[1..]);
    }
  }

  /** A step that did not stop the tick, followed by the rest of the tick. */
  function Then(s: Tick, rest: Tick): Tick {
    Tick(s.timers + rest.timers, s.events + rest.events, s.active || rest.active, rest.crashed)
  }

  /** The tick of one namespace's list (the inner loop of lines 166-188). */
  function TickTimers(namespace: string, ts: seq<Timer>, now: int, connected: bool): Tick {
    Sweep(t => StepTimer(namespace, t, now, connected), ts)
  }

  /** The tick stops exactly when it reaches a stuck timer; otherwise some
      timer was active exactly when some timer was considered; nothing is
      sent unless some considered timer was due; and no timer is added. */
  lemma {:induction false} TickOutcome(namespace: string, ts: seq<Timer>, now: int, connected: bool)
    ensures var r := TickTimers(namespace, ts, now, connected);
            && (r.crashed <==> exists i :: 0 <= i < |ts| && Stuck(ts[i], now, connected))
            && (!r.crashed ==> (r.active <==> exists i :: 0 <= i < |ts| && Considered(ts[i], connected)))
            && (r.events != [] ==> exists i :: 0 <= i < |ts| && Considered(ts[i], connected) && Due(ts[i], now))
            && |r.timers| <= |ts|
    decreases |ts|
  {
    if ts != [] {
      TickOutcome(namespace, ts[1..], now, connected);
      assert forall i :: 0 <= i < |ts[1..]| ==> ts[1..][i] == ts[i + 1];
    }
  }

  /** Every timer sends at the tick: when the tick does not stop, its
      events are each timer's own events, in list order, so every
      considered, due timer with its attributes sends its text and calls
      its script. */
  lemma TickSendsEveryTimer(namespace: string, ts: seq<Timer>, now: int, connected: bool)
    ensures var r := TickTimers(namespace, ts, now, connected);
            !r.crashed ==> r.events == StepEvents(t => StepTimer(namespace, t, now, connected), ts)
  {
    SweepEvents(t => StepTimer(namespace, t, now, connected), ts);
  }

  /** The sweep splits over a list made of two parts: the second part is
      swept after the first unless the first stopped the tick. */
  lemma {:induction false} SweepAppend(step: Timer -> Tick, a: seq<Timer>, b: seq<Timer>)
    ensures SweepJoins(step, a, b)
    decreases |a|
  {
    if a == [] {
      assert a + b == b;
    } else {
      assert (a + b)[0] == a[0] && (a + b)[1..] == a[1..] + b;
      if step(a[0]).crashed {
        assert a + b == [a[0]] + (a[1..] + b);
      } else {
        SweepAppend(step, a[1..], b);
        ThenJoin(step(a[0]), Sweep(step, a[1..]), Sweep(step, b), b);
      }
    }
  }

  /** Sweeping `a` gave `ra` and sweeping `b` gave `rb`: the sweep of
      `a + b`, which reaches `b` only when `a` did not stop the tick. */
  function Joined(ra: Tick, rb: Tick, b: seq<Timer>): Tick {
    if ra.crashed then Tick(ra.timers + b, ra.events, ra.active, true) else Then(ra, rb)
  }

  /** The result of sweeping `a + b` in terms of sweeping each part. */
  predicate SweepJoins(step: Timer -> Tick, a: seq<Timer>, b: seq<Timer>) {
    Sweep(step, a + b) == Joined(Sweep(step, a), Sweep(step, b), b)
  }

  /** A step taken before a joined sweep is a step taken before its first part. */
  lemma ThenJoin(s: Tick, x: Tick, y: Tick, b: seq<Timer>)
    ensures Then(s, Joined(x, y, b)) == Joined(Then(s, x), y, b)
  {
    assert s.timers + (x.timers + b) == s.timers + x.timers + b;
    assert s.timers + (x.timers + y.timers) == s.timers + x.timers + y.timers;
    assert s.events + (x.events + y.events) == s.events + x.events + y.events;
  }

  /** A tick in which no considered timer is due changes nothing. */
  lemma {:induction false} TickNothingDue(namespace: string, ts: seq<Timer>, now: int, connected: bool)
    requires forall i :: 0 <= i < |ts| && Considered(ts[i], connected) ==> !Due(ts[i], now)
    ensures TickTimers(namespace, ts, now, connected).timers == ts
    ensures TickTimers(namespace, ts, now, connected).events == []
    decreases |ts|
  {
    if ts != [] {
      TickNothingDue(namespace, ts[1..], now, connected);
    }
  }

  /** A timer fires at most once per instant: ticking again at the same
      time, after a tick that went through, fires nothing and leaves the
      list as it is (intervals are not negative). */
  lemma {:induction false} TickOncePerInstant(namespace: string, ts: seq<Timer>, now: int, connected: bool)
    requires forall i :: 0 <= i < |ts| ==> Seconds(ts[i].interval) >= 0
    requires !TickTimers(namespace, ts, now, connected).crashed
    ensures var again := TickTimers(namespace, TickTimers(namespace, ts, now, connected).timers, now, connected);
            again.timers == TickTimers(namespace, ts, now, connected).timers && again.events == []
    decreases |ts|
  {
    if ts != [] {
      var s := StepTimer(namespace, ts[0], now, connected);
      var rest := TickTimers(namespace, ts[1..], now, connected);
      TickOncePerInstant(namespace, ts[1..], now, connected);
      SweepAppend(t => StepTimer(namespace, t, now, connected), s.timers, rest.timers);
      assert SweepJoins(t => StepTimer(namespace, t, now, connected), s.timers, rest.timers);
      TickNothingDue(namespace, s.timers, now, connected);
    }
  }

  /** `createtimer` as written (lines 576-586): an enabled one-shot timer of
      `seconds` seconds from `now`, without the other attributes. */
  function CreateTimerAsWritten(ts: seq<Timer>, seconds: int, text: string, now: int): (r: seq<Timer>)
    ensures |r| == |ts| + 1 && r[..|ts|] == ts
    ensures var t := r[|ts|];
            && t.enabled && t.oneShot && t.interval == Interval(0, 0, seconds)
            && t.time == now && t.send == text && t.config.None?
  {
    ts + [Timer(true, Interval(0, 0, seconds), true, now, text, None)]
  }

  /** The attributes a `DoAfter` timer evidently should have: no name,
      group or script, sent to the world, and (as the swallowed exception
      already has it) running while disconnected. */
  const DoAfterConfig := TimerConfig("", "", "", SendToWorld, true, Interval(0, 0, 0))

  /** `createtimer` with the missing attributes filled in. The new timer is
      appended, is enabled and one-shot, and its interval is `seconds`
      seconds. */
  function CreateTimer(ts: seq<Timer>, seconds: int, text: string, now: int): (r: seq<Timer>)
    ensures |r| == |ts| + 1 && r[..|ts|] == ts
    ensures var t := r[|ts|];
            t.enabled && t.oneShot && t.interval.hour == 0 && t.interval.minute == 0 &&
            Seconds(t.interval) == seconds && t.time == now && t.send == text && t.config.Some?
  {
    ts + [Timer(true, Interval(0, 0, seconds), true, now, text, Some(DoAfterConfig))]
  }

  /** A `DoAfter` timer waits out its delay, then sends its text once (when
      connected) and is gone. */
  lemma {:induction false} DoAfterFiresOnce(namespace: string, seconds: int, text: string, now: int, later: int)
    requires later > now + seconds
    ensures var ts := CreateTimer([], seconds, text, now);
            && TickTimers(namespace, ts, now + seconds, true).timers == ts
            && TickTimers(namespace, ts, now + seconds, true).events == []
            && TickTimers(namespace, ts, later, true) == Tick([], SendData(text), true, false)
  {
    var ts := CreateTimer([], seconds, text, now);
    assert ts[1..] == [];
    var early := StepTimer(namespace, ts[0], now + seconds, true);
    assert early == Tick(ts, [], true, false);
    var late := StepTimer(namespace, ts[0], later, true);
    assert late == Tick([], SendData(text), true, false);
    var stepEarly := t => StepTimer(namespace, t, now + seconds, true);
    var stepLate := t => StepTimer(namespace, t, later, true);
    assert TickTimers(namespace, ts, now + seconds, true) == Sweep(stepEarly, ts);
    assert TickTimers(namespace, ts, later, true) == Sweep(stepLate, ts);
    assert stepEarly(ts[0]) == early && stepLate(ts[0]) == late;
    assert Sweep(stepEarly, ts[1..]) == Tick([], [], false, false) == Sweep(stepLate, ts[1..]);
  }

  /** The same timer made as written stops the tick instead of sending its
      text. */
  lemma {:induction false} DoAfterAsWrittenStopsTick(namespace: string, seconds: int, text: string, now: int, later: int)
    requires later > now + seconds
    ensures var r := TickTimers(namespace, CreateTimerAsWritten([], seconds, text, now), later, true);
            r.crashed && r.events == []
  {
    var ts := CreateTimerAsWritten([], seconds, text, now);
    assert Stuck(ts[0], later, true);
  }

  /** The sweep as the `for` loop of line 166 performs it while line 183
      removes a fired one-shot timer from the very list being iterated: the
      list iterator's index moves past the timer that slid into the removed
      one's place, so that timer is not looked at in this tick. */
  function SweepAsWritten(step: Timer -> Tick, ts: seq<Timer>): Tick
    decreases |ts|
  {
    if ts == [] then Tick([], [], false, false)
    else
      var s := step(ts[0]);
      if s.crashed then Tick(ts, [], true, true)
      else if s.timers == [] && |ts| >= 2 then
        var rest := SweepAsWritten(step, ts[2..]);
        Tick([ts[1]] + rest.timers, s.events + rest.events, s.active || rest.active, rest.crashed)
      else
        var rest := SweepAsWritten(step, ts[1..]);
        Tick(s.timers + rest.timers, s.events + rest.events, s.active || rest.active, rest.crashed)
  }

  function TickTimersAsWritten(namespace: string, ts: seq<Timer>, now: int, connected: bool): Tick {
    SweepAsWritten(t => StepTimer(namespace, t, now, connected), ts)
  }

  /** Two one-shot timers that carry their attributes (here corrected
      `DoAfter` timers) due at the same tick: as written only the first
      sends its text and the second waits for the next tick; every due
      timer sending at its tick, the corrected sweep sends both and keeps
      neither. */
  lemma {:induction false} OneShotHidesNextTimer(namespace: string, seconds: int, x: string, y: string, now: int, later: int)
    requires later > now + seconds
    ensures var ts := CreateTimer(CreateTimer([], seconds, x, now), seconds, y, now);
            && TickTimersAsWritten(namespace, ts, later, true) == Tick([ts[1]], SendData(x), true, false)
            && TickTimers(namespace, ts, later, true) == Tick([], SendData(x) + SendData(y), true, false)
  {
    var ts := CreateTimer(CreateTimer([], seconds, x, now), seconds, y, now);
    var step := t => StepTimer(namespace, t, later, true);
    assert |ts| == 2 && ts[2..] == [] && ts[1..][1..] == [];
    var a := step(ts[0]);
    var b := step(ts[1]);
    assert a == Tick([], SendData(x), true, false);
    assert b == Tick([], SendData(y), true, false);
    assert SweepAsWritten(step, ts[2..]) == Tick([], [], false, false);
    assert TickTimersAsWritten(namespace, ts, later, true) == SweepAsWritten(step, ts);
    assert Sweep(step, ts[1..][1..]) == Tick([], [], false, false);
    assert Sweep(step, ts[1..]) == Tick([], SendData(y), true, false);
    assert TickTimers(namespace, ts, later, true) == Sweep(step, ts);
  }
}
