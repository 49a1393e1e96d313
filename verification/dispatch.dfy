/** What matching and timers produce: the relay's side effects, as data.
    Writing to the host goes through `MUDdrop.fnSendData` (muddrop.py lines
    290-298); executing script text and calling a plugin function stand for
    `fnExecCode` and `Plugin.run`, whose effects are outside the model. */
module Dispatch {
  import opened Wrappers

  /** The `intSendTo` values the relay acts on; every other value sends
      nothing. */
  const SendToWorld: int := 0
  const SendToScript: int := 12

  datatype ScriptArgs =
    | RuleArgs(name: string, line: string, groups: seq<Option<string>>)
    | TimerArgs(name: string)

  datatype Event =
    | ToHost(line: string)                                        // a line sent to the game server
    | ToClient(text: string)                                      // text written to the local client
    | ExecCode(namespace: string, code: string)                   // script text run in a namespace
    | CallScript(namespace: string, script: string, args: ScriptArgs)  // a plugin function called


  /** `fnSendData`: a line is sent unless it is empty. */
  function SendData(line: string): (r: seq<Event>)
    ensures r == [] <==> line == ""
    ensures forall e :: e in r ==> e == ToHost(line) && line != ""
  {
    if line != "" then [ToHost(line)] else []
  }

  /** The "send to" switch shared by triggers, aliases and timers
      (lines 238-242, 267-274 and 177-181). */
  function SendTo(namespace: string, sendTo: int, text: string): (r: seq<Event>)
    ensures sendTo == SendToWorld ==> r == SendData(text)
    ensures sendTo == SendToScript ==> r == [ExecCode(namespace, text)]
    ensures sendTo != SendToWorld && sendTo != SendToScript ==> r == []
    ensures |r| <= 1 && forall e :: e in r ==> e == ToHost(text) || e == ExecCode(namespace, text)
  {
    if sendTo == SendToWorld then SendData(text)
    else if sendTo == SendToScript then [ExecCode(namespace, text)]
    else []
  }

  /** A bound script function is called only when one is named. */
  function ScriptCall(namespace: string, script: string, args: ScriptArgs): (r: seq<Event>)
    ensures |r| <= 1
    ensures r == [] <==> script == ""
    ensures forall e :: e in r ==> e == CallScript(namespace, script, args)
  {
    if script != "" then [CallScript(namespace, script, args)] else []
  }
}
