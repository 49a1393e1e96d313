# MUDdrop relay core in Dafny

MUDdrop (`muddrop.py`) is a relay between a MUD game server and a local
telnet client. It loads plugins, each with triggers, aliases, timers and
variables, from a MUSHclient-style character file. Lines from the game server
are matched against the triggers. Lines the local client types are matched
against the aliases, and a line that no alias matches goes to the server as it
is. Timers are ticked once a second. Plugin scripts reach a plugin's variables
and switch its rules on and off through the `Callbacks` object.

This project models the logic of that relay as pure Dafny functions over
immutable data, and proves properties about it:

- `text.dfy` (`Text`): byte-string helpers.
  - ASCII lower-casing, as Python 2's `str.lower()` does it.
  - Decimal rendering and reading of numbers.
  - `str.replace`.
- `ansi.dfy` (`Ansi`): the escape-sequence pattern of `Formatting`.
  - `fnStripANSI`.
  - `fnGetLineBeginning`, which maps an offset in the stripped line back into the raw line.
- `style.dfy` (`Style`): `Formatting.fnGetStyle`, the style codes in force at an offset.
- `templates.dfy` (`Templates`):
  - `fnRegexpify`.
  - `fnTrimNewline`.
  - The capture-group substitution of `fnExpandRE`.
- `ordering.dfy` (`Ordering`): the rule order that `Trigger.__cmp__`, `Alias.__cmp__` and the stable `list.sort` give.
- `dispatch.dfy` (`Dispatch`): the relay's side effects as events.
  - Lines sent to the server, through `fnSendData`.
  - Text written to the local client.
  - Script code executed.
  - Plugin functions called.
- `rules.dfy` (`Rules`): triggers and aliases.
  - When a rule matches.
  - What a fired rule does.
  - The scan of one rule list, with its "keep evaluating" stop.
- `timers.dfy` (`Timers`): timers, one namespace's tick, and `createtimer`.
- `plugins.dfy` (`Plugins`): a plugin namespace.
- `callbacks.dfy` (`Callbacks`): the callbacks on variables, and on trigger and timer state.
- `lines.dfy` (`Lines`): line assembly from the server's raw byte stream.
- `relay.dfy` (`Relay`): `fnMatchTriggers`, `fnMatchAliases` and `fnHandleTimers` over all namespaces, and the path from raw server data to trigger events.
- `client.dfy` (`LocalClient`): the local client's sign-in.
  - Name, then password.
  - The twenty-second timeout.
  - `fnSend`, which writes only to a signed-in client.

The regular-expression engine is a parameter (`Rules.Engine`). It stands for
`re.search`, for the `@variable` pass of `fnExpandRE`, and for `Match.expand`.
Where the model depends on it, the proofs hold for every engine. Time is a
parameter `now` in whole seconds. Whether a connection object to the game
server exists (`cntConnection` is not None) is a parameter `connected`. It is
also true while a connection is still being made, and it stays true until
`cleanup` clears it. The order of the plugin dictionary's values is the
order of the namespace sequence given to the `Relay` functions. Every
`ToClient` event goes through `LocalClient.Send`.

In `fnMatchTriggers` and `fnMatchAliases`, a fired rule without "keep
evaluating" ends the scan of its own plugin only. The `break` at lines 249 and
281 leaves the inner loop, so the next plugin's rules are still tried.

The line pass of `fnProcessData` takes a `Relay.Version`. With `AsWritten` it
is `fnMatchTriggers` as the code has it; with `Corrected` it is the pass with
the style fallback of the second finding below corrected. The lemmas about
line assembly hold for both.

## Model

| member | source | states |
|---|---|---|
| Ansi.LineBeginningFindsStrippedByte | muddrop.py:49-60 | A match offset in the stripped line, mapped back by the line-beginning scan, lands on the very byte of the raw line that the stripped line has there. |
| Ansi.PlainLineUnchanged | muddrop.py:49-73 | On a line with no ESC or IAC byte, stripping changes nothing and the offset mapping is the identity. |
| Ansi.StripNotIdempotent | muddrop.py:71-73 | Stripping once can leave a new escape sequence behind: ESC ESC[m [m strips to ESC[m, which strips to nothing. |
| Style.CompleteStyle | muddrop.py:92-103 | The completed style has a foreground and a background colour. It extends the captured codes by white (37) exactly when they lack a foreground, and by black (40) exactly when they lack a background. |
| Style.StyleAtIsLastSequence | muddrop.py:75-103 | The style at an offset is absent exactly when no SGR sequence lies wholly before the offset. Otherwise it is the completed parameters of the last such sequence. |
| Templates.RegexpifyRoundTrip | muddrop.py:115-118 | The anchored pattern of a literal escapes every metacharacter. Removing the anchors and the escapes gives the literal back. |
| Templates.WellEscapedIsEscaped | muddrop.py:115-118 | Every well-escaped text is the escaping of its unescaped form, so the escaping is a bijection onto the well-escaped texts. |
| Templates.TrimNewline | muddrop.py:62-69 | The result is a prefix of the text, at most two bytes shorter. It equals the text exactly when the text ends in neither "\n" nor "\n\r". |
| Templates.TrimNewlineRemovesTerminator | muddrop.py:62-69 | A final "\r\n" or "\n\r" is removed exactly. A lone final "\n" is removed exactly unless the text before it ends in "\r". |
| Templates.GroupRefRendersGroup | muddrop.py:35-45 | A template `\g<k>` renders as group k's text, and as "" for a group that took no part. This needs no group text to hold a backslash. |
| Templates.ExpandGroupsLeavesPlain | muddrop.py:35-45 | A template without a backslash passes through group substitution unchanged. |
| Ordering.SortBySequence | muddrop.py:555-572 | The sorted rule list is ordered by sequence number and is a permutation of the loaded list. Rules with equal sequence numbers keep their loading order. |
| Ordering.SortIsTheStableOrder | muddrop.py:673 | Every order that is sorted by sequence number and keeps the loading order of equal numbers is the modelled sort. So Python's stable `list.sort` gives this list. |
| Rules.TriggerMatch | muddrop.py:203-231 | A trigger fires only when enabled. With "keep ANSI" it fires exactly when its pattern matches the raw line, with no style test. Otherwise an enabled trigger fires exactly when its pattern matches the stripped line and its style constraints accept the style at the raw offset of that match. |
| Rules.AliasMatch | muddrop.py:254-260 | An alias fires only when enabled, exactly when its pattern matches the typed line. |
| Rules.FireTrigger | muddrop.py:236-246 | A fired trigger with "send to" world sends its rendered text to the server unless it is empty; with "send to" script it runs that text as script code; with any other value it does neither. Its named script is called last, with its name, the line and the groups. |
| Rules.FireAlias | muddrop.py:265-278 | A fired alias with "send to" world first echoes its rendered text and a "\n" to the local client when it echoes, then sends the text to the server unless it is empty. With "send to" script it runs the text as script code. Nothing is echoed unless the alias sends to the world. Its named script is called last. |
| Rules.SelectedIsFires | muddrop.py:199-249 | The rules that fire in one list are exactly the matching rules with no earlier matching rule that stops evaluation, in list order. |
| Rules.SelectedEmptyIff | muddrop.py:252-261 | No rule of a list fires exactly when none of its rules matches: the scan can stop only after a rule has fired. |
| Rules.StyleFilterExample | muddrop.py:212-231 | On ESC[1;31m "You are hit!", a match at the line start has style 1, 31, 40. A trigger for bold colour-9 text accepts it; a trigger for non-bold text rejects it. |
| Dispatch.SendData | muddrop.py:290-298 | A line reaches the server exactly when it is not empty. |
| Dispatch.ScriptCall | muddrop.py:244-246 | A script function is called exactly when one is named, once, and it is that function with those arguments. |
| Timers.StepTimer | muddrop.py:166-188 | A timer counts as active exactly when it is enabled and not held back by a closed connection. It raises exactly when it is active, due and lacks its attributes. It sends only when active and due. A due timer with its attributes sends its text to the server ("send to" world, when connected, unless empty), or runs it as script code ("send to" script), and then calls its script with its name. When it fires, a one-shot timer is removed and a repeating one restarts from now. |
| Timers.TickSendsEveryTimer | muddrop.py:166-188 | When the tick does not raise, its events are every timer's own events, in list order: each considered, due timer sends at the tick. |
| Timers.TickOutcome | muddrop.py:163-188 | A namespace's tick raises exactly when some active, due timer lacks its attributes. Otherwise it reports activity exactly when some timer is active. It sends nothing unless an active timer is due, and it never adds timers. |
| Timers.TickNothingDue | muddrop.py:176 | A tick in which no active timer is due leaves the list unchanged and sends nothing. |
| Timers.TickOncePerInstant | muddrop.py:176-184 | A second tick at the same instant, after one that did not raise, sends nothing and changes nothing: every due timer was handled by the first. |
| Timers.CreateTimerAsWritten | muddrop.py:576-586 | `createtimer` keeps the earlier timers and appends one enabled one-shot timer of 0 hours, 0 minutes and `seconds` seconds, started now, with the given text. It sets none of the name, group, script, "send to", "active while closed" and offset attributes. |
| Timers.CreateTimer | muddrop.py:576-586 | The corrected `createtimer` appends an enabled one-shot timer of exactly `seconds` seconds with the given text and every attribute set. It keeps the earlier timers. |
| Timers.DoAfterFiresOnce | muddrop.py:546-586 | A corrected `DoAfter` timer sends nothing while its delay runs. Once the delay has passed, its tick sends its text once and removes it. |
| Timers.DoAfterAsWrittenStopsTick | muddrop.py:169-177 | As written, a due `DoAfter` timer makes the tick raise before it sends anything. |
| Timers.OneShotHidesNextTimer | muddrop.py:166-184 | As written, when two one-shot timers that carry their attributes (such as corrected `DoAfter` timers) are due together, only the first sends. The second waits for the next tick. Sweeping every timer, both send. |
| Relay.NextStyle | muddrop.py:196-198 | A line with an SGR sequence sets the carried style to the style at its end. A line without one, in particular a line without escape bytes, keeps it. The carried style stays complete, with foreground and background. |
| Relay.TriggerEventsAppend | muddrop.py:199-249 | The trigger events over a run of plugins are those of each plugin in turn. A stop rule in one plugin does not silence the next. |
| Relay.NamespaceWithoutMatchIsSilent | muddrop.py:199-231 | A plugin none of whose triggers accepts the line contributes no event. |
| Relay.MatchTriggersAsWritten | muddrop.py:195-249 | The carried style after a line is the line's closing style. The events are those of every plugin's triggers judged with that closing style as the fallback, so on a line without escape bytes they are those of matching under the carried style. |
| Relay.MatchTriggers | muddrop.py:195-249 | The corrected pass carries the same style forward as written. Its events are those of every plugin's triggers judged with the style carried from the earlier lines as the fallback. On lines without escape bytes it is identical to the pass as written. |
| Relay.LineStartJudgedBy | muddrop.py:196-215 | On a line with an SGR sequence, a stripped-line match that no SGR sequence precedes is accepted, as written, exactly when the trigger is enabled and the style the line ends with passes its filter; with the corrected fallback, exactly when the carried style passes it. |
| Relay.NotBoldAsWrittenMissesPlainText | muddrop.py:196-215 | As written, a trigger for non-bold "hit" does not fire on "hit" ESC[1m after a plain line, though "hit" is shown plain. |
| Relay.NotBoldFiresOnPlainText | muddrop.py:196-215 | With the style carried from earlier lines, the same trigger fires on the same line and calls its script once. |
| Relay.CarriedStyleJudgesLineStart | muddrop.py:212-215 | A stripped-line match that no SGR sequence precedes is accepted exactly when the trigger is enabled and the carried style passes its filter. |
| Relay.MatchAliases | muddrop.py:251-283 | When no enabled alias of any plugin matches, the typed line goes to the server unchanged. When some alias matches, only the fired aliases' events happen. |
| Relay.AliasScanMatched | muddrop.py:251-283 | The matched flag is set exactly when some enabled alias of some plugin matches the line. When it is not set, no alias did anything. |
| Relay.SweepNamespaces | muddrop.py:164-188 | The timer tick changes only the plugins' timer lists, and keeps the number of plugins. |
| Relay.HandleTimersNext | muddrop.py:163-193 | The timer loop is lost exactly when some active, due timer lacks its attributes. It stops the reactor exactly when nothing is connected and no timer is active. Otherwise it ticks again. |
| Relay.DoAfterAsWrittenLosesTimerLoop | muddrop.py:163-193 | As written, a due `DoAfter` timer ends the timer loop for good, connected or not. |
| Relay.DoAfterKeepsTimerLoop | muddrop.py:163-193 | A corrected due `DoAfter` timer sends its text and is removed, and the loop ticks again. |
| Relay.ReceiveFromHost | muddrop.py:985-995 | Every raw chunk from the server is first mirrored to the local client. The assembled lines, each followed by "\n", and the new buffer spell the old buffer and the chunk without its "\r" bytes. The buffer holds no "\n", and holds no "\r" if the old one held none. The events after the mirror and the carried style are those of the line pass over the assembled lines with their "\r" bytes removed, which for a buffer without "\r" are the assembled lines themselves. |
| Relay.ReceiveFromHostLines | muddrop.py:985-995 | Whenever the old buffer and the chunk without "\r" are some lines free of "\n", each followed by "\n", and then a remainder free of "\n", those lines, without "\r", reach the line pass in order and that remainder is the new buffer. |
| Relay.ChunkingDoesNotMatter | muddrop.py:985-995 | However the server's stream is cut into chunks, the same trigger events happen (apart from each chunk's mirror to the local client) and the same buffer and carried style remain. This holds for the trigger pass as written and for the corrected one. |
| Relay.ProcessLinesAppend | muddrop.py:285-288 | Processing two runs of lines one after the other is processing them together, with the style carried across. |
| Lines.DropCR | muddrop.py:988 | Dropping carriage returns leaves no "\r" and keeps every other byte. |
| Lines.SplitLines | muddrop.py:989-995 | The lines taken off the buffer, each followed by "\n", and then the remainder, spell the buffer exactly. No line and no remainder holds a "\n". |
| Lines.SplitJoined | muddrop.py:989-995 | Lines free of "\n", each followed by "\n", then a remainder free of "\n": the loop splits that text back into exactly those lines and that remainder. So any such split of the buffer is the one the loop makes. |
| Lines.Receive | muddrop.py:985-995 | The lines and the new buffer spell the old buffer followed by the chunk without its "\r" bytes. No line holds "\n", and no line holds "\r" when the old buffer had none. |
| Lines.ReceiveChunks | muddrop.py:985-995 | Receiving two chunks one after the other gives the same lines and buffer as receiving them at once. |
| Callbacks.SetVariable | muddrop.py:436-439 | The value is stored under the lower-cased name, every other variable and the rest of the plugin are unchanged, and 0 is returned. |
| Callbacks.GetVariable | muddrop.py:460-465 | A value is returned exactly when the lower-cased name is stored, and it is the stored value. |
| Callbacks.DeleteVariable | muddrop.py:466-473 | 0 is returned exactly when the lower-cased name was stored, 30019 otherwise. Afterwards the name is absent and every other variable is unchanged. |
| Callbacks.GetAfterSet | muddrop.py:436-465 | What is set under a name is read under any name with the same lower-case form, and other reads are unaffected. |
| Callbacks.DeleteUndoesSet | muddrop.py:436-473 | Deleting what was just set returns 0 and leaves the variables as before, minus that name. |
| Callbacks.EnableTrigger | muddrop.py:474-483 | Only the first trigger with exactly the given name is switched. 0 is returned exactly when one exists, else 30005 with nothing changed. |
| Callbacks.EnableTriggerGroup | muddrop.py:484-493 | Exactly the triggers of the group are switched, the others are unchanged, and the count returned is the group's size. |
| Callbacks.GroupSizeBounds | muddrop.py:484-493 | The count returned is at most the number of triggers. It is 0 exactly when no trigger is in the group. |
| Callbacks.EnableTimer | muddrop.py:494-504 | The first timer with the name is switched and restarted from now plus its offset, and 0 is returned. 30017 is returned when no timer has the name. The call raises when a timer without attributes comes first. |
| Callbacks.SwitchTimers | muddrop.py:505-531 | The group's timers before the first timer without attributes are switched, and no other timer changes. The loop raises exactly when such a timer exists. |
| Callbacks.EnableTimerGroup | muddrop.py:505-515 | The group's timers before the first timer without attributes are switched and restarted from now plus their offset. Every other timer is unchanged. The call raises exactly when some timer lacks its attributes; otherwise it returns the number of the group's timers. |
| Callbacks.EnableGroup | muddrop.py:516-531 | The group's triggers are switched, and so are the group's timers before the first timer without attributes. Other timers, aliases and variables are untouched, and timer start times are kept. The call raises exactly when a timer lacks its attributes, else returns the combined count. |
| Callbacks.TimerCallbacksDoNotRaise | muddrop.py:494-531 | With every timer carrying its attributes, none of the timer callbacks raises. |
| LocalClient.Connect | muddrop.py:1051-1056 | A new client is greeted and asked for the character name. |
| LocalClient.LineReceived | muddrop.py:1030-1044 | A first line is taken as the name. A password line signs in exactly when the name matches ignoring ASCII case and the password matches exactly; the client is then welcomed by the character's name, `OnRemoteConnect` is announced and the session stays open. Otherwise it refuses and closes. A signed-in client's line goes to the aliases, and only a signed-in client's lines do. |
| LocalClient.SignInIff | muddrop.py:1030-1044 | After any run of lines, a new client is signed in exactly when its first line is the character's name, in any ASCII case, and its second is the exact password. |
| LocalClient.FeedAuthenticates | muddrop.py:1030-1044 | From any phase, being signed in at the end needs the right name and password lines in the right places, or an earlier sign-in. |
| LocalClient.FeedKeepsAuthenticated | muddrop.py:1043-1044 | A signed-in client stays signed in whatever it types. |
| LocalClient.FeedClosedStaysClosed | muddrop.py:1040-1042 | After a refusal the connection is closed, and no further line has any effect. |
| LocalClient.Send | muddrop.py:1067-1069 | Text reaches the local client exactly when one is connected and signed in. |
| LocalClient.CloseServer | muddrop.py:1070-1073 | Closing stops listening, and closes the client connection when there is one. |
| LocalClient.Timeout | muddrop.py:1074-1076 | At the timeout, a client that has not signed in is disconnected. A signed-in client is left alone. |

## Left out

- Twisted networking is not modelled. This covers the reactor, connecting and reconnecting (`MUDConnection`), listening, transports and `callLater`, which is `Relay.Next`. The model keeps only the decisions the relay makes.
- Loading the character file and plugin XML, `getxmlattr`, and saving state are left out. So are the duplicate-name warnings while loading and the "no interval" check on loaded timers. Rules and timers are given as already loaded.
- Regular expressions, the `@variable` pass of `fnExpandRE` and `Match.expand` are a parameter (`Rules.Engine`). Python's regex engine is not modelled.
- Rules.Render: the engine's `substitute` and `expand` never fail. In Python, `Match.expand` (line 47) raises on a `\N` reference to a group that took no part, and on a reference beyond the pattern's groups. The `re.sub` at line 33 raises when a variable's value holds a group reference. Such a raise ends `fnMatchTriggers` mid-scan, so later triggers and plugins are not tried. It also leaves `rawDataReceived` (line 995) with the chunk's remaining lines still buffered. The model always fires the rule.
- Dispatch.SendData: the `except` path of `fnSendData` (lines 293-296) is left out. A failed write, including one while the connection is still being made (line 1018 has no protocol yet), calls `fnError`, which calls `fnExit` (lines 401-403, 155-161) and ends the program. The model emits the `ToHost` event instead.
- `fnExecCode`, `Plugin.run` and everything a script does are left out. Scripts are `ExecCode` and `CallScript` events. Effects a script has on the plugins in the middle of a scan are not applied to the rest of that scan.
- Logging, debug notes and the console (`fnLogDataIn`, `fnLogDataOut`, `fnNoteData`, `blnOmitFromLog`) are left out. Most of this goes only to the console or the log file. But with debug on (lines 233 and 262), each fired trigger and alias also writes a "Matched …" note through `fnNoteData`. With "note to remote" set, that note reaches the local client through `fnSend` (lines 320-321). These `ToClient` writes are not among the modelled events.
- The connection callbacks are left out: `fnExpandMacros`, `OnConnect`, `OnDisconnect`, `OnRemoteConnect`, `OnRemoteDisconnect` and `connectionLost`. Signing in is modelled as an `Announce` effect.
- `MUDdrop.fnGetStyle` at line 331 is not used by the matching core and is left out.
- These callbacks only forward to other parts: `Connect`, `Disconnect`, `Send`, `Note`, `TraceOut`, `ColourTell`, `ColourNote`, `SaveState`, `Exit` and `GetPluginName`. `DoAfter` forwards to `createtimer`, which is modelled. `GetInfo` returns configuration values and is left out.
- Time is whole seconds. `fltTime` is a float and `time.time()` has sub-second precision. Because the due test is a strict comparison, this can move a firing by under a second.
- Timers.TickTimers: the corrected sweep is the model's standard. The as-written sweep is `Timers.TickTimersAsWritten`, which skips the timer after each removed one-shot. Only the counterexample lemma uses it; the `Relay` functions use the corrected sweep.
- `init` calls `fnHandleTimers` (line 134) before it sets `cntConnection` (line 135). The model's tick always has a connection state, so that first tick, in which every read of `cntConnection` raises, is not modelled.
- LocalClient.Connect, LocalClient.LineReceived: the `Say` texts go out through Twisted's `sendLine` (lines 1034, 1038, 1041 and 1055), which appends "\r\n"; that terminator is not part of the modelled text. `LocalClient.Send` (`fnSend`, `transport.write`) writes its text unchanged.
- Rules.FireTrigger: the rendered text is `Rules.Render` of the engine parameter; the contract says nothing about its content.

## Findings

| source | as written | input that shows it | evidently intended | confidence | as-written member | corrected member |
|---|---|---|---|---|---|---|
| muddrop.py:576-586 | `createtimer` sets seven attributes but not `intSendTo`, `strScript`, `strName`, `strGroup`, `blnActiveClosed` or the offsets. A due `DoAfter` timer then reads the missing `intSendTo` at line 177, and the `AttributeError` ends `fnHandleTimers` before the next tick is scheduled. No timer of any plugin fires again. | `DoAfter(5, "say hi")`, then a tick more than five seconds later | The timer sends its text once and the timer loop goes on | not executed | Relay.DoAfterAsWrittenLosesTimerLoop | Relay.DoAfterKeepsTimerLoop |
| muddrop.py:196-215 | The carried style is updated to the line's closing style before the triggers are tried. Text that no SGR sequence precedes is then judged by how the line ends. | Line "hit" ESC[1m after a plain line, with a trigger on "hit" for non-bold text | Text before the line's first SGR sequence keeps the style carried from the earlier lines, so the trigger fires | not executed | Relay.NotBoldAsWrittenMissesPlainText | Relay.NotBoldFiresOnPlainText |
| muddrop.py:166-184 | A fired one-shot timer is removed from the list being iterated, so the iteration skips the timer after it for that tick. | Two one-shot timers that carry their attributes (loaded from the character file, or corrected `DoAfter` timers) with the same delay, ticked after the delay | Every due timer sends at the tick | not executed | Timers.OneShotHidesNextTimer | Timers.TickSendsEveryTimer |
