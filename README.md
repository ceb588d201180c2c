# Zwift Click handler window, modelled in Dafny

`ui.py` is a small PyQt6 window (`ZwiftUI`), built around these parts:

- **Child process.** Start Service spawns `app.py` as a child process; Stop Service terminates it.
- **Monitor thread.** A background loop (`monitor_process`) reads the child's combined output line by line. Each line is:
  1. stripped;
  2. classified by an if/elif chain of substring tests;
  3. folded into the window's state, which holds:
     - the battery level;
     - the button indicators, for Plus and Minus, each pressed or released;
     - the Zwift Click's MAC address;
     - the connection status;
  4. appended to the log view and to `log.txt`.
- **Labels.** Three labels show the battery, the connection status and the MAC address.

The project models this core, in these modules:

| file | module | contents |
|---|---|---|
| `options.dfy` | `Options` | `Option`, and `Element`, Python's `xs[i]`, with None for the IndexError |
| `pystr.dfy` | `PyStr` | the Python string operations the classifier uses: `strip()` over the full `str.isspace()` set, `p in s` and `find`, `split(sep)` with `join` as its partner, `int()` on decimal literals, `str(n)` |
| `classifier.dfy` | `Classifier` | the seven markers in chain order, the two payload extractions, and `Classify` (the chain itself) |
| | | `FirstMatch` and `FirstRule`: an independent reference, as a priority-ordered search |
| `scenarios.dfy` | `LogScenarios` | concrete line shapes the child prints, and what the chain makes of them |
| `device.dfy` | `Device` | the device state, one loop iteration `Step`, the whole run `Feed`, and what `iter(readline, "")` yields |
| | | `RuleEffect`: a reference semantics for what one line does, stated from the first marker present |
| `display.dfy` | `Display` | the texts the three `update_*_display` methods put on the labels |
| `service.dfy` | `Service` | the start/stop lifecycle as functions over `Controls` |
| | | the class `ZwiftUi`, whose fields are updated in place by `StartService`, `StopService`, `LogMessage` and `MonitorProcess`; `MonitorProcess` is a `while` loop over the successive `readline` results |

## Behaviour as written

Some of what `ui.py` does is easy to misread; the model follows the code:

- **The battery reading is not clamped or range-checked.** In a line `Current battery level is <n> app.py`, any integer literal `n` that `int()` accepts becomes the battery level, with no check against 0..100 (`LogScenarios.BatteryLineReadsBack`). The only bound is CPython's default limit of 4300 digits on `int()`: a longer number is a ValueError and is swallowed like any other failed reading (`LogScenarios.BatteryTooManyDigits`). So every stored level prints back through `str()` (`Device.FeedBatteryPrintable`).
- **A Disconnected line does not clear the MAC.** It stores the text "Not Available" as the MAC. The MAC label cannot tell that text from no address (`Display.MacLabelNotAvailable`).
- **A child that ends on its own is never cleared.** Nothing clears `process` when the child exits without Stop. From then on, Start Service does nothing (`process` is set) and Stop Service does nothing (`poll()` is not None). So the window can never start the service again (`Service.StuckAfterExit`).
- **The battery payload starts at the first "is" of the whole line, not at the marker.** It ends at the next "is" or at the first "app.py". An "is" before the marker therefore decides the payload. It can make the reading fail: in `This Current battery level is <d> app.py` the payload is `Current battery level` (`LogScenarios.BatteryEarlierIs`). It can also produce a wrong number: `is <n> is Current battery level is <d> app.py` sets the battery to `n`, whatever `d` is (`LogScenarios.BatteryWrongReading`).
- **The two `IndexError` handlers never fire.** The battery marker itself contains "is" (`Classifier.BatteryPayloadExists`). The MAC marker is the split separator (`Classifier.MacPayloadBetween`). Only the battery branch's `ValueError` is ever swallowed.
- **Only the first marker present counts, whether or not its payload parses.** A battery line whose number does not parse changes nothing, even when a later marker such as "Disconnected" is in the same line (`Device.BatteryLineEffect`).
- **The strip is Python's full `strip()`.** It removes all surrounding whitespace, not only the line terminator. Stripping twice is stripping once, and a line that is blank after stripping is still logged. Only an empty `readline()` result, which stands for end of file, ends the loop.

## Model

| member | source | states |
|---|---|---|
| Options.Element | ui.py:148 | `xs[i]` exists exactly when `i < len(xs)`, and is then element `i` |
| PyStr.Strip | ui.py:145 | the result is no longer than the input and neither starts nor ends with whitespace |
| PyStr.StripIsCut | ui.py:145 | `strip()` is the infix between the leading and trailing whitespace runs, for every such cut |
| PyStr.StripIdempotent | ui.py:145 | stripping a stripped line changes nothing |
| PyStr.IndexOf | ui.py:146 | the least index where the marker occurs, or None when it occurs nowhere |
| PyStr.ContainsTransitive | ui.py:146-148 | a text containing a marker contains every substring of that marker |
| PyStr.Split | ui.py:148 | the pieces join back to the line with the separator, each piece but the last ends at the first separator after it, the last holds none, and there is one piece exactly when the separator is absent |
| PyStr.SplitSecond | ui.py:148 | `split(sep)[1]` exists exactly when `sep` occurs, and is the text between its first and second occurrence (or the end) |
| PyStr.SplitThenSplit | ui.py:148 | `s.split(a)[1].split(b)[0]` is the text after the first `a`, cut at the next `a`, then at the first `b` |
| PyStr.ParseInt | ui.py:149 | `int()` succeeds exactly on an optional sign followed by one to 4300 digits |
| PyStr.ParseIntTooManyDigits | ui.py:149 | a run of more than 4300 digits raises the ValueError, whatever its value |
| PyStr.ParsedWithinLimit | ui.py:149 | every value `int()` returns prints back through `str()` within the digit limit |
| PyStr.ParseIntToString | ui.py:149 | `int(str(n)) == n` for every integer of at most 4300 digits |
| PyStr.ParseIntRejectsChar | ui.py:149-152 | one character that is neither a digit nor a leading sign raises the ValueError |
| PyStr.NatToStringValue | ui.py:226 | the decimal digits printed for `n` have the value `n` |
| Classifier.Classify | ui.py:146-213 | only the battery branch swallows an error, and only when its reading fails; a battery event carries the reading, a MAC event carries the extracted address |
| Classifier.BatteryPayloadBetween | ui.py:148 | the battery payload is the stripped text after the line's first "is", cut at the next "is" and then at the first "app.py" |
| Classifier.ReadingWithinLimit | ui.py:146-150 | a successful battery reading prints back within the digit limit |
| Classifier.BatteryPayloadExists | ui.py:146-152 | on a line with the battery marker the payload always exists: the IndexError cannot happen |
| Classifier.MacPayloadBetween | ui.py:201-208 | on a line with the MAC marker the address is the stripped text after the first marker, cut at a repeat of the marker and then at the first `"`; the IndexError cannot happen |
| Classifier.FirstMatch | ui.py:146-213 | the index of the first rule whose marker is present, with no marker before it present; None when no marker is present |
| Classifier.FirstMatchIs | ui.py:146-213 | a present marker with no present marker before it is the first match |
| Classifier.ClassifyFirstMatchWins | ui.py:146-213 | the branch the chain takes is exactly the highest-priority marker present |
| Classifier.ChainTakes | ui.py:146-213 | with marker `j` present and none before it, the chain takes branch `j` |
| Classifier.ChainFallsThrough | ui.py:146-213 | a line with no marker is inert |
| LogScenarios.BatteryLineReadsBack | ui.py:146-150 | `Current battery level is <n> app.py` sets the battery to `n`, for every integer `n` of at most 4300 digits, with no clamping |
| LogScenarios.BatteryTooManyDigits | ui.py:146-152 | a battery line whose payload is more than 4300 digits takes the battery branch and its ValueError is swallowed |
| LogScenarios.BatteryFiftySeven | ui.py:146-150 | `Current battery level is 57 app.py` gives the reading 57 |
| LogScenarios.BatteryNotANumber | ui.py:146-152 | a battery line whose payload is not an integer literal takes the battery branch and its ValueError is swallowed |
| LogScenarios.BatteryAbc | ui.py:146-152 | `Current battery level is abc app.py` is swallowed |
| LogScenarios.BatteryEarlierIs | ui.py:148-152 | in `This Current battery level is <d> app.py` the reading fails whatever `d` is, because the payload starts at the "is" of "This" |
| LogScenarios.BatteryWrongReading | ui.py:146-150 | `is <n> is Current battery level is <d> app.py` sets the battery to `n`, whatever `d` is: the text between the first two "is" is read |
| LogScenarios.MacLineNoEarlierMarker | ui.py:146-200 | an announcement line holds none of the battery and button markers |
| LogScenarios.MacLineReadsBack | ui.py:201-206 | `Using MAC of "<mac>"` announces exactly `mac`, for every address text |
| LogScenarios.DisconnectedLine | ui.py:209-213 | a bare `Disconnected` line is the disconnection event |
| Device.StepFollowsFirstRule | ui.py:145-213 | one line has exactly the effect of its first marker's branch in the reference semantics, and changes nothing else |
| Device.BatteryLineEffect | ui.py:146-152 | a battery line sets the battery when the reading parses and otherwise leaves the whole state unchanged |
| Device.ButtonLineOnlyItsFlag | ui.py:153-200 | a button line sets its own indicator (pressed exactly for the PRESSED marker) and leaves the other indicator, battery, MAC and status unchanged |
| Device.DisconnectIdempotent | ui.py:209-213 | a Disconnected line keeps the battery, sets status and MAC to not connected and "Not Available", and a second one changes nothing |
| Device.StepButton | ui.py:153-200 | after one line an indicator is what the line's button word says, or what it was |
| Device.PressThenRelease | ui.py:153-200 | of a press and a release of the same button, the later line wins |
| Device.FeedButton | ui.py:144-215 | after a run of lines an indicator shows the last press or release of its button, or what it showed before |
| Device.FeedBattery | ui.py:144-152 | after a run of lines the battery holds the last reading that parsed, or what it held before |
| Device.FeedBatteryPrintable | ui.py:144-152 | from a printable battery value every run of lines leaves a printable one, so the label's `str()` never meets a number over the limit |
| Device.StepLink | ui.py:201-213 | after one line MAC and status are what a MAC or Disconnected line sets, or are unchanged |
| Device.FeedLink | ui.py:144-213 | MAC and status always change together, to what the last MAC or Disconnected line set |
| Device.ConnectedIffLastLinkIsMac | ui.py:201-213 | from the initial state, the status is Connected exactly when a MAC line came after the last Disconnected line |
| Device.FeedConcat | ui.py:144-215 | feeding two stretches of output one after the other is feeding their concatenation |
| Device.FeedNext | ui.py:144-215 | feeding one more line is one more loop iteration |
| Device.FeedPair | ui.py:144-215 | two lines are two loop iterations in read order |
| Device.EndOfFile | ui.py:144 | the loop stops at the first empty `readline()` result, or at the end of the results |
| Device.LinesRead | ui.py:144 | the lines read are a prefix of the results, none of them empty, stopped at an empty result or the end |
| Device.LinesReadUnique | ui.py:144 | any prefix with no empty result that ends at an empty result or at the end is exactly the lines read |
| Device.LogNext | ui.py:145-215 | logging one more stripped line extends the log by that line |
| Display.BatteryLabelReadsBack | ui.py:224-228 | for every printable battery value (every value the loop stores is one), the label is empty exactly when there is no reading; otherwise it is "Battery: ", the number and "%", and `int()` of the middle gives the reading back |
| Display.MacLabelReadsBack | ui.py:233-235 | a truthy MAC is shown verbatim after the prefix |
| Display.MacLabelNotAvailable | ui.py:233-237 | the MAC label reads "Not Available" exactly for no MAC, the empty MAC and the stored text "Not Available" |
| Display.StatusLabelInjective | ui.py:230-231 | the two connection states give different status labels |
| Display.DisconnectedLabels | ui.py:209-213 | after a Disconnected line the MAC and status labels read as before any connection, and the battery label is kept |
| Display.InitialLabels | ui.py:34-40 | the labels built from the initial state are the texts the window is set up with |
| Service.StartIdempotent | ui.py:120-125 | a second Start does nothing, Start changes the controls exactly when there is no process, and afterwards a process is set |
| Service.StopActsOnlyOnRunning | ui.py:130-139 | for all controls: without a running process Stop changes and logs nothing; with one it resets to the initial controls and logs the two messages; it never leaves a running process |
| Service.StopAfterStart | ui.py:120-139 | Stop after Start returns to the initial controls and logs the two stop messages |
| Service.RunKeepsAgreement | ui.py:120-139 | every sequence of Start, Stop and child exits keeps the service label and both buttons in agreement with `process` |
| Service.StuckAfterExit | ui.py:120-139 | once the child has ended on its own, no sequence of commands changes the controls or logs anything |
| Service.RunLogsPairs | ui.py:130-139 | the log of any run of commands alternates "Stopping service..." and "Service stopped.", in pairs |
| Service.ZwiftUi.constructor | ui.py:11-14 | no process, no battery or MAC, not connected, indicators released, Start enabled and Stop disabled, empty log |
| Service.ZwiftUi.LogMessage | ui.py:112-118 | the log is the old log with the message appended |
| Service.ZwiftUi.StartService | ui.py:120-125 | the new controls are `Start` of the old ones |
| Service.ZwiftUi.StopService | ui.py:130-139 | the new controls and the log extension are `Stop` of the old controls |
| Service.ZwiftUi.ChildExits | ui.py:131 | a running child becomes exited, and the handle is kept |
| Service.ZwiftUi.ApplyEvent | ui.py:146-213 | the new device fields are `Apply` of the old ones and the event |
| Service.ZwiftUi.HandleLine | ui.py:145-215 | the device fields advance by one `Step` and the stripped line is logged |
| Service.ZwiftUi.MonitorProcess | ui.py:141-215 | without a process nothing changes; with one, the device fields are the lines read applied in order and the log gains every line read, stripped, in order |

## Left out

- Widgets, layout and stylesheets (PyQt6): each button indicator is a boolean for green or none, and each label is the text a function of the state gives. This is what the source shows, because it refreshes a label after every change of the fields behind it.
- Process control in `subprocess` (`Popen`, `terminate`, `wait`, `poll`): part of the operating system. The child is `Alive` or `Exited`, and ending on its own is the separate command `ChildExits` / `Exit`.
- Service.ZwiftUi.StartService: does not model the exception `Popen` raises when the child cannot be spawned; starting always succeeds.
- Threads: the monitor is one sequential pass over the successive `readline()` results, given as a sequence. Interleavings between the monitor thread and the Stop button or `closeEvent` are not modelled.
- The file `log.txt` and the cursor moves of the log view (`log_message`): file and widget I/O. Both receive the same lines, modelled as one sequence `log`.
- PyStr.ParseInt: accepts an optional sign and at most 4300 ASCII digits. `int()` also accepts underscores between digits and non-ASCII decimal digits; such payloads parse in the source and fail here. The 4300-digit limit is CPython's default since 3.11 (and the 3.10.7 and 3.9.14 releases). It can be changed with `sys.set_int_max_str_digits`, and older interpreters have none; the model fixes it at the default.
- Display.BatteryLabel: does not model the ValueError `str()` raises for a number over the digit limit. No battery value the loop stores is that long (`Device.FeedBatteryPrintable`), so `Display.BatteryLabelReadsBack` is stated for printable values.
- `toggle_log_display`, `closeEvent`, `setup_ui` and the `__main__` block: presentation and program start, with no state of the core.
- The concrete scenarios about addresses and payloads are stated for every address text, or every payload without "i" or "p". They are not stated for arbitrary text.
