/**
 * The window object: the child-process lifecycle behind the Start and Stop
 * buttons, the log, and the monitor loop that reads the child's output.
 */
module Service {
  import opened Options
  import opened PyStr
  import opened Classifier
  import opened Device

  /** The child process handle, reduced to whether `poll()` would still report it running. */
  datatype Child = Alive | Exited

  /** `process`, the service status label and the enabled state of the two buttons. */
  datatype Controls = Controls(process: Option<Child>, serviceStatus: string, startEnabled: bool, stopEnabled: bool)

  const Running := "Service Status: Running"
  const NotRunning := "Service Status: Not Running"
  const StoppingMessage := "Stopping service..."
  const StoppedMessage := "Service stopped."

  /** No process, "Not Running", Start enabled and Stop disabled. */
  const InitialControls := Controls(None, NotRunning, true, false)

  /** `start_service`: spawn only when there is no process. */
  function Start(c: Controls): Controls {
    if c.process.None? then Controls(Some(Alive), Running, false, true) else c
  }

  /** `stop_service`: the new controls and the messages it logs; it acts only on a process still running. */
  function Stop(c: Controls): (Controls, seq<string>) {
    if c.process == Some(Alive) then (Controls(None, NotRunning, true, false), [StoppingMessage, StoppedMessage])
    else (c, [])
  }

  /** The child ends on its own; nothing in the window reacts to it. */
  function Exit(c: Controls): Controls {
    if c.process == Some(Alive) then c.(process := Some(Exited)) else c
  }

  /** What happens to the controls: a button press, or the child ending. */
  datatype Command = StartCommand | StopCommand | ExitCommand

  /** A run of commands: the final controls and everything logged on the way. */
  function Run(c: Controls, commands: seq<Command>): (Controls, seq<string>)
    decreases |commands|
  {
    if |commands| == 0 then (c, [])
    else
      var (d, out) := Run(c, commands[..|commands| - 1]);
      match commands[|commands| - 1]
      case StartCommand => (Start(d), out)
      case StopCommand => (Stop(d).0, out + Stop(d).1)
      case ExitCommand => (Exit(d), out)
  }

  /** The label and the buttons follow `process`: Start is enabled exactly when there is none. */
  predicate ControlsAgree(c: Controls) {
    && c.startEnabled == c.process.None?
    && c.stopEnabled == c.process.Some?
    && c.serviceStatus == (if c.process.None? then NotRunning else Running)
  }

  /** A second Start does nothing, and Start changes something exactly when there is no process. */
  lemma StartIdempotent(c: Controls)
    ensures Start(Start(c)) == Start(c)
    ensures Start(c) != c <==> c.process.None?
    ensures Start(c).process.Some?
  {
  }

  /**
   * Stop acts only on a process that is still running: then it clears
   * `process`, resets the label and buttons, and logs the two messages;
   * otherwise (no process, as when the window closes before any start, or
   * an exited one) it changes and logs nothing. Either way no running
   * process is left behind.
   */
  lemma StopActsOnlyOnRunning(c: Controls)
    ensures c.process != Some(Alive) ==> Stop(c) == (c, [])
    ensures c.process == Some(Alive) ==> Stop(c) == (InitialControls, [StoppingMessage, StoppedMessage])
    ensures Stop(c).0.process != Some(Alive)
  {
  }

  /** Stop after Start returns to the initial controls and logs the two stop messages. */
  lemma StopAfterStart(c: Controls)
    requires c.process.None?
    ensures Stop(Start(c)) == (InitialControls, [StoppingMessage, StoppedMessage])
    ensures Stop(Start(c)).0.process.None?
  {
  }

  /** Start, Stop and the child ending all keep the label and buttons in agreement with `process`. */
  lemma {:induction false} RunKeepsAgreement(c: Controls, commands: seq<Command>)
    requires ControlsAgree(c)
    ensures ControlsAgree(Run(c, commands).0)
    decreases |commands|
  {
    if |commands| > 0 {
      RunKeepsAgreement(c, commands[..|commands| - 1]);
    }
  }

  /**
   * Once the child has ended on its own, `process` is never cleared: Start
   * and Stop both do nothing and log nothing, whatever is pressed.
   */
  lemma {:induction false} StuckAfterExit(c: Controls, commands: seq<Command>)
    requires c.process == Some(Exited)
    ensures Run(c, commands) == (c, [])
    decreases |commands|
  {
    if |commands| > 0 {
      var prefix := commands[..|commands| - 1];
      StuckAfterExit(c, prefix);
      assert Run(c, prefix) == (c, []);
      assert Start(c) == c && Stop(c) == (c, []) && Exit(c) == c;
      match commands[|commands| - 1]
      case StartCommand =>
        assert Run(c, commands) == (Start(c), []);
      case StopCommand =>
        var none: seq<string> := [];
        assert Run(c, commands) == (Stop(c).0, none + Stop(c).1);
        assert none + Stop(c).1 == none;
      case ExitCommand =>
        assert Run(c, commands) == (Exit(c), []);
    }
  }

  /** Every two stop messages are logged together, so the log of a run is an even count. */
  lemma {:induction false} RunLogsPairs(c: Controls, commands: seq<Command>)
    ensures |Run(c, commands).1| % 2 == 0
    ensures forall k :: 0 <= k < |Run(c, commands).1| ==>
      Run(c, commands).1[k] == if k % 2 == 0 then StoppingMessage else StoppedMessage
    decreases |commands|
  {
    if |commands| > 0 {
      RunLogsPairs(c, commands[..|commands| - 1]);
    }
  }

  /** The `ZwiftUI` window, with the fields the core reads and writes. */
  class ZwiftUi {
    var process: Option<Child>
    var serviceStatus: string
    var startEnabled: bool
    var stopEnabled: bool
    var batteryLevel: Option<int>
    var zwiftMac: Option<string>
    var zwiftStatus: Connection
    var plusPressed: bool
    var minusPressed: bool
    /** The lines appended to the log view and to log.txt. */
    var log: seq<string>

    function State(): DeviceState
      reads this
    {
      DeviceState(batteryLevel, zwiftMac, zwiftStatus, plusPressed, minusPressed)
    }

    function ControlState(): Controls
      reads this
    {
      Controls(process, serviceStatus, startEnabled, stopEnabled)
    }

    constructor()
      ensures State() == Initial
      ensures ControlState() == InitialControls
      ensures log == []
    {
      process := None;
      serviceStatus := NotRunning;
      startEnabled := true;
      stopEnabled := false;
      batteryLevel := None;
      zwiftMac := None;
      zwiftStatus := NotConnected;
      plusPressed := false;
      minusPressed := false;
      log := [];
    }

    /** `log_message`: append one line to the log. */
    method LogMessage(message: string)
      modifies this`log
      ensures log == old(log) + [message]
    {
      log := log + [message];
    }

    method StartService()
      modifies this`process, this`serviceStatus, this`startEnabled, this`stopEnabled
      ensures ControlState() == Start(old(ControlState()))
    {
      if process.None? {
        process := Some(Alive);
        serviceStatus := Running;
        startEnabled := false;
        stopEnabled := true;
      }
    }

    method StopService()
      modifies this`process, this`serviceStatus, this`startEnabled, this`stopEnabled, this`log
      ensures ControlState() == Stop(old(ControlState())).0
      ensures log == old(log) + Stop(old(ControlState())).1
    {
      if process == Some(Alive) {
        LogMessage(StoppingMessage);
        process := None;
        serviceStatus := NotRunning;
        LogMessage(StoppedMessage);
        startEnabled := true;
        stopEnabled := false;
      }
    }

    /** The branch bodies of the chain in `monitor_process`, for the event of one line. */
    method ApplyEvent(e: Event)
      modifies this`batteryLevel, this`zwiftMac, this`zwiftStatus, this`plusPressed, this`minusPressed
      ensures State() == Apply(old(State()), e)
    {
      match e {
        case BatteryLevel(n) =>
          batteryLevel := Some(n);
        case ButtonChanged(Plus, pressed) =>
          plusPressed := pressed;
        case ButtonChanged(Minus, pressed) =>
          minusPressed := pressed;
        case MacAnnounced(m) =>
          zwiftMac := Some(m);
          zwiftStatus := Connected;
        case Disconnect =>
          zwiftStatus := NotConnected;
          zwiftMac := Some(NotAvailable);
        case Swallowed(_) =>
        case Inert =>
      }
    }

    /** One pass of the loop body: strip, classify, apply the branch, log the stripped line. */
    method HandleLine(raw: string)
      modifies this`batteryLevel, this`zwiftMac, this`zwiftStatus, this`plusPressed, this`minusPressed, this`log
      ensures State() == Step(old(State()), raw)
      ensures log == old(log) + [Strip(raw)]
    {
      var line := Strip(raw);
      var e := Classify(line);
      ApplyEvent(e);
      LogMessage(line);
    }

    /** The loop body for the `i`-th result: one more line applied and logged. */
    method ReadLine(results: seq<string>, i: nat, ghost start: DeviceState, ghost before: seq<string>)
      requires i < |results|
      requires State() == Feed(start, results[..i]) && log == before + StripAll(results[..i])
      modifies this`batteryLevel, this`zwiftMac, this`zwiftStatus, this`plusPressed, this`minusPressed, this`log
      ensures State() == Feed(start, results[..i + 1]) && log == before + StripAll(results[..i + 1])
    {
      LogNext(log, before, results, i);
      FeedNext(start, results, i);
      HandleLine(results[i]);
    }

    /** The child process ends by itself. */
    method ChildExits()
      modifies this`process
      ensures ControlState() == Exit(old(ControlState()))
    {
      if process == Some(Alive) {
        process := Some(Exited);
      }
    }

    /**
     * `monitor_process` over the successive results of `readline`: with a
     * process, every line before end of file is stripped, classified,
     * applied and logged, in order; without one it returns at once.
     */
    method MonitorProcess(results: seq<string>)
      modifies this`batteryLevel, this`zwiftMac, this`zwiftStatus, this`plusPressed, this`minusPressed, this`log
      ensures old(process).None? ==> State() == old(State()) && log == old(log)
      ensures old(process).Some? ==> State() == Feed(old(State()), LinesRead(results))
      ensures old(process).Some? ==> log == old(log) + StripAll(LinesRead(results))
    {
      if process.None? {
        return;
      }
      ghost var start := State();
      ghost var before := log;
      var i := 0;
      while i < |results| && results[i] != ""
        invariant 0 <= i <= |results|
        invariant i <= EndOfFile(results)
        invariant State() == Feed(start, results[..i])
        invariant log == before + StripAll(results[..i])
        decreases |results| - i
      {
        BeforeEndOfFile(results, i);
        ReadLine(results, i, start, before);
        i := i + 1;
      }
      AtEndOfFile(results, i);
    }
  }
}
