/**
 * The state the monitor keeps about the Zwift Click, and how the lines of
 * the child's output change it: `monitor_process` applies the event of each
 * stripped line, in the order the lines are read.
 */
module Device {
  import opened Options
  import opened PyStr
  import opened Classifier

  /** `zwift_status`: the two texts the fields ever hold. */
  datatype Connection = NotConnected | Connected

  /**
   * The fields `battery_level`, `zwift_mac` and `zwift_status`, and the
   * colour of the two button indicators (green is pressed, none is released).
   */
  datatype DeviceState = DeviceState(
    battery: Option<int>,
    mac: Option<string>,
    status: Connection,
    plusPressed: bool,
    minusPressed: bool)

  /** The window as constructed: no battery, no MAC, not connected, both indicators released. */
  const Initial := DeviceState(None, None, NotConnected, false, false)

  /** The text `monitor_process` stores as the MAC after a disconnection. */
  const NotAvailable := "Not Available"

  function Pressed(s: DeviceState, b: Button): bool {
    match b
    case Plus => s.plusPressed
    case Minus => s.minusPressed
  }

  /** The pressed and released branches of a button. */
  function PressRule(b: Button): Rule {
    if b == Plus then PlusPressedRule else MinusPressedRule
  }

  function ReleaseRule(b: Button): Rule {
    if b == Plus then PlusReleasedRule else MinusReleasedRule
  }

  function Other(b: Button): Button {
    if b == Plus then Minus else Plus
  }

  /** The body of one branch of the chain. */
  function Apply(s: DeviceState, e: Event): DeviceState {
    match e
    case BatteryLevel(n) => s.(battery := Some(n))
    case ButtonChanged(Plus, p) => s.(plusPressed := p)
    case ButtonChanged(Minus, p) => s.(minusPressed := p)
    case MacAnnounced(m) => s.(mac := Some(m), status := Connected)
    case Disconnect => s.(status := NotConnected, mac := Some(NotAvailable))
    case Swallowed(_) => s
    case Inert => s
  }

  /** One iteration of the loop: strip the line read, classify it, apply it. */
  function Step(s: DeviceState, raw: string): DeviceState {
    Apply(s, Classify(Strip(raw)))
  }

  /** The lines read so far, applied in read order. */
  function Feed(s: DeviceState, lines: seq<string>): DeviceState
    decreases |lines|
  {
    if |lines| == 0 then s else Step(Feed(s, lines[..|lines| - 1]), lines[|lines| - 1])
  }

  /** Feeding one more line of `lines` is one more step. */
  lemma FeedNext(s: DeviceState, lines: seq<string>, i: nat)
    requires i < |lines|
    ensures Feed(s, lines[..i + 1]) == Step(Feed(s, lines[..i]), lines[i])
  {
    assert lines[..i + 1][..i] == lines[..i];
  }

  // ---------------------------------------------------------------------
  // The reference: what the first marker of a line does

  /**
   * What the branch of the first marker present in `line` does to `s`,
   * stated from the priority list and the payload extractions alone.
   */
  ghost predicate RuleEffect(r: Option<Rule>, line: string, s: DeviceState, t: DeviceState) {
    match r
    case None => t == s
    case Some(BatteryRule) =>
      t == (match BatteryReading(line) case Some(n) => s.(battery := Some(n)) case None => s)
    case Some(PlusPressedRule) => t == s.(plusPressed := true)
    case Some(PlusReleasedRule) => t == s.(plusPressed := false)
    case Some(MinusPressedRule) => t == s.(minusPressed := true)
    case Some(MinusReleasedRule) => t == s.(minusPressed := false)
    case Some(MacRule) => MacPayload(line).Some? && t == s.(mac := MacPayload(line), status := Connected)
    case Some(DisconnectedRule) => t == s.(mac := Some(NotAvailable), status := NotConnected)
  }

  /** Each line has exactly the effect of its first marker's branch, and no other. */
  lemma StepFollowsFirstRule(s: DeviceState, raw: string)
    ensures RuleEffect(FirstRule(Strip(raw)), Strip(raw), s, Step(s, raw))
  {
    var line := Strip(raw);
    ClassifyFirstMatchWins(line);
    ApplyFollowsRule(s, line, Classify(line));
  }

  /** An event that comes from the first marker's branch, with that branch's payload, has that branch's effect. */
  lemma ApplyFollowsRule(s: DeviceState, line: string, e: Event)
    requires e.Swallowed? ==> e.rule == BatteryRule && BatteryReading(line).None?
    requires e.BatteryLevel? ==> BatteryReading(line) == Some(e.level)
    requires e.MacAnnounced? ==> MacPayload(line) == Some(e.mac)
    ensures RuleEffect(RuleOf(e), line, s, Apply(s, e))
  {
    match e
    case BatteryLevel(n) =>
    case ButtonChanged(b, p) =>
    case MacAnnounced(m) =>
    case Disconnect =>
    case Swallowed(r) =>
    case Inert =>
  }

  /**
   * A battery line sets the battery to its reading when the payload parses,
   * and otherwise changes nothing at all, even when a later marker such as
   * "Disconnected" is in the same line.
   */
  lemma BatteryLineEffect(s: DeviceState, raw: string)
    requires Contains(Strip(raw), Marker(BatteryRule))
    ensures BatteryReading(Strip(raw)).Some? ==> Step(s, raw) == s.(battery := BatteryReading(Strip(raw)))
    ensures BatteryReading(Strip(raw)).None? ==> Step(s, raw) == s
  {
    StepFollowsFirstRule(s, raw);
    FirstMatchIs(Strip(raw), Priority, 0);
  }

  /** A button line sets its own indicator and leaves every other field as it was. */
  lemma ButtonLineOnlyItsFlag(s: DeviceState, raw: string, b: Button)
    requires FirstRule(Strip(raw)) == Some(PressRule(b)) || FirstRule(Strip(raw)) == Some(ReleaseRule(b))
    ensures Pressed(Step(s, raw), b) <==> FirstRule(Strip(raw)) == Some(PressRule(b))
    ensures Pressed(Step(s, raw), Other(b)) == Pressed(s, Other(b))
    ensures Step(s, raw).battery == s.battery && Step(s, raw).mac == s.mac && Step(s, raw).status == s.status
  {
    StepFollowsFirstRule(s, raw);
    ButtonRuleOnlyItsFlag(FirstRule(Strip(raw)), Strip(raw), s, Step(s, raw), b);
  }

  lemma ButtonRuleOnlyItsFlag(r: Option<Rule>, line: string, s: DeviceState, t: DeviceState, b: Button)
    requires r == Some(PressRule(b)) || r == Some(ReleaseRule(b))
    requires RuleEffect(r, line, s, t)
    ensures Pressed(t, b) <==> r == Some(PressRule(b))
    ensures Pressed(t, Other(b)) == Pressed(s, Other(b))
    ensures t.battery == s.battery && t.mac == s.mac && t.status == s.status
  {
  }

  /** Disconnecting keeps the battery, and a second disconnection changes nothing more. */
  lemma DisconnectIdempotent(s: DeviceState, raw: string)
    requires FirstRule(Strip(raw)) == Some(DisconnectedRule)
    ensures Step(s, raw).battery == s.battery
    ensures Step(s, raw).status == NotConnected && Step(s, raw).mac == Some(NotAvailable)
    ensures Step(Step(s, raw), raw) == Step(s, raw)
  {
    StepFollowsFirstRule(s, raw);
    StepFollowsFirstRule(Step(s, raw), raw);
  }

  // ---------------------------------------------------------------------
  // Many lines

  /** Feeding two stretches of output one after the other is feeding their concatenation. */
  lemma {:induction false} FeedConcat(s: DeviceState, a: seq<string>, b: seq<string>)
    ensures Feed(s, a + b) == Feed(Feed(s, a), b)
    decreases |b|
  {
    if |b| == 0 {
      assert a + b == a;
    } else {
      var b' := b[..|b| - 1];
      assert (a + b)[..|a + b| - 1] == a + b';
      assert (a + b)[|a + b| - 1] == b[|b| - 1];
      FeedConcat(s, a, b');
    }
  }

  /** The indicator setting of a line for button `b`, if the line is one of `b`'s. */
  function ButtonWord(line: string, b: Button): Option<bool> {
    ButtonWordOf(FirstRule(line), b)
  }

  /** The indicator setting for button `b` of a line whose chain takes rule `r`. */
  function ButtonWordOf(r: Option<Rule>, b: Button): Option<bool> {
    if r == Some(PressRule(b)) then Some(true)
    else if r == Some(ReleaseRule(b)) then Some(false)
    else None
  }

  /** One line sets indicator `b` as its button word says, or leaves it. */
  lemma StepButton(s: DeviceState, raw: string, b: Button)
    ensures Pressed(Step(s, raw), b) == match ButtonWord(Strip(raw), b) case Some(p) => p case None => Pressed(s, b)
  {
    StepFollowsFirstRule(s, raw);
    ButtonFollowsRule(FirstRule(Strip(raw)), Strip(raw), s, Step(s, raw), b);
  }

  lemma ButtonFollowsRule(r: Option<Rule>, line: string, s: DeviceState, t: DeviceState, b: Button)
    requires RuleEffect(r, line, s, t)
    ensures Pressed(t, b) == match ButtonWordOf(r, b) case Some(p) => p case None => Pressed(s, b)
  {
  }

  lemma FeedPair(s: DeviceState, x: string, y: string)
    ensures Feed(s, [x, y]) == Step(Step(s, x), y)
  {
    assert [x][..0] == [];
    assert Feed(s, [x]) == Step(s, x);
    assert [x, y][..1] == [x];
  }

  /** The last line wins: pressed then released ends released, and the reverse ends pressed. */
  lemma PressThenRelease(s: DeviceState, press: string, release: string, b: Button)
    requires FirstRule(Strip(press)) == Some(PressRule(b))
    requires FirstRule(Strip(release)) == Some(ReleaseRule(b))
    ensures !Pressed(Feed(s, [press, release]), b)
    ensures Pressed(Feed(s, [release, press]), b)
  {
    FeedPair(s, press, release);
    FeedPair(s, release, press);
    StepButton(Step(s, press), release, b);
    StepButton(Step(s, release), press, b);
  }

  /** The setting of the last line of `lines` that presses or releases `b`. */
  function LastButtonWord(lines: seq<string>, b: Button): Option<bool>
    decreases |lines|
  {
    if |lines| == 0 then None
    else match ButtonWord(Strip(lines[|lines| - 1]), b)
      case Some(p) => Some(p)
      case None => LastButtonWord(lines[..|lines| - 1], b)
  }

  /** An indicator shows the last press or release of its button, or what it showed before. */
  lemma {:induction false} FeedButton(s: DeviceState, lines: seq<string>, b: Button)
    ensures Pressed(Feed(s, lines), b) == match LastButtonWord(lines, b) case Some(p) => p case None => Pressed(s, b)
    decreases |lines|
  {
    if |lines| > 0 {
      var prev := lines[..|lines| - 1];
      var raw := lines[|lines| - 1];
      FeedButton(s, prev, b);
      StepButton(Feed(s, prev), raw, b);
    }
  }

  /** The reading of the last battery line of `lines` whose payload parses. */
  function LastReading(lines: seq<string>): Option<int>
    decreases |lines|
  {
    if |lines| == 0 then None
    else
      var line := Strip(lines[|lines| - 1]);
      if FirstRule(line) == Some(BatteryRule) && BatteryReading(line).Some? then BatteryReading(line)
      else LastReading(lines[..|lines| - 1])
  }

  /** The battery field holds the last successful reading, or what it held before. */
  lemma {:induction false} FeedBattery(s: DeviceState, lines: seq<string>)
    ensures Feed(s, lines).battery == if LastReading(lines).Some? then LastReading(lines) else s.battery
    decreases |lines|
  {
    if |lines| > 0 {
      var prev := lines[..|lines| - 1];
      FeedBattery(s, prev);
      StepFollowsFirstRule(Feed(s, prev), lines[|lines| - 1]);
    }
  }

  /** A battery value that `str()` can print. */
  predicate BatteryPrintable(battery: Option<int>) {
    battery.None? || WithinDigitLimit(IntToString(battery.value))
  }

  lemma {:induction false} LastReadingPrintable(lines: seq<string>)
    ensures BatteryPrintable(LastReading(lines))
    decreases |lines|
  {
    if |lines| > 0 {
      ReadingWithinLimit(Strip(lines[|lines| - 1]));
      LastReadingPrintable(lines[..|lines| - 1]);
    }
  }

  /**
   * Starting from a printable battery value, every run of lines leaves one:
   * the battery label's `str()` never meets a number over the digit limit.
   */
  lemma FeedBatteryPrintable(s: DeviceState, lines: seq<string>)
    requires BatteryPrintable(s.battery)
    ensures BatteryPrintable(Feed(s, lines).battery)
  {
    FeedBattery(s, lines);
    LastReadingPrintable(lines);
  }

  /** MAC and status as a line of the MAC or the Disconnected branch leaves them. */
  function Link(line: string): Option<(Option<string>, Connection)> {
    LinkOf(FirstRule(line), line)
  }

  /** The connection change of a line whose chain takes rule `r`. */
  function LinkOf(r: Option<Rule>, line: string): Option<(Option<string>, Connection)> {
    if r == Some(MacRule) then Some((MacPayload(line), Connected))
    else if r == Some(DisconnectedRule) then Some((Some(NotAvailable), NotConnected))
    else None
  }

  /** The MAC and status that the last MAC or Disconnected line of `lines` leaves. */
  function LastLink(lines: seq<string>): Option<(Option<string>, Connection)>
    decreases |lines|
  {
    if |lines| == 0 then None
    else match Link(Strip(lines[|lines| - 1]))
      case Some(l) => Some(l)
      case None => LastLink(lines[..|lines| - 1])
  }

  /** One line sets MAC and status as its link says, or leaves them. */
  lemma StepLink(s: DeviceState, raw: string)
    ensures (Step(s, raw).mac, Step(s, raw).status) == match Link(Strip(raw)) case Some(l) => l case None => (s.mac, s.status)
  {
    StepFollowsFirstRule(s, raw);
    LinkFollowsRule(FirstRule(Strip(raw)), Strip(raw), s, Step(s, raw));
  }

  lemma LinkFollowsRule(r: Option<Rule>, line: string, s: DeviceState, t: DeviceState)
    requires RuleEffect(r, line, s, t)
    ensures (t.mac, t.status) == match LinkOf(r, line) case Some(l) => l case None => (s.mac, s.status)
  {
  }

  /**
   * MAC and status always change together: they are what the last MAC or
   * Disconnected line set, or what they were before.
   */
  lemma {:induction false} FeedLink(s: DeviceState, lines: seq<string>)
    ensures (Feed(s, lines).mac, Feed(s, lines).status) == match LastLink(lines) case Some(l) => l case None => (s.mac, s.status)
    decreases |lines|
  {
    if |lines| > 0 {
      var prev := lines[..|lines| - 1];
      FeedLink(s, prev);
      StepLink(Feed(s, prev), lines[|lines| - 1]);
    }
  }

  /** From the initial state, the status reads Connected exactly when a MAC line came after the last Disconnected line. */
  lemma ConnectedIffLastLinkIsMac(lines: seq<string>)
    ensures Feed(Initial, lines).status == Connected <==> (LastLink(lines).Some? && LastLink(lines).value.1 == Connected)
  {
    FeedLink(Initial, lines);
  }

  // ---------------------------------------------------------------------
  // Reading until end of file

  /** Where `iter(readline, "")` stops: the position of the first empty result, or the end. */
  function EndOfFile(results: seq<string>): (n: nat)
    ensures n <= |results|
    ensures forall k :: 0 <= k < n ==> results[k] != ""
    ensures n < |results| ==> results[n] == ""
    decreases |results|
  {
    if |results| == 0 || results[0] == "" then 0
    else
      var n := 1 + EndOfFile(results[1..]);
      assert forall k :: 1 <= k < n ==> results[k] == results[1..][k - 1];
      n
  }

  /**
   * The lines `iter(readline, "")` yields from the successive results of
   * `readline`: everything before the first empty result, which stands for
   * end of file. A blank line still holds its line break, so it is not empty.
   */
  function LinesRead(results: seq<string>): (r: seq<string>)
    ensures |r| <= |results| && r == results[..|r|]
    ensures forall k :: 0 <= k < |r| ==> r[k] != ""
    ensures |r| < |results| ==> results[|r|] == ""
  {
    results[..EndOfFile(results)]
  }

  /** A prefix without an empty result that ends at an empty result or at the end is what is read. */
  lemma LinesReadUnique(results: seq<string>, n: nat)
    requires n <= |results|
    requires forall k :: 0 <= k < n ==> results[k] != ""
    requires n == |results| || results[n] == ""
    ensures LinesRead(results) == results[..n]
  {
    assert EndOfFile(results) == n;
  }

  /** A result that is not empty, read before end of file, is not the end of file. */
  lemma BeforeEndOfFile(results: seq<string>, i: nat)
    requires i <= EndOfFile(results) && i < |results| && results[i] != ""
    ensures i + 1 <= EndOfFile(results)
  {
  }

  /** Stopping at an empty result or at the end, before end of file, is stopping at end of file. */
  lemma AtEndOfFile(results: seq<string>, i: nat)
    requires i <= EndOfFile(results) && (i == |results| || results[i] == "")
    ensures LinesRead(results) == results[..i]
  {
  }

  /** The log entries for the lines read: each stripped, none dropped, in read order. */
  function StripAll(lines: seq<string>): (r: seq<string>)
    ensures |r| == |lines|
    ensures forall k :: 0 <= k < |r| ==> r[k] == Strip(lines[k])
  {
    seq(|lines|, k requires 0 <= k < |lines| => Strip(lines[k]))
  }

  /** Logging one more line of `lines` after the entries so far gives the entries of one more line. */
  lemma LogNext(log: seq<string>, before: seq<string>, lines: seq<string>, i: nat)
    requires i < |lines| && log == before + StripAll(lines[..i])
    ensures log + [Strip(lines[i])] == before + StripAll(lines[..i + 1])
  {
    assert StripAll(lines[..i + 1]) == StripAll(lines[..i]) + [Strip(lines[i])];
  }
}
