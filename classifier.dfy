/**
 * The line classifier of `ZwiftUI.monitor_process`: an if/elif chain of
 * substring tests on the stripped line, in which the first marker present
 * wins and decides the one state update made for that line.
 */
module Classifier {
  import opened Options
  import opened PyStr

  /** One branch of the if/elif chain, named after the marker that selects it. */
  datatype Rule =
    | BatteryRule
    | PlusPressedRule
    | PlusReleasedRule
    | MinusPressedRule
    | MinusReleasedRule
    | MacRule
    | DisconnectedRule

  /** The literal that each branch tests for with `marker in line` (case-sensitive). */
  function Marker(r: Rule): string {
    match r
    case BatteryRule => "Current battery level is"
    case PlusPressedRule => "Plus button PRESSED"
    case PlusReleasedRule => "Plus button RELEASED"
    case MinusPressedRule => "Minus button PRESSED"
    case MinusReleasedRule => "Minus button RELEASED"
    case MacRule => "Using MAC of \""
    case DisconnectedRule => "Disconnected"
  }

  /** The order in which the chain tries the markers. */
  const Priority: seq<Rule> :=
    [BatteryRule, PlusPressedRule, PlusReleasedRule, MinusPressedRule, MinusReleasedRule, MacRule, DisconnectedRule]

  datatype Button = Plus | Minus

  /** What one line tells the monitor. */
  datatype Event =
    | BatteryLevel(level: int)
    | ButtonChanged(button: Button, pressed: bool)
    | MacAnnounced(mac: string)
    | Disconnect
      // A marker matched but its handler's `except` swallowed the error.
    | Swallowed(rule: Rule)
      // No marker is present.
    | Inert

  /** The branch an event comes from. */
  function RuleOf(e: Event): Option<Rule> {
    match e
    case BatteryLevel(_) => Some(BatteryRule)
    case ButtonChanged(Plus, true) => Some(PlusPressedRule)
    case ButtonChanged(Plus, false) => Some(PlusReleasedRule)
    case ButtonChanged(Minus, true) => Some(MinusPressedRule)
    case ButtonChanged(Minus, false) => Some(MinusReleasedRule)
    case MacAnnounced(_) => Some(MacRule)
    case Disconnect => Some(DisconnectedRule)
    case Swallowed(r) => Some(r)
    case Inert => None
  }

  // ---------------------------------------------------------------------
  // The text extractions

  /**
   * `line.split("is")[1].split("app.py")[0].strip()`, with None for the
   * IndexError that `[1]` raises when "is" does not occur.
   */
  function BatteryPayload(line: string): Option<string> {
    match Element(Split(line, "is"), 1)
    case None => None
    case Some(between) => Some(Strip(Split(between, "app.py")[0]))
  }

  /** `int(level_str)` on the battery payload; None for a ValueError or an IndexError. */
  function BatteryReading(line: string): Option<int> {
    match BatteryPayload(line)
    case None => None
    case Some(text) => ParseInt(text)
  }

  /**
   * `line.split('Using MAC of "')[1].split('"')[0].strip()`, with None for
   * the IndexError of `[1]`.
   */
  function MacPayload(line: string): Option<string> {
    match Element(Split(line, Marker(MacRule)), 1)
    case None => None
    case Some(after) => Some(Strip(Split(after, "\"")[0]))
  }

  /**
   * The battery payload is the stripped text between the first and the
   * second "is" of the line (or its end), cut at the first "app.py".
   */
  lemma BatteryPayloadBetween(line: string)
    requires Contains(line, "is")
    ensures BatteryPayload(line) == Some(Strip(UpTo(UpTo(line[IndexOf(line, "is").value + 2..], "is"), "app.py")))
  {
    SplitThenSplit(line, "is", "app.py");
  }

  /** Every battery reading prints back within the digit limit of `str()`. */
  lemma ReadingWithinLimit(line: string)
    ensures BatteryReading(line).Some? ==> WithinDigitLimit(IntToString(BatteryReading(line).value))
  {
    match BatteryPayload(line)
    case None =>
    case Some(text) => ParsedWithinLimit(text);
  }

  /** The battery handler's IndexError cannot happen: its marker itself contains "is". */
  lemma BatteryPayloadExists(line: string)
    requires Contains(line, Marker(BatteryRule))
    ensures BatteryPayload(line).Some?
  {
    assert OccursAt(Marker(BatteryRule), "is", 22);
    ContainsTransitive(line, Marker(BatteryRule), "is");
    SplitSecond(line, "is");
  }

  /**
   * The MAC handler's IndexError cannot happen, and the address is the
   * stripped text after the first marker, cut at a repeat of the marker and
   * then at the first `"`.
   */
  lemma MacPayloadBetween(line: string)
    requires Contains(line, Marker(MacRule))
    ensures
      var marker := Marker(MacRule);
      MacPayload(line) == Some(Strip(UpTo(UpTo(line[IndexOf(line, marker).value + |marker|..], marker), "\"")))
  {
    SplitThenSplit(line, Marker(MacRule), "\"");
  }

  // ---------------------------------------------------------------------
  // The chain

  /**
   * The if/elif chain of `monitor_process` on one stripped line. The branch
   * taken is the first marker of `Priority` present in the line, whether or
   * not its payload parses, and only the battery handler can fail.
   */
  function Classify(line: string): (e: Event)
    ensures e.Swallowed? ==> e.rule == BatteryRule && BatteryReading(line).None?
    ensures e.BatteryLevel? ==> BatteryReading(line) == Some(e.level)
    ensures e.MacAnnounced? ==> MacPayload(line) == Some(e.mac)
  {
    if Contains(line, Marker(BatteryRule)) then
      match BatteryReading(line)
      case Some(n) => BatteryLevel(n)
      case None => Swallowed(BatteryRule)
    else if Contains(line, Marker(PlusPressedRule)) then ButtonChanged(Plus, true)
    else if Contains(line, Marker(PlusReleasedRule)) then ButtonChanged(Plus, false)
    else if Contains(line, Marker(MinusPressedRule)) then ButtonChanged(Minus, true)
    else if Contains(line, Marker(MinusReleasedRule)) then ButtonChanged(Minus, false)
    else if Contains(line, Marker(MacRule)) then
      MacPayloadBetween(line);
      MacAnnounced(MacPayload(line).value)
    else if Contains(line, Marker(DisconnectedRule)) then Disconnect
    else Inert
  }

  // ---------------------------------------------------------------------
  // The reference: a priority-ordered search over the markers

  /** The position of the first `true`. */
  function FirstTrue(flags: seq<bool>): (r: Option<nat>)
    ensures r.Some? ==> r.value < |flags| && flags[r.value]
    ensures r.Some? ==> forall k :: 0 <= k < r.value ==> !flags[k]
    ensures r.None? ==> forall k :: 0 <= k < |flags| ==> !flags[k]
  {
    if |flags| == 0 then None
    else if flags[0] then Some(0)
    else
      match FirstTrue(flags[1..])
      case None => None
      case Some(i) => Some(i + 1)
  }

  /** For each rule, whether its marker occurs in `line`. */
  function Present(line: string, rules: seq<Rule>): (r: seq<bool>)
    ensures |r| == |rules|
    ensures forall k :: 0 <= k < |rules| ==> r[k] == Contains(line, Marker(rules[k]))
  {
    seq(|rules|, k requires 0 <= k < |rules| => Contains(line, Marker(rules[k])))
  }

  /** The index of the first rule in `rules` whose marker occurs in `line`. */
  function FirstMatch(line: string, rules: seq<Rule>): (r: Option<nat>)
    ensures r.Some? ==> r.value < |rules| && Contains(line, Marker(rules[r.value]))
    ensures r.Some? ==> forall k :: 0 <= k < r.value ==> !Contains(line, Marker(rules[k]))
    ensures r.None? ==> forall k :: 0 <= k < |rules| ==> !Contains(line, Marker(rules[k]))
  {
    FirstTrue(Present(line, rules))
  }

  /** The highest-priority rule whose marker is present in `line`, if any. */
  function FirstRule(line: string): (r: Option<Rule>)
  {
    match FirstMatch(line, Priority)
    case None => None
    case Some(i) => Some(Priority[i])
  }

  /** The search is pinned down by a matching rule with no matching rule before it. */
  lemma FirstMatchIs(line: string, rules: seq<Rule>, j: nat)
    requires j < |rules| && Contains(line, Marker(rules[j]))
    requires forall k :: 0 <= k < j ==> !Contains(line, Marker(rules[k]))
    ensures FirstMatch(line, rules) == Some(j)
  {
  }

  /**
   * First match wins: the branch the chain takes is the highest-priority
   * marker present, whether or not its payload then parses.
   */
  lemma ClassifyFirstMatchWins(line: string)
    ensures RuleOf(Classify(line)) == FirstRule(line)
  {
    match FirstMatch(line, Priority)
    case Some(j) => ChainTakes(line, j);
    case None => ChainFallsThrough(line);
  }

  /** The chain stops at the first marker of `Priority` that is present. */
  lemma ChainTakes(line: string, j: nat)
    requires j < |Priority| && Contains(line, Marker(Priority[j]))
    requires forall k :: 0 <= k < j ==> !Contains(line, Marker(Priority[k]))
    ensures RuleOf(Classify(line)) == Some(Priority[j])
  {
    if j < 3 {
      ChainTakesEarly(line, j);
    } else {
      ChainTakesLate(line, j);
    }
  }

  lemma ChainTakesEarly(line: string, j: nat)
    requires j < 3 && Contains(line, Marker(Priority[j]))
    requires forall k :: 0 <= k < j ==> !Contains(line, Marker(Priority[k]))
    ensures RuleOf(Classify(line)) == Some(Priority[j])
  {
    var P := Priority;
    if j == 0 {
      ChainTakesBattery(line);
    } else if j == 1 {
      assert !Contains(line, Marker(P[0]));
      ChainTakesPlusPressed(line);
    } else {
      assert !Contains(line, Marker(P[0])) && !Contains(line, Marker(P[1]));
      ChainTakesPlusReleased(line);
    }
  }

  lemma ChainTakesLate(line: string, j: nat)
    requires 3 <= j < |Priority| && Contains(line, Marker(Priority[j]))
    requires forall k :: 0 <= k < j ==> !Contains(line, Marker(Priority[k]))
    ensures RuleOf(Classify(line)) == Some(Priority[j])
  {
    var P := Priority;
    assert !Contains(line, Marker(P[0])) && !Contains(line, Marker(P[1])) && !Contains(line, Marker(P[2]));
    if j == 3 {
      ChainTakesMinusPressed(line);
    } else if j == 4 {
      assert !Contains(line, Marker(P[3]));
      ChainTakesMinusReleased(line);
    } else if j == 5 {
      assert !Contains(line, Marker(P[3])) && !Contains(line, Marker(P[4]));
      ChainTakesMac(line);
    } else {
      assert !Contains(line, Marker(P[3])) && !Contains(line, Marker(P[4])) && !Contains(line, Marker(P[5]));
      ChainTakesDisconnected(line);
    }
  }

  lemma ChainTakesBattery(line: string)
    requires Contains(line, Marker(BatteryRule))
    ensures RuleOf(Classify(line)) == Some(BatteryRule)
  {
  }

  lemma ChainTakesPlusPressed(line: string)
    requires !Contains(line, Marker(BatteryRule))
    requires Contains(line, Marker(PlusPressedRule))
    ensures RuleOf(Classify(line)) == Some(PlusPressedRule)
  {
  }

  lemma ChainTakesPlusReleased(line: string)
    requires !Contains(line, Marker(BatteryRule))
    requires !Contains(line, Marker(PlusPressedRule))
    requires Contains(line, Marker(PlusReleasedRule))
    ensures RuleOf(Classify(line)) == Some(PlusReleasedRule)
  {
  }

  lemma ChainTakesMinusPressed(line: string)
    requires !Contains(line, Marker(BatteryRule))
    requires !Contains(line, Marker(PlusPressedRule))
    requires !Contains(line, Marker(PlusReleasedRule))
    requires Contains(line, Marker(MinusPressedRule))
    ensures RuleOf(Classify(line)) == Some(MinusPressedRule)
  {
  }

  lemma ChainTakesMinusReleased(line: string)
    requires !Contains(line, Marker(BatteryRule))
    requires !Contains(line, Marker(PlusPressedRule))
    requires !Contains(line, Marker(PlusReleasedRule))
    requires !Contains(line, Marker(MinusPressedRule))
    requires Contains(line, Marker(MinusReleasedRule))
    ensures RuleOf(Classify(line)) == Some(MinusReleasedRule)
  {
  }

  lemma ChainTakesMac(line: string)
    requires !Contains(line, Marker(BatteryRule))
    requires !Contains(line, Marker(PlusPressedRule))
    requires !Contains(line, Marker(PlusReleasedRule))
    requires !Contains(line, Marker(MinusPressedRule))
    requires !Contains(line, Marker(MinusReleasedRule))
    requires Contains(line, Marker(MacRule))
    ensures RuleOf(Classify(line)) == Some(MacRule)
  {
  }

  lemma ChainTakesDisconnected(line: string)
    requires !Contains(line, Marker(BatteryRule))
    requires !Contains(line, Marker(PlusPressedRule))
    requires !Contains(line, Marker(PlusReleasedRule))
    requires !Contains(line, Marker(MinusPressedRule))
    requires !Contains(line, Marker(MinusReleasedRule))
    requires !Contains(line, Marker(MacRule))
    requires Contains(line, Marker(DisconnectedRule))
    ensures RuleOf(Classify(line)) == Some(DisconnectedRule)
  {
  }

  /** With no marker present the chain falls through: the line is inert. */
  lemma ChainFallsThrough(line: string)
    requires forall k :: 0 <= k < |Priority| ==> !Contains(line, Marker(Priority[k]))
    ensures Classify(line) == Inert
  {
    var P := Priority;
    assert !Contains(line, Marker(P[0])) && !Contains(line, Marker(P[1])) && !Contains(line, Marker(P[2]));
    assert !Contains(line, Marker(P[3])) && !Contains(line, Marker(P[4])) && !Contains(line, Marker(P[5]));
    assert !Contains(line, Marker(P[6]));
  }
}
