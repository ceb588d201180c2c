/**
 * Concrete log lines of the kind the child process prints, and what the
 * classifier makes of them.
 */
module LogScenarios {
  import opened Options
  import opened PyStr
  import opened Classifier

  /** A payload with a single space on either side. */
  function Pad(d: string): string {
    " " + d + " "
  }

  /** The battery line around a payload `d`, as the child prints it: `Current battery level is <d> app.py`. */
  function BatteryLine(d: string): string {
    Marker(BatteryRule) + Pad(d) + "app.py"
  }

  /** The battery marker ends in its only "is". */
  lemma BatteryMarkerFirstIs()
    ensures IndexOf(Marker(BatteryRule), "is") == Some(22)
  {
    var m := Marker(BatteryRule);
    assert m[22..24] == "is";
    assert 'i' !in m[..22];
    IndexOfByAbsentFirstChar(m, "is", 22);
  }

  /** The characters of the battery marker that the scenarios below rely on. */
  lemma BatteryMarkerChars()
    ensures |Marker(BatteryRule)| == 24
    ensures Marker(BatteryRule)[22..] == "is"
    ensures 'i' !in Marker(BatteryRule)[..22] && 'p' !in Marker(BatteryRule)
  {
    var m := Marker(BatteryRule);
    assert m[22..] == "is";
  }

  /** The first and last letters of the words before the marker's "is". */
  lemma BatteryMarkerEnds()
    ensures |Marker(BatteryRule)| == 24
    ensures Marker(BatteryRule)[0] == 'C' && Marker(BatteryRule)[20] == 'l' && Marker(BatteryRule)[21] == ' '
  {
  }

  lemma PadStrips(d: string)
    requires |d| > 0 && !IsSpace(d[0]) && !IsSpace(d[|d| - 1])
    ensures Strip(Pad(d)) == d
  {
    var u := Pad(d);
    assert u[..1] == " " && u[|d| + 1..] == " ";
    assert u[1..|d| + 1] == d;
    StripIsCut(u, 1, |d| + 1);
  }

  /** Without a "p" in the payload, the first "app.py" after it is the one the line ends with. */
  lemma PadTail(d: string)
    requires 'p' !in d
    ensures IndexOf(Pad(d) + "app.py", "app.py") == Some(|d| + 2)
  {
    var tail := Pad(d) + "app.py";
    assert tail[|d| + 2..] == "app.py";
    forall k | 0 <= k < |d| + 2
      ensures !OccursAt(tail, "app.py", k)
    {
      if k < |d| {
        assert tail[k + 1] == d[k];
      }
      NotOccursAtByMismatch(tail, "app.py", k, 1);
    }
    IndexOfIs(tail, "app.py", |d| + 2);
  }

  /** The first "is" of a battery line is the marker's own, and the payload follows it. */
  lemma BatteryLineFirstIs(d: string)
    ensures Contains(BatteryLine(d), Marker(BatteryRule))
    ensures IndexOf(BatteryLine(d), "is") == Some(22)
    ensures BatteryLine(d)[24..] == Pad(d) + "app.py"
  {
    var m := Marker(BatteryRule);
    var tail := Pad(d) + "app.py";
    var line := m + tail;
    assert line == BatteryLine(d);
    assert line[..|m|] == m;
    assert OccursAt(line, m, 0);
    BatteryMarkerFirstIs();
    IndexOfInPrefix(m, tail, "is");
    assert line[24..] == tail;
  }

  /** After the marker there is no second "is" to cut at, and the cut at "app.py" leaves the padded payload. */
  lemma BatteryLineTail(d: string)
    requires 'i' !in d && 'p' !in d
    ensures UpTo(UpTo(Pad(d) + "app.py", "is"), "app.py") == Pad(d)
  {
    var tail := Pad(d) + "app.py";
    assert 'i' !in tail by {
      assert 'i' !in "app.py";
    }
    NotContainsByMissingChar(tail, "is", 0);
    PadTail(d);
  }

  /**
   * Around a payload without "i" or "p" and with non-space ends, the
   * battery extraction gives back exactly the payload.
   */
  lemma BatteryLinePayload(d: string)
    requires |d| > 0 && !IsSpace(d[0]) && !IsSpace(d[|d| - 1])
    requires 'i' !in d && 'p' !in d
    ensures Contains(BatteryLine(d), Marker(BatteryRule))
    ensures BatteryPayload(BatteryLine(d)) == Some(d)
  {
    BatteryLineFirstIs(d);
    BatteryLineTail(d);
    PadStrips(d);
    BatteryPayloadBetween(BatteryLine(d));
  }

  /**
   * Whatever the number, the line `Current battery level is <n> app.py`
   * sets the battery to `n`: the reading is not clamped to 0..100. Only
   * the digit limit of `int()` bounds it.
   */
  lemma BatteryLineReadsBack(n: int)
    requires WithinDigitLimit(IntToString(n))
    ensures Classify(BatteryLine(IntToString(n))) == BatteryLevel(n)
  {
    var d := IntToString(n);
    IntToStringChars(n);
    BatteryLinePayload(d);
    ParseIntToString(n);
  }

  /** `Current battery level is 57 app.py` gives 57. */
  lemma BatteryFiftySeven(line: string)
    requires line == "Current battery level is 57 app.py"
    ensures Classify(line) == BatteryLevel(57)
  {
    var n := 57;
    assert IntToString(n) == "57";
    assert line == BatteryLine("57");
    BatteryLineReadsBack(n);
  }

  /**
   * A battery line whose payload is not an integer literal selects the
   * battery branch, and its ValueError is swallowed: nothing changes.
   */
  lemma BatteryNotANumber(d: string)
    requires |d| > 0 && !IsSpace(d[0]) && !IsSpace(d[|d| - 1])
    requires 'i' !in d && 'p' !in d
    requires !IsIntLiteral(d)
    ensures Classify(BatteryLine(d)) == Swallowed(BatteryRule)
  {
    BatteryLinePayload(d);
  }

  /** A payload of more digits than `int()` accepts is swallowed like any other failed reading. */
  lemma BatteryTooManyDigits(d: string)
    requires AllDigits(d) && |d| > IntMaxStrDigits
    ensures Classify(BatteryLine(d)) == Swallowed(BatteryRule)
  {
    BatteryLinePayload(d);
    ParseIntTooManyDigits(d);
  }

  /** `Current battery level is abc app.py` is swallowed. */
  lemma BatteryAbc(line: string)
    requires line == "Current battery level is abc app.py"
    ensures Classify(line) == Swallowed(BatteryRule)
  {
    var d := "abc";
    assert line == BatteryLine(d);
    ParseIntRejectsChar(d, 0);
    BatteryNotANumber(d);
  }

  lemma EarlierIsFirst(d: string)
    ensures IndexOf("This " + BatteryLine(d), "is") == Some(2)
  {
    var line := "This " + BatteryLine(d);
    assert line[..5] == "This ";
    assert line[2..4] == "is";
    assert line[..2] == "Th";
    IndexOfByAbsentFirstChar(line, "is", 2);
  }

  lemma EarlierIsAfter(d: string)
    ensures ("This " + BatteryLine(d))[4..] == " " + Marker(BatteryRule) + (Pad(d) + "app.py")
  {
  }

  lemma EarlierIsSecond(d: string)
    ensures UpTo(("This " + BatteryLine(d))[4..], "is") == " " + Marker(BatteryRule)[..22]
  {
    var m := Marker(BatteryRule);
    var after := " " + m + (Pad(d) + "app.py");
    EarlierIsAfter(d);
    BatteryMarkerChars();
    assert after[..23] == " " + m[..22];
    assert after[23..25] == "is";
    IndexOfByAbsentFirstChar(after, "is", 23);
  }

  /** The words before the marker's "is", with the space in front of them, are what the battery handler is left with. */
  lemma EarlierIsMiddle()
    ensures var mid := " " + Marker(BatteryRule)[..22];
      UpTo(mid, "app.py") == mid && ParseInt(Strip(mid)) == None
  {
    var w := Marker(BatteryRule)[..22];
    BatteryMarkerChars();
    BatteryMarkerEnds();
    EarlierIsWords(w);
  }

  lemma EarlierIsWords(w: string)
    requires |w| == 22 && 'p' !in w
    requires w[0] == 'C' && w[20] == 'l' && w[21] == ' '
    ensures UpTo(" " + w, "app.py") == " " + w
    ensures ParseInt(Strip(" " + w)) == None
  {
    var mid := " " + w;
    assert 'p' !in mid;
    NotContainsByMissingChar(mid, "app.py", 1);
    SpacedWordsStrip(w);
    ParseIntRejectsChar(w[..21], 0);
  }

  /** A space, then words, then a space, strips to the words. */
  lemma SpacedWordsStrip(w: string)
    requires |w| >= 2 && w[|w| - 1] == ' ' && !IsSpace(w[0]) && !IsSpace(w[|w| - 2])
    ensures Strip(" " + w) == w[..|w| - 1]
  {
    var mid := " " + w;
    assert mid[..1] == " " && mid[|w|..] == " ";
    assert mid[1..|w|] == w[..|w| - 1];
    StripIsCut(mid, 1, |w|);
  }

  /**
   * The battery handler splits at the first "is" of the whole line, not at
   * the marker: in `This Current battery level is <d> app.py` the payload
   * is `Current battery level`, so the reading fails whatever `d` is.
   */
  lemma BatteryEarlierIs(d: string)
    ensures Classify("This " + BatteryLine(d)) == Swallowed(BatteryRule)
  {
    var line := "This " + BatteryLine(d);
    assert line[5..5 + 24] == Marker(BatteryRule);
    assert OccursAt(line, Marker(BatteryRule), 5);
    EarlierIsFirst(d);
    EarlierIsSecond(d);
    EarlierIsMiddle();
    BatteryPayloadBetween(line);
  }

  /** `is <e> is Current battery level is <d> app.py`: two "is" before the marker. */
  function EarlierPayloadLine(e: string, d: string): string {
    "is" + Pad(e) + "is " + BatteryLine(d)
  }

  /** A line that opens with "is" has its first "is" at 0. */
  lemma LeadingIs(rest: string)
    ensures Contains("is" + rest, "is") && IndexOf("is" + rest, "is") == Some(0)
  {
    assert OccursAt("is" + rest, "is", 0);
    IndexOfIs("is" + rest, "is", 0);
  }

  lemma EarlierPayloadFirst(e: string, d: string)
    ensures Contains(EarlierPayloadLine(e, d), "is") && IndexOf(EarlierPayloadLine(e, d), "is") == Some(0)
    ensures EarlierPayloadLine(e, d)[2..] == Pad(e) + ("is" + (" " + BatteryLine(d)))
  {
    var rest := Pad(e) + ("is" + (" " + BatteryLine(d)));
    assert EarlierPayloadLine(e, d) == "is" + rest;
    LeadingIs(rest);
  }

  /** Without "i" or "p" in the payload, the "is" after it ends the cut, and there is no "app.py" before it. */
  lemma EarlierPayloadCut(e: string, rest: string)
    requires 'i' !in e && 'p' !in e
    ensures UpTo(UpTo(Pad(e) + ("is" + rest), "is"), "app.py") == Pad(e)
  {
    var after := Pad(e) + ("is" + rest);
    assert after[..|e| + 2] == Pad(e);
    assert after[|e| + 2..|e| + 4] == "is";
    IndexOfByAbsentFirstChar(after, "is", |e| + 2);
    assert 'p' !in Pad(e);
    NotContainsByMissingChar(Pad(e), "app.py", 1);
  }

  lemma EarlierPayloadMarker(e: string, d: string)
    ensures Contains(EarlierPayloadLine(e, d), Marker(BatteryRule))
  {
    var line := EarlierPayloadLine(e, d);
    var m := Marker(BatteryRule);
    assert line[|e| + 7..|e| + 7 + |m|] == m;
    assert OccursAt(line, m, |e| + 7);
  }

  lemma EarlierPayload(e: string, d: string)
    requires |e| > 0 && !IsSpace(e[0]) && !IsSpace(e[|e| - 1])
    requires 'i' !in e && 'p' !in e
    ensures Contains(EarlierPayloadLine(e, d), Marker(BatteryRule))
    ensures BatteryPayload(EarlierPayloadLine(e, d)) == Some(e)
  {
    var line := EarlierPayloadLine(e, d);
    EarlierPayloadMarker(e, d);
    EarlierPayloadFirst(e, d);
    EarlierPayloadCut(e, " " + BatteryLine(d));
    PadStrips(e);
    BatteryPayloadBetween(line);
  }

  /**
   * Text between two "is" before the marker is read as the battery level:
   * `is <n> is Current battery level is <d> app.py` sets the battery to
   * `n`, whatever the line's own payload `d` says.
   */
  lemma BatteryWrongReading(n: int, d: string)
    requires WithinDigitLimit(IntToString(n))
    ensures Classify(EarlierPayloadLine(IntToString(n), d)) == BatteryLevel(n)
  {
    IntToStringChars(n);
    EarlierPayload(IntToString(n), d);
    ParseIntToString(n);
  }

  /** The characters a printed Bluetooth address is made of: hex digits and separators. */
  predicate IsAddressText(mac: string) {
    forall k :: 0 <= k < |mac| ==>
      '0' <= mac[k] <= '9' || 'A' <= mac[k] <= 'F' || 'a' <= mac[k] <= 'f' || mac[k] == ':' || mac[k] == '-'
  }

  /** The announcement line for `mac`, as the child prints it: `Using MAC of "<mac>"`. */
  function MacLine(mac: string): string {
    Marker(MacRule) + mac + "\""
  }

  /** A character that is neither in an address nor in the MAC marker is not in the announcement line. */
  lemma MacLineLacks(mac: string, c: char)
    requires IsAddressText(mac)
    requires c !in Marker(MacRule) && c != '"'
    requires !('0' <= c <= '9' || 'A' <= c <= 'F' || 'a' <= c <= 'f' || c == ':' || c == '-')
    ensures c !in MacLine(mac)
  {
    var line := MacLine(mac);
    forall k | 0 <= k < |line| ensures line[k] != c {
      if k >= 14 && k < 14 + |mac| {
        assert line[k] == mac[k - 14];
      }
    }
  }

  /** An address has none of the battery and button markers in it. */
  lemma MacLineNoEarlierMarker(mac: string)
    requires IsAddressText(mac)
    ensures !Contains(MacLine(mac), Marker(BatteryRule))
    ensures !Contains(MacLine(mac), Marker(PlusPressedRule))
    ensures !Contains(MacLine(mac), Marker(PlusReleasedRule))
    ensures !Contains(MacLine(mac), Marker(MinusPressedRule))
    ensures !Contains(MacLine(mac), Marker(MinusReleasedRule))
  {
    MacLineMisses(mac, BatteryRule, 2);
    MacLineMisses(mac, PlusPressedRule, 0);
    MacLineMisses(mac, PlusReleasedRule, 0);
    MacLineMisses(mac, MinusPressedRule, 3);
    MacLineMisses(mac, MinusReleasedRule, 3);
  }

  /** A marker with an "r", a "P" or a "u" does not occur in the announcement line. */
  lemma MacLineMisses(mac: string, r: Rule, j: nat)
    requires IsAddressText(mac) && j < |Marker(r)|
    requires Marker(r)[j] == 'r' || Marker(r)[j] == 'P' || Marker(r)[j] == 'u'
    ensures !Contains(MacLine(mac), Marker(r))
  {
    MacMarkerLacks();
    MacLineLacks(mac, Marker(r)[j]);
    NotContainsByMissingChar(MacLine(mac), Marker(r), j);
  }

  lemma MacMarkerLacks()
    ensures 'r' !in Marker(MacRule) && 'P' !in Marker(MacRule) && 'u' !in Marker(MacRule)
  {
  }

  /** After the marker, both cuts and the strip leave the address itself. */
  lemma MacAfterMarker(mac: string)
    requires IsAddressText(mac)
    ensures Strip(UpTo(UpTo(mac + "\"", Marker(MacRule)), "\"")) == mac
  {
    var after := mac + "\"";
    assert 'U' !in after;
    NotContainsByMissingChar(after, Marker(MacRule), 0);
    assert after[..|mac|] == mac;
    assert after[|mac|..] == "\"";
    IndexOfByAbsentFirstChar(after, "\"", |mac|);
    assert mac[..0] == [] && mac[|mac|..] == [];
    StripIsCut(mac, 0, |mac|);
  }

  lemma MacLineAddress(mac: string)
    requires IsAddressText(mac)
    ensures Contains(MacLine(mac), Marker(MacRule))
    ensures MacPayload(MacLine(mac)) == Some(mac)
  {
    var line := MacLine(mac);
    var marker := Marker(MacRule);
    assert line[..14] == marker;
    IndexOfIs(line, marker, 0);
    assert line[14..] == mac + "\"";
    MacAfterMarker(mac);
    MacPayloadBetween(line);
  }

  /** `Using MAC of "<mac>"` announces exactly `mac`, for every address. */
  lemma MacLineReadsBack(mac: string)
    requires IsAddressText(mac)
    ensures Classify(MacLine(mac)) == MacAnnounced(mac)
  {
    MacLineNoEarlierMarker(mac);
    MacLineAddress(mac);
  }

  /** A bare `Disconnected` line is the disconnection event. */
  lemma DisconnectedLine(line: string)
    requires line == "Disconnected"
    ensures Classify(line) == Disconnect
  {
    NotContainsLonger(line, Marker(BatteryRule));
    NotContainsLonger(line, Marker(PlusPressedRule));
    NotContainsLonger(line, Marker(PlusReleasedRule));
    NotContainsLonger(line, Marker(MinusPressedRule));
    NotContainsLonger(line, Marker(MinusReleasedRule));
    NotContainsLonger(line, Marker(MacRule));
    assert line[..12] == Marker(DisconnectedRule);
    assert OccursAt(line, Marker(DisconnectedRule), 0);
    ChainTakesDisconnected(line);
  }
}
