/**
 * The texts of the three information labels, as `update_battery_display`,
 * `update_zwift_status_display` and `update_zwift_mac_display` set them
 * from the device state.
 */
module Display {
  import opened Options
  import opened PyStr
  import opened Classifier
  import opened Device

  const BatteryPrefix := "Battery: "
  const StatusPrefix := "Zwift Click Status: "
  const MacPrefix := "Zwift Click MAC Address: "

  /** `f"Battery: {battery_level}%"`, or the empty text while no reading has arrived. */
  function BatteryLabel(battery: Option<int>): string {
    match battery
    case None => ""
    case Some(n) => BatteryPrefix + IntToString(n) + "%"
  }

  /** The value of `zwift_status`. */
  function StatusText(c: Connection): string {
    match c
    case NotConnected => "Not Connected"
    case Connected => "Connected"
  }

  function StatusLabel(c: Connection): string {
    StatusPrefix + StatusText(c)
  }

  /** Python truthiness of `zwift_mac`: None and the empty text are false. */
  predicate Truthy(mac: Option<string>) {
    mac.Some? && mac.value != ""
  }

  /** The MAC label: the address when there is one, "Not Available" otherwise. */
  function MacLabel(mac: Option<string>): string {
    if Truthy(mac) then MacPrefix + mac.value else MacPrefix + NotAvailable
  }

  /**
   * The battery label is empty exactly when there is no reading, and
   * otherwise it is the prefix, the number, and "%", from which `int()`
   * recovers the reading. Every value the loop stores is printable
   * (`FeedBatteryPrintable`).
   */
  lemma BatteryLabelReadsBack(battery: Option<int>)
    requires BatteryPrintable(battery)
    ensures BatteryLabel(battery) == "" <==> battery.None?
    ensures battery.Some? ==>
      var text := BatteryLabel(battery);
      && |text| > |BatteryPrefix| + 1
      && text[..|BatteryPrefix|] == BatteryPrefix
      && text[|text| - 1] == '%'
      && ParseInt(text[|BatteryPrefix|..|text| - 1]) == battery
  {
    if battery.Some? {
      var n := battery.value;
      var text := BatteryLabel(battery);
      IntToStringChars(n);
      assert text[|BatteryPrefix|..|text| - 1] == IntToString(n);
      ParseIntToString(n);
    }
  }

  /** After the prefix, the MAC label shows the address itself whenever the address is truthy. */
  lemma MacLabelReadsBack(mac: Option<string>)
    requires Truthy(mac)
    ensures MacLabel(mac)[..|MacPrefix|] == MacPrefix
    ensures MacLabel(mac)[|MacPrefix|..] == mac.value
  {
  }

  /**
   * The MAC label reads "Not Available" exactly for no address, the empty
   * address, and the text "Not Available" that a disconnection stores.
   */
  lemma MacLabelNotAvailable(mac: Option<string>)
    ensures MacLabel(mac) == MacLabel(None) <==> (mac.None? || mac.value == "" || mac.value == NotAvailable)
  {
    if Truthy(mac) && MacLabel(mac) == MacLabel(None) {
      assert MacLabel(mac)[|MacPrefix|..] == mac.value;
      assert MacLabel(None)[|MacPrefix|..] == NotAvailable;
    }
  }

  /** Different connection states give different status labels. */
  lemma StatusLabelInjective(a: Connection, b: Connection)
    ensures StatusLabel(a) == StatusLabel(b) <==> a == b
  {
    if a != b {
      assert |StatusLabel(a)| != |StatusLabel(b)|;
    }
  }

  /** After a Disconnected line, the labels read as they did before anything was connected. */
  lemma DisconnectedLabels(s: DeviceState, raw: string)
    requires FirstRule(Strip(raw)) == Some(DisconnectedRule)
    ensures MacLabel(Step(s, raw).mac) == MacLabel(Initial.mac)
    ensures StatusLabel(Step(s, raw).status) == StatusLabel(Initial.status)
    ensures BatteryLabel(Step(s, raw).battery) == BatteryLabel(s.battery)
  {
    DisconnectIdempotent(s, raw);
    MacLabelNotAvailable(Step(s, raw).mac);
  }

  /** The labels built from the initial state are the texts the window is set up with. */
  lemma InitialLabels()
    ensures BatteryLabel(Initial.battery) == ""
    ensures StatusLabel(Initial.status) == "Zwift Click Status: Not Connected"
    ensures MacLabel(Initial.mac) == "Zwift Click MAC Address: Not Available"
  {
  }
}
