/** The BLE session state of the app screen and the handlers that change it:
    starting a scan, the platform rejecting it, discovery and scan-stopped
    events, the 10-second timer, connecting and disconnecting. Platform
    outcomes arrive as parameters; each event is one method, since the
    callbacks run one at a time on the script thread. */
module Session {
  import opened DeviceList

  /** The script's truthiness of `connectedDevice` (`string | null`): null and
      the empty string are falsy. */
  predicate Truthy(connected: Option<string>) {
    connected.Some? && connected.value != ""
  }

  class BleSession {
    /** `isScanning`: a scan is in flight, so the scan button is disabled. */
    var scanning: bool
    /** `devices`: discovered peripherals in first-seen order. */
    var devices: seq<Peripheral>
    /** `connectedDevice`: the id last connected to, or None for null. */
    var connected: Option<string>
    /** Scans whose discovery and scan-stopped listeners are still registered.
        Each such scan also has its timer pending, which removes exactly that
        pair of listeners. */
    var registrations: nat

    /** The invariant every handler keeps: ids on the list are distinct, and
        a scan in flight always has listeners registered. */
    ghost predicate Valid()
      reads this
    {
      IdsDistinct(devices) && (scanning ==> registrations > 0)
    }

    /** The state cells' initial values: not scanning, no devices, not
        connected, nothing registered. */
    constructor ()
      ensures Valid()
      ensures !scanning && devices == [] && connected == None && registrations == 0
    {
      scanning := false;
      devices := [];
      connected := None;
      registrations := 0;
    }

    /** `startScan`: ignored while a scan is in flight; otherwise empties the
        list, sets the flag, and registers both listeners (with their timer). */
    method StartScan()
      requires Valid()
      modifies this
      ensures Valid()
      ensures old(scanning) ==> unchanged(this)
      ensures !old(scanning) ==>
        scanning && devices == [] && registrations == old(registrations) + 1
      ensures connected == old(connected)
    {
      if !scanning {
        devices := [];
        scanning := true;
        registrations := registrations + 1;
      }
    }

    /** The scan request's rejection handler: clears the flag, nothing else. */
    method ScanRejected()
      requires Valid()
      modifies this
      ensures Valid()
      ensures !scanning
      ensures devices == old(devices) && connected == old(connected)
      ensures registrations == old(registrations)
    {
      scanning := false;
    }

    /** A discovery event: every registered discovery listener runs the
        updater in turn. With none registered the list does not change. */
    method Discover(p: Peripheral)
      requires Valid()
      modifies this
      ensures Valid()
      ensures devices == if old(registrations) == 0 then old(devices) else AddIfNew(old(devices), p)
      ensures scanning == old(scanning) && connected == old(connected)
      ensures registrations == old(registrations)
    {
      DeliverOnce(registrations, devices, p);
      AddIfNewKeepsIdsDistinct(devices, p);
      devices := Deliver(registrations, devices, p);
    }

    /** The scan-stopped event: each registered scan-stopped listener clears
        the flag. No listener is removed. */
    method ScanStopped()
      requires Valid()
      modifies this
      ensures Valid()
      ensures !scanning
      ensures devices == old(devices) && connected == old(connected)
      ensures registrations == old(registrations)
    {
      if registrations > 0 {
        scanning := false;
      }
    }

    /** A scan's 10-second timer: clears the flag and removes that scan's
        two listeners. Only a scan whose listeners are registered has a
        timer pending. */
    method TimerFired()
      requires Valid()
      requires registrations > 0
      modifies this
      ensures Valid()
      ensures !scanning && registrations == old(registrations) - 1
      ensures devices == old(devices) && connected == old(connected)
    {
      scanning := false;
      registrations := registrations - 1;
    }

    /** `connectToDevice(id)`: on success the connection becomes `id`,
        whatever it was; on failure it stays as it was. */
    method Connect(id: string, success: bool)
      requires Valid()
      modifies this
      ensures Valid()
      ensures connected == if success then Some(id) else old(connected)
      ensures scanning == old(scanning) && devices == old(devices)
      ensures registrations == old(registrations)
    {
      if success {
        connected := Some(id);
      }
    }

    /** `disconnectDevice`: nothing happens unless the connection is truthy;
        then success clears it and failure keeps the previous id. */
    method Disconnect(success: bool)
      requires Valid()
      modifies this
      ensures Valid()
      ensures connected == if Truthy(old(connected)) && success then None else old(connected)
      ensures scanning == old(scanning) && devices == old(devices)
      ensures registrations == old(registrations)
    {
      if Truthy(connected) {
        if success {
          connected := None;
        }
      }
    }
  }

  /** What callers can conclude from the handlers' contracts alone. */
  method Scenarios(a: string, b: string, x: string, y: string)
    requires a != b
  {
    var s := new BleSession();
    s.StartScan();
    assert s.scanning && s.registrations == 1;
    s.StartScan();
    assert s.registrations == 1;
    var pa1 := Peripheral(a, None, -60);
    var pb := Peripheral(b, Some("sensor"), -70);
    var pa2 := Peripheral(a, Some("renamed"), -55);
    s.Discover(pa1);
    s.Discover(pb);
    s.Discover(pa2);
    assert s.devices == [pa1, pb];
    s.TimerFired();
    assert !s.scanning && s.registrations == 0;
    s.Discover(Peripheral(x, None, -40));
    assert s.devices == [pa1, pb];

    s.Connect(x, false);
    assert s.connected == None;
    s.Connect(x, true);
    s.Connect(y, true);
    assert s.connected == Some(y);
    s.Disconnect(false);
    assert s.connected == Some(y);

    // A rejected request lets a second scan start while the first scan's
    // listeners and timer are still live; the earlier timer then clears the
    // flag of the later scan, whose listeners stay registered.
    s.StartScan();
    s.ScanRejected();
    s.StartScan();
    assert s.scanning && s.registrations == 2 && s.devices == [];
    s.TimerFired();
    assert !s.scanning && s.registrations == 1;
    s.Discover(pb);
    assert s.devices == [pb];
  }
}
