# BLE session model of the Bluetooth connection app

The app is a single React Native screen. It scans for Bluetooth Low Energy
peripherals, lists them, and connects to or disconnects from one. Almost all
of `App.tsx` is layout and styling around the `react-native-ble-manager`
bridge. The state it keeps is held in three state cells:

- `isScanning`: a scan is in flight.
- `devices`: the discovered peripherals, in the order they were first seen.
- `connectedDevice`: the id of the connected device, or `null`.

The handlers change only these cells and the set of registered event
listeners. This project models that state and those handlers in Dafny.

- `DeviceList.dfy` (module `DeviceList`) is the pure part. It has the
  `Peripheral` record and `Find`, which is `Array.prototype.find` by id. It
  has `AddIfNew`, the discovery updater that appends a peripheral only when
  its id is new. It has `Replay`, the list after a sequence of discovery
  events, and `Deliver`, one event handed to several registered copies of
  the updater. The lemmas prove id-uniqueness, first-seen order, that
  earlier entries never change, that a repeat keeps the first entry, and
  that the updater is idempotent.
- `BleSession.dfy` (module `Session`) is the imperative part. Class
  `BleSession` holds `scanning`, `devices`, `connected` and `registrations`.
  `registrations` counts the scans whose discovery and scan-stopped
  listeners are still registered. Each such scan has its timer pending, and
  that timer removes exactly that scan's pair. Every platform outcome and
  event is one method: `StartScan`, `ScanRejected`, `Discover`,
  `ScanStopped`, `TimerFired`, `Connect` and `Disconnect`. Success or
  failure of a platform call enters as a `bool` parameter. Every method
  keeps `Valid()`: the ids on the list are distinct, and a scan in flight
  has listeners registered.

Some behaviours follow the code closely:

- Disconnecting tests `if (connectedDevice)`, which uses the script's
  truthiness. Both `null` and the empty string count as not connected, so
  `Disconnect` does nothing for `Some("")` (`Session.Truthy`).
- One discovery event runs every registered discovery listener. Because the
  updater is idempotent, this changes the list exactly as one run would
  (`DeliverOnce`).
- A rejected scan request clears the flag but leaves that scan's listeners
  and its timer in place. A new scan can then start while they are still
  registered. The earlier scan's timer later clears the flag of the newer
  scan. `Session.Scenarios` shows this sequence.

## Model

| member | source | states |
|---|---|---|
| `DeviceList.FirstIndex` | App.tsx:78 | the position of the first entry with the given id: that entry carries the id and no earlier entry does |
| `DeviceList.Find` | App.tsx:78 | `find` by id gives None exactly when no entry carries the id, and otherwise the first entry that does |
| `DeviceList.AddIfNew` | App.tsx:77-83 | a peripheral whose id is absent is appended at the end; when its id is present the list is returned unchanged |
| `DeviceList.Replay` | App.tsx:75-84 | the list after a sequence of discovery events, each run through the updater once in delivery order; what it yields is stated by the Replay lemmas below |
| `DeviceList.Deliver` | App.tsx:92 | one native discovery event run through each of the k discovery listeners that successive scans registered; what it yields is stated by DeliverOnce |
| `DeviceList.AddIfNewExtends` | App.tsx:79-82 | the update keeps every earlier entry in place and adds at most one entry; afterwards the ids are the old ids plus the peripheral's |
| `DeviceList.AddIfNewFirstSeenWins` | App.tsx:78-82 | for a repeated id a lookup after the update yields the entry stored first, and never the later peripheral when that differs from it (its name and rssi are not taken over) |
| `DeviceList.AddIfNewKeepsIdsDistinct` | App.tsx:77-83 | if no two entries share an id before the update, none do after it |
| `DeviceList.AddIfNewIdempotent` | App.tsx:77-83 | applying the update twice for the same peripheral equals applying it once |
| `DeviceList.DeliverOnce` | App.tsx:77-83 | an event delivered to k registered copies of the updater gives the list unchanged for k = 0 and the single-update list for every k > 0 |
| `DeviceList.ReplayExtends` | App.tsx:77-83 | over any sequence of discovery events, the list grows by at most one entry per event and its earlier entries never change |
| `DeviceList.ReplayIds` | App.tsx:77-83 | after a sequence of events, an id is on the list exactly when it was there at the start or some event carried it |
| `DeviceList.ReplayKeepsIdsDistinct` | App.tsx:77-83 | after any sequence of discovery events, no two entries share an id |
| `DeviceList.ReplayFirstSeen` | App.tsx:77-83 | each added entry is the first event that carried its id, that id was not on the list before, and added entries stand in the order their ids were first seen |
| `Session.Truthy` | App.tsx:118 | the script's truthiness of `connectedDevice`: false for null and for the empty string, true for every other id |
| `Session.BleSession.constructor` | App.tsx:29-31 | initial state: not scanning, empty list, not connected, no listeners registered |
| `Session.BleSession.StartScan` | App.tsx:60-104 | while scanning nothing changes; from idle the list is emptied, the flag is set, and one more listener pair (with its timer) is registered; the connection is untouched |
| `Session.BleSession.ScanRejected` | App.tsx:69-72 | the flag is cleared and nothing else changes |
| `Session.BleSession.Discover` | App.tsx:75-84 | with listeners registered the list becomes the single-update list; with none registered it is unchanged; nothing else changes and ids stay distinct |
| `Session.BleSession.ScanStopped` | App.tsx:87-90 | the flag is cleared; the listeners stay registered; list and connection unchanged |
| `Session.BleSession.TimerFired` | App.tsx:96-102 | the flag is cleared and that scan's two listeners are removed (one registration fewer); list and connection unchanged |
| `Session.BleSession.Connect` | App.tsx:106-115 | on success the connection becomes the given id whatever it was before, with no disconnect first; on failure it is unchanged |
| `Session.BleSession.Disconnect` | App.tsx:117-128 | a no-op unless the connection is truthy; then success clears it and failure keeps the previous id |

## Left out

- The native bridge calls `BleManager.start`, `scan`, `stopScan`, `connect`
  and `disconnect`, and the native event emitter (App.tsx:25-26, 35, 65, 97,
  108, 120). They are foreign calls. Only their success or failure is
  modelled, as a method parameter or as a separate event method
  (`ScanRejected`). The discovery and scan-stopped events are methods.
- The scan arguments (no service filter, a 10-second window, duplicates
  allowed) are passed to the platform and not modelled. Because duplicates
  reach the updater, `AddIfNew` filters them.
- Peripheral: keeps only `id`, `name` and `rssi`. The platform object that
  the updater stores whole (App.tsx:80) also carries advertising data.
  Those fields are dropped because nothing in the session logic reads them.
- The location-permission request (App.tsx:45-58). It ends in an alert or a
  log line and changes no state.
- `Alert.alert` and `console` calls. They have no state.
- Wall-clock time and the scheduling of promises and `setTimeout`. The
  timer firing is the `TimerFired` event. The model lets events come in any
  order the contracts allow. `TimerFired` may happen only while a
  registration of its scan exists.
- TimerFired: it does not say which scan's pair is removed. All pairs act
  alike on the state, so the model keeps only their number.
- React hook semantics: stale closures, batching of state updates, and the
  unmount cleanup at App.tsx:40-42. `startScan` and `disconnectDevice`
  read `isScanning` and `connectedDevice` from the closure of the last
  render (App.tsx:61, 118, 120). The model assumes each handler sees the
  value after the previous update, that is, that a re-render happened in
  between.
- Rendering and styles (App.tsx:130-309). The only link to the model is the
  device count on screen (App.tsx:164), which is `|devices|`.
