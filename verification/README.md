# Chataigne BLE device registry

A Dafny model of Chataigne's Bluetooth LE device layer. It has two parts.

`BLEManager` is the registry of known devices. It reconciles the registry against one scan pass. Each scan entry that has a name and is connected or connectable either refreshes the handle of the device with that hardware address or registers a new device. Then every device whose address is missing from the raw scan list is closed, announced as removed and deleted. `run()` does this at most once, and only when `setup()` selected an adapter.

`BLEDevice` is one peripheral. Its identity (`name`, `id`, `description`) is fixed at construction. Its mutable parts change through `open`, `close`, the connected and disconnected callbacks, characteristic reads and notifications, and the destructor:
- the peripheral handle;
- the keep-alive thread, modelled as a `running` flag and a count of starts;
- the thread-listener registration;
- the notification subscriptions;
- the calls on its listener list, kept as an append-only log.

Modules:

- `Optional`: the `Option` wrapper.
- `ByteConversion`: `byteArrayToIntBE`, with explicit 32-bit two's-complement wrap-around, and `byteArrayToHexString`.
  - Each is a loop method proved equal to a recursive specification function.
  - Each specification has an inverse and round-trip lemmas.
- `DecimalText`: `std::to_string(int)` (the `data` text of a dispatched value) and its inverse.
- `Device`: the `BLEDevice` class, with one pure transition function per operation and a sequence of operations, `RunOps`. The keep-alive invariant is proved over any sequence of operations.
- `Reconciliation`: what one `updateDeviceList` pass does, stated on the sequence of registered ids and on the registry's broadcasts. It includes the filter, refresh-or-add, removal and event-order properties.
- `Manager`: the `BLEManager` class over a sequence of device objects and a broadcast log.
  - Its methods follow the source's loops.
  - They are proved to produce exactly the ids and broadcasts that `Reconciliation` specifies.
  - They are also proved to leave each device in the state the `Device` transitions give.

Adapter behaviour is a parameter of the operations:
- whether Bluetooth is enabled and how many adapters exist;
- the scan result list;
- whether connect, disconnect, read, write and subscribe succeed or throw;
- the bytes a read or notification delivers.

## Model

| member | source | states |
|---|---|---|
| Device.BLEDevice.constructor | Source/Common/BLE/BLEDevice.cpp:16-22 | name is the handle's identifier, id its address, description "name (id)"; the device starts stopped, unsubscribed, with an empty listener log |
| Device.BLEDevice.SetPeripheral | Source/Common/BLE/BLEDevice.cpp:69-73 | only the handle changes; name, id and description are constants and so cannot change |
| Device.BLEDevice.Open | Source/Common/BLE/BLEDevice.cpp:75-78 | a successful connect leaves the handle connected; a throwing connect is reported to the caller and changes nothing |
| Device.BLEDevice.Close | Source/Common/BLE/BLEDevice.cpp:80-95 | a failed disconnect is swallowed; either way the log gains bleDeviceDisconnected then deviceClosed, the thread listener is detached and the thread is stopped |
| Device.BLEDevice.Destroy | Source/Common/BLE/BLEDevice.cpp:44-49 | the destructor closes the device and then broadcasts deviceRemoved as the last event |
| Device.BLEDevice.IsOpen | Source/Common/BLE/BLEDevice.cpp:98-101 | true exactly when the handle reports connected |
| Device.BLEDevice.OnConnected | Source/Common/BLE/BLEDevice.cpp:25-31 | broadcasts deviceOpened then bleDeviceConnected; the thread is started only if it was not running, so the start count grows by at most one |
| Device.BLEDevice.OnDisconnected | Source/Common/BLE/BLEDevice.cpp:33-39 | no broadcast at all; the thread is stopped |
| Device.BLEDevice.DataReceived | Source/Common/BLE/BLEDevice.cpp:103-106 | exactly one bleDataReceived carrying the value is appended; nothing else changes |
| Device.BLEDevice.ReadCharacteristic | Source/Common/BLE/BLEDevice.cpp:126-142 | a successful read dispatches one value with the characteristic's UUIDs and the decoded integer as decimal text; a throwing read dispatches nothing |
| Device.BLEDevice.NotifyCharacteristic | Source/Common/BLE/BLEDevice.cpp:144-154 | a successful subscribe registers the characteristic's callback; a throwing one is reported and registers nothing |
| Device.BLEDevice.OnNotification | Source/Common/BLE/BLEDevice.cpp:146-153 | each notified payload dispatches one value for the subscribed characteristic, decoded as a read is |
| Device.BLEDevice.WriteCharacteristic | Source/Common/BLE/BLEDevice.cpp:156-165 | a write, failed or not, changes nothing the device exposes and broadcasts nothing |
| Device.ConnectedKeeps | Source/Common/BLE/BLEDevice.cpp:25-31 | the connected callback keeps the keep-alive invariant: the thread runs only after a bleDeviceConnected, started at most once per such broadcast |
| Device.ClosedKeeps | Source/Common/BLE/BLEDevice.cpp:80-95 | close keeps the keep-alive invariant |
| Device.DataKeeps | Source/Common/BLE/BLEDevice.cpp:103-106 | a data broadcast keeps the keep-alive invariant |
| Device.ApplyKeepsKeepAliveConsistent | Source/Common/BLE/BLEDevice.cpp:25-165 | every operation and callback on a device keeps the keep-alive invariant |
| Device.KeepAliveAlwaysConsistent | Source/Common/BLE/BLEDevice.cpp:16-165 | from construction, after any sequence of operations and callbacks, the thread runs only when the last connection broadcast was bleDeviceConnected, and was never started more often than bleDeviceConnected was broadcast |
| Device.LogOnlyGrows | Source/Common/BLE/BLEDevice.cpp:25-165 | no operation rewrites or drops a broadcast already made: the old log is a prefix of the new one |
| Device.CloseTwice | Source/Common/BLE/BLEDevice.cpp:80-95 | closing twice ends as closing once, apart from a second pair of close broadcasts; the thread stays stopped and detached |
| Device.DestroyEndsWithRemoved | Source/Common/BLE/BLEDevice.cpp:44-49 | the destructor's broadcasts are bleDeviceDisconnected, deviceClosed, deviceRemoved, in that order, with the thread stopped and detached |
| Device.DispatchedValue | Source/Common/BLE/BLEDevice.cpp:129-134 | the dispatched value carries the service and characteristic UUIDs, and its data text parses back to the decoded integer, the exact big-endian value for up to three bytes |
| Device.ReadDispatchesOnce | Source/Common/BLE/BLEDevice.cpp:126-142 | a failed read leaves the state as it was; a successful one adds exactly one broadcast, whose data parses back to the decoded 32-bit integer, and changes nothing else |
| ByteConversion.Int32Of | Source/Common/BLE/BLEDevice.cpp:50-56 | the result fits a signed 32-bit int, is congruent to the input modulo 2^32, and equals the input when it already fits |
| ByteConversion.ByteArrayToIntBE | Source/Common/BLE/BLEDevice.cpp:50-56 | the loop returns the big-endian value wrapped to a 32-bit int, and exactly the big-endian value for up to three bytes |
| ByteConversion.Int32Step | Source/Common/BLE/BLEDevice.cpp:52-54 | wrapping after every shift-and-or equals wrapping once at the end |
| ByteConversion.BigEndianAppend | Source/Common/BLE/BLEDevice.cpp:52-54 | decode(s + [b]) == decode(s) * 256 + b |
| ByteConversion.BigEndianBound | Source/Common/BLE/BLEDevice.cpp:50-56 | n bytes decode to a value below 256^n |
| ByteConversion.ShortDecodeIsExact | Source/Common/BLE/BLEDevice.cpp:50-56 | up to three bytes decode without wrapping, to a value in 0 .. 2^24 - 1 |
| ByteConversion.DecodeExamples | Source/Common/BLE/BLEDevice.cpp:50-56 | [] decodes to 0, [0x00,0x01] to 1, [0x01,0x00] to 256; four 0xFF bytes wrap to -1 and a fifth byte pushes the first out |
| ByteConversion.BigEndianBytes | Source/Common/BLE/BLEDevice.cpp:50-56 | the inverse encoding has exactly the requested width |
| ByteConversion.DecodeEncode | Source/Common/BLE/BLEDevice.cpp:50-56 | a value that fits in len bytes survives encode-then-decode |
| ByteConversion.EncodeDecode | Source/Common/BLE/BLEDevice.cpp:50-56 | any byte sequence survives decode-then-encode at its own width |
| ByteConversion.ByteArrayToHexString | Source/Common/BLE/BLEDevice.cpp:58-67 | the loop writes each of the first length bytes through the hex stream, in order; with two digits per byte the output is 2 * length characters |
| ByteConversion.ByteHexTwoDigits | Source/Common/BLE/BLEDevice.cpp:60-63 | a byte below 0x80, or any byte where char is unsigned, prints as its two lowercase nibbles, zero-padded |
| ByteConversion.ByteHexSignedHigh | Source/Common/BLE/BLEDevice.cpp:63 | where char is signed, a byte from 0x80 up prints as eight digits, "ffffff" then its two nibbles |
| ByteConversion.HexStringLength | Source/Common/BLE/BLEDevice.cpp:58-67 | with two digits per byte the string is twice as long as the data |
| ByteConversion.HexRoundTrip | Source/Common/BLE/BLEDevice.cpp:58-67 | decoding the hex text gives back the bytes whenever each byte prints as two digits |
| DecimalText.NatDigitsRoundTrip | Source/Common/BLE/BLEDevice.cpp:133 | the digits of a natural number are non-empty, have no sign, and parse back to the number |
| DecimalText.DecimalRoundTrip | Source/Common/BLE/BLEDevice.cpp:133 | the decimal text of any int parses back to that int |
| Reconciliation.AdmitIds | Source/Common/BLE/BLEManager.cpp:116-127 | the refresh-or-add loop only appends: the ids registered before stay first and in order |
| Reconciliation.FirstAdmittedFound | Source/Common/BLE/BLEManager.cpp:118-126 | a first surviving entry for an address exists exactly when some entry with that address passes the filter, and it is such an entry |
| Reconciliation.LastAdmittedFound | Source/Common/BLE/BLEManager.cpp:118-124 | a last surviving entry for an address exists exactly when some entry with that address passes the filter, and it is such an entry |
| Reconciliation.AdmitIdsMembership | Source/Common/BLE/BLEManager.cpp:116-127 | after the loop an id is registered exactly when it was before or a surviving entry carries it |
| Reconciliation.AdmitIdsDistinct | Source/Common/BLE/BLEManager.cpp:116-127 | the loop never registers an address twice, even when the scan repeats it |
| Reconciliation.KeepSeenMembership | Source/Common/BLE/BLEManager.cpp:130-152 | a device is kept exactly when its id is in the raw scan list, and collected for removal exactly when it is not |
| Reconciliation.KeepSeenDistinct | Source/Common/BLE/BLEManager.cpp:130-152 | both the kept ids and the removed ids stay pairwise distinct |
| Reconciliation.ReconcileDistinct | Source/Common/BLE/BLEManager.cpp:109-154 | device ids stay pairwise distinct across a whole pass |
| Reconciliation.ReconcileMembership | Source/Common/BLE/BLEManager.cpp:109-154 | after a pass an id is registered exactly when its address is in the raw scan list and it was registered before or a surviving entry carries it; so every device is accounted for by the scan, every surviving entry has its device, and a known device whose entries were all filtered out stays |
| Reconciliation.AdmittedIsListed | Source/Common/BLE/BLEManager.cpp:116-152 | a surviving entry's address is also in the raw list, so nothing added is removed by the same pass |
| Reconciliation.ReconcileSet | Source/Common/BLE/BLEManager.cpp:109-154 | as sets, the devices after a pass are (previous ∪ surviving addresses) minus (previous minus listed addresses) |
| Reconciliation.NewIdsDistinct | Source/Common/BLE/BLEManager.cpp:116-127 | each added device is announced once: the additions never repeat an id |
| Reconciliation.NewIdsMembership | Source/Common/BLE/BLEManager.cpp:116-127 | a pass adds exactly the surviving addresses that were not registered |
| Reconciliation.KnownAddressAddsNothing | Source/Common/BLE/BLEManager.cpp:120-124 | an entry whose address is registered adds no id and no bleDeviceAdded |
| Reconciliation.FilteredEntryIgnored | Source/Common/BLE/BLEManager.cpp:118-119 | an entry with no name, or neither connected nor connectable, neither adds a device nor changes any device's handle |
| Reconciliation.AddedNeverRemoved | Source/Common/BLE/BLEManager.cpp:116-152 | a device added by a pass is not removed by it and is registered at the end |
| Reconciliation.AddsPrecedeRemoves | Source/Common/BLE/BLEManager.cpp:116-152 | in a pass's broadcasts every bleDeviceAdded precedes every bleDeviceRemoved |
| Reconciliation.UnlistedNotAdmitted | Source/Common/BLE/BLEManager.cpp:116-127 | an address no raw entry carries has no surviving entry, so the loop leaves its device alone |
| Manager.BLEManager.constructor | Source/Common/BLE/BLEManager.cpp:19-23 | the registry starts empty, with no broadcasts, no adapter and the counter at zero |
| Manager.BLEManager.Setup | Source/Common/BLE/BLEManager.cpp:29-106 | an adapter is selected when Bluetooth is enabled and at least one adapter exists; otherwise the selection is left as it was; the registry is untouched |
| Manager.BLEManager.GetDevice | Source/Common/BLE/BLEManager.cpp:156-161 | returns the first registered device whose id is the handle's address (no earlier device has that id), and null exactly when no device has that id |
| Manager.BLEManager.GetDeviceById | Source/Common/BLE/BLEManager.cpp:163-167 | returns a registered device whose id is the given id, and null exactly when none matches; the second lookup through the handle finds the same device |
| Manager.BLEManager.AddDevice | Source/Common/BLE/BLEManager.cpp:169-176 | a new device built from the handle is appended and bleDeviceAdded is broadcast for its id; with a new address the registry stays well formed |
| Manager.BLEManager.RemoveDevice | Source/Common/BLE/BLEManager.cpp:178-188 | null changes nothing and broadcasts nothing; otherwise the device is closed, then bleDeviceRemoved is broadcast while the device is closed and still registered if it was, then its first occurrence is removed and a registered device is destroyed; other devices are untouched |
| Manager.BLEManager.RefreshOrAdd | Source/Common/BLE/BLEManager.cpp:116-127 | one loop step on a scan entry keeps the loop invariant: earlier devices stay first holding the last surviving handle, new devices are built from the scan, one bleDeviceAdded each |
| Manager.BLEManager.RefreshKnown | Source/Common/BLE/BLEManager.cpp:120-124 | a surviving entry for a registered address only replaces that device's handle; no device or broadcast is added |
| Manager.BLEManager.AddUnknown | Source/Common/BLE/BLEManager.cpp:126 | a surviving entry for an unregistered address adds one device and one bleDeviceAdded |
| Manager.BLEManager.AdmitScanResults | Source/Common/BLE/BLEManager.cpp:116-127 | the refresh-or-add loop produces the ids and additions Reconciliation specifies, refreshes each known device with the last surviving handle for its address, and builds each new device from the first |
| Manager.BLEManager.CollectMissing | Source/Common/BLE/BLEManager.cpp:130-149 | the nested loop with the found flag collects exactly the devices whose id no raw entry carries, in registry order |
| Manager.BLEManager.RemoveDevices | Source/Common/BLE/BLEManager.cpp:152 | removing the collected devices in order deletes exactly them, broadcasts one bleDeviceRemoved each in order, and leaves each closed and destroyed |
| Manager.BLEManager.RemoveAt | Source/Common/BLE/BLEManager.cpp:152 | one removal step keeps the loop invariant of RemoveDevices |
| Manager.BLEManager.RemoveNext | Source/Common/BLE/BLEManager.cpp:178-188 | removeDevice on a registered device removes it alone, with one broadcast, sent while the device is closed and still registered, and leaves it closed and destroyed |
| Manager.BLEManager.RefreshAndAdd | Source/Common/BLE/BLEManager.cpp:116-127 | after the first loop every known device stays, holding the last surviving handle for its address; an unlisted device keeps its state; every other device is new and built from the scan |
| Manager.BLEManager.RemoveMissing | Source/Common/BLE/BLEManager.cpp:129-152 | a known device stays exactly when its id is in the raw list; the kept devices stay in order and untouched, and the missing ones are closed, announced and destroyed |
| Manager.BLEManager.UpdateDeviceList | Source/Common/BLE/BLEManager.cpp:109-154 | a whole pass leaves the ids and broadcasts Reconciliation specifies and keeps the registry well formed; listed devices carry the last surviving handle, missing ones are closed and destroyed, and new ones are built from the scan |
| Manager.BLEManager.Tick | Source/Common/BLE/BLEManager.cpp:199-203 | while the counter is below one, a turn is one whole updateDeviceList over its own scan (ids, broadcasts and every device's end state as that pass gives them) and counts; once the counter is one, a turn changes neither the registry nor any device |
| Manager.BLEManager.ScanTicks | Source/Common/BLE/BLEManager.cpp:196-204 | over turns with one scan each, the result is exactly the pass over the first turn's scan when the counter started below one, and no change at all (devices, broadcasts, device states) otherwise; later scans are never applied |
| Manager.BLEManager.Run | Source/Common/BLE/BLEManager.cpp:190-205 | setup, then at most one pass, over the first turn's scan; with no adapter selected, no turns or the counter already spent, neither the registry nor any device state changes |
| Manager.RemoveFirstKeepsIdsDistinct | Source/Common/BLE/BLEManager.cpp:187 | removing a device from the array removes it and keeps the ids distinct |
| Manager.WithoutMissing | Source/Common/BLE/BLEManager.cpp:130-152 | deleting the collected devices from the registry leaves exactly the listed ones, in order |
| Manager.ListedMissingIds | Source/Common/BLE/BLEManager.cpp:130-152 | the kept and removed devices have the ids Reconciliation gives for them |

## Left out

- Threads and timing are not modelled: the manager thread, the keep-alive `BLEReadThread` and its sleep loop, `wait(3000)`, `stopThread` timeouts and the `SpinLock`. The keep-alive thread is a `running` flag, and the manager thread's loop runs one turn per given scan list.
- Logging (`NLOG`, `NLOGWARNING`) is left out, and so is building the JUCE `DynamicObject`. The dispatched value is a plain record.
- Listener registration (`addBLEDeviceListener`, `removeBLEDeviceListener`, the manager's listener list) is not modelled. Listener calls are appended to a log instead of being delivered to registered objects.
- `setup()` takes Bluetooth availability and the adapter count as parameters. Its scan callbacks only log, apart from code that is commented out, so they are not modelled.
- `scan_for(5000)` and its duration are not modelled. The scan result list is a parameter of the pass.
- The module layer (`BLEModule.h`, `BLEModule.cpp`) is host-framework glue and is not part of this model. `bleServicesAndCharacteristicsInventory` has no body to model.
- `BLEManager.h` is not part of this model. `devices` is taken to be an owning array, so `removeObject(device, true)` deletes the device and runs its destructor.
- Manager.BLEManager.RemoveDevice: its single `disconnectSucceeds` outcome governs both disconnects, the one in `close()` and the one in the destructor's second `close()`. The source could see two different outcomes.
- Manager.BLEManager.RemoveDevices: the same single outcome per device, taken from `disconnectFails`.
- Device.BLEDevice.OnNotification: the callback registered by `notifyCharacteristic` captures its `characteristicInfo` argument by reference, and that argument has gone out of scope when the callback fires. The model reads the characteristic that was subscribed, which is what was evidently meant.
- The header declares `dataReceived` with a `CharacteristicInfo` argument, but the definition takes only the value. The model follows the definition, and its data broadcasts carry only the value.
- The destructor's thread stop and `BLEReadThread`'s destructor are covered only as the `running` flag being cleared.
- ByteConversion.ByteArrayToIntBE: `(result << 8)` on a 32-bit int is modelled with C++20 semantics, wrapping modulo 2^32. Before C++20 the four-byte wrap is implementation-defined, and any input that shifts a set bit out of 32 bits is undefined; that first happens at a fifth significant byte.
- The handle's `connected` flag stands for the adapter's live `is_connected()`. The source never writes the handle in `open`, `close` or its callbacks; the model's `Open`, `Close`, `OnConnected` and `OnDisconnected` set the flag to what the adapter then reports, which is what `IsOpen` reads.
- Manager.BLEManager.RemoveDevices: the device's listener log and the registry's are separate. The record of what a listener of both sees at each bleDeviceRemoved (the device closed and still registered) is stated by `RemoveDevice` and `RemoveNext`, which every removal goes through, but is not carried into the contracts of `RemoveDevices`, `RemoveMissing` and `UpdateDeviceList`.
- `run()` keeps its counter in a function-local `static int`, shared by every manager. The model keeps it in the field `scanCount` of the one manager.
- Manager.BLEManager.UpdateDeviceList: it requires a selected adapter. The source dereferences the optional adapter without checking it, and only `run()` calls it, after checking.
- Device.BLEDevice.WriteCharacteristic: it states only that nothing observable changes. The write itself goes to the adapter, which is not modelled.
