/**
 * BLEManager: the registry of known devices. It owns the devices (an owning
 * array: removing a device deletes it, which runs the device's destructor),
 * broadcasts bleDeviceAdded / bleDeviceRemoved, and reconciles the registry
 * against one scan pass in UpdateDeviceList.
 *
 * The adapter is a parameter: whether Bluetooth is enabled and how many
 * adapters exist (Setup), the list one scan returns, and which devices'
 * disconnect request throws.
 */
module Manager {
  import opened Optional
  import opened Device
  import opened Reconciliation

  /** The ids of a sequence of devices, in order. */
  function IdsOf(ds: seq<BLEDevice>): (r: seq<string>)
    ensures |r| == |ds| && forall i :: 0 <= i < |ds| ==> r[i] == ds[i].id
  {
    seq(|ds|, i requires 0 <= i < |ds| => ds[i].id)
  }

  /** What OwnedArray::removeObject leaves: `ds` without the first occurrence of `d`. */
  function RemoveFirst(ds: seq<BLEDevice>, d: BLEDevice): seq<BLEDevice>
  {
    if ds == [] then []
    else if ds[0] == d then ds[1..]
    else [ds[0]] + RemoveFirst(ds[1..], d)
  }

  /** The devices of `ds` not in `removed`, in order. */
  function Without(ds: seq<BLEDevice>, removed: seq<BLEDevice>): seq<BLEDevice>
  {
    if ds == [] then []
    else (if ds[0] in removed then [] else [ds[0]]) + Without(ds[1..], removed)
  }

  /** The devices of `ds` whose id is missing from the raw scan list, in order. */
  function MissingDevices(ds: seq<BLEDevice>, scan: seq<Peripheral>): seq<BLEDevice>
  {
    if ds == [] then []
    else (if ds[0].id in Addresses(scan) then [] else [ds[0]]) + MissingDevices(ds[1..], scan)
  }

  /** The devices of `ds` whose id is listed in the raw scan list, in order. */
  function ListedDevices(ds: seq<BLEDevice>, scan: seq<Peripheral>): seq<BLEDevice>
  {
    if ds == [] then []
    else (if ds[0].id in Addresses(scan) then [ds[0]] else []) + ListedDevices(ds[1..], scan)
  }

  /** A device registered during the pass over `scan`: built from the first surviving entry, refreshed by the last. */
  ghost predicate BuiltFromScan(d: BLEDevice, scan: seq<Peripheral>)
    reads d
  {
    && FirstAdmitted(scan, d.id).Some?
    && d.name == FirstAdmitted(scan, d.id).value.identifier
    && LastAdmitted(scan, d.id) == Some(d.State().peripheral)
    && d.State() == Initial(d.State().peripheral)
  }

  /** What a removal broadcast finds: the device's state, and whether it is still registered. */
  datatype Removal = Removal(deviceState: DeviceState, registered: bool)

  class BLEManager {
    /** The registered devices, in registration order. */
    var devices: seq<BLEDevice>
    /** The calls made on the registry's listener list, in order. */
    var events: seq<RegistryEvent>
    /** An adapter was selected by setup(). */
    var adapterSelected: bool
    /** The counter run() uses to reconcile only once. */
    var scanCount: nat

    /** One device per id, and each device's handle carries its id. */
    ghost predicate Valid()
      reads this, devices
    {
      WellFormed(devices)
    }

    constructor ()
      ensures Valid()
      ensures devices == [] && events == [] && !adapterSelected && scanCount == 0
    {
      devices := [];
      events := [];
      adapterSelected := false;
      scanCount := 0;
    }

    /** setup(): selects the first adapter when Bluetooth is enabled and one exists; otherwise leaves the selection alone. */
    method Setup(bluetoothEnabled: bool, adapterCount: nat)
      modifies this
      ensures adapterSelected == (old(adapterSelected) || (bluetoothEnabled && adapterCount >= 1))
      ensures devices == old(devices) && events == old(events) && scanCount == old(scanCount)
    {
      if !bluetoothEnabled {
        return;
      }
      if adapterCount >= 1 {
        adapterSelected := true;
        return;
      }
    }

    /** getDevice(Peripheral&): the first device whose id is the handle's address, or null. */
    method GetDevice(p: Peripheral) returns (d: BLEDevice?)
      ensures d != null ==> d in devices && d.id == p.address
      ensures d != null ==> exists i :: 0 <= i < |devices| && devices[i] == d &&
                                        forall k :: 0 <= k < i ==> devices[k].id != p.address
      ensures d == null <==> p.address !in IdsOf(devices)
    {
      for i := 0 to |devices|
        invariant forall k :: 0 <= k < i ==> devices[k].id != p.address
      {
        if devices[i].id == p.address {
          return devices[i];
        }
      }
      return null;
    }

    /**
     * getDevice(String): finds the device with the id, then looks it up again
     * by its handle's address, which Valid() makes the same device.
     */
    method GetDeviceById(deviceId: string) returns (d: BLEDevice?)
      requires Valid()
      ensures d != null ==> d in devices && d.id == deviceId
      ensures d == null <==> deviceId !in IdsOf(devices)
    {
      for i := 0 to |devices|
        invariant forall k :: 0 <= k < i ==> devices[k].id != deviceId
      {
        if devices[i].id == deviceId {
          d := GetDevice(devices[i].peripheral);
          return;
        }
      }
      return null;
    }

    /** addDevice: construct a device from the handle, register it, broadcast bleDeviceAdded. */
    method AddDevice(p: Peripheral)
      modifies this
      ensures |devices| == |old(devices)| + 1 && devices == old(devices) + [devices[|old(devices)|]]
      ensures IdsOf(devices) == IdsOf(old(devices)) + [p.address]
      ensures var d := devices[|devices| - 1];
              && fresh(d) && d.id == p.address && d.name == p.identifier
              && d.State() == Initial(p)
      ensures events == old(events) + [BleDeviceAdded(p.address)]
      ensures old(Valid()) && p.address !in IdsOf(old(devices)) ==> Valid()
      ensures adapterSelected == old(adapterSelected) && scanCount == old(scanCount)
    {
      var d := new BLEDevice(p);
      devices := devices + [d];
      events := events + [BleDeviceAdded(d.id)];
    }

    /**
     * removeDevice: nothing for null; otherwise close the device, broadcast
     * bleDeviceRemoved, then remove it from the owning array, which deletes a
     * registered device and so runs its destructor. The device's listener log
     * and the registry's are separate, so `atBroadcast` records what a
     * listener of both sees when bleDeviceRemoved goes out: the device
     * already closed, and still registered if it was.
     */
    method RemoveDevice(device: BLEDevice?, disconnectSucceeds: bool) returns (ghost atBroadcast: Option<Removal>)
      requires Valid()
      modifies this, device
      ensures Valid()
      ensures device == null ==> devices == old(devices) && events == old(events)
      ensures device != null ==>
        && events == old(events) + [BleDeviceRemoved(device.id)]
        && devices == RemoveFirst(old(devices), device)
        && device !in devices
        && device.State() == (if device in old(devices)
                              then Destroyed(Closed(old(device.State()), disconnectSucceeds), disconnectSucceeds)
                              else Closed(old(device.State()), disconnectSucceeds))
      ensures device == null <==> atBroadcast == None
      ensures device != null ==>
        atBroadcast == Some(Removal(Closed(old(device.State()), disconnectSucceeds), device in old(devices)))
      ensures forall e :: e in old(devices) && e != device ==> e.State() == old(e.State())
      ensures adapterSelected == old(adapterSelected) && scanCount == old(scanCount)
    {
      if device == null {
        return None;
      }
      device.Close(disconnectSucceeds);
      atBroadcast := Some(Removal(device.State(), device in devices));
      events := events + [BleDeviceRemoved(device.id)];
      var registered := device in devices;
      RemoveFirstKeepsIdsDistinct(devices, device);
      devices := RemoveFirst(devices, device);
      if registered {
        device.Destroy(disconnectSucceeds);
      }
    }

    /**
     * Where the refresh-or-add loop stands after the entries `seen`: the
     * devices `before` the loop are still first and hold the last surviving
     * handle for their address, the devices after them were built from
     * `seen`, and one bleDeviceAdded was broadcast per new device. This is
     * PassInvariant read off the registry's own fields; PassInvariant takes
     * the devices and broadcasts as arguments so that the lemmas about a loop
     * step can state it on the sequences before and after a device changes.
     */
    ghost predicate AdmittedSoFar(before: seq<BLEDevice>, was: map<BLEDevice, DeviceState>, seen: seq<Peripheral>,
                                  eventsBefore: seq<RegistryEvent>)
      reads this, devices, before
    {
      PassInvariant(devices, events, before, was, seen, eventsBefore)
    }

    /** One iteration of the refresh-or-add loop, on scan entry `p`. */
    method RefreshOrAdd(p: Peripheral, ghost before: seq<BLEDevice>, ghost was: map<BLEDevice, DeviceState>,
                        ghost seen: seq<Peripheral>, ghost eventsBefore: seq<RegistryEvent>)
      requires AdmittedSoFar(before, was, seen, eventsBefore)
      modifies this, devices
      ensures AdmittedSoFar(before, was, seen + [p], eventsBefore)
      ensures |old(devices)| <= |devices| && devices[..|old(devices)|] == old(devices)
      ensures forall k :: |old(devices)| <= k < |devices| ==> fresh(devices[k])
      ensures adapterSelected == old(adapterSelected) && scanCount == old(scanCount)
    {
      if p.identifier == "" {
        FilteredEntryIgnored(IdsOf(before), seen, p);
        return;
      }
      if !p.connected && !p.connectable {
        FilteredEntryIgnored(IdsOf(before), seen, p);
        return;
      }
      var d := GetDevice(p);
      if d != null {
        RefreshKnown(d, p, before, was, seen, eventsBefore);
        return;
      }
      AddUnknown(p, before, was, seen, eventsBefore);
    }

    /** A surviving entry whose address is registered: refresh that device's handle. */
    method RefreshKnown(d: BLEDevice, p: Peripheral, ghost before: seq<BLEDevice>, ghost was: map<BLEDevice, DeviceState>,
                        ghost seen: seq<Peripheral>, ghost eventsBefore: seq<RegistryEvent>)
      requires AdmittedSoFar(before, was, seen, eventsBefore)
      requires Admitted(p) && d in devices && d.id == p.address
      modifies d
      ensures AdmittedSoFar(before, was, seen + [p], eventsBefore)
    {
      RefreshBefore(devices, events, before, d, was, seen, eventsBefore, p);
      ghost var s0 := d.State();
      d.SetPeripheral(p);
      RefreshAfter(devices, before, d, was, seen, p, s0);
    }

    /** A surviving entry whose address is not registered: add a device for it. */
    method AddUnknown(p: Peripheral, ghost before: seq<BLEDevice>, ghost was: map<BLEDevice, DeviceState>,
                      ghost seen: seq<Peripheral>, ghost eventsBefore: seq<RegistryEvent>)
      requires AdmittedSoFar(before, was, seen, eventsBefore)
      requires Admitted(p) && p.address !in IdsOf(devices)
      modifies this
      ensures AdmittedSoFar(before, was, seen + [p], eventsBefore)
      ensures |old(devices)| < |devices| && devices[..|old(devices)|] == old(devices)
      ensures forall k :: |old(devices)| <= k < |devices| ==> fresh(devices[k])
      ensures adapterSelected == old(adapterSelected) && scanCount == old(scanCount)
    {
      AddDevice(p);
      assert PassInvariant(old(devices), old(events), before, was, seen, eventsBefore);
      AddKeepsPassInvariant(old(devices), devices[|devices| - 1], old(events), before, was, seen, eventsBefore, p);
    }

    /** The refresh-or-add loop of updateDeviceList. */
    method AdmitScanResults(scan: seq<Peripheral>)
      requires Valid()
      modifies this, devices
      ensures Valid()
      ensures |old(devices)| <= |devices| && devices[..|old(devices)|] == old(devices)
      ensures IdsOf(devices) == AdmitIds(IdsOf(old(devices)), scan)
      ensures events == old(events) + AddedEvents(NewIds(IdsOf(old(devices)), scan))
      ensures forall d :: d in old(devices) ==>
        d.State() == WithPeripheral(old(d.State()), LastAdmitted(scan, d.id).GetOr(old(d.peripheral)))
      ensures forall k :: |old(devices)| <= k < |devices| ==> fresh(devices[k]) && BuiltFromScan(devices[k], scan)
      ensures adapterSelected == old(adapterSelected) && scanCount == old(scanCount)
    {
      ghost var before := devices;
      ghost var was := map d | d in devices :: d.State();
      for i := 0 to |scan|
        invariant AdmittedSoFar(before, was, scan[..i], old(events))
        invariant |before| <= |devices| && devices[..|before|] == before
        invariant forall k :: |before| <= k < |devices| ==> fresh(devices[k])
        invariant adapterSelected == old(adapterSelected) && scanCount == old(scanCount)
      {
        assert scan[..i + 1] == scan[..i] + [scan[i]];
        RefreshOrAdd(scan[i], before, was, scan[..i], old(events));
      }
      assert scan[..|scan|] == scan;
    }

    /** The loop of updateDeviceList that collects the devices whose id no raw scan entry carries. */
    method CollectMissing(scan: seq<Peripheral>) returns (devicesToRemove: seq<BLEDevice>)
      ensures devicesToRemove == MissingDevices(devices, scan)
    {
      devicesToRemove := [];
      for i := 0 to |devices|
        invariant devicesToRemove == MissingDevices(devices[..i], scan)
      {
        var d := devices[i];
        var found := false;
        for j := 0 to |scan|
          invariant !found
          invariant forall k :: 0 <= k < j ==> scan[k].address != d.id
        {
          if d.id == scan[j].address {
            found := true;
            break;
          }
        }
        assert found <==> d.id in Addresses(scan);
        MissingDevicesAppend(devices[..i], d, scan);
        assert devices[..i + 1] == devices[..i] + [d];
        if !found {
          devicesToRemove := devicesToRemove + [d];
        }
      }
      assert devices[..|devices|] == devices;
    }
    /** The last loop of updateDeviceList: removeDevice on each collected device, in order. */
    method RemoveDevices(toRemove: seq<BLEDevice>, disconnectFails: set<string>)
      requires Valid()
      requires forall d :: d in toRemove ==> d in devices
      requires Distinct(IdsOf(toRemove))
      modifies this, toRemove
      ensures Valid()
      ensures devices == Without(old(devices), toRemove)
      ensures events == old(events) + RemovedEvents(IdsOf(toRemove))
      ensures forall d :: d in toRemove ==>
        var ok := d.id !in disconnectFails;
        d.State() == Destroyed(Closed(old(d.State()), ok), ok)
      ensures adapterSelected == old(adapterSelected) && scanCount == old(scanCount)
    {
      ghost var all := devices;
      ghost var was := StatesOf(toRemove);
      DistinctObjects(toRemove);
      DistinctObjects(all);
      WithoutNothing(all);
      for k := 0 to |toRemove|
        invariant RemovedSoFar(all, toRemove, k, was, disconnectFails, old(events))
        invariant adapterSelected == old(adapterSelected) && scanCount == old(scanCount)
      {
        RemoveAt(all, toRemove, k, was, disconnectFails, old(events));
      }
      assert toRemove[..|toRemove|] == toRemove;
      forall d | d in toRemove
        ensures var ok := d.id !in disconnectFails; d.State() == Destroyed(Closed(old(d.State()), ok), ok)
      {
        var i :| 0 <= i < |toRemove| && toRemove[i] == d;
      }
    }

    /**
     * Where the removal loop stands after k devices: they are gone, each
     * closed and destroyed from the state `was` records, one bleDeviceRemoved
     * each; the rest still hold their recorded states.
     */
    ghost predicate RemovedSoFar(all: seq<BLEDevice>, toRemove: seq<BLEDevice>, k: nat, was: seq<DeviceState>,
                                 disconnectFails: set<string>, eventsBefore: seq<RegistryEvent>)
      reads this, devices, toRemove
    {
      && k <= |toRemove|
      && Valid()
      && devices == Without(all, toRemove[..k])
      && events == eventsBefore + RemovedEvents(IdsOf(toRemove[..k]))
      && RemovedUpTo(toRemove, k, was, disconnectFails)
    }

    /** One iteration of the removal loop, on the k-th collected device. */
    method RemoveAt(ghost all: seq<BLEDevice>, toRemove: seq<BLEDevice>, k: nat, ghost was: seq<DeviceState>,
                    disconnectFails: set<string>, ghost eventsBefore: seq<RegistryEvent>)
      requires k < |toRemove| && NoRepeats(toRemove) && NoRepeats(all)
      requires forall d :: d in toRemove ==> d in all
      requires RemovedSoFar(all, toRemove, k, was, disconnectFails, eventsBefore)
      modifies this, toRemove[k]
      ensures RemovedSoFar(all, toRemove, k + 1, was, disconnectFails, eventsBefore)
      ensures adapterSelected == old(adapterSelected) && scanCount == old(scanCount)
    {
      var d := toRemove[k];
      NoRepeatsSplit(toRemove, k);
      RemovedStep(toRemove, k);
      ghost var _ := RemoveNext(all, toRemove[..k], d, d.id !in disconnectFails);
    }

    /**
     * removeDevice on a registered device `d`, the devices `done` being gone
     * already; when bleDeviceRemoved goes out, `d` is closed and still registered.
     */
    method RemoveNext(ghost all: seq<BLEDevice>, ghost done: seq<BLEDevice>, d: BLEDevice, disconnectSucceeds: bool)
      returns (ghost atBroadcast: Removal)
      requires Valid() && NoRepeats(all) && d in all && d !in done
      requires devices == Without(all, done)
      modifies this, d
      ensures Valid()
      ensures devices == Without(all, done + [d])
      ensures events == old(events) + [BleDeviceRemoved(d.id)]
      ensures d.State() == Destroyed(Closed(old(d.State()), disconnectSucceeds), disconnectSucceeds)
      ensures atBroadcast == Removal(Closed(old(d.State()), disconnectSucceeds), true)
      ensures adapterSelected == old(adapterSelected) && scanCount == old(scanCount)
    {
      WithoutMember(all, done, d);
      RemoveFirstWithout(all, done, d);
      var seen := RemoveDevice(d, disconnectSucceeds);
      atBroadcast := seen.value;
    }

    /**
     * updateDeviceList: one scan (its raw results are `scan`), the
     * refresh-or-add loop, then the removal of every device whose id no raw
     * entry carries. `disconnectFails` holds the ids whose disconnect request
     * throws when the device is closed.
     */
    method UpdateDeviceList(scan: seq<Peripheral>, disconnectFails: set<string>)
      requires Valid() && adapterSelected
      modifies this, devices
      ensures Valid()
      ensures IdsOf(devices) == Reconcile(IdsOf(old(devices)), scan)
      ensures events == old(events) + ReconcileEvents(IdsOf(old(devices)), scan)
      ensures forall d :: d in old(devices) && d.id in Addresses(scan) ==>
        d in devices && d.State() == WithPeripheral(old(d.State()), LastAdmitted(scan, d.id).GetOr(old(d.peripheral)))
      ensures forall d :: d in old(devices) && d.id !in Addresses(scan) ==>
        d !in devices && d.State() == Destroyed(Closed(old(d.State()), d.id !in disconnectFails), d.id !in disconnectFails)
      ensures forall d :: d in devices && d !in old(devices) ==> fresh(d) && BuiltFromScan(d, scan)
      ensures adapterSelected == old(adapterSelected) && scanCount == old(scanCount)
    {
      ReconcileEventsAppend(events, IdsOf(devices), scan);
      RefreshAndAdd(scan);
      RemoveMissing(scan, disconnectFails);
    }

    /**
     * The first half of updateDeviceList, stated per device: every known
     * device stays, holding the last surviving handle for its address (so a
     * device no raw entry lists keeps its state), and every other device was
     * built from the scan.
     */
    method RefreshAndAdd(scan: seq<Peripheral>)
      requires Valid()
      modifies this, devices
      ensures Valid()
      ensures IdsOf(devices) == AdmitIds(IdsOf(old(devices)), scan)
      ensures events == old(events) + AddedEvents(NewIds(IdsOf(old(devices)), scan))
      ensures forall d :: d in old(devices) ==>
        d in devices && d.State() == WithPeripheral(old(d.State()), LastAdmitted(scan, d.id).GetOr(old(d.peripheral)))
      ensures forall d :: d in old(devices) && d.id !in Addresses(scan) ==> d.State() == old(d.State())
      ensures forall d :: d in devices && d !in old(devices) ==> fresh(d) && BuiltFromScan(d, scan)
      ensures adapterSelected == old(adapterSelected) && scanCount == old(scanCount)
    {
      AdmitScanResults(scan);
      forall d | d in devices && d !in old(devices)
        ensures fresh(d) && BuiltFromScan(d, scan)
      {
        var k :| 0 <= k < |devices| && devices[k] == d;
      }
      forall d | d in old(devices)
        ensures d in devices
      {
        PrefixMember(devices, old(devices), d);
      }
      forall d | d in old(devices) && d.id !in Addresses(scan)
        ensures d.State() == old(d.State())
      {
        UnlistedNotAdmitted(scan, d.id);
      }
    }

    /**
     * The collecting loop and the removal loop of updateDeviceList: every
     * device whose id no raw scan entry carries is closed, announced and
     * deleted; the others stay, untouched and in order.
     */
    method RemoveMissing(scan: seq<Peripheral>, disconnectFails: set<string>)
      requires Valid()
      modifies this, devices
      ensures Valid()
      ensures devices == ListedDevices(old(devices), scan)
      ensures IdsOf(devices) == KeepSeen(IdsOf(old(devices)), scan)
      ensures events == old(events) + RemovedEvents(MissingIds(IdsOf(old(devices)), scan))
      ensures forall d :: d in devices ==> d in old(devices) && d.State() == old(d.State())
      ensures forall d :: d in old(devices) ==> (d in devices <==> d.id in Addresses(scan))
      ensures forall d :: d in old(devices) && d.id !in Addresses(scan) ==>
        var ok := d.id !in disconnectFails;
        d.State() == Destroyed(Closed(old(d.State()), ok), ok)
      ensures adapterSelected == old(adapterSelected) && scanCount == old(scanCount)
    {
      var toRemove := CollectMissing(scan);
      MissingDevicesFacts(devices, scan);
      KeepSeenDistinct(IdsOf(devices), scan);
      WithoutMissing(devices, scan);
      ListedMissingIds(devices, scan);
      forall d | d in old(devices)
        ensures d in toRemove <==> d.id !in Addresses(scan)
        ensures d in ListedDevices(devices, scan) <==> d.id in Addresses(scan)
      {
        ListedDevicesMember(devices, scan, d);
      }
      RemoveDevices(toRemove, disconnectFails);
      forall d | d in devices
        ensures d in old(devices) && d !in toRemove
      {
        ListedDevicesMember(old(devices), scan, d);
      }
    }

    /**
     * The registry after one updateDeviceList over `scan`, measured against
     * the devices `before` it, their states `was` and the broadcasts
     * `eventsBefore`: the ids and broadcasts Reconciliation gives, every
     * listed device refreshed with the last surviving handle, every missing
     * one closed and destroyed, and every other device built from the scan.
     */
    ghost predicate PassDone(before: seq<BLEDevice>, was: seq<DeviceState>, eventsBefore: seq<RegistryEvent>,
                             scan: seq<Peripheral>, disconnectFails: set<string>)
      reads this, devices, before
    {
      && |was| == |before|
      && IdsOf(devices) == Reconcile(IdsOf(before), scan)
      && events == eventsBefore + ReconcileEvents(IdsOf(before), scan)
      && (forall i :: 0 <= i < |before| && before[i].id in Addresses(scan) ==>
            && before[i] in devices
            && before[i].State() == WithPeripheral(was[i], LastAdmitted(scan, before[i].id).GetOr(was[i].peripheral)))
      && (forall i :: 0 <= i < |before| && before[i].id !in Addresses(scan) ==>
            var ok := before[i].id !in disconnectFails;
            before[i] !in devices && before[i].State() == Destroyed(Closed(was[i], ok), ok))
      && (forall d :: d in devices && d !in before ==> BuiltFromScan(d, scan))
    }

    /**
     * run(): setup, then, when an adapter is selected, the thread loop with
     * one turn per element of `scans` (the list a scan would return in that
     * turn); only the first turn reconciles.
     */
    method Run(bluetoothEnabled: bool, adapterCount: nat, scans: seq<seq<Peripheral>>, disconnectFails: set<string>)
      requires Valid()
      modifies this, devices
      ensures Valid()
      ensures adapterSelected == (old(adapterSelected) || (bluetoothEnabled && adapterCount >= 1))
      ensures var scanned := adapterSelected && |scans| > 0 && old(scanCount) < 1;
        && scanCount == (if scanned then old(scanCount) + 1 else old(scanCount))
        && (scanned ==> PassDone(old(devices), old(StatesOf(devices)), old(events), scans[0], disconnectFails))
        && (!scanned ==>
              && devices == old(devices) && events == old(events)
              && forall d :: d in old(devices) ==> d.State() == old(d.State()))
      ensures forall d :: d in devices && d !in old(devices) ==> fresh(d)
    {
      Setup(bluetoothEnabled, adapterCount);
      if !adapterSelected {
        return;
      }
      ScanTicks(scans, disconnectFails);
    }

    /** The thread loop of run(): one turn per scan, reconciling only while the counter is below one. */
    method ScanTicks(scans: seq<seq<Peripheral>>, disconnectFails: set<string>)
      requires Valid() && adapterSelected
      modifies this, devices
      ensures Valid() && adapterSelected
      ensures var scanned := |scans| > 0 && old(scanCount) < 1;
        && scanCount == (if scanned then old(scanCount) + 1 else old(scanCount))
        && (scanned ==> PassDone(old(devices), old(StatesOf(devices)), old(events), scans[0], disconnectFails))
        && (!scanned ==>
              && devices == old(devices) && events == old(events)
              && forall d :: d in old(devices) ==> d.State() == old(d.State()))
      ensures forall d :: d in devices && d !in old(devices) ==> fresh(d)
    {
      ghost var before := devices;
      ghost var was := StatesOf(devices);
      ghost var eventsBefore := events;
      for t := 0 to |scans|
        invariant Valid() && adapterSelected
        invariant scanCount == (if t > 0 && old(scanCount) < 1 then old(scanCount) + 1 else old(scanCount))
        invariant t > 0 && old(scanCount) < 1 ==> PassDone(before, was, eventsBefore, scans[0], disconnectFails)
        invariant !(t > 0 && old(scanCount) < 1) ==> devices == before && events == eventsBefore && StatesOf(devices) == was
        invariant forall i :: 0 <= i < |devices| ==> devices[i] in old(devices) || fresh(devices[i])
      {
        Tick(scans[t], disconnectFails);
      }
      if !(|scans| > 0 && old(scanCount) < 1) {
        forall d | d in before
          ensures d.State() == old(d.State())
        {
          var i :| 0 <= i < |before| && before[i] == d;
          assert d.State() == StatesOf(devices)[i];
        }
      }
    }

    /**
     * One turn of the thread loop: while the counter is below one, a whole
     * updateDeviceList over this turn's scan, then count; afterwards the turn
     * changes nothing at all.
     */
    method Tick(scan: seq<Peripheral>, disconnectFails: set<string>)
      requires Valid() && adapterSelected
      modifies this, devices
      ensures Valid() && adapterSelected
      ensures old(scanCount) < 1 ==>
        && scanCount == old(scanCount) + 1
        && PassDone(old(devices), old(StatesOf(devices)), old(events), scan, disconnectFails)
      ensures old(scanCount) >= 1 ==> unchanged(this) && forall d :: d in old(devices) ==> unchanged(d)
      ensures forall i :: 0 <= i < |devices| ==> devices[i] in old(devices) || fresh(devices[i])
    {
      if scanCount < 1 {
        ghost var before := devices;
        ghost var was := StatesOf(devices);
        UpdateDeviceList(scan, disconnectFails);
        scanCount := scanCount + 1;
        assert forall i :: 0 <= i < |before| ==> was[i] == old(before[i].State());
      }
    }
  }

  /** One device per id, and each device's handle carries its id. */
  ghost predicate WellFormed(ds: seq<BLEDevice>)
    reads ds
  {
    Distinct(IdsOf(ds)) && HandlesMatch(ds)
  }

  ghost predicate HandlesMatch(ds: seq<BLEDevice>)
    reads ds
  {
    forall d :: d in ds ==> d.peripheral.address == d.id
  }

  /**
   * Where the refresh-or-add loop stands after the entries `seen`, for the
   * devices `ds` and the broadcasts `evs`.
   */
  ghost predicate PassInvariant(ds: seq<BLEDevice>, evs: seq<RegistryEvent>, before: seq<BLEDevice>,
                                was: map<BLEDevice, DeviceState>, seen: seq<Peripheral>, eventsBefore: seq<RegistryEvent>)
    reads ds, before
  {
    PassShape(ds, evs, before, seen, eventsBefore) && PassStates(ds, before, was, seen)
  }

  /**
   * The ids and broadcasts (which no handle update changes): the devices
   * `before` the loop are still first, the ids are those the loop admits,
   * and one bleDeviceAdded was broadcast per new device.
   */
  ghost predicate PassShape(ds: seq<BLEDevice>, evs: seq<RegistryEvent>, before: seq<BLEDevice>,
                            seen: seq<Peripheral>, eventsBefore: seq<RegistryEvent>)
  {
    && Distinct(IdsOf(ds))
    && |before| <= |ds| && ds[..|before|] == before
    && IdsOf(ds) == AdmitIds(IdsOf(before), seen)
    && evs == eventsBefore + AddedEvents(NewIds(IdsOf(before), seen))
  }

  /**
   * The device states: the devices `before` the loop hold the last surviving
   * handle for their address, and the devices after them were built from `seen`.
   */
  ghost predicate PassStates(ds: seq<BLEDevice>, before: seq<BLEDevice>, was: map<BLEDevice, DeviceState>,
                             seen: seq<Peripheral>)
    reads ds, before
  {
    && HandlesMatch(ds)
    && |before| <= |ds|
    && Refreshed(before, was, seen)
    && AllBuilt(ds[|before|..], seen)
  }

  /** Adding a device built from a surviving entry with a new address keeps the loop's invariant. */
  lemma AddKeepsPassInvariant(ds: seq<BLEDevice>, d: BLEDevice, evs: seq<RegistryEvent>, before: seq<BLEDevice>,
                              was: map<BLEDevice, DeviceState>, seen: seq<Peripheral>, eventsBefore: seq<RegistryEvent>,
                              p: Peripheral)
    requires PassInvariant(ds, evs, before, was, seen, eventsBefore)
    requires Admitted(p) && p.address !in IdsOf(ds)
    requires d.id == p.address && d.name == p.identifier && d.State() == Initial(p)
    ensures PassInvariant(ds + [d], evs + [BleDeviceAdded(p.address)], before, was, seen + [p], eventsBefore)
  {
    AddKeepsPassShape(ds, d, evs, before, seen, eventsBefore, p);
    AdmitIdsMembership(IdsOf(before), seen, p.address);
    PrefixIds(ds, before);
    var ds' := ds + [d];
    assert ds'[|before|..] == ds[|before|..] + [d];
    RefreshedStep(before, was, seen, p);
    AppendedBuilt(ds[|before|..], d, seen, p);
  }

  lemma AddKeepsPassShape(ds: seq<BLEDevice>, d: BLEDevice, evs: seq<RegistryEvent>, before: seq<BLEDevice>,
                          seen: seq<Peripheral>, eventsBefore: seq<RegistryEvent>, p: Peripheral)
    requires PassShape(ds, evs, before, seen, eventsBefore)
    requires Admitted(p) && p.address !in IdsOf(ds) && d.id == p.address
    ensures PassShape(ds + [d], evs + [BleDeviceAdded(p.address)], before, seen + [p], eventsBefore)
  {
    AddStep(IdsOf(before), seen, p);
    var ds' := ds + [d];
    assert IdsOf(ds') == IdsOf(ds) + [p.address];
    assert ds'[..|before|] == before by {
      assert ds'[..|ds|] == ds;
    }
  }


  /** The ids of a prefix are a prefix of the ids. */
  lemma PrefixIds(ds: seq<BLEDevice>, prefix: seq<BLEDevice>)
    requires |prefix| <= |ds| && ds[..|prefix|] == prefix
    ensures forall x :: x in IdsOf(prefix) ==> x in IdsOf(ds)
  {
    forall x | x in IdsOf(prefix) ensures x in IdsOf(ds) {
      var i :| 0 <= i < |prefix| && IdsOf(prefix)[i] == x;
      assert IdsOf(ds)[i] == x;
    }
  }

  // ---------------------------------------------------------------------------
  // Lemmas for the loops
  // ---------------------------------------------------------------------------

  lemma RefreshStep(ids: seq<string>, scan: seq<Peripheral>, p: Peripheral)
    requires Admitted(p) && p.address in AdmitIds(ids, scan)
    ensures AdmitIds(ids, scan + [p]) == AdmitIds(ids, scan)
    ensures NewIds(ids, scan + [p]) == NewIds(ids, scan)
    ensures LastAdmitted(scan + [p], p.address) == Some(p)
    ensures forall x :: x != p.address ==> LastAdmitted(scan + [p], x) == LastAdmitted(scan, x)
    ensures forall x :: FirstAdmitted(scan, x).Some? ==> FirstAdmitted(scan + [p], x) == FirstAdmitted(scan, x)
    ensures forall x :: x != p.address ==> FirstAdmitted(scan + [p], x) == FirstAdmitted(scan, x)
  {
    assert (scan + [p])[..|scan|] == scan;
  }

  lemma AddStep(ids: seq<string>, scan: seq<Peripheral>, p: Peripheral)
    requires Admitted(p) && p.address !in AdmitIds(ids, scan)
    ensures AdmitIds(ids, scan + [p]) == AdmitIds(ids, scan) + [p.address]
    ensures AddedEvents(NewIds(ids, scan + [p])) == AddedEvents(NewIds(ids, scan)) + [BleDeviceAdded(p.address)]
    ensures LastAdmitted(scan + [p], p.address) == Some(p)
    ensures FirstAdmitted(scan + [p], p.address) == Some(p)
  {
    assert (scan + [p])[..|scan|] == scan;
    AdmitIdsMembership(ids, scan, p.address);
    assert NewIds(ids, scan + [p]) == NewIds(ids, scan) + [p.address];
  }

  /** A surviving entry is the last for its address and leaves the first surviving entries alone. */
  lemma LatestEntry(scan: seq<Peripheral>, p: Peripheral)
    requires Admitted(p)
    ensures LastAdmitted(scan + [p], p.address) == Some(p)
    ensures forall x :: FirstAdmitted(scan, x).Some? ==> FirstAdmitted(scan + [p], x) == FirstAdmitted(scan, x)
  {
    assert (scan + [p])[..|scan|] == scan;
  }

  /** An entry does not change what the pass admitted for other addresses. */
  lemma OtherAddressStep(scan: seq<Peripheral>, p: Peripheral, x: string)
    requires x != p.address
    ensures LastAdmitted(scan + [p], x) == LastAdmitted(scan, x)
    ensures FirstAdmitted(scan + [p], x) == FirstAdmitted(scan, x)
  {
    assert (scan + [p])[..|scan|] == scan;
  }

  /** Each device registered before the pass holds the last surviving handle `seen` gave for its address. */
  ghost predicate Refreshed(before: seq<BLEDevice>, was: map<BLEDevice, DeviceState>, seen: seq<Peripheral>)
    reads before
  {
    forall d :: d in before ==>
      d in was && d.State() == WithPeripheral(was[d], LastAdmitted(seen, d.id).GetOr(was[d].peripheral))
  }

  /**
   * The pass's device states, for every device but `d`: handles carry their
   * ids, devices `before` the pass hold the last surviving handle, and the
   * others were built from `seen`.
   */
  ghost predicate StatesExcept(ds: seq<BLEDevice>, before: seq<BLEDevice>, d: BLEDevice,
                               was: map<BLEDevice, DeviceState>, seen: seq<Peripheral>)
    reads set e | e in ds + before && e != d
  {
    && |before| <= |ds|
    && (forall e :: e in ds && e != d ==> e.peripheral.address == e.id)
    && (forall e :: e in before && e != d ==>
          e in was && e.State() == WithPeripheral(was[e], LastAdmitted(seen, e.id).GetOr(was[e].peripheral)))
    && (forall e :: e in ds[|before|..] && e != d ==> BuiltFromScan(e, seen))
  }

  /**
   * Before a known device `d` takes the handle `p`: the ids and broadcasts
   * already agree with the pass over `seen + [p]`, so do all the other
   * devices, and `d` holds what the pass over `seen` gave it.
   */
  lemma RefreshBefore(ds: seq<BLEDevice>, evs: seq<RegistryEvent>, before: seq<BLEDevice>, d: BLEDevice,
                      was: map<BLEDevice, DeviceState>, seen: seq<Peripheral>, eventsBefore: seq<RegistryEvent>,
                      p: Peripheral)
    requires PassInvariant(ds, evs, before, was, seen, eventsBefore)
    requires Admitted(p) && d in ds && d.id == p.address
    ensures PassShape(ds, evs, before, seen + [p], eventsBefore)
    ensures StatesExcept(ds, before, d, was, seen + [p])
    ensures d in before ==> d in was && d.State() == WithPeripheral(was[d], LastAdmitted(seen, d.id).GetOr(was[d].peripheral))
    ensures d !in before ==>
      && d in ds[|before|..] && FirstAdmitted(seen, d.id).Some?
      && d.name == FirstAdmitted(seen, d.id).value.identifier && d.State() == Initial(d.peripheral)
  {
    IdOfMember(ds, d);
    RefreshStep(IdsOf(before), seen, p);
    forall e | e in before && e != d
      ensures e in was && e.State() == WithPeripheral(was[e], LastAdmitted(seen + [p], e.id).GetOr(was[e].peripheral))
    {
      PrefixMember(ds, before, e);
      SameIdSameDevice(ds, e, d);
    }
    forall e | e in ds[|before|..] && e != d
      ensures BuiltFromScan(e, seen + [p])
    {
      SuffixMember(ds, |before|, e);
      SameIdSameDevice(ds, e, d);
    }
    if d !in before {
      var i :| 0 <= i < |ds| && ds[i] == d;
      assert ds[|before|..][i - |before|] == d;
    }
  }

  /** After `d` took the handle `p` (its state was `s0`), the pass's device states hold for `seen + [p]`. */
  lemma RefreshAfter(ds: seq<BLEDevice>, before: seq<BLEDevice>, d: BLEDevice,
                     was: map<BLEDevice, DeviceState>, seen: seq<Peripheral>, p: Peripheral, s0: DeviceState)
    requires StatesExcept(ds, before, d, was, seen + [p]) && ds[..|before|] == before && Distinct(IdsOf(ds))
    requires Admitted(p) && d in ds && d.id == p.address && d.peripheral == p && d.State() == WithPeripheral(s0, p)
    requires d in before ==> d in was && s0 == WithPeripheral(was[d], LastAdmitted(seen, d.id).GetOr(was[d].peripheral))
    requires d !in before ==>
      && d in ds[|before|..] && FirstAdmitted(seen, d.id).Some?
      && d.name == FirstAdmitted(seen, d.id).value.identifier && s0 == Initial(s0.peripheral)
    ensures PassStates(ds, before, was, seen + [p])
  {
    LatestEntry(seen, p);
    assert HandlesMatch(ds);
    assert Refreshed(before, was, seen + [p]);
    forall e | e in ds[|before|..]
      ensures BuiltFromScan(e, seen + [p])
    {
      if e == d {
        SplitDisjoint(ds, |before|, d);
      }
    }
  }

  /** Every device of `ds` was built during the pass over `seen`. */
  ghost predicate AllBuilt(ds: seq<BLEDevice>, seen: seq<Peripheral>)
    reads ds
  {
    forall d :: d in ds ==> BuiltFromScan(d, seen)
  }

  /** An entry for an address no earlier device has leaves their handles alone. */
  lemma RefreshedStep(before: seq<BLEDevice>, was: map<BLEDevice, DeviceState>, seen: seq<Peripheral>, p: Peripheral)
    requires Refreshed(before, was, seen) && p.address !in IdsOf(before)
    ensures Refreshed(before, was, seen + [p])
  {
    forall e | e in before
      ensures e in was && e.State() == WithPeripheral(was[e], LastAdmitted(seen + [p], e.id).GetOr(was[e].peripheral))
    {
      IdOfMember(before, e);
      OtherAddressStep(seen, p, e.id);
    }
  }

  /** The devices built so far stay built, and a device made from the first entry for a new address is built. */
  lemma AppendedBuilt(built: seq<BLEDevice>, d: BLEDevice, seen: seq<Peripheral>, p: Peripheral)
    requires AllBuilt(built, seen) && Admitted(p) && FirstAdmitted(seen, p.address).None?
    requires d.id == p.address && d.name == p.identifier && d.State() == Initial(p)
    ensures AllBuilt(built + [d], seen + [p])
  {
    forall e | e in built + [d]
      ensures BuiltFromScan(e, seen + [p])
    {
      if e in built {
        assert e.id != p.address;
        BuiltStillBuilt(e, seen, p);
      } else {
        NewlyBuilt(e, seen, p);
      }
    }
  }

  lemma BuiltStillBuilt(d: BLEDevice, scan: seq<Peripheral>, p: Peripheral)
    requires BuiltFromScan(d, scan) && d.id != p.address
    ensures BuiltFromScan(d, scan + [p])
  {
    OtherAddressStep(scan, p, d.id);
  }

  lemma NewlyBuilt(d: BLEDevice, scan: seq<Peripheral>, p: Peripheral)
    requires Admitted(p) && FirstAdmitted(scan, p.address).None? && d.id == p.address && d.name == p.identifier && d.State() == Initial(p)
    ensures BuiltFromScan(d, scan + [p])
  {
    assert (scan + [p])[..|scan|] == scan;
  }

  /** Distinct ids make a device the only one with its id. */
  lemma SameIdSameDevice(ds: seq<BLEDevice>, a: BLEDevice, b: BLEDevice)
    requires Distinct(IdsOf(ds)) && a in ds && b in ds && a != b
    ensures a.id != b.id
  {
    var i :| 0 <= i < |ds| && ds[i] == a;
    var j :| 0 <= j < |ds| && ds[j] == b;
    assert IdsOf(ds)[i] == a.id && IdsOf(ds)[j] == b.id;
  }

  /** With distinct ids, no device is both before and after a split point. */
  lemma SplitDisjoint(ds: seq<BLEDevice>, n: nat, d: BLEDevice)
    requires Distinct(IdsOf(ds)) && n <= |ds|
    ensures !(d in ds[..n] && d in ds[n..])
  {
  }

  lemma IdOfMember(ds: seq<BLEDevice>, d: BLEDevice)
    requires d in ds
    ensures d.id in IdsOf(ds)
  {
    var i :| 0 <= i < |ds| && ds[i] == d;
    assert IdsOf(ds)[i] == d.id;
  }

  lemma SuffixMember(ds: seq<BLEDevice>, from: nat, d: BLEDevice)
    requires from <= |ds| && d in ds[from..]
    ensures d in ds
  {
    var i :| 0 <= i < |ds| - from && ds[from..][i] == d;
    assert ds[from + i] == d;
  }

  lemma PrefixMember(ds: seq<BLEDevice>, prefix: seq<BLEDevice>, d: BLEDevice)
    requires |prefix| <= |ds| && ds[..|prefix|] == prefix && d in prefix
    ensures d in ds
  {
    var i :| 0 <= i < |prefix| && prefix[i] == d;
    assert ds[i] == d;
  }

  lemma {:induction false} MissingDevicesAppend(ds: seq<BLEDevice>, d: BLEDevice, scan: seq<Peripheral>)
    ensures MissingDevices(ds + [d], scan) == MissingDevices(ds, scan) + MissingDevices([d], scan)
  {
    if ds != [] {
      MissingDevicesAppend(ds[1..], d, scan);
      assert (ds + [d])[1..] == ds[1..] + [d];
    }
  }

  lemma {:induction false} RemoveFirstKeepsIdsDistinct(ds: seq<BLEDevice>, d: BLEDevice)
    requires Distinct(IdsOf(ds))
    ensures forall x :: x in RemoveFirst(ds, d) ==> x in ds
    ensures Distinct(IdsOf(RemoveFirst(ds, d)))
    ensures d !in RemoveFirst(ds, d)
  {
    if ds != [] {
      DistinctTail(ds);
      if ds[0] == d {
        assert d !in ds[1..];
      } else {
        RemoveFirstKeepsIdsDistinct(ds[1..], d);
        DistinctCons(ds[0], RemoveFirst(ds[1..], d));
      }
    }
  }

  /** The tail of a sequence with distinct ids has distinct ids, none of them the head's. */
  lemma DistinctTail(ds: seq<BLEDevice>)
    requires ds != [] && Distinct(IdsOf(ds))
    ensures Distinct(IdsOf(ds[1..]))
    ensures forall x :: x in ds[1..] ==> x.id != ds[0].id && x != ds[0]
  {
    var tail := ds[1..];
    forall i, j | 0 <= i < j < |tail| ensures IdsOf(tail)[i] != IdsOf(tail)[j] {
      assert tail[i] == ds[i + 1] && tail[j] == ds[j + 1];
    }
    forall x | x in tail ensures x.id != ds[0].id && x != ds[0] {
      var j :| 0 <= j < |tail| && tail[j] == x;
      assert ds[j + 1] == x;
    }
  }

  /** A head whose id the tail lacks, on a tail with distinct ids, gives distinct ids. */
  lemma DistinctCons(h: BLEDevice, tail: seq<BLEDevice>)
    requires Distinct(IdsOf(tail)) && forall x :: x in tail ==> x.id != h.id
    ensures Distinct(IdsOf([h] + tail))
  {
    var r := [h] + tail;
    forall i, j | 0 <= i < j < |r| ensures IdsOf(r)[i] != IdsOf(r)[j] {
      assert r[j] == tail[j - 1];
      if i > 0 {
        assert r[i] == tail[i - 1];
      }
    }
  }


  /** The states of `ds`, in order. */
  ghost function StatesOf(ds: seq<BLEDevice>): (r: seq<DeviceState>)
    reads ds
    ensures |r| == |ds| && forall i :: 0 <= i < |ds| ==> r[i] == ds[i].State()
  {
    seq(|ds|, i requires 0 <= i < |ds| reads ds => ds[i].State())
  }

  /** The first k devices of `ds` were closed and destroyed from the states `was` records; the rest still hold them. */
  ghost predicate RemovedUpTo(ds: seq<BLEDevice>, k: nat, was: seq<DeviceState>, disconnectFails: set<string>)
    reads ds
  {
    && |was| == |ds|
    && forall i :: 0 <= i < |ds| ==>
      var ok := ds[i].id !in disconnectFails;
      ds[i].State() == if i < k then Destroyed(Closed(was[i], ok), ok) else was[i]
  }

  /** In a sequence without repeats, the k-th device is neither before nor after position k. */
  lemma NoRepeatsSplit(ds: seq<BLEDevice>, k: nat)
    requires NoRepeats(ds) && k < |ds|
    ensures ds[k] !in ds[..k]
  {
    forall x | x in ds[..k] ensures x != ds[k] {
      var i :| 0 <= i < k && ds[..k][i] == x;
      assert ds[i] == x;
    }
  }

  /** The removal log after one more device of `ds`. */
  lemma RemovedStep(ds: seq<BLEDevice>, k: nat)
    requires k < |ds|
    ensures ds[..k + 1] == ds[..k] + [ds[k]]
    ensures RemovedEvents(IdsOf(ds[..k + 1])) == RemovedEvents(IdsOf(ds[..k])) + [BleDeviceRemoved(ds[k].id)]
  {
    assert ds[..k + 1] == ds[..k] + [ds[k]];
    assert IdsOf(ds[..k + 1]) == IdsOf(ds[..k]) + [ds[k].id];
  }

  /** A sequence of devices with distinct ids holds each device once. */
  lemma DistinctObjects(ds: seq<BLEDevice>)
    requires Distinct(IdsOf(ds))
    ensures NoRepeats(ds)
  {
    forall i, j | 0 <= i < j < |ds| ensures ds[i] != ds[j] {
      assert IdsOf(ds)[i] != IdsOf(ds)[j];
    }
  }

  lemma {:induction false} WithoutNothing(ds: seq<BLEDevice>)
    ensures Without(ds, []) == ds
  {
    if ds != [] {
      WithoutNothing(ds[1..]);
    }
  }

  /** Only membership in `removed` matters to Without, on the devices of `ds`. */
  lemma {:induction false} WithoutSame(ds: seq<BLEDevice>, removed: seq<BLEDevice>, removed': seq<BLEDevice>)
    requires forall x :: x in ds ==> (x in removed <==> x in removed')
    ensures Without(ds, removed) == Without(ds, removed')
  {
    if ds != [] {
      WithoutSame(ds[1..], removed, removed');
    }
  }

  /** A device of `ds` not yet removed is still present. */
  lemma {:induction false} WithoutMember(ds: seq<BLEDevice>, removed: seq<BLEDevice>, d: BLEDevice)
    ensures d in Without(ds, removed) <==> d in ds && d !in removed
  {
    if ds != [] {
      WithoutMember(ds[1..], removed, d);
    }
  }

  /** Each device occurs at most once. */
  predicate NoRepeats(ds: seq<BLEDevice>)
  {
    forall i, j :: 0 <= i < j < |ds| ==> ds[i] != ds[j]
  }

  lemma NoRepeatsTail(ds: seq<BLEDevice>)
    requires ds != [] && NoRepeats(ds)
    ensures NoRepeats(ds[1..]) && ds[0] !in ds[1..]
  {
    var tail := ds[1..];
    forall i, j | 0 <= i < j < |tail| ensures tail[i] != tail[j] {
      assert tail[i] == ds[i + 1] && tail[j] == ds[j + 1];
    }
    forall x | x in tail ensures x != ds[0] {
      var j :| 0 <= j < |tail| && tail[j] == x;
      assert ds[j + 1] == x;
    }
  }

  /** Removing one more device from a Without is a Without of one more device. */
  lemma {:induction false} RemoveFirstWithout(ds: seq<BLEDevice>, removed: seq<BLEDevice>, d: BLEDevice)
    requires NoRepeats(ds) && d in ds && d !in removed
    ensures RemoveFirst(Without(ds, removed), d) == Without(ds, removed + [d])
  {
    NoRepeatsTail(ds);
    var h, tail := ds[0], ds[1..];
    var w := Without(tail, removed);
    assert Without(ds, removed) == (if h in removed then [] else [h]) + w;
    assert Without(ds, removed + [d]) == (if h in removed + [d] then [] else [h]) + Without(tail, removed + [d]);
    if h == d {
      WithoutSame(tail, removed, removed + [d]);
      assert ([h] + w)[1..] == w;
    } else {
      RemoveFirstWithout(tail, removed, d);
      assert h in removed + [d] <==> h in removed;
      if h !in removed {
        assert ([h] + w)[0] == h && ([h] + w)[1..] == w;
      } else {
        assert Without(ds, removed) == w;
        assert Without(ds, removed + [d]) == Without(tail, removed + [d]);
      }
    }
  }

  /** Membership in the devices the scan lists and in those it misses. */
  lemma {:induction false} ListedDevicesMember(ds: seq<BLEDevice>, scan: seq<Peripheral>, d: BLEDevice)
    ensures d in ListedDevices(ds, scan) <==> d in ds && d.id in Addresses(scan)
    ensures d in MissingDevices(ds, scan) <==> d in ds && d.id !in Addresses(scan)
  {
    if ds != [] {
      ListedDevicesMember(ds[1..], scan, d);
    }
  }

  /** Without the missing devices, what is left are the listed ones. */
  lemma {:induction false} WithoutMissing(ds: seq<BLEDevice>, scan: seq<Peripheral>)
    requires Distinct(IdsOf(ds))
    ensures Without(ds, MissingDevices(ds, scan)) == ListedDevices(ds, scan)
  {
    if ds != [] {
      DistinctTail(ds);
      var tail := ds[1..];
      ListedDevicesMember(tail, scan, ds[0]);
      forall x | x in tail
        ensures x in MissingDevices(ds, scan) <==> x in MissingDevices(tail, scan)
      {
      }
      WithoutSame(tail, MissingDevices(ds, scan), MissingDevices(tail, scan));
      WithoutMissing(tail, scan);
    }
  }

  lemma IdsOfAppend(a: seq<BLEDevice>, b: seq<BLEDevice>)
    ensures IdsOf(a + b) == IdsOf(a) + IdsOf(b)
  {
  }

  /** The ids of the listed and missing devices are the ids KeepSeen and MissingIds give. */
  lemma ListedMissingIds(ds: seq<BLEDevice>, scan: seq<Peripheral>)
    ensures IdsOf(ListedDevices(ds, scan)) == KeepSeen(IdsOf(ds), scan)
    ensures IdsOf(MissingDevices(ds, scan)) == MissingIds(IdsOf(ds), scan)
  {
    ListedIds(ds, scan);
    MissingIdsOf(ds, scan);
  }

  lemma {:induction false} ListedIds(ds: seq<BLEDevice>, scan: seq<Peripheral>)
    ensures IdsOf(ListedDevices(ds, scan)) == KeepSeen(IdsOf(ds), scan)
  {
    if ds != [] {
      ListedIds(ds[1..], scan);
      assert IdsOf(ds)[1..] == IdsOf(ds[1..]);
      IdsOfAppend(if ds[0].id in Addresses(scan) then [ds[0]] else [], ListedDevices(ds[1..], scan));
    }
  }

  lemma {:induction false} MissingIdsOf(ds: seq<BLEDevice>, scan: seq<Peripheral>)
    ensures IdsOf(MissingDevices(ds, scan)) == MissingIds(IdsOf(ds), scan)
  {
    if ds != [] {
      MissingIdsOf(ds[1..], scan);
      assert IdsOf(ds)[1..] == IdsOf(ds[1..]);
      IdsOfAppend(if ds[0].id in Addresses(scan) then [] else [ds[0]], MissingDevices(ds[1..], scan));
    }
  }

  /** What the collecting loop gathers: devices of `ds`, with distinct ids when `ds` has them. */
  lemma MissingDevicesFacts(ds: seq<BLEDevice>, scan: seq<Peripheral>)
    ensures forall d :: d in MissingDevices(ds, scan) ==> d in ds
    ensures IdsOf(MissingDevices(ds, scan)) == MissingIds(IdsOf(ds), scan)
  {
    forall d | d in MissingDevices(ds, scan) ensures d in ds {
      ListedDevicesMember(ds, scan, d);
    }
    ListedMissingIds(ds, scan);
  }
}
