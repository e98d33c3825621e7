/**
 * What one pass of BLEManager::updateDeviceList does to the registry, stated
 * on the sequence of registered device ids (hardware addresses) and on the
 * registry's event log:
 *   1. each scan entry that has a name and is connected or connectable either
 *      refreshes the device with its address or registers a new one;
 *   2. every device whose address is missing from the raw scan list is removed.
 */
module Reconciliation {
  import opened Optional
  import opened Device

  /** A registry broadcast: bleDeviceAdded or bleDeviceRemoved, naming the device by its id. */
  datatype RegistryEvent = BleDeviceAdded(id: string) | BleDeviceRemoved(id: string)

  /** A scan entry survives the filter: it has a name, and it is connected or connectable. */
  predicate Admitted(p: Peripheral)
  {
    p.identifier != "" && (p.connected || p.connectable)
  }

  /** Every address in the raw scan list, filtered entries included. */
  function Addresses(scan: seq<Peripheral>): set<string>
  {
    set k | 0 <= k < |scan| :: scan[k].address
  }

  /** Some entry with address `x` survives the filter. */
  ghost predicate AdmittedAddress(scan: seq<Peripheral>, x: string)
  {
    exists k :: 0 <= k < |scan| && Admitted(scan[k]) && scan[k].address == x
  }

  /** No id occurs twice. */
  predicate Distinct(ids: seq<string>)
  {
    forall i, j :: 0 <= i < j < |ids| ==> ids[i] != ids[j]
  }

  // ---------------------------------------------------------------------------
  // Phase 1: refresh or add
  // ---------------------------------------------------------------------------

  /** The ids after the refresh-or-add loop: each surviving address not yet known is appended. */
  function AdmitIds(ids: seq<string>, scan: seq<Peripheral>): (r: seq<string>)
    ensures |ids| <= |r| && r[..|ids|] == ids
  {
    if scan == [] then ids
    else
      var known := AdmitIds(ids, scan[..|scan| - 1]);
      var p := scan[|scan| - 1];
      if Admitted(p) && p.address !in known then known + [p.address] else known
  }

  /** The first surviving entry with address `x`: the one a new device is built from. */
  function FirstAdmitted(scan: seq<Peripheral>, x: string): Option<Peripheral>
  {
    if scan == [] then None
    else
      var p := scan[|scan| - 1];
      match FirstAdmitted(scan[..|scan| - 1], x)
      case Some(q) => Some(q)
      case None => if Admitted(p) && p.address == x then Some(p) else None
  }

  /** The last surviving entry with address `x`: the handle its device holds after the loop. */
  function LastAdmitted(scan: seq<Peripheral>, x: string): Option<Peripheral>
  {
    if scan == [] then None
    else
      var p := scan[|scan| - 1];
      if Admitted(p) && p.address == x then Some(p) else LastAdmitted(scan[..|scan| - 1], x)
  }

  function AddedEvents(added: seq<string>): (r: seq<RegistryEvent>)
    ensures |r| == |added| && forall i :: 0 <= i < |r| ==> r[i] == BleDeviceAdded(added[i])
  {
    seq(|added|, i requires 0 <= i < |added| => BleDeviceAdded(added[i]))
  }

  function RemovedEvents(removed: seq<string>): (r: seq<RegistryEvent>)
    ensures |r| == |removed| && forall i :: 0 <= i < |r| ==> r[i] == BleDeviceRemoved(removed[i])
  {
    seq(|removed|, i requires 0 <= i < |removed| => BleDeviceRemoved(removed[i]))
  }

  // ---------------------------------------------------------------------------
  // Phase 2: remove what the scan no longer lists
  // ---------------------------------------------------------------------------

  /** The ids whose address appears in the raw scan list, in registry order. */
  function KeepSeen(ids: seq<string>, scan: seq<Peripheral>): seq<string>
  {
    if ids == [] then []
    else (if ids[0] in Addresses(scan) then [ids[0]] else []) + KeepSeen(ids[1..], scan)
  }

  /** The ids whose address is missing from the raw scan list, in registry order. */
  function MissingIds(ids: seq<string>, scan: seq<Peripheral>): seq<string>
  {
    if ids == [] then []
    else (if ids[0] in Addresses(scan) then [] else [ids[0]]) + MissingIds(ids[1..], scan)
  }

  /** The registry's ids after a whole pass. */
  function Reconcile(ids: seq<string>, scan: seq<Peripheral>): seq<string>
  {
    KeepSeen(AdmitIds(ids, scan), scan)
  }

  /** The ids a pass registers, in scan order. */
  function NewIds(ids: seq<string>, scan: seq<Peripheral>): seq<string>
  {
    AdmitIds(ids, scan)[|ids|..]
  }

  /** The broadcasts of a whole pass: the additions, then the removals. */
  function ReconcileEvents(ids: seq<string>, scan: seq<Peripheral>): seq<RegistryEvent>
  {
    AddedEvents(NewIds(ids, scan)) + RemovedEvents(MissingIds(AdmitIds(ids, scan), scan))
  }

  // ---------------------------------------------------------------------------
  // Lemmas
  // ---------------------------------------------------------------------------

  /** A first surviving entry exists exactly when some entry with that address survives; it is one of them. */
  lemma {:induction false} FirstAdmittedFound(scan: seq<Peripheral>, x: string)
    ensures FirstAdmitted(scan, x).Some? <==> AdmittedAddress(scan, x)
    ensures FirstAdmitted(scan, x).Some? ==>
      Admitted(FirstAdmitted(scan, x).value) && FirstAdmitted(scan, x).value.address == x
  {
    if scan != [] {
      var init := scan[..|scan| - 1];
      FirstAdmittedFound(init, x);
      if AdmittedAddress(init, x) {
        var k :| 0 <= k < |init| && Admitted(init[k]) && init[k].address == x;
        assert scan[k] == init[k];
      }
      if !AdmittedAddress(init, x) {
        forall k | 0 <= k < |init|
          ensures !(Admitted(scan[k]) && scan[k].address == x)
        {
          assert scan[k] == init[k];
        }
      }
    }
  }

  /** The last surviving entry exists exactly when some entry with that address survives; it is one of them. */
  lemma {:induction false} LastAdmittedFound(scan: seq<Peripheral>, x: string)
    ensures LastAdmitted(scan, x).Some? <==> AdmittedAddress(scan, x)
    ensures LastAdmitted(scan, x).Some? ==>
      Admitted(LastAdmitted(scan, x).value) && LastAdmitted(scan, x).value.address == x
  {
    if scan != [] {
      var init := scan[..|scan| - 1];
      LastAdmittedFound(init, x);
      if AdmittedAddress(init, x) {
        var k :| 0 <= k < |init| && Admitted(init[k]) && init[k].address == x;
        assert scan[k] == init[k];
      }
      if !AdmittedAddress(init, x) {
        forall k | 0 <= k < |init|
          ensures !(Admitted(scan[k]) && scan[k].address == x)
        {
          assert scan[k] == init[k];
        }
      }
    }
  }

  /** After the refresh-or-add loop an id is known exactly when it was known before or a surviving entry carries it. */
  lemma {:induction false} AdmitIdsMembership(ids: seq<string>, scan: seq<Peripheral>, x: string)
    ensures x in AdmitIds(ids, scan) <==> x in ids || FirstAdmitted(scan, x).Some?
  {
    if scan != [] {
      AdmitIdsMembership(ids, scan[..|scan| - 1], x);
    }
  }

  /** The refresh-or-add loop never registers an address twice, even when the scan repeats it. */
  lemma {:induction false} AdmitIdsDistinct(ids: seq<string>, scan: seq<Peripheral>)
    requires Distinct(ids)
    ensures Distinct(AdmitIds(ids, scan))
  {
    if scan != [] {
      AdmitIdsDistinct(ids, scan[..|scan| - 1]);
    }
  }

  lemma {:induction false} KeepSeenMembership(ids: seq<string>, scan: seq<Peripheral>, x: string)
    ensures x in KeepSeen(ids, scan) <==> x in ids && x in Addresses(scan)
    ensures x in MissingIds(ids, scan) <==> x in ids && x !in Addresses(scan)
  {
    if ids != [] {
      KeepSeenMembership(ids[1..], scan, x);
      assert x in ids <==> x == ids[0] || x in ids[1..];
    }
  }

  lemma {:induction false} KeepSeenDistinct(ids: seq<string>, scan: seq<Peripheral>)
    requires Distinct(ids)
    ensures Distinct(KeepSeen(ids, scan)) && Distinct(MissingIds(ids, scan))
  {
    if ids != [] {
      KeepSeenDistinct(ids[1..], scan);
      KeepSeenMembership(ids[1..], scan, ids[0]);
    }
  }

  /** Ids stay pairwise distinct across a pass. */
  lemma ReconcileDistinct(ids: seq<string>, scan: seq<Peripheral>)
    requires Distinct(ids)
    ensures Distinct(Reconcile(ids, scan))
  {
    AdmitIdsDistinct(ids, scan);
    KeepSeenDistinct(AdmitIds(ids, scan), scan);
  }

  /**
   * After a pass an id is registered exactly when its address is in the raw
   * scan list and either it was registered before or a surviving entry
   * carries it. So every remaining device is accounted for by the scan, every
   * surviving entry has its device, a known device whose only entries were
   * filtered out stays, and a filtered entry alone never adds a device.
   */
  lemma ReconcileMembership(ids: seq<string>, scan: seq<Peripheral>, x: string)
    ensures x in Reconcile(ids, scan) <==> (x in ids || AdmittedAddress(scan, x)) && x in Addresses(scan)
  {
    AdmitIdsMembership(ids, scan, x);
    FirstAdmittedFound(scan, x);
    KeepSeenMembership(AdmitIds(ids, scan), scan, x);
  }

  /** Every surviving entry's address is in the raw list too. */
  lemma AdmittedIsListed(scan: seq<Peripheral>, x: string)
    requires AdmittedAddress(scan, x)
    ensures x in Addresses(scan)
  {
  }

  /** A pass's broadcasts appended to a log: first the additions, then the removals. */
  lemma ReconcileEventsAppend(log: seq<RegistryEvent>, ids: seq<string>, scan: seq<Peripheral>)
    ensures log + ReconcileEvents(ids, scan)
         == (log + AddedEvents(NewIds(ids, scan))) + RemovedEvents(MissingIds(AdmitIds(ids, scan), scan))
  {
  }

  /** An address no raw entry carries has no surviving entry, first or last. */
  lemma UnlistedNotAdmitted(scan: seq<Peripheral>, x: string)
    requires x !in Addresses(scan)
    ensures FirstAdmitted(scan, x) == None && LastAdmitted(scan, x) == None
  {
    FirstAdmittedFound(scan, x);
    LastAdmittedFound(scan, x);
  }

  /** The device set after a pass: (previous ∪ surviving addresses) − (previous − listed addresses). */
  lemma ReconcileSet(ids: seq<string>, scan: seq<Peripheral>)
    ensures var admitted := set k | 0 <= k < |scan| && Admitted(scan[k]) :: scan[k].address;
            var previous := set x | x in ids;
            (set x | x in Reconcile(ids, scan)) == (previous + admitted) - (previous - Addresses(scan))
  {
    var admitted := set k | 0 <= k < |scan| && Admitted(scan[k]) :: scan[k].address;
    var previous := set x | x in ids;
    forall x
      ensures x in Reconcile(ids, scan) <==> x in (previous + admitted) - (previous - Addresses(scan))
    {
      ReconcileMembership(ids, scan, x);
      assert x in admitted <==> AdmittedAddress(scan, x);
    }
  }

  /** The additions of a pass never repeat an id, so each added device gets one event. */
  lemma NewIdsDistinct(ids: seq<string>, scan: seq<Peripheral>)
    requires Distinct(ids)
    ensures Distinct(NewIds(ids, scan))
  {
    var all := AdmitIds(ids, scan);
    var added := NewIds(ids, scan);
    AdmitIdsDistinct(ids, scan);
    forall i, j | 0 <= i < j < |added|
      ensures added[i] != added[j]
    {
      assert added[i] == all[|ids| + i] && added[j] == all[|ids| + j];
    }
  }

  /** The additions of a pass are exactly the surviving addresses that were not registered. */
  lemma NewIdsMembership(ids: seq<string>, scan: seq<Peripheral>, x: string)
    requires Distinct(ids)
    ensures x in NewIds(ids, scan) <==> x !in ids && AdmittedAddress(scan, x)
  {
    var all := AdmitIds(ids, scan);
    var added := NewIds(ids, scan);
    AdmitIdsDistinct(ids, scan);
    AdmitIdsMembership(ids, scan, x);
    FirstAdmittedFound(scan, x);
    assert all == ids + added;
    if x in added {
      var j :| 0 <= j < |added| && added[j] == x;
      forall i | 0 <= i < |ids|
        ensures ids[i] != x
      {
        assert all[i] == ids[i] && all[|ids| + j] == x;
      }
    }
    if x !in ids && x in all {
      var j :| 0 <= j < |all| && all[j] == x;
      assert j >= |ids|;
      assert added[j - |ids|] == x;
    }
  }

  /** A result whose address is already registered adds nothing: no event and no new id. */
  lemma KnownAddressAddsNothing(ids: seq<string>, scan: seq<Peripheral>, p: Peripheral)
    requires p.address in ids
    ensures AdmitIds(ids, scan + [p]) == AdmitIds(ids, scan)
    ensures NewIds(ids, scan + [p]) == NewIds(ids, scan)
  {
    var known := AdmitIds(ids, scan);
    assert (scan + [p])[..|scan|] == scan;
    assert known[..|ids|] == ids;
    var i :| 0 <= i < |ids| && ids[i] == p.address;
    assert known[i] == p.address;
  }

  /** A result that fails the filter neither adds a device (no id, no broadcast) nor refreshes one. */
  lemma FilteredEntryIgnored(ids: seq<string>, scan: seq<Peripheral>, p: Peripheral)
    requires !Admitted(p)
    ensures AdmitIds(ids, scan + [p]) == AdmitIds(ids, scan)
    ensures NewIds(ids, scan + [p]) == NewIds(ids, scan)
    ensures forall x :: LastAdmitted(scan + [p], x) == LastAdmitted(scan, x)
    ensures forall x :: FirstAdmitted(scan + [p], x) == FirstAdmitted(scan, x)
  {
    assert (scan + [p])[..|scan|] == scan;
  }

  /** No device is both added and removed by the same pass: the additions are all listed addresses. */
  lemma AddedNeverRemoved(ids: seq<string>, scan: seq<Peripheral>, x: string)
    requires Distinct(ids)
    requires x in NewIds(ids, scan)
    ensures x !in MissingIds(AdmitIds(ids, scan), scan)
    ensures x in Reconcile(ids, scan)
  {
    NewIdsMembership(ids, scan, x);
    KeepSeenMembership(AdmitIds(ids, scan), scan, x);
    ReconcileMembership(ids, scan, x);
  }

  /** In the broadcasts of a pass every addition precedes every removal. */
  lemma AddsPrecedeRemoves(ids: seq<string>, scan: seq<Peripheral>, i: nat, j: nat)
    requires i < j < |ReconcileEvents(ids, scan)|
    requires ReconcileEvents(ids, scan)[i].BleDeviceRemoved?
    ensures ReconcileEvents(ids, scan)[j].BleDeviceRemoved?
  {
    var adds := AddedEvents(NewIds(ids, scan));
    var removes := RemovedEvents(MissingIds(AdmitIds(ids, scan), scan));
    var events := ReconcileEvents(ids, scan);
    assert events == adds + removes;
    assert forall k :: 0 <= k < |adds| ==> events[k].BleDeviceAdded?;
    assert events[j] == removes[j - |adds|];
  }
}
