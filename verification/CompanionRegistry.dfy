/** The shared list of Companion devices, kept as a vector but used as a map from device identifiers. */
module CompanionRegistry {
  import opened Common

  datatype ConnectionState = Disconnected | Connecting | Handshaking | Ready | Degraded | Failed

  datatype Capability = Capability(
    id: string, title: string, operations: seq<string>,
    androidPermissions: seq<string>, specialPermissions: seq<string>, requiresUserConsent: bool)

  datatype PermissionState = PermissionState(
    capabilityId: string, granted: bool,
    androidPermissions: seq<string>, missingPermissions: seq<string>,
    specialGrants: seq<string>, missingSpecialGrants: seq<string>, userConsentRequired: bool)

  datatype Device = Device(
    deviceId: string, displayName: string, appVersion: string, androidSdk: nat,
    connectionState: ConnectionState, capabilities: seq<Capability>, permissionStates: seq<PermissionState>)

  function Lookup(devices: seq<Device>, id: string): Option<Device> {
    if devices == [] then None
    else if devices[0].deviceId == id then Some(devices[0])
    else Lookup(devices[1..], id)
  }

  /** The first entry with the device's identifier is replaced, or the device is appended. */
  function Upserted(devices: seq<Device>, device: Device): seq<Device> {
    if devices == [] then [device]
    else if devices[0].deviceId == device.deviceId then [device] + devices[1..]
    else [devices[0]] + Upserted(devices[1..], device)
  }

  function Removed(devices: seq<Device>, ids: set<string>): seq<Device> {
    if devices == [] then []
    else if devices[0].deviceId in ids then Removed(devices[1..], ids)
    else [devices[0]] + Removed(devices[1..], ids)
  }

  ghost predicate DistinctIds(devices: seq<Device>) {
    forall i, j | 0 <= i < j < |devices| :: devices[i].deviceId != devices[j].deviceId
  }

  // ---------------------------------------------------------------- positions

  /** The first entry of a device is found and replaced where it stands; without one the device goes to the end. */
  lemma {:induction false} FirstEntryDecides(before: seq<Device>, entry: Device, after: seq<Device>, device: Device)
    requires entry.deviceId == device.deviceId
    requires forall i | 0 <= i < |before| :: before[i].deviceId != device.deviceId
    ensures Lookup(before + [entry] + after, device.deviceId) == Some(entry)
    ensures Upserted(before + [entry] + after, device) == before + [device] + after
    ensures Lookup(before, device.deviceId) == None && Upserted(before, device) == before + [device]
  {
    if before == [] {
      assert [] + [entry] + after == [entry] + after;
      assert ([entry] + after)[1..] == after;
    } else {
      FirstEntryDecides(before[1..], entry, after, device);
      assert (before + [entry] + after)[1..] == before[1..] + [entry] + after;
      assert before + [device] == [before[0]] + (before[1..] + [device]);
      assert before + [device] + after == [before[0]] + (before[1..] + [device] + after);
    }
  }

  /** A removal takes every listed entry by itself, so the others keep their order. */
  lemma {:induction false} RemovalIsEntrywise(before: seq<Device>, entry: Device, after: seq<Device>, ids: set<string>)
    ensures Removed(before + [entry] + after, ids)
            == Removed(before, ids) + (if entry.deviceId in ids then [] else [entry]) + Removed(after, ids)
  {
    if before == [] {
      assert [] + [entry] + after == [entry] + after;
      assert ([entry] + after)[1..] == after;
    } else {
      RemovalIsEntrywise(before[1..], entry, after, ids);
      assert (before + [entry] + after)[1..] == before[1..] + [entry] + after;
    }
  }

  class Registry {
    var devices: seq<Device>

    constructor ()
      ensures devices == []
    {
      devices := [];
    }

    method GetDevice(id: string) returns (r: Result<Device, string>)
      ensures match Lookup(devices, id)
              case Some(d) => r == Success(d)
              case None => r == Failure("COMPANION_DEVICE_NOT_CONNECTED")
    {
      var i := 0;
      while i < |devices| && devices[i].deviceId != id
        invariant 0 <= i <= |devices|
        invariant Lookup(devices, id) == Lookup(devices[i..], id)
      {
        i := i + 1;
      }
      r := if i < |devices| then Success(devices[i]) else Failure("COMPANION_DEVICE_NOT_CONNECTED");
    }

    method Upsert(device: Device)
      modifies this
      ensures devices == Upserted(old(devices), device)
    {
      var i := 0;
      while i < |devices| && devices[i].deviceId != device.deviceId
        invariant 0 <= i <= |devices| && devices == old(devices)
        invariant Upserted(devices, device) == devices[..i] + Upserted(devices[i..], device)
      {
        i := i + 1;
      }
      if i < |devices| {
        devices := devices[i := device];
      } else {
        devices := devices + [device];
      }
    }

    method Remove(id: string)
      modifies this
      ensures devices == Removed(old(devices), {id})
    {
      var kept := [];
      var i := 0;
      while i < |devices|
        invariant 0 <= i <= |devices| && devices == old(devices)
        invariant Removed(devices, {id}) == kept + Removed(devices[i..], {id})
      {
        if devices[i].deviceId != id {
          kept := kept + [devices[i]];
        }
        i := i + 1;
      }
      devices := kept;
    }
  }

  /** An upsert is a map update, whatever the vector holds. */
  lemma {:induction false} UpsertIsUpdate(devices: seq<Device>, device: Device, id: string)
    ensures Lookup(Upserted(devices, device), id) == if id == device.deviceId then Some(device) else Lookup(devices, id)
  {
    if devices == [] {
    } else {
      UpsertIsUpdate(devices[1..], device, id);
    }
  }

  /** A removal deletes exactly the given keys. */
  lemma {:induction false} RemoveIsDelete(devices: seq<Device>, ids: set<string>, id: string)
    ensures Lookup(Removed(devices, ids), id) == if id in ids then None else Lookup(devices, id)
  {
    if devices == [] {
    } else {
      RemoveIsDelete(devices[1..], ids, id);
    }
  }

  lemma {:induction false} LookupNone(devices: seq<Device>, id: string)
    ensures Lookup(devices, id) == None <==> forall i | 0 <= i < |devices| :: devices[i].deviceId != id
  {
    if devices == [] {
    } else {
      LookupNone(devices[1..], id);
      assert forall i | 0 < i < |devices| :: devices[i] == devices[1..][i - 1];
      assert forall i | 0 <= i < |devices| - 1 :: devices[1..][i] == devices[i + 1];
    }
  }

  /** The vector never holds two entries for one device. */
  lemma {:induction false} UpsertKeepsDistinct(devices: seq<Device>, device: Device)
    requires DistinctIds(devices)
    ensures DistinctIds(Upserted(devices, device))
  {
    if devices != [] && devices[0].deviceId != device.deviceId {
      UpsertKeepsDistinct(devices[1..], device);
      LookupNone(devices[1..], devices[0].deviceId);
      UpsertIsUpdate(devices[1..], device, devices[0].deviceId);
      LookupNone(Upserted(devices[1..], device), devices[0].deviceId);
    }
  }

  lemma {:induction false} RemoveKeepsDistinct(devices: seq<Device>, ids: set<string>)
    requires DistinctIds(devices)
    ensures DistinctIds(Removed(devices, ids))
  {
    if devices == [] {
    } else {
      RemoveKeepsDistinct(devices[1..], ids);
      LookupNone(devices[1..], devices[0].deviceId);
      RemoveIsDelete(devices[1..], ids, devices[0].deviceId);
      LookupNone(Removed(devices[1..], ids), devices[0].deviceId);
    }
  }

  lemma {:induction false} RemoveTwice(devices: seq<Device>, first: set<string>, second: set<string>)
    ensures Removed(Removed(devices, first), second) == Removed(devices, first + second)
  {
    if devices == [] {
    } else {
      RemoveTwice(devices[1..], first, second);
    }
  }

  lemma {:induction false} RemoveNothing(devices: seq<Device>)
    ensures Removed(devices, {}) == devices
  {
    if devices == [] {
    } else {
      RemoveNothing(devices[1..]);
    }
  }
}
