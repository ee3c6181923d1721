/**
 * The persistent device directory of the web server.
 *
 * ADB connectivity is transient: a handset seen once must not leave the directory when wireless
 * debugging drops.  Merge matches remembered slots with live rows greedily; the matching, the merged
 * list and the assignment migration are specified here, and the class below runs the loops.
 */
module DeviceCatalog {
  import opened Common
  import opened Text
  import opened AliasLists
  import opened DeviceIdentity
  import opened Devices

  /** Least live row at or after position start that is free and matches the slot, or -1. */
  function Pick(slot: Device, live: seq<Device>, taken: seq<int>, start: nat): int
    requires start <= |live|
    decreases |live| - start
  {
    if start == |live| then -1
    else if start !in taken && SameCatalogDevice(slot, live[start]) then start
    else Pick(slot, live, taken, start + 1)
  }

  /** The live row each of the first n slots takes, or -1. */
  function Match(slots: seq<Device>, live: seq<Device>, n: nat): (m: seq<int>)
    requires n <= |slots|
    ensures |m| == n
  {
    if n == 0 then []
    else
      var before := Match(slots, live, n - 1);
      before + [Pick(slots[n - 1], live, before, 0)]
  }

  /** A remembered slot takes a live row: the live row wins, gaps are filled from memory. */
  function Combine(remembered: Device, current: Device): Device {
    var name :=
      if (current.name == "" || current.name == current.id)
         && remembered.name != "" && remembered.name != remembered.id
      then remembered.name else current.name;
    Device(
      current.id, name, remembered.remark,
      if current.model == "" then remembered.model else current.model,
      if current.product == "" then remembered.product else current.product,
      current.state, current.transport,
      if current.hardwareID == "" then remembered.hardwareID else current.hardwareID,
      MergedAliases(current.id, current.aliases, remembered.id, remembered.aliases))
  }

  function MergedSlot(slot: Device, live: seq<Device>, taken: int): Device
    requires taken < |live|
  {
    if taken < 0 then slot.(state := OFFLINE) else Combine(slot, live[taken])
  }

  /** Live rows among the first n that nobody took, in order. */
  function Rest(taken: seq<int>, n: nat): seq<nat> {
    if n == 0 then [] else if n - 1 in taken then Rest(taken, n - 1) else Rest(taken, n - 1) + [n - 1]
  }

  lemma {:induction false} PickMeaning(slot: Device, live: seq<Device>, taken: seq<int>, start: nat)
    requires start <= |live|
    ensures var r := Pick(slot, live, taken, start);
            && -1 <= r < |live|
            && (r >= 0 ==> start <= r && r !in taken && SameCatalogDevice(slot, live[r]))
            && forall j | start <= j < |live| && (r < 0 || j < r) :: j in taken || !SameCatalogDevice(slot, live[j])
    decreases |live| - start
  {
    hide SameCatalogDevice;
    if start < |live| && (start in taken || !SameCatalogDevice(slot, live[start])) {
      PickMeaning(slot, live, taken, start + 1);
    }
  }

  /** A matching takes real rows, each at most once, and only rows its slot recognises. */
  ghost predicate GoodMatch(slots: seq<Device>, live: seq<Device>, m: seq<int>) {
    && |m| <= |slots|
    && (forall i | 0 <= i < |m| :: -1 <= m[i] < |live|)
    && (forall i | 0 <= i < |m| && m[i] >= 0 :: SameCatalogDevice(slots[i], live[m[i]]))
    && (forall i, k | 0 <= i < k < |m| && m[i] >= 0 :: m[i] != m[k])
  }

  lemma {:induction false} MatchIsGood(slots: seq<Device>, live: seq<Device>, n: nat)
    requires n <= |slots|
    ensures GoodMatch(slots, live, Match(slots, live, n))
  {
    hide SameCatalogDevice, Pick;
    if n == 0 {
    } else {
      MatchIsGood(slots, live, n - 1);
      PickMeaning(slots[n - 1], live, Match(slots, live, n - 1), 0);
    }
  }

  lemma {:induction false} RestMeaning(taken: seq<int>, n: nat)
    ensures forall j: nat :: j in Rest(taken, n) <==> j < n && j !in taken
    ensures forall a, b | 0 <= a < b < |Rest(taken, n)| :: Rest(taken, n)[a] < Rest(taken, n)[b]
  {
    if n == 0 {
    } else {
      RestMeaning(taken, n - 1);
      var before := Rest(taken, n - 1);
      forall k | 0 <= k < |before|
        ensures before[k] < n - 1
      {
        assert before[k] in before;
      }
    }
  }

  /** The list Merge returns: every slot, then the live rows nobody took. */
  function MergedList(slots: seq<Device>, live: seq<Device>): (list: seq<Device>)
    ensures |list| == |slots| + |Rest(Match(slots, live, |slots|), |live|)|
  {
    var m := Match(slots, live, |slots|);
    var rest := Rest(m, |live|);
    MatchIsGood(slots, live, |slots|);
    RestMeaning(m, |live|);
    seq(|slots|, i requires 0 <= i < |slots| => MergedSlot(slots[i], live, m[i]))
    + seq(|rest|, k requires 0 <= k < |rest| => assert rest[k] in rest; live[rest[k]])
  }

  function Stored(list: seq<Device>): (stored: seq<Device>)
    ensures |stored| == |list|
  {
    seq(|list|, i requires 0 <= i < |list| => list[i].(state := OFFLINE))
  }

  /** Does the row answer to this serial? */
  predicate AnswersTo(candidate: Device, deviceID: string) {
    candidate.id == deviceID || deviceID in candidate.aliases || EquivalentDeviceID(candidate.id, deviceID)
  }

  /** First row at or after start that answers to the serial, or the length of the list. */
  function Find(devices: seq<Device>, deviceID: string, start: nat): (r: nat)
    requires start <= |devices|
    ensures start <= r <= |devices|
    ensures r < |devices| ==> AnswersTo(devices[r], deviceID)
    ensures forall i | start <= i < r :: !AnswersTo(devices[i], deviceID)
    decreases |devices| - start
  {
    if start == |devices| || AnswersTo(devices[start], deviceID) then start else Find(devices, deviceID, start + 1)
  }

  function AssignedRow(id: string): Device {
    Device(id, id, "", "", "", OFFLINE, if IsWirelessADBIdentity(id) then "wireless" else "usb", "", [])
  }

  predicate IsWirelessADBIdentity(id: string) {
    Contains(id, ":") || Contains(id, "._adb-tls-connect._tcp") || Contains(id, "._adb._tcp")
  }

  /** A bare row that carries nothing but a serial. */
  function Probe(id: string): Device {
    Device(id, "", "", "", "", "", "", "", [])
  }

  predicate Known(devices: seq<Device>, id: string) {
    exists i | 0 <= i < |devices| :: SameCatalogDevice(devices[i], Probe(id))
  }

  /** The list after the first n assigned serials have been looked at. */
  function WithAssignments(devices: seq<Device>, assignedIDs: seq<string>, n: nat): seq<Device>
    requires n <= |assignedIDs|
  {
    if n == 0 then devices
    else
      var before := WithAssignments(devices, assignedIDs, n - 1);
      var id := assignedIDs[n - 1];
      if IsBlank(id) || Known(before, id) then before else before + [AssignedRow(id)]
  }

  datatype Operation =
    | Discover(live: seq<Device>, saveOk: bool)
    | Annotate(deviceID: string, remark: string, saveOk: bool)
    | Forget(deviceID: string, saveOk: bool)

  /** The stored list after one operation. */
  function Apply(devices: seq<Device>, op: Operation): seq<Device> {
    match op
    case Discover(live, saveOk) =>
      var stored := Stored(MergedList(devices, live));
      if stored != devices && !saveOk then devices else stored
    case Annotate(deviceID, remark, saveOk) =>
      var k := Find(devices, deviceID, 0);
      if k == |devices| || !saveOk then devices else devices[k := devices[k].(remark := remark)]
    case Forget(deviceID, saveOk) =>
      var k := Find(devices, deviceID, 0);
      if k == |devices| || !saveOk then devices else devices[..k] + devices[k + 1..]
  }

  class Catalog {
    var devices: seq<Device>

    /** Every row read back from disk is offline and otherwise as it was written. */
    constructor (persisted: seq<Device>)
      ensures |devices| == |persisted|
      ensures forall i | 0 <= i < |persisted| ::
                devices[i].state == OFFLINE && devices[i].(state := persisted[i].state) == persisted[i]
    {
      devices := persisted;
      new;
      var index := 0;
      while index < |devices|
        invariant 0 <= index <= |devices| == |persisted|
        invariant forall i | 0 <= i < index ::
                    devices[i].state == OFFLINE && devices[i].(state := persisted[i].state) == persisted[i]
        invariant forall i | index <= i < |devices| :: devices[i] == persisted[i]
      {
        devices := devices[index := devices[index].(state := OFFLINE)];
        index := index + 1;
      }
    }

    /** saveOk tells whether writing the catalog file would succeed. */
    method Merge(live: seq<Device>, saveOk: bool) returns (r: Result<seq<Device>, string>)
      modifies this
      ensures devices == Apply(old(devices), Discover(live, saveOk))
      ensures var list := MergedList(old(devices), live);
              if Stored(list) != old(devices) && !saveOk
              then r.Failure? && devices == old(devices)
              else r == Success(list) && devices == Stored(list)
    {
      var slots := devices;
      var result, matched, m := MatchSlots(slots, live);
      result := AppendUnmatched(result, live, matched, m);
      MergedListShape(slots, live, result);
      var stored := Stored(result);
      if stored != devices {
        if !saveOk {
          return Failure("DEVICE_CATALOG_SAVE_FAILED");
        }
        devices := stored;
      }
      r := Success(result);
    }

    method SetRemark(deviceID: string, remark: string, saveOk: bool) returns (r: Result<Option<Device>, string>)
      modifies this
      ensures devices == Apply(old(devices), Annotate(deviceID, remark, saveOk))
      ensures var k := Find(old(devices), deviceID, 0);
              if k == |old(devices)| then r == Success(None) && devices == old(devices)
              else if !saveOk then r.Failure? && devices == old(devices)
              else devices == old(devices)[k := old(devices)[k].(remark := remark)] && r == Success(Some(devices[k]))
    {
      var k := 0;
      while k < |devices| && !AnswersTo(devices[k], deviceID)
        invariant 0 <= k <= |devices|
        invariant Find(devices, deviceID, 0) == Find(devices, deviceID, k)
      {
        k := k + 1;
      }
      if k == |devices| {
        return Success(None);
      }
      if !saveOk {
        return Failure("DEVICE_CATALOG_SAVE_FAILED");
      }
      var updated := devices[k].(remark := remark);
      devices := devices[k := updated];
      r := Success(Some(updated));
    }

    method Remove(deviceID: string, saveOk: bool) returns (r: Result<Option<Device>, string>)
      modifies this
      ensures devices == Apply(old(devices), Forget(deviceID, saveOk))
      ensures var k := Find(old(devices), deviceID, 0);
              if k == |old(devices)| then r == Success(None) && devices == old(devices)
              else if !saveOk then r.Failure? && devices == old(devices)
              else r == Success(Some(old(devices)[k])) && devices == old(devices)[..k] + old(devices)[k + 1..]
    {
      var k := 0;
      while k < |devices| && !AnswersTo(devices[k], deviceID)
        invariant 0 <= k <= |devices|
        invariant Find(devices, deviceID, 0) == Find(devices, deviceID, k)
      {
        k := k + 1;
      }
      if k == |devices| {
        return Success(None);
      }
      if !saveOk {
        return Failure("DEVICE_CATALOG_SAVE_FAILED");
      }
      r := Success(Some(devices[k]));
      devices := devices[..k] + devices[k + 1..];
    }

    /** Moves serials already assigned to accounts into the directory. */
    method RememberAssignments(rows: seq<Device>, assignedIDs: seq<string>, saveOk: bool)
      returns (r: Result<seq<Device>, string>)
      modifies this
      ensures devices == Apply(old(devices), Discover(WithAssignments(rows, assignedIDs, |assignedIDs|), saveOk))
      ensures var list := MergedList(old(devices), WithAssignments(rows, assignedIDs, |assignedIDs|));
              if Stored(list) != old(devices) && !saveOk
              then r.Failure? && devices == old(devices)
              else r == Success(list) && devices == Stored(list)
    {
      hide SameCatalogDevice, AssignedRow, MergedList, Stored;
      var merged := rows;
      var n := 0;
      while n < |assignedIDs|
        invariant 0 <= n <= |assignedIDs|
        invariant merged == WithAssignments(rows, assignedIDs, n)
        invariant devices == old(devices)
      {
        var assignedID := assignedIDs[n];
        if !IsBlank(assignedID) {
          var known := false;
          var i := 0;
          while i < |merged| && !known
            invariant 0 <= i <= |merged|
            invariant known <==> exists p | 0 <= p < i :: SameCatalogDevice(merged[p], Probe(assignedID))
          {
            known := SameCatalogDevice(merged[i], Probe(assignedID));
            i := i + 1;
          }
          if !known {
            merged := merged + [AssignedRow(assignedID)];
          }
        }
        n := n + 1;
      }
      r := Merge(merged, saveOk);
    }
  }

  /** The inner loop: the first free live row the slot recognises. */
  method FindRow(remembered: Device, live: seq<Device>, matched: seq<bool>, ghost m: seq<int>) returns (j: nat)
    requires |matched| == |live|
    requires forall k | 0 <= k < |live| :: matched[k] <==> k in m
    ensures j == if Pick(remembered, live, m, 0) < 0 then |live| else Pick(remembered, live, m, 0)
    ensures -1 <= Pick(remembered, live, m, 0) < |live|
  {
    hide SameCatalogDevice;
    j := 0;
    while j < |live| && (matched[j] || !SameCatalogDevice(remembered, live[j]))
      invariant 0 <= j <= |live|
      invariant Pick(remembered, live, m, 0) == Pick(remembered, live, m, j)
    {
      j := j + 1;
    }
    PickMeaning(remembered, live, m, 0);
  }

  /** The outer loop: every slot goes offline or is replaced by what it took. */
  method MatchSlots(slots: seq<Device>, live: seq<Device>)
    returns (result: seq<Device>, matched: seq<bool>, ghost m: seq<int>)
    ensures m == Match(slots, live, |slots|) && GoodMatch(slots, live, m)
    ensures |result| == |slots| && |matched| == |live|
    ensures forall p | 0 <= p < |slots| :: result[p] == MergedSlot(slots[p], live, m[p])
    ensures forall j | 0 <= j < |live| :: matched[j] <==> j in m
  {
    hide SameCatalogDevice, Combine;
    result := slots;
    matched := seq(|live|, _ => false);
    m := [];
    var i := 0;
    while i < |slots|
      invariant 0 <= i <= |slots| == |result| && |matched| == |live|
      invariant m == Match(slots, live, i)
      invariant forall p | 0 <= p < i :: m[p] < |live| && result[p] == MergedSlot(slots[p], live, m[p])
      invariant forall p | i <= p < |slots| :: result[p] == slots[p]
      invariant forall j | 0 <= j < |live| :: matched[j] <==> j in m
    {
      var remembered := result[i];
      var j := FindRow(remembered, live, matched, m);
      if j < |live| {
        var merged := MergeInto(remembered, live[j]);
        result := result[i := merged];
        matched := matched[j := true];
      } else {
        result := result[i := remembered.(state := OFFLINE)];
      }
      m := m + [Pick(remembered, live, m, 0)];
      i := i + 1;
    }
    MatchIsGood(slots, live, |slots|);
  }

  method MergeInto(remembered: Device, current: Device) returns (merged: Device)
    ensures merged == Combine(remembered, current)
  {
    merged := current;
    if merged.name == "" || merged.name == merged.id {
      if remembered.name != "" && remembered.name != remembered.id {
        merged := merged.(name := remembered.name);
      }
    }
    if merged.model == "" {
      merged := merged.(model := remembered.model);
    }
    if merged.product == "" {
      merged := merged.(product := remembered.product);
    }
    if merged.hardwareID == "" {
      merged := merged.(hardwareID := remembered.hardwareID);
    }
    merged := merged.(remark := remembered.remark);
    var aliases := AppendUnique(merged.aliases, [remembered.id]);
    aliases := AppendUnique(aliases, remembered.aliases);
    aliases := AliasesWithoutPrimary(merged.id, aliases);
    merged := merged.(aliases := aliases);
  }

  method AppendUnmatched(slots: seq<Device>, live: seq<Device>, matched: seq<bool>, ghost m: seq<int>)
    returns (result: seq<Device>)
    requires |matched| == |live|
    requires forall j | 0 <= j < |live| :: matched[j] <==> j in m
    ensures |result| == |slots| + |Rest(m, |live|)|
    ensures forall p | 0 <= p < |slots| :: result[p] == slots[p]
    ensures forall k | 0 <= k < |Rest(m, |live|)| ::
        Rest(m, |live|)[k] < |live| && result[|slots| + k] == live[Rest(m, |live|)[k]]
  {
    result := slots;
    var j := 0;
    while j < |live|
      invariant 0 <= j <= |live|
      invariant |result| == |slots| + |Rest(m, j)|
      invariant forall p | 0 <= p < |slots| :: result[p] == slots[p]
      invariant forall k | 0 <= k < |Rest(m, j)| :: Rest(m, j)[k] < j && result[|slots| + k] == live[Rest(m, j)[k]]
    {
      if !matched[j] {
        result := result + [live[j]];
      }
      j := j + 1;
    }
  }

  lemma MergedListShape(slots: seq<Device>, live: seq<Device>, list: seq<Device>)
    requires var m := Match(slots, live, |slots|);
             && GoodMatch(slots, live, m)
             && |list| == |slots| + |Rest(m, |live|)|
             && (forall p | 0 <= p < |slots| :: list[p] == MergedSlot(slots[p], live, m[p]))
             && (forall k | 0 <= k < |Rest(m, |live|)| ::
                   Rest(m, |live|)[k] < |live| && list[|slots| + k] == live[Rest(m, |live|)[k]])
    ensures list == MergedList(slots, live)
  {
  }
}
