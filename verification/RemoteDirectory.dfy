/**
 * The device directory of a remote (non-admin) account.
 *
 * Account assignments are persistent; Companion registrations and the current ADB rows only enrich
 * them.  All results rest on SameRemoteIdentity being an equivalence.
 */
module RemoteDirectory {
  import opened Common
  import opened DeviceIdentity
  import Strings = Text

  /** A JSON member: absent, a string, or some other value. */
  datatype Field = Missing | Text(text: string) | Other

  /** One JSON object of the device list; rest holds the members this component never looks at. */
  datatype Entry = Entry(
    deviceId: Field, name: Field, connectionState: Field, adbState: Field, rest: map<string, string>)

  const BLANK := Entry(Missing, Missing, Missing, Missing, map[])

  predicate KnownAs(e: Entry, id: string) {
    e.deviceId.Text? && SameRemoteIdentity(e.deviceId.text, id)
  }

  predicate Ready(e: Entry) {
    e.connectionState == Text("ready")
  }

  /** The first current ADB serial that names the device. */
  function FindCurrent(current: seq<string>, id: string): (r: Option<string>)
    ensures r.Some? ==> r.value in current && SameRemoteIdentity(id, r.value)
    ensures r.None? ==> forall c | c in current :: !SameRemoteIdentity(id, c)
  {
    if current == [] then None
    else if SameRemoteIdentity(id, current[0]) then Some(current[0])
    else FindCurrent(current[1..], id)
  }

  /** Among the first n registrations of the device the last ready one, else the last one. */
  function FindRegistered(registered: seq<Entry>, id: string, n: nat): (r: Option<Entry>)
    requires n <= |registered|
    ensures r.Some? ==> KnownAs(r.value, id)
  {
    if n == 0 then None
    else
      var best := FindRegistered(registered, id, n - 1);
      var e := registered[n - 1];
      if !KnownAs(e, id) || (best.Some? && Ready(best.value) && !Ready(e)) then best else Some(e)
  }

  /** The serial a card shows: ADB's current one, else the registered one, else the assignment. */
  function DisplayID(registered: seq<Entry>, current: seq<string>, assignedID: string): string {
    var currentID := FindCurrent(current, assignedID);
    var entry := FindRegistered(registered, assignedID, |registered|);
    if currentID.Some? then currentID.value
    else if entry.Some? then entry.value.deviceId.text
    else assignedID
  }

  function Refresh(entry: Entry, online: bool, displayID: string): Entry {
    var previous := if entry.deviceId.Text? then entry.deviceId.text else "";
    var replaceName := !entry.name.Text? || entry.name.text == "" || entry.name.text == previous;
    var stale := entry.connectionState in {Missing, Text("adb"), Text("disconnected"), Text("offline")};
    Entry(
      Text(displayID),
      if replaceName then Text(displayID) else entry.name,
      if stale then Text(if online then "adb" else "offline") else entry.connectionState,
      Text(if online then "device" else "offline"),
      entry.rest)
  }

  function NewEntry(registered: seq<Entry>, current: seq<string>, assignedID: string): Entry {
    var entry := FindRegistered(registered, assignedID, |registered|);
    Refresh(
      if entry.Some? then entry.value else BLANK,
      FindCurrent(current, assignedID).Some?,
      DisplayID(registered, current, assignedID))
  }

  predicate Listed(entries: seq<Entry>, id: string) {
    exists i | 0 <= i < |entries| :: KnownAs(entries[i], id)
  }

  /** The directory after the first n assignments. */
  function Reconciled(registered: seq<Entry>, assignedIDs: seq<string>, current: seq<string>, n: nat): seq<Entry>
    requires n <= |assignedIDs|
  {
    if n == 0 then []
    else
      var before := Reconciled(registered, assignedIDs, current, n - 1);
      if Listed(before, DisplayID(registered, current, assignedIDs[n - 1])) then before
      else before + [NewEntry(registered, current, assignedIDs[n - 1])]
  }

  /** The loop body's field updates. */
  method BuildEntry(registeredEntry: Option<Entry>, online: bool, displayID: string) returns (entry: Entry)
    ensures entry == Refresh(if registeredEntry.Some? then registeredEntry.value else BLANK, online, displayID)
  {
    entry := if registeredEntry.Some? then registeredEntry.value else BLANK;
    var previous := if entry.deviceId.Text? then entry.deviceId.text else "";
    var replaceName := !entry.name.Text? || entry.name.text == "" || entry.name.text == previous;
    entry := entry.(deviceId := Text(displayID));
    entry := entry.(adbState := Text(if online then "device" else "offline"));
    if entry.connectionState in {Missing, Text("adb"), Text("disconnected"), Text("offline")} {
      entry := entry.(connectionState := Text(if online then "adb" else "offline"));
    }
    if replaceName {
      entry := entry.(name := Text(displayID));
    }
  }

  method ReconcileRemoteDeviceList(registered: seq<Entry>, assignedIDs: seq<string>, current: seq<string>)
    returns (reconciled: seq<Entry>)
    ensures reconciled == Reconciled(registered, assignedIDs, current, |assignedIDs|)
  {
    hide SameRemoteIdentity, Refresh, Listed;
    reconciled := [];
    var n := 0;
    while n < |assignedIDs|
      invariant 0 <= n <= |assignedIDs|
      invariant reconciled == Reconciled(registered, assignedIDs, current, n)
    {
      var currentID := FindCurrent(current, assignedIDs[n]);
      var registeredEntry := FindRegistered(registered, assignedIDs[n], |registered|);
      var displayID :=
        if currentID.Some? then currentID.value
        else if registeredEntry.Some? then registeredEntry.value.deviceId.text
        else assignedIDs[n];
      if !Listed(reconciled, displayID) {
        var entry := BuildEntry(registeredEntry, currentID.Some?, displayID);
        reconciled := reconciled + [entry];
      }
      n := n + 1;
    }
  }

  ghost predicate AnyCurrent(current: seq<string>, id: string) {
    exists c | c in current :: SameRemoteIdentity(id, c)
  }

  lemma SameTransfers(a: string, b: string, c: string)
    requires SameRemoteIdentity(a, b)
    ensures SameRemoteIdentity(b, a)
    ensures SameRemoteIdentity(a, c) <==> SameRemoteIdentity(b, c)
    ensures SameRemoteIdentity(c, a) <==> SameRemoteIdentity(c, b)
  {
    SameRemoteIsEquivalence(a, b, c);
  }

  lemma DisplayIsSame(registered: seq<Entry>, current: seq<string>, assignedID: string)
    ensures SameRemoteIdentity(assignedID, DisplayID(registered, current, assignedID))
    ensures SameRemoteIdentity(DisplayID(registered, current, assignedID), assignedID)
  {
  }

  lemma ListedTransfers(entries: seq<Entry>, a: string, b: string)
    requires SameRemoteIdentity(a, b)
    ensures Listed(entries, a) <==> Listed(entries, b)
  {
    hide SameRemoteIdentity;
    forall i | 0 <= i < |entries| && entries[i].deviceId.Text?
      ensures KnownAs(entries[i], a) <==> KnownAs(entries[i], b)
    {
      SameTransfers(a, b, entries[i].deviceId.text);
    }
  }

  lemma AnyCurrentTransfers(current: seq<string>, a: string, b: string)
    requires SameRemoteIdentity(a, b)
    ensures AnyCurrent(current, a) <==> AnyCurrent(current, b)
  {
    hide SameRemoteIdentity;
    forall c | c in current
      ensures SameRemoteIdentity(a, c) <==> SameRemoteIdentity(b, c)
    {
      SameTransfers(a, b, c);
    }
  }

  /** What every entry shows: a serial, in the serial's current form when ADB reports one, and its ADB state. */
  ghost predicate Faithful(e: Entry, current: seq<string>) {
    && e.deviceId.Text?
    && (AnyCurrent(current, e.deviceId.text) ==> e.deviceId.text in current)
    && e.adbState == Text(if AnyCurrent(current, e.deviceId.text) then "device" else "offline")
  }

  ghost predicate Unrelated(entries: seq<Entry>) {
    forall i, j | 0 <= i < |entries| && 0 <= j < |entries| && i != j ::
      entries[i].deviceId.Text? && entries[j].deviceId.Text?
      && !SameRemoteIdentity(entries[i].deviceId.text, entries[j].deviceId.text)
  }

  lemma NewEntryIsFaithful(registered: seq<Entry>, current: seq<string>, assignedID: string)
    ensures var e := NewEntry(registered, current, assignedID);
            Faithful(e, current) && KnownAs(e, assignedID)
                && e.deviceId == Text(DisplayID(registered, current, assignedID))
  {
    hide SameRemoteIdentity;
    DisplayIsSame(registered, current, assignedID);
    AnyCurrentTransfers(current, assignedID, DisplayID(registered, current, assignedID));
  }

  /** The four promises about a directory built from some assignments. */
  ghost predicate Represents(entries: seq<Entry>, assignedIDs: seq<string>, current: seq<string>, n: nat)
    requires n <= |assignedIDs|
  {
    && Unrelated(entries)
    && (forall i | 0 <= i < |entries| :: Faithful(entries[i], current))
    && (forall i | 0 <= i < |entries| :: exists k | 0 <= k < n :: KnownAs(entries[i], assignedIDs[k]))
    && (forall k | 0 <= k < n :: Listed(entries, assignedIDs[k]))
  }

  lemma RepresentsMore(before: seq<Entry>, e: Entry, assignedIDs: seq<string>, current: seq<string>, n: nat)
    requires 0 < n <= |assignedIDs| && Represents(before, assignedIDs, current, n - 1)
    requires Faithful(e, current) && KnownAs(e, assignedIDs[n - 1]) && !Listed(before, e.deviceId.text)
    ensures Represents(before + [e], assignedIDs, current, n)
  {
    hide SameRemoteIdentity;
    ListedGrows(before, before + [e], assignedIDs, n - 1);
    NewEntryUnrelated(before, e, e.deviceId.text);
    assert KnownAs((before + [e])[|before|], assignedIDs[n - 1]);
  }

  lemma RepresentsSame(before: seq<Entry>, assignedIDs: seq<string>, current: seq<string>, n: nat)
    requires 0 < n <= |assignedIDs| && Represents(before, assignedIDs, current, n - 1)
    requires Listed(before, assignedIDs[n - 1])
    ensures Represents(before, assignedIDs, current, n)
  {
    hide KnownAs, Faithful, Unrelated, Listed;
  }

  lemma ReconcileStep(registered: seq<Entry>, assignedIDs: seq<string>, current: seq<string>, n: nat)
    requires 0 < n <= |assignedIDs|
    requires Represents(Reconciled(registered, assignedIDs, current, n - 1), assignedIDs, current, n - 1)
    ensures Represents(Reconciled(registered, assignedIDs, current, n), assignedIDs, current, n)
  {
    hide SameRemoteIdentity, NewEntry, DisplayID, Listed, Represents, Faithful, KnownAs;
    var before := Reconciled(registered, assignedIDs, current, n - 1);
    var a := assignedIDs[n - 1];
    NewEntryIsFaithful(registered, current, a);
    SkipAgrees(before, registered, current, a);
    if Listed(before, a) {
      RepresentsSame(before, assignedIDs, current, n);
    } else {
      RepresentsMore(before, NewEntry(registered, current, a), assignedIDs, current, n);
    }
  }

  lemma ReconcileNone(registered: seq<Entry>, assignedIDs: seq<string>, current: seq<string>)
    ensures Represents(Reconciled(registered, assignedIDs, current, 0), assignedIDs, current, 0)
  {
  }

  /** One faithful entry for every assigned device, and nothing else. */
  lemma {:induction false} ReconcileMeaning(
      registered: seq<Entry>, assignedIDs: seq<string>, current: seq<string>, n: nat)
    requires n <= |assignedIDs|
    ensures Represents(Reconciled(registered, assignedIDs, current, n), assignedIDs, current, n)
  {
    hide Represents, Reconciled;
    if n == 0 {
      ReconcileNone(registered, assignedIDs, current);
    } else {
      ReconcileMeaning(registered, assignedIDs, current, n - 1);
      ReconcileStep(registered, assignedIDs, current, n);
    }
  }

  lemma ListedGrows(before: seq<Entry>, after: seq<Entry>, ids: seq<string>, n: nat)
    requires n <= |ids| && IsPrefix(before, after)
    requires forall k | 0 <= k < n :: Listed(before, ids[k])
    ensures forall k | 0 <= k < n :: Listed(after, ids[k])
  {
    hide SameRemoteIdentity;
    forall k | 0 <= k < n
      ensures Listed(after, ids[k])
    {
      var i :| 0 <= i < |before| && KnownAs(before[i], ids[k]);
      assert after[i] == before[i];
    }
  }

  lemma NewEntryUnrelated(before: seq<Entry>, e: Entry, id: string)
    requires Unrelated(before) && !Listed(before, id) && e.deviceId == Text(id)
    requires forall i | 0 <= i < |before| :: before[i].deviceId.Text?
    ensures Unrelated(before + [e])
  {
    hide SameRemoteIdentity;
    forall i | 0 <= i < |before|
      ensures !SameRemoteIdentity(before[i].deviceId.text, id) && !SameRemoteIdentity(id, before[i].deviceId.text)
    {
      assert !KnownAs(before[i], id);
      SameRemoteIsEquivalence(before[i].deviceId.text, id, id);
    }
  }

  /** The only registration of a device is the one that is found. */
  lemma {:induction false} FindOnly(registered: seq<Entry>, id: string, n: nat, i: nat)
    requires i < n <= |registered| && KnownAs(registered[i], id)
    requires forall j | 0 <= j < |registered| && j != i :: !KnownAs(registered[j], id)
    ensures FindRegistered(registered, id, n) == Some(registered[i])
  {
    hide SameRemoteIdentity;
    if i < n - 1 {
      FindOnly(registered, id, n - 1, i);
    } else {
      FindNone(registered, id, n - 1);
    }
  }

  lemma {:induction false} FindNone(registered: seq<Entry>, id: string, n: nat)
    requires n <= |registered| && forall j | 0 <= j < n :: !KnownAs(registered[j], id)
    ensures FindRegistered(registered, id, n) == None
  {
    hide SameRemoteIdentity;
    if n == 0 {
    } else {
      FindNone(registered, id, n - 1);
    }
  }

  /** A ready registration wins over the others, and a found one is among the registrations. */
  lemma {:induction false} FindPrefersReady(registered: seq<Entry>, id: string, n: nat)
    requires n <= |registered|
    ensures var found := FindRegistered(registered, id, n);
            && (found.Some? <==> exists i | 0 <= i < n :: KnownAs(registered[i], id))
            && (found.Some? ==> exists i | 0 <= i < n :: registered[i] == found.value)
            && (found.Some? ==> (Ready(found.value) <==>
                exists i | 0 <= i < n :: KnownAs(registered[i], id) && Ready(registered[i])))
  {
    hide KnownAs, Ready;
    if n == 0 {
    } else {
      FindPrefersReady(registered, id, n - 1);
    }
  }

  lemma RefreshTwice(entry: Entry, online: bool, displayID: string)
    ensures Refresh(Refresh(entry, online, displayID), online, displayID) == Refresh(entry, online, displayID)
  {
    hide SameRemoteIdentity;
  }

  /** An entry, once pushed, stays where it is. */
  lemma {:induction false} ReconciledKeeps(
      registered: seq<Entry>, assignedIDs: seq<string>, current: seq<string>, n: nat, k: nat, i: nat)
    requires n <= k <= |assignedIDs| && i < |Reconciled(registered, assignedIDs, current, n)|
    ensures i < |Reconciled(registered, assignedIDs, current, k)|
    ensures Reconciled(registered, assignedIDs, current, k)[i] == Reconciled(registered, assignedIDs, current, n)[i]
  {
    hide SameRemoteIdentity, NewEntry, DisplayID, Listed;
    if n == k {
    } else {
      ReconciledKeeps(registered, assignedIDs, current, n, k - 1, i);
    }
  }

  /** Once the output has become the input, every device finds its own entry. */
  lemma OutputFindsItself(output: seq<Entry>, id: string, i: nat)
    requires Unrelated(output) && i < |output| && KnownAs(output[i], id)
    ensures FindRegistered(output, id, |output|) == Some(output[i])
  {
    hide SameRemoteIdentity;
    forall j | 0 <= j < |output| && j != i
      ensures !KnownAs(output[j], id)
    {
      if KnownAs(output[j], id) {
        SameTransfers(output[i].deviceId.text, id, output[j].deviceId.text);
      }
    }
    FindOnly(output, id, |output|, i);
  }

  lemma NewEntryTwice(registered: seq<Entry>, output: seq<Entry>, current: seq<string>, assignedID: string)
    requires FindRegistered(output, assignedID, |output|) == Some(NewEntry(registered, current, assignedID))
    ensures NewEntry(output, current, assignedID) == NewEntry(registered, current, assignedID)
  {
    hide SameRemoteIdentity;
    var entry := FindRegistered(registered, assignedID, |registered|);
    RefreshTwice(
      if entry.Some? then entry.value else BLANK,
      FindCurrent(current, assignedID).Some?,
      DisplayID(registered, current, assignedID));
  }

  /** The entry pushed for an assignment is found again in the output and rebuilt unchanged. */
  lemma PushedIsRebuilt(
      registered: seq<Entry>, assignedIDs: seq<string>, current: seq<string>, output: seq<Entry>, n: nat)
    requires 0 < n <= |assignedIDs| && output == Reconciled(registered, assignedIDs, current, |assignedIDs|)
    requires var before := Reconciled(registered, assignedIDs, current, n - 1);
             Reconciled(registered, assignedIDs, current, n)
                 == before + [NewEntry(registered, current, assignedIDs[n - 1])]
    ensures NewEntry(output, current, assignedIDs[n - 1]) == NewEntry(registered, current, assignedIDs[n - 1])
  {
    hide SameRemoteIdentity, NewEntry, DisplayID, Listed, Faithful, KnownAs, Unrelated, Reconciled;
    var i := |Reconciled(registered, assignedIDs, current, n - 1)|;
    ReconciledKeeps(registered, assignedIDs, current, n, |assignedIDs|, i);
    ReconcileMeaning(registered, assignedIDs, current, |assignedIDs|);
    NewEntryIsFaithful(registered, current, assignedIDs[n - 1]);
    OutputFindsItself(output, assignedIDs[n - 1], i);
    NewEntryTwice(registered, output, current, assignedIDs[n - 1]);
  }

  /** Whether an assignment is skipped depends on the device, not on how its serial is written. */
  lemma SkipAgrees(before: seq<Entry>, registered: seq<Entry>, current: seq<string>, assignedID: string)
    ensures Listed(before, DisplayID(registered, current, assignedID)) <==> Listed(before, assignedID)
  {
    hide SameRemoteIdentity, DisplayID, Listed;
    DisplayIsSame(registered, current, assignedID);
    ListedTransfers(before, assignedID, DisplayID(registered, current, assignedID));
  }

  /** Reconciling the answer again, with the same assignments and ADB rows, changes nothing. */
  lemma {:induction false} ReconcileStable(
      registered: seq<Entry>, assignedIDs: seq<string>, current: seq<string>, output: seq<Entry>, n: nat)
    requires n <= |assignedIDs| && output == Reconciled(registered, assignedIDs, current, |assignedIDs|)
    ensures Reconciled(output, assignedIDs, current, n) == Reconciled(registered, assignedIDs, current, n)
  {
    hide SameRemoteIdentity, NewEntry, DisplayID, Listed;
    if n == 0 {
    } else {
      ReconcileStable(registered, assignedIDs, current, output, n - 1);
      var before := Reconciled(registered, assignedIDs, current, n - 1);
      SkipAgrees(before, registered, current, assignedIDs[n - 1]);
      SkipAgrees(before, output, current, assignedIDs[n - 1]);
      if !Listed(before, assignedIDs[n - 1]) {
        PushedIsRebuilt(registered, assignedIDs, current, output, n);
      }
    }
  }

  lemma ReconcileIdempotent(registered: seq<Entry>, assignedIDs: seq<string>, current: seq<string>)
    ensures var output := Reconciled(registered, assignedIDs, current, |assignedIDs|);
            Reconciled(output, assignedIDs, current, |assignedIDs|) == output
  {
    var output := Reconciled(registered, assignedIDs, current, |assignedIDs|);
    ReconcileStable(registered, assignedIDs, current, output, |assignedIDs|);
  }

  // ---------------------------------------------------------------- what an entry shows

  /** Position k holds the first current serial that names the device. */
  predicate FirstSame(current: seq<string>, id: string, k: nat) {
    && k < |current| && SameRemoteIdentity(id, current[k])
    && forall j | 0 <= j < k :: !SameRemoteIdentity(id, current[j])
  }

  lemma {:induction false} CurrentIsFirst(current: seq<string>, id: string)
    ensures forall k: nat | FirstSame(current, id, k) :: FindCurrent(current, id) == Some(current[k])
    ensures (forall k | 0 <= k < |current| :: !SameRemoteIdentity(id, current[k])) <==> FindCurrent(current, id).None?
  {
    hide SameRemoteIdentity;
    if current == [] {
    } else {
      CurrentIsFirst(current[1..], id);
      forall k: nat | FirstSame(current, id, k)
        ensures FindCurrent(current, id) == Some(current[k])
      {
        if k > 0 {
          assert !SameRemoteIdentity(id, current[0]);
          assert FirstSame(current[1..], id, k - 1);
        }
      }
    }
  }

  lemma {:induction false} FirstSameExists(current: seq<string>, id: string) returns (k: nat)
    requires AnyCurrent(current, id)
    ensures FirstSame(current, id, k)
  {
    hide SameRemoteIdentity;
    if SameRemoteIdentity(id, current[0]) {
      k := 0;
    } else {
      k := FirstSameExists(current[1..], id);
      k := k + 1;
    }
  }

  /** Registration i is of this device; a ready one is preferred, and of equals the last. */
  predicate Preferred(registered: seq<Entry>, id: string, n: nat, i: nat)
    requires i < n <= |registered|
  {
    && KnownAs(registered[i], id)
    && forall j | 0 <= j < n && KnownAs(registered[j], id) ::
        var (best, other) :=
          (registered[i].connectionState == Text("ready"), registered[j].connectionState == Text("ready"));
        (other ==> best) && (j > i ==> best && !other)
  }

  lemma {:induction false} RegisteredIsPreferred(registered: seq<Entry>, id: string, n: nat)
    requires n <= |registered|
    ensures forall i: nat | i < n && Preferred(registered, id, n, i) ::
              FindRegistered(registered, id, n) == Some(registered[i])
    ensures FindRegistered(registered, id, n).Some? ==> exists i: nat | i < n :: Preferred(registered, id, n, i)
  {
    hide KnownAs;
    if n == 0 {
    } else {
      RegisteredIsPreferred(registered, id, n - 1);
      FindPrefersReady(registered, id, n - 1);
      forall i: nat | i < n && Preferred(registered, id, n, i)
        ensures FindRegistered(registered, id, n) == Some(registered[i])
      {
        if i < n - 1 {
          assert Preferred(registered, id, n - 1, i);
        }
      }
      var m: nat := n - 1;
      if i: nat :| i < m && Preferred(registered, id, m, i) {
        assert Preferred(registered, id, n, i) || Preferred(registered, id, n, n - 1);
      } else if KnownAs(registered[n - 1], id) {
        assert Preferred(registered, id, n, n - 1);
      }
    }
  }

  /**
   * What an entry for an assignment shows: ADB's current serial, else the registered one, else the
   * assignment; an own name is kept, and a connection state only ADB would have set follows ADB.
   */
  ghost predicate ShowsAssignment(e: Entry, registered: seq<Entry>, current: seq<string>, assignedID: string) {
    var online := exists c | c in current :: SameRemoteIdentity(assignedID, c);
    && e.adbState == Text(if online then "device" else "offline")
    && (forall k: nat | FirstSame(current, assignedID, k) :: e.deviceId == Text(current[k]))
    && (forall i: nat | i < |registered| && Preferred(registered, assignedID, |registered|, i) ::
          var known := registered[i];
          && (!online ==> e.deviceId == known.deviceId)
          && e.rest == known.rest
          && e.name == (if known.name.Text? && known.name != Text("") && known.name != known.deviceId
                        then known.name else e.deviceId)
          && e.connectionState ==
             (if known.connectionState == Missing || known.connectionState == Text("adb")
                 || known.connectionState == Text("disconnected") || known.connectionState == Text("offline")
              then Text(if online then "adb" else "offline") else known.connectionState))
    && ((forall i | 0 <= i < |registered| :: !KnownAs(registered[i], assignedID)) ==>
          && (!online ==> e.deviceId == Text(assignedID))
          && e.name == e.deviceId && e.rest == map[]
          && e.connectionState == Text(if online then "adb" else "offline"))
  }

  lemma NewEntryShows(registered: seq<Entry>, current: seq<string>, assignedID: string)
    ensures ShowsAssignment(NewEntry(registered, current, assignedID), registered, current, assignedID)
  {
    hide SameRemoteIdentity, FirstSame, Preferred;
    CurrentIsFirst(current, assignedID);
    RegisteredIsPreferred(registered, assignedID, |registered|);
    FindPrefersReady(registered, assignedID, |registered|);
    if AnyCurrent(current, assignedID) {
      var k := FirstSameExists(current, assignedID);
    }
  }

  /** Entry i is the one of assignment k: no earlier assignment is of the same device. */
  ghost predicate BuiltFor(
      registered: seq<Entry>, assignedIDs: seq<string>, current: seq<string>, e: Entry, k: nat)
    requires k < |assignedIDs|
  {
    && ShowsAssignment(e, registered, current, assignedIDs[k])
    && forall j | 0 <= j < k :: !SameRemoteIdentity(assignedIDs[j], assignedIDs[k])
  }

  lemma PushedIsFirst(registered: seq<Entry>, assignedIDs: seq<string>, current: seq<string>, n: nat)
    requires 0 < n <= |assignedIDs|
    requires !Listed(Reconciled(registered, assignedIDs, current, n - 1), assignedIDs[n - 1])
    ensures forall j | 0 <= j < n - 1 :: !SameRemoteIdentity(assignedIDs[j], assignedIDs[n - 1])
  {
    hide SameRemoteIdentity, Reconciled, Listed;
    var before := Reconciled(registered, assignedIDs, current, n - 1);
    ReconcileMeaning(registered, assignedIDs, current, n - 1);
    forall j | 0 <= j < n - 1
      ensures !SameRemoteIdentity(assignedIDs[j], assignedIDs[n - 1])
    {
      if SameRemoteIdentity(assignedIDs[j], assignedIDs[n - 1]) {
        ListedTransfers(before, assignedIDs[j], assignedIDs[n - 1]);
      }
    }
  }

  lemma PushedIsBuilt(registered: seq<Entry>, assignedIDs: seq<string>, current: seq<string>, n: nat)
    requires 0 < n <= |assignedIDs|
    requires !Listed(Reconciled(registered, assignedIDs, current, n - 1), assignedIDs[n - 1])
    ensures BuiltFor(registered, assignedIDs, current, NewEntry(registered, current, assignedIDs[n - 1]), n - 1)
  {
    hide SameRemoteIdentity, Reconciled, Listed, NewEntry, ShowsAssignment;
    PushedIsFirst(registered, assignedIDs, current, n);
    NewEntryShows(registered, current, assignedIDs[n - 1]);
  }

  /** The directory in full: in the order of the assignments, the entry of the first of each device. */
  lemma {:induction false} EntriesShow(
      registered: seq<Entry>, assignedIDs: seq<string>, current: seq<string>, n: nat) returns (at: seq<nat>)
    requires n <= |assignedIDs|
    ensures var entries := Reconciled(registered, assignedIDs, current, n);
            && |at| == |entries|
            && (forall i | 0 <= i < |at| ::
                  at[i] < n && BuiltFor(registered, assignedIDs, current, entries[i], at[i]))
            && (forall i, j | 0 <= i < j < |at| :: at[i] < at[j])
  {
    hide SameRemoteIdentity, NewEntry, DisplayID, Listed, BuiltFor;
    if n == 0 {
      at := [];
    } else {
      at := EntriesShow(registered, assignedIDs, current, n - 1);
      SkipAgrees(Reconciled(registered, assignedIDs, current, n - 1), registered, current, assignedIDs[n - 1]);
      if !Listed(Reconciled(registered, assignedIDs, current, n - 1), assignedIDs[n - 1]) {
        PushedIsBuilt(registered, assignedIDs, current, n);
        at := at + [n - 1];
      }
    }
  }

  // ---------------------------------------------------------------- request authorization

  /** The members of a forwarded request this component reads. */
  datatype Request = Request(verb: string, args: Option<seq<Field>>, deviceId: Field)

  const ADB_EXEC := "adb.exec"

  predicate DeviceVerb(verb: string) {
    verb in {"device.getCapabilities", "device.getPermissionState", "device.invoke"}
  }

  predicate OpenVerb(verb: string) {
    verb in {"core.getHostTarget", "adb.asset.current", "companion.protocol.info", "capability.list", "device.list"}
  }

  predicate DeviceScoped(command: string) {
    command in {
      "shell", "exec-out", "push", "pull", "install", "install-multiple", "install-multi-package", "uninstall",
      "forward", "reverse", "reboot", "root", "unroot", "remount", "disable-verity", "enable-verity",
      "bugreport", "logcat", "jdwp", "get-state", "get-serialno", "get-devpath", "features"
    }
  }

  predicate CanAccess(assignedIDs: seq<string>, id: string) {
    exists a | a in assignedIDs :: SameRemoteIdentity(a, id)
  }

  predicate Authorized(request: Request, assignedIDs: seq<string>) {
    if OpenVerb(request.verb) then true
    else if DeviceVerb(request.verb) then
      request.deviceId.Text? && request.deviceId.text != "" && CanAccess(assignedIDs, request.deviceId.text)
    else if request.verb == ADB_EXEC && request.args.Some? then
      var args := request.args.value;
      && |args| >= 3 && args[0] == Text("-s") && args[1].Text? && args[2].Text?
      && CanAccess(assignedIDs, args[1].text) && DeviceScoped(args[2].text)
    else false
  }

  /** The device a request names, where alias resolution looks for it. */
  function Target(request: Request): Option<string> {
    if request.verb == ADB_EXEC then
      if request.args.Some? && |request.args.value| >= 2 && request.args.value[1].Text?
      then Some(request.args.value[1].text) else None
    else if DeviceVerb(request.verb) && request.deviceId.Text? then Some(request.deviceId.text)
    else None
  }

  function ResolveAlias(request: Request, assignedIDs: seq<string>, current: seq<string>): Request {
    var target := Target(request);
    if target.None? || !CanAccess(assignedIDs, target.value) then request
    else
      var found := FindCurrent(current, target.value);
      if found.None? then request
      else if request.verb == ADB_EXEC then request.(args := Some(request.args.value[1 := Text(found.value)]))
      else request.(deviceId := Text(found.value))
  }

  /** A forwarded request, rewritten in place before it is authorized. */
  class RemoteRequest {
    const verb: string
    var args: Option<seq<Field>>
    var deviceId: Field

    constructor (request: Request)
      ensures Current() == request
    {
      verb, args, deviceId := request.verb, request.args, request.deviceId;
    }

    function Current(): Request
      reads this
    {
      Request(verb, args, deviceId)
    }

    method ResolveDeviceAlias(assignedIDs: seq<string>, current: seq<string>)
      modifies this
      ensures Current() == ResolveAlias(old(Current()), assignedIDs, current)
    {
      var requested := Target(Current());
      if requested.None? || !CanAccess(assignedIDs, requested.value) {
        return;
      }
      var found := FindCurrent(current, requested.value);
      if found.None? {
        return;
      }
      if verb == ADB_EXEC {
        args := Some(args.value[1 := Text(found.value)]);
      } else {
        deviceId := Text(found.value);
      }
    }
  }

  lemma SameOnlyEmpty(id: string)
    ensures SameRemoteIdentity("", id) <==> id == ""
  {
    assert !Strings.HasSuffix("", MDNS_SUFFIX);
  }

  /** Resolution redirects a request to the same device, never widens it, and touches nothing else. */
  lemma ResolutionPreservesAuthority(request: Request, assignedIDs: seq<string>, current: seq<string>)
    ensures var resolved := ResolveAlias(request, assignedIDs, current);
            && (Authorized(resolved, assignedIDs) <==> Authorized(request, assignedIDs))
            && resolved.verb == request.verb
            && Target(resolved).Some? == Target(request).Some?
            && (Target(request).Some? ==> SameRemoteIdentity(Target(request).value, Target(resolved).value))
            && (Authorized(request, assignedIDs) && Target(request).Some? && AnyCurrent(current, Target(request).value)
                ==> Target(resolved).value in current)
            && (request.args.Some? <==> resolved.args.Some?)
            && (request.args.Some? ==>
                  |resolved.args.value| == |request.args.value|
                  && forall i | 0 <= i < |request.args.value| && i != 1 ::
                      resolved.args.value[i] == request.args.value[i])
  {
    hide SameRemoteIdentity;
    var target := Target(request);
    if target.Some? {
      SameRemoteIsEquivalence(target.value, target.value, target.value);
    }
    if target.Some? && CanAccess(assignedIDs, target.value) && FindCurrent(current, target.value).Some? {
      var found := FindCurrent(current, target.value).value;
      var owner :| owner in assignedIDs && SameRemoteIdentity(owner, target.value);
      SameTransfers(target.value, found, owner);
      SameOnlyEmpty(target.value);
      SameOnlyEmpty(found);
      assert CanAccess(assignedIDs, found);
    }
  }

  /** An authorized device request always reaches a device equivalent to an assigned one. */
  lemma AuthorizedReachesAssigned(request: Request, assignedIDs: seq<string>, current: seq<string>)
    requires Authorized(request, assignedIDs) && !OpenVerb(request.verb)
    ensures var resolved := ResolveAlias(request, assignedIDs, current);
            Target(resolved).Some? && CanAccess(assignedIDs, Target(resolved).value)
  {
    ResolutionPreservesAuthority(request, assignedIDs, current);
  }

  const DEVICE_COMMANDS := [
    "bugreport", "disable-verity", "enable-verity", "exec-out", "features", "forward", "get-devpath",
    "get-serialno", "get-state", "install", "install-multi-package", "install-multiple", "jdwp", "logcat",
    "pull", "push", "reboot", "remount", "reverse", "root", "shell", "uninstall", "unroot"]

  /**
   * What a remote user may ask for, in full: five requests about no device; three about a device, named by
   * a text equivalent to an assignment; and an ADB command for a device, selected by an assigned serial in
   * the one position where ADB reads it.  The rest is denied.
   */
  lemma AuthorizedIff(request: Request, assignedIDs: seq<string>)
    ensures Authorized(request, assignedIDs) <==>
              || request.verb == "core.getHostTarget" || request.verb == "adb.asset.current"
              || request.verb == "companion.protocol.info" || request.verb == "capability.list"
              || request.verb == "device.list"
              || ((request.verb == "device.getCapabilities" || request.verb == "device.getPermissionState"
                   || request.verb == "device.invoke")
                  && exists k | 0 <= k < |assignedIDs| ::
                      exists id | request.deviceId == Text(id) && id != "" :: SameRemoteIdentity(assignedIDs[k], id))
              || (request.verb == "adb.exec" && request.args.Some?
                  && exists k | 0 <= k < |assignedIDs| ::
                      exists id, command, tail |
                        && request.args.value == [Text("-s"), Text(id), Text(command)] + tail
                        && command in DEVICE_COMMANDS ::
                        SameRemoteIdentity(assignedIDs[k], id))
  {
    hide SameRemoteIdentity;
    AccessIff(assignedIDs, if request.deviceId.Text? then request.deviceId.text else "");
    if request.args.Some? && |request.args.value| >= 3 && request.args.value[1].Text? && request.args.value[2].Text? {
      var args := request.args.value;
      AccessIff(assignedIDs, args[1].text);
      ScopedIff(args[2].text);
      assert args[0] == Text("-s") ==> args == [Text("-s"), Text(args[1].text), Text(args[2].text)] + args[3..];
    }
  }

  lemma AccessIff(assignedIDs: seq<string>, id: string)
    ensures CanAccess(assignedIDs, id) <==>
              exists k | 0 <= k < |assignedIDs| :: SameRemoteIdentity(assignedIDs[k], id)
  {
    hide SameRemoteIdentity;
    if CanAccess(assignedIDs, id) {
      var a :| a in assignedIDs && SameRemoteIdentity(a, id);
    }
  }

  lemma ScopedIff(command: string)
    ensures DeviceScoped(command) <==> command in DEVICE_COMMANDS
  {
  }

  /** The request names this device in the place where its verb has it. */
  predicate NamesDevice(request: Request, id: string) {
    if request.verb == "adb.exec"
    then request.args.Some? && |request.args.value| > 1 && request.args.value[1] == Text(id)
    else
      && request.deviceId == Text(id)
      && (request.verb == "device.getCapabilities" || request.verb == "device.getPermissionState"
          || request.verb == "device.invoke")
  }

  /**
   * Exactly what resolution does: where an accessible device is named it puts the first current serial of
   * that device, and without one, or for any other request, it does nothing.
   */
  lemma ResolutionIs(request: Request, assignedIDs: seq<string>, current: seq<string>, id: string)
    requires NamesDevice(request, id) || forall other :: !NamesDevice(request, other)
    ensures var resolved := ResolveAlias(request, assignedIDs, current);
            && (forall k: nat |
                  && NamesDevice(request, id) && FirstSame(current, id, k)
                  && exists a | 0 <= a < |assignedIDs| :: SameRemoteIdentity(assignedIDs[a], id) ::
                  resolved == if request.verb == "adb.exec"
                              then request.(args := Some(request.args.value[1 := Text(current[k])]))
                              else request.(deviceId := Text(current[k])))
            && (|| !NamesDevice(request, id)
                || (forall c | c in current :: !SameRemoteIdentity(id, c))
                || (forall a | 0 <= a < |assignedIDs| :: !SameRemoteIdentity(assignedIDs[a], id))
                ==> resolved == request)
  {
    hide SameRemoteIdentity, FirstSame;
    CurrentIsFirst(current, id);
    AccessIff(assignedIDs, id);
    assert Target(request).Some? ==> NamesDevice(request, Target(request).value);
  }
}
